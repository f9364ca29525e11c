/** `os.path.splitext` on POSIX: the root is everything before the last `.`, unless
    that dot lies before the last `/` or only dots precede it in the final path
    component (a leading-dot name such as `.mp3` has no extension). */
module Paths {
  import opened Strings

  /** Index of the last `c` in `s`, or -1 when there is none (`str.rfind`). */
  function LastIndex(s: string, c: char): (r: int)
    ensures -1 <= r < |s|
    ensures r >= 0 ==> s[r] == c
    ensures forall j :: r < j < |s| ==> s[j] != c
  {
    if s == [] then -1
    else if s[|s| - 1] == c then |s| - 1
    else LastIndex(s[..|s| - 1], c)
  }

  predicate AllDots(s: string)
  {
    forall i :: 0 <= i < |s| ==> s[i] == '.'
  }

  /** The length of `os.path.splitext(p)[0]`. */
  function RootLength(p: string): (n: nat)
    ensures n <= |p|
  {
    var sep := LastIndex(p, '/');
    var dot := LastIndex(p, '.');
    if dot > sep && !AllDots(p[sep + 1..dot]) then dot else |p|
  }

  /** `os.path.splitext(p)[0]`: a prefix of `p`; a name without a dot is its own
      root. */
  function SplitextRoot(p: string): (r: string)
    ensures StartsWith(p, r)
    ensures '.' !in p ==> r == p
  {
    RootLengthFacts(p);
    p[..RootLength(p)]
  }

  /** What `splitext` cuts off, when it cuts anything, starts at the last dot,
      holds no `/`, and some non-dot character of the final path component
      precedes that dot. */
  lemma RootLengthFacts(p: string)
    ensures var n := RootLength(p);
      && ('.' !in p ==> n == |p|)
      && (n < |p| ==>
        && p[n] == '.'
        && (forall j :: n < j < |p| ==> p[j] != '.')
        && (forall j :: n <= j < |p| ==> p[j] != '/')
        && (exists k :: 0 <= k < n && p[k] != '.' && forall j :: k < j < |p| ==> p[j] != '/'))
  {
    var n := RootLength(p);
    var sep := LastIndex(p, '/');
    if n < |p| {
      assert !AllDots(p[sep + 1..n]);
      var k :| 0 <= k < n - sep - 1 && p[sep + 1..n][k] != '.';
      assert p[sep + 1 + k] != '.';
    } else if '.' in p {
      var i :| 0 <= i < |p| && p[i] == '.';
    }
  }

  /** The converse: when the final path component holds a `.` after some non-dot
      character, `splitext` does cut an extension off. */
  lemma RootLengthCuts(p: string, k: nat, d: nat)
    requires k < d < |p| && p[k] != '.' && p[d] == '.'
    requires forall j :: k <= j < |p| ==> p[j] != '/'
    ensures RootLength(p) < |p|
  {
    var sep := LastIndex(p, '/');
    var dot := LastIndex(p, '.');
    assert sep < k;
    assert d <= dot;
    assert p[sep + 1..dot][k - sep - 1] == p[k];
  }

  /** Appending an extension `.xyz` to a dot-free stem that does not end in `/`
      gives back the stem as the root. */
  lemma RootOfStemWithExtension(s: string, ext: string)
    requires s != [] && '.' !in s && s[|s| - 1] != '/'
    requires ext != [] && ext[0] == '.' && '.' !in ext[1..] && '/' !in ext
    ensures SplitextRoot(s + ext) == s
  {
    var p := s + ext;
    forall j | |s| < j < |p|
      ensures p[j] != '.'
    {
      assert p[j] == ext[1..][j - |s| - 1];
      assert ext[1..][j - |s| - 1] in ext[1..];
    }
    assert p[|s|] == '.';
    assert LastIndex(p, '.') == |s|;
    var sep := LastIndex(p, '/');
    assert sep < |s| - 1 by {
      assert forall j :: |s| <= j < |p| ==> p[j] == ext[j - |s|];
      assert p[|s| - 1] == s[|s| - 1];
    }
    assert p[sep + 1..|s|][|s| - sep - 2] == s[|s| - 1];
    assert !AllDots(p[sep + 1..|s|]);
    assert p[..|s|] == s;
  }

  /** Overwriting a character that is neither `.` nor `/` with another such
      character does not move the split point. */
  lemma RootLengthOfReplace(p: string, i: nat, x: char)
    requires i < |p| && p[i] != '.' && p[i] != '/' && x != '.' && x != '/'
    ensures RootLength(p[i := x]) == RootLength(p)
  {
    var q := p[i := x];
    LastIndexOfReplace(p, i, x, '/');
    LastIndexOfReplace(p, i, x, '.');
    var sep := LastIndex(p, '/');
    var dot := LastIndex(p, '.');
    if dot > sep {
      if sep + 1 <= i < dot {
        assert p[sep + 1..dot][i - sep - 1] == p[i];
        assert q[sep + 1..dot][i - sep - 1] == x;
      } else {
        assert q[sep + 1..dot] == p[sep + 1..dot];
      }
    }
  }

  lemma LastIndexOfReplace(p: string, i: nat, x: char, c: char)
    requires i < |p| && p[i] != c && x != c
    ensures LastIndex(p[i := x], c) == LastIndex(p, c)
  {
    var q := p[i := x];
    var a, b := LastIndex(q, c), LastIndex(p, c);
    assert forall j :: 0 <= j < |p| ==> (q[j] == c <==> p[j] == c);
  }
}
