/** Character-level string operations shared by both normalisers: a filter (the
    generator comprehension and `re.sub` with a character class), a per-character
    map (`str.replace` of single characters, `str.lower`), whitespace collapsing
    (`re.sub(r'\s+', ' ', s)`) and trimming (`str.strip()`). The whitespace class
    is a parameter `sp`, so that the Unicode definition of `\s` stays outside. */
module Strings {

  /** `s` without the characters for which `p` holds, order kept. */
  function Drop(s: string, p: char -> bool): (r: string)
    ensures |r| <= |s|
  {
    if s == [] then [] else (if p(s[0]) then [] else [s[0]]) + Drop(s[1..], p)
  }

  /** `s` with every character replaced by its image under `f`. */
  function MapChars(s: string, f: char -> char): (r: string)
    ensures |r| == |s|
  {
    if s == [] then [] else [f(s[0])] + MapChars(s[1..], f)
  }

  /** `Drop` keeps exactly the characters of `s` that `p` rejects. */
  lemma {:induction false} DropMembers(s: string, p: char -> bool)
    ensures forall c :: c in Drop(s, p) <==> c in s && !p(c)
  {
    if s != [] {
      DropMembers(s[1..], p);
      assert s == [s[0]] + s[1..];
    }
  }

  /** `MapChars` applies `f` at every position. */
  lemma {:induction false} MapCharsAt(s: string, f: char -> char)
    ensures forall i :: 0 <= i < |s| ==> MapChars(s, f)[i] == f(s[i])
  {
    if s != [] {
      MapCharsAt(s[1..], f);
    }
  }

  lemma {:induction false} DropAppend(a: string, b: string, p: char -> bool)
    ensures Drop(a + b, p) == Drop(a, p) + Drop(b, p)
  {
    if a == [] {
      assert a + b == b;
    } else {
      assert (a + b)[0] == a[0] && (a + b)[1..] == a[1..] + b;
      DropAppend(a[1..], b, p);
    }
  }

  lemma {:induction false} DropIdentity(s: string, p: char -> bool)
    ensures Drop(s, p) == s <==> forall c :: c in s ==> !p(c)
  {
    if s != [] {
      DropIdentity(s[1..], p);
      DropMembers(s, p);
      assert s == [s[0]] + s[1..];
    }
  }

  lemma {:induction false} MapCharsAppend(a: string, b: string, f: char -> char)
    ensures MapChars(a + b, f) == MapChars(a, f) + MapChars(b, f)
  {
    if a == [] {
      assert a + b == b;
    } else {
      assert (a + b)[0] == a[0] && (a + b)[1..] == a[1..] + b;
      MapCharsAppend(a[1..], b, f);
    }
  }

  /** Mapping with `f` and then with `g` is mapping once with their composition. */
  lemma {:induction false} MapCharsTwice(s: string, f: char -> char, g: char -> char, h: char -> char)
    requires forall c :: h(c) == g(f(c))
    ensures MapChars(MapChars(s, f), g) == MapChars(s, h)
  {
    if s != [] {
      MapCharsTwice(s[1..], f, g, h);
    }
  }

  /** `s.replace(a, b)` for single characters `a` and `b`. */
  function ReplaceChar(s: string, a: char, b: char): string
  {
    MapChars(s, c => if c == a then b else c)
  }

  lemma MapCharsIdentity(s: string, f: char -> char)
    requires forall c :: c in s ==> f(c) == c
    ensures MapChars(s, f) == s
  {
    MapCharsAt(s, f);
    assert forall i :: 0 <= i < |s| ==> MapChars(s, f)[i] == s[i];
  }

  lemma MapCharsMembers(s: string, f: char -> char, c: char)
    requires c in MapChars(s, f)
    ensures exists d :: d in s && c == f(d)
  {
    MapCharsAt(s, f);
    var i :| 0 <= i < |s| && MapChars(s, f)[i] == c;
    assert s[i] in s;
  }

  /** `t` is a suffix of `s` (Python's `str.endswith`). */
  predicate EndsWith(s: string, t: string)
  {
    |t| <= |s| && s[|s| - |t|..] == t
  }

  /** `t` is a prefix of `s` (Python's `str.startswith`). */
  predicate StartsWith(s: string, t: string)
  {
    |t| <= |s| && s[..|t|] == t
  }

  /** `s` with its leading whitespace removed (`str.lstrip()`). */
  function TrimLeft(s: string, sp: char -> bool): (r: string)
    ensures |r| <= |s|
  {
    if s != [] && sp(s[0]) then TrimLeft(s[1..], sp) else s
  }

  /** `s` with its trailing whitespace removed (`str.rstrip()`). */
  function TrimRight(s: string, sp: char -> bool): (r: string)
    ensures |r| <= |s|
  {
    if s != [] && sp(s[|s| - 1]) then TrimRight(s[..|s| - 1], sp) else s
  }

  /** `TrimLeft` removes exactly the leading run of whitespace: the result is a
      suffix that does not start with whitespace, and all it cut off is whitespace. */
  lemma {:induction false} TrimLeftFacts(s: string, sp: char -> bool)
    ensures var r := TrimLeft(s, sp);
      && r == s[|s| - |r|..]
      && (r == [] || !sp(r[0]))
      && forall i :: 0 <= i < |s| - |r| ==> sp(s[i])
  {
    if s != [] && sp(s[0]) {
      TrimLeftFacts(s[1..], sp);
    }
  }

  /** `TrimRight` removes exactly the trailing run of whitespace. */
  lemma {:induction false} TrimRightFacts(s: string, sp: char -> bool)
    ensures var r := TrimRight(s, sp);
      && r == s[..|r|]
      && (r == [] || !sp(r[|r| - 1]))
      && forall i :: |r| <= i < |s| ==> sp(s[i])
  {
    if s != [] && sp(s[|s| - 1]) {
      TrimRightFacts(s[..|s| - 1], sp);
    }
  }

  /** No two adjacent whitespace characters. */
  predicate NoRuns(s: string, sp: char -> bool)
  {
    forall i :: 0 < i < |s| ==> !(sp(s[i - 1]) && sp(s[i]))
  }

  /** The shape `re.sub(r'\s+', ' ', s).strip()` produces: no whitespace at either
      end, no two whitespace characters in a row, and every whitespace character a
      plain space. */
  predicate Tidy(s: string, sp: char -> bool)
  {
    && (s == [] || (!sp(s[0]) && !sp(s[|s| - 1])))
    && NoRuns(s, sp)
    && (forall c :: c in s && sp(c) ==> c == ' ')
  }

  /** `re.sub(r'\s+', ' ', s)`: every maximal run of whitespace becomes one space. */
  function Collapse(s: string, sp: char -> bool): (r: string)
    ensures |r| <= |s|
    decreases |s|
  {
    if s == [] then []
    else if sp(s[0]) then [' '] + Collapse(TrimLeft(s[1..], sp), sp)
    else [s[0]] + Collapse(s[1..], sp)
  }

  /** `Collapse` leaves no runs, keeps the first character unless it is
      whitespace (then a space), and introduces no character but the space. */
  lemma {:induction false} CollapseFacts(s: string, sp: char -> bool)
    ensures var r := Collapse(s, sp);
      && (r == [] <==> s == [])
      && (r != [] && sp(s[0]) ==> r[0] == ' ')
      && (r != [] && !sp(s[0]) ==> r[0] == s[0])
      && NoRuns(r, sp)
      && forall c :: c in r ==> (c in s && !sp(c)) || c == ' '
    decreases |s|
  {
    if s != [] {
      var rest := if sp(s[0]) then TrimLeft(s[1..], sp) else s[1..];
      var r := Collapse(s, sp);
      if sp(s[0]) {
        TrimLeftFacts(s[1..], sp);
      }
      CollapseFacts(rest, sp);
      var tail := Collapse(rest, sp);
      assert r == [r[0]] + tail;
      assert forall c :: c in rest ==> c in s by {
        assert rest == s[|s| - |rest|..];
      }
      forall i | 0 < i < |r|
        ensures !(sp(r[i - 1]) && sp(r[i]))
      {
        if i > 1 {
          assert r[i - 1] == tail[i - 2] && r[i] == tail[i - 1];
        } else if sp(s[0]) {
          assert rest == [] || !sp(rest[0]);
        }
      }
    }
  }

  /** `re.sub(r'\s+', ' ', s).strip()`. */
  function CollapseStrip(s: string, sp: char -> bool): (r: string)
    ensures |r| <= |s|
  {
    TrimRight(TrimLeft(Collapse(s, sp), sp), sp)
  }

  /** `CollapseStrip` gives the `Tidy` shape and introduces no character but the
      space. */
  lemma CollapseStripShape(s: string, sp: char -> bool)
    ensures Tidy(CollapseStrip(s, sp), sp)
    ensures forall c :: c in CollapseStrip(s, sp) ==> (c in s && !sp(c)) || c == ' '
  {
    CollapseFacts(s, sp);
    TrimBoth(Collapse(s, sp), sp);
  }

  /** Trimming both ends of a run-free string leaves no whitespace at either end,
      stays run-free, and takes no new characters. */
  lemma TrimBoth(c: string, sp: char -> bool)
    requires NoRuns(c, sp)
    ensures var r := TrimRight(TrimLeft(c, sp), sp);
      && (r == [] || (!sp(r[0]) && !sp(r[|r| - 1])))
      && NoRuns(r, sp)
      && forall x :: x in r ==> x in c
  {
    var l := TrimLeft(c, sp);
    var r := TrimRight(l, sp);
    TrimLeftFacts(c, sp);
    TrimRightFacts(l, sp);
    assert r == [] || r[0] == l[0];
    SliceKeeps(c, |c| - |l|, |c| - |l| + |r|, sp);
    assert r == c[|c| - |l|..|c| - |l| + |r|];
  }

  /** A slice keeps the absence of whitespace runs and the members of the whole. */
  lemma SliceKeeps(s: string, i: nat, j: nat, sp: char -> bool)
    requires i <= j <= |s|
    ensures NoRuns(s, sp) ==> NoRuns(s[i..j], sp)
    ensures forall c :: c in s[i..j] ==> c in s
  {
    var t := s[i..j];
    if NoRuns(s, sp) {
      forall k | 0 < k < |t|
        ensures !(sp(t[k - 1]) && sp(t[k]))
      {
        assert t[k - 1] == s[i + k - 1] && t[k] == s[i + k];
      }
    }
    forall c | c in t
      ensures c in s
    {
      var k :| 0 <= k < |t| && t[k] == c;
      assert s[i + k] == c;
    }
  }

  /** Collapsing and stripping keeps every non-whitespace character, in order:
      only whitespace is removed or rewritten (the space itself is whitespace). */
  lemma CollapseStripKeeps(s: string, sp: char -> bool)
    requires sp(' ')
    ensures Drop(CollapseStrip(s, sp), sp) == Drop(s, sp)
  {
    var c := Collapse(s, sp);
    DropCollapse(s, sp);
    DropTrimLeft(c, sp);
    DropTrimRight(TrimLeft(c, sp), sp);
  }

  lemma {:induction false} DropTrimLeft(s: string, sp: char -> bool)
    ensures Drop(TrimLeft(s, sp), sp) == Drop(s, sp)
  {
    if s != [] && sp(s[0]) {
      DropTrimLeft(s[1..], sp);
    }
  }

  lemma {:induction false} DropTrimRight(s: string, sp: char -> bool)
    ensures Drop(TrimRight(s, sp), sp) == Drop(s, sp)
  {
    if s != [] && sp(s[|s| - 1]) {
      var init := s[..|s| - 1];
      DropTrimRight(init, sp);
      assert s == init + [s[|s| - 1]];
      DropAppend(init, [s[|s| - 1]], sp);
      assert Drop([s[|s| - 1]], sp) == [] + Drop([], sp);
    }
  }

  lemma {:induction false} DropCollapse(s: string, sp: char -> bool)
    requires sp(' ')
    ensures Drop(Collapse(s, sp), sp) == Drop(s, sp)
    decreases |s|
  {
    if s != [] {
      if sp(s[0]) {
        var rest := TrimLeft(s[1..], sp);
        DropTrimLeft(s[1..], sp);
        DropCollapse(rest, sp);
        assert ([' '] + Collapse(rest, sp))[1..] == Collapse(rest, sp);
      } else {
        DropCollapse(s[1..], sp);
        assert ([s[0]] + Collapse(s[1..], sp))[1..] == Collapse(s[1..], sp);
      }
    }
  }

  /** A whitespace run between two words becomes exactly one space: for `a` that
      ends and `b` that starts with a non-whitespace character, collapsing and
      stripping `a + w + b` is collapsing and stripping each side, joined by ' '.
      Every interior run of a text has this form; `CollapseStripTrim` covers the
      runs at either end. */
  lemma CollapseStripJoin(a: string, w: string, b: string, sp: char -> bool)
    requires sp(' ')
    requires a != [] && !sp(a[|a| - 1]) && b != [] && !sp(b[0])
    requires w != [] && forall i :: 0 <= i < |w| ==> sp(w[i])
    ensures CollapseStrip(a + w + b, sp) == CollapseStrip(a, sp) + " " + CollapseStrip(b, sp)
  {
    CollapseJoin(a, w, b, sp);
    StripJoin(Collapse(a, sp), Collapse(b, sp), sp) by {
      DropCollapse(a, sp);
      DropCollapse(b, sp);
      DropMembers(a, sp);
      DropMembers(b, sp);
      assert a[|a| - 1] in a && b[0] in b;
    }
    StripLeftWord(a, sp);
    StripRightWord(b, sp);
  }

  /** Whitespace at either end disappears entirely: collapsing and stripping
      `w + s` or `s + w`, for a whitespace-only `w`, is collapsing and stripping
      `s`. With `CollapseStripJoin` and `CollapseStripFixed` this determines the
      output for every text. */
  lemma CollapseStripTrim(w: string, s: string, sp: char -> bool)
    requires sp(' ')
    requires forall i :: 0 <= i < |w| ==> sp(w[i])
    ensures CollapseStrip(w + s, sp) == CollapseStrip(s, sp)
    ensures CollapseStrip(s + w, sp) == CollapseStrip(s, sp)
  {
    StripLeading(w + s, sp);
    StripLeading(s, sp);
    TrimLeftSpace(w, s, sp);
    StripTrailing(w, s, sp);
  }

  /** The right half of `CollapseStripTrim`. */
  lemma StripTrailing(w: string, s: string, sp: char -> bool)
    requires sp(' ')
    requires forall i :: 0 <= i < |w| ==> sp(w[i])
    ensures CollapseStrip(s + w, sp) == CollapseStrip(s, sp)
  {
    var r := TrimRight(s, sp);
    var t := TrailingRun(s, sp);
    assert s + w == r + (t + w);
    AllSpaceAppend(t, w, sp);
    if r == [] {
      assert s == t;
      AllSpaceStrip(t, sp);
      AllSpaceStrip(t + w, sp);
    } else {
      TrailingSpace(r, t, sp);
      TrailingSpace(r, t + w, sp);
    }
  }

  /** `s` is its `TrimRight` followed by a run of whitespace. */
  lemma TrailingRun(s: string, sp: char -> bool) returns (t: string)
    ensures s == TrimRight(s, sp) + t
    ensures forall i :: 0 <= i < |t| ==> sp(t[i])
    ensures TrimRight(s, sp) == [] || !sp(TrimRight(s, sp)[|TrimRight(s, sp)| - 1])
  {
    var r := TrimRight(s, sp);
    TrimRightFacts(s, sp);
    t := s[|r|..];
    assert s == r + t;
    forall i | 0 <= i < |t|
      ensures sp(t[i])
    {
      assert t[i] == s[|r| + i];
    }
  }

  lemma AllSpaceAppend(t: string, w: string, sp: char -> bool)
    requires forall i :: 0 <= i < |t| ==> sp(t[i])
    requires forall i :: 0 <= i < |w| ==> sp(w[i])
    ensures forall i :: 0 <= i < |t + w| ==> sp((t + w)[i])
  {
    assert forall i :: 0 <= i < |t + w| ==> (t + w)[i] == if i < |t| then t[i] else w[i - |t|];
  }

  /** Leading whitespace does not affect the result. */
  lemma StripLeading(x: string, sp: char -> bool)
    requires sp(' ')
    ensures CollapseStrip(x, sp) == CollapseStrip(TrimLeft(x, sp), sp)
  {
    if x != [] && sp(x[0]) {
      var y := TrimLeft(x[1..], sp);
      TrimLeftFacts(x[1..], sp);
      var cy := Collapse(y, sp);
      assert Collapse(x, sp) == [' '] + cy;
      assert ([' '] + cy)[1..] == cy;
      CollapseFacts(y, sp);
      assert TrimLeft(cy, sp) == cy;
    }
  }

  lemma {:induction false} TrimLeftSpace(w: string, s: string, sp: char -> bool)
    requires forall i :: 0 <= i < |w| ==> sp(w[i])
    ensures TrimLeft(w + s, sp) == TrimLeft(s, sp)
  {
    if w == [] {
      assert w + s == s;
    } else {
      var ws := w + s;
      assert ws[0] == w[0] && ws[1..] == w[1..] + s;
      TrimLeftSpace(w[1..], s, sp);
    }
  }

  /** A text of whitespace only collapses and strips to nothing. */
  lemma AllSpaceStrip(x: string, sp: char -> bool)
    requires sp(' ') && forall i :: 0 <= i < |x| ==> sp(x[i])
    ensures CollapseStrip(x, sp) == []
  {
    StripLeading(x, sp);
    TrimLeftRun(x, [], sp);
    assert x + [] == x;
  }

  /** Whitespace after a final word does not affect the result. */
  lemma TrailingSpace(r: string, u: string, sp: char -> bool)
    requires sp(' ') && r != [] && !sp(r[|r| - 1])
    requires forall i :: 0 <= i < |u| ==> sp(u[i])
    ensures CollapseStrip(r + u, sp) == CollapseStrip(r, sp)
  {
    var cr := Collapse(r, sp);
    CollapseAppend(r, u, sp);
    var cu := Collapse(u, sp);
    if u != [] {
      CollapseRun(u, [], sp);
      assert u + [] == u;
    }
    assert cu == [] || cu == [' '];
    DropCollapse(r, sp);
    assert r[|r| - 1] in Drop(r, sp) by {
      DropMembers(r, sp);
    }
    TrimLeftAppend(cr, cu, sp);
    var l := TrimLeft(cr, sp);
    if cu == [' '] {
      assert (l + cu)[..|l + cu| - 1] == l;
    } else {
      assert l + cu == l;
    }
  }

  /** The whitespace run between two words collapses to one space. */
  lemma CollapseJoin(a: string, w: string, b: string, sp: char -> bool)
    requires a != [] && !sp(a[|a| - 1]) && b != [] && !sp(b[0])
    requires w != [] && forall i :: 0 <= i < |w| ==> sp(w[i])
    ensures Collapse(a + w + b, sp) == Collapse(a, sp) + [' '] + Collapse(b, sp)
  {
    CollapseAppend(a, w + b, sp);
    assert a + w + b == a + (w + b);
    CollapseRun(w, b, sp);
  }

  /** Stripping `x + " " + y` only touches the outer ends when both sides hold a
      non-whitespace character. */
  lemma StripJoin(x: string, y: string, sp: char -> bool)
    requires Drop(x, sp) != [] && Drop(y, sp) != []
    ensures TrimRight(TrimLeft(x + [' '] + y, sp), sp) == TrimLeft(x, sp) + [' '] + TrimRight(y, sp)
  {
    assert x + [' '] + y == x + ([' '] + y);
    TrimLeftAppend(x, [' '] + y, sp);
    var l := TrimLeft(x, sp);
    assert l + ([' '] + y) == (l + [' ']) + y;
    TrimRightAppend(l + [' '], y, sp);
  }

  /** A text that ends in a word only loses whitespace at its front. */
  lemma StripLeftWord(a: string, sp: char -> bool)
    requires a != [] && !sp(a[|a| - 1])
    ensures CollapseStrip(a, sp) == TrimLeft(Collapse(a, sp), sp)
  {
    var ca := Collapse(a, sp);
    CollapseEnd(a, sp);
    TrimLeftFacts(ca, sp);
    var l := TrimLeft(ca, sp);
    assert l != [] && l[|l| - 1] == a[|a| - 1];
  }

  /** A text that starts with a word only loses whitespace at its end. */
  lemma StripRightWord(b: string, sp: char -> bool)
    requires b != [] && !sp(b[0])
    ensures CollapseStrip(b, sp) == TrimRight(Collapse(b, sp), sp)
  {
    CollapseFacts(b, sp);
  }

  /** Collapsing a text that ends in a non-whitespace character may be done
      piece by piece: no run straddles the cut. */
  lemma {:induction false} CollapseAppend(a: string, t: string, sp: char -> bool)
    requires a == [] || !sp(a[|a| - 1])
    ensures Collapse(a + t, sp) == Collapse(a, sp) + Collapse(t, sp)
    decreases |a|
  {
    if a == [] {
      assert a + t == t;
    } else {
      var at := a + t;
      assert at[0] == a[0] && at[1..] == a[1..] + t;
      if sp(a[0]) {
        var rest := TrimLeft(a[1..], sp);
        assert a[1..][|a| - 2] == a[|a| - 1];
        LastKept(a[1..], sp);
        TrimLeftAppend(a[1..], t, sp);
        TrimLeftKeepsLast(a[1..], sp);
        CollapseAppend(rest, t, sp);
      } else {
        CollapseAppend(a[1..], t, sp);
      }
    }
  }

  /** A text ending in a non-whitespace character keeps something under `Drop`. */
  lemma LastKept(x: string, sp: char -> bool)
    requires x != [] && !sp(x[|x| - 1])
    ensures Drop(x, sp) != []
  {
    DropMembers(x, sp);
    assert x[|x| - 1] in x;
  }

  /** Trimming the front of a text that ends in a word keeps that end. */
  lemma TrimLeftKeepsLast(x: string, sp: char -> bool)
    requires x != [] && !sp(x[|x| - 1])
    ensures var r := TrimLeft(x, sp); r != [] && r[|r| - 1] == x[|x| - 1]
  {
    TrimLeftFacts(x, sp);
  }

  /** A non-empty whitespace run in front of a word collapses to one space. */
  lemma CollapseRun(w: string, b: string, sp: char -> bool)
    requires w != [] && forall i :: 0 <= i < |w| ==> sp(w[i])
    requires b == [] || !sp(b[0])
    ensures Collapse(w + b, sp) == [' '] + Collapse(b, sp)
  {
    var wb := w + b;
    assert wb[0] == w[0] && wb[1..] == w[1..] + b;
    TrimLeftRun(w[1..], b, sp);
  }

  lemma {:induction false} TrimLeftRun(w: string, b: string, sp: char -> bool)
    requires forall i :: 0 <= i < |w| ==> sp(w[i])
    requires b == [] || !sp(b[0])
    ensures TrimLeft(w + b, sp) == b
  {
    if w == [] {
      assert w + b == b;
    } else {
      var wb := w + b;
      assert wb[0] == w[0] && wb[1..] == w[1..] + b;
      TrimLeftRun(w[1..], b, sp);
    }
  }

  /** Leading whitespace of `x + y` lies within `x` when `x` has a
      non-whitespace character. */
  lemma {:induction false} TrimLeftAppend(x: string, y: string, sp: char -> bool)
    requires Drop(x, sp) != []
    ensures TrimLeft(x + y, sp) == TrimLeft(x, sp) + y
  {
    var xy := x + y;
    assert xy[0] == x[0] && xy[1..] == x[1..] + y;
    if sp(x[0]) {
      TrimLeftAppend(x[1..], y, sp);
    }
  }

  /** Trailing whitespace of `x + y` lies within `y` when `y` has a
      non-whitespace character. */
  lemma {:induction false} TrimRightAppend(x: string, y: string, sp: char -> bool)
    requires Drop(y, sp) != []
    ensures TrimRight(x + y, sp) == x + TrimRight(y, sp)
    decreases |y|
  {
    var xy := x + y;
    var init := y[..|y| - 1];
    assert xy[|xy| - 1] == y[|y| - 1] && xy[..|xy| - 1] == x + init;
    if sp(y[|y| - 1]) {
      assert y == init + [y[|y| - 1]];
      DropAppend(init, [y[|y| - 1]], sp);
      assert Drop([y[|y| - 1]], sp) == [] + Drop([], sp);
      TrimRightAppend(x, init, sp);
    }
  }

  /** Collapsing keeps a final non-whitespace character. */
  lemma {:induction false} CollapseEnd(a: string, sp: char -> bool)
    requires a != [] && !sp(a[|a| - 1])
    ensures var c := Collapse(a, sp); c != [] && c[|c| - 1] == a[|a| - 1]
    decreases |a|
  {
    if |a| > 1 {
      assert a[1..][|a| - 2] == a[|a| - 1];
      if sp(a[0]) {
        var rest := TrimLeft(a[1..], sp);
        TrimLeftFacts(a[1..], sp);
        assert rest != [] && rest[|rest| - 1] == a[|a| - 1];
        CollapseEnd(rest, sp);
      } else {
        CollapseEnd(a[1..], sp);
      }
    }
  }

  /** Mapping with an `f` that keeps the whitespace class (and the space itself)
      commutes with collapsing and stripping. */
  lemma CollapseStripMap(s: string, f: char -> char, sp: char -> bool)
    requires forall c :: sp(f(c)) == sp(c)
    requires f(' ') == ' '
    ensures CollapseStrip(MapChars(s, f), sp) == MapChars(CollapseStrip(s, sp), f)
  {
    var c := Collapse(s, sp);
    CollapseMap(s, f, sp);
    TrimLeftMap(c, f, sp);
    TrimRightMap(TrimLeft(c, sp), f, sp);
  }

  lemma {:induction false} TrimLeftMap(s: string, f: char -> char, sp: char -> bool)
    requires forall c :: sp(f(c)) == sp(c)
    ensures TrimLeft(MapChars(s, f), sp) == MapChars(TrimLeft(s, sp), f)
  {
    if s != [] {
      assert MapChars(s, f)[0] == f(s[0]) && MapChars(s, f)[1..] == MapChars(s[1..], f);
      if sp(s[0]) {
        TrimLeftMap(s[1..], f, sp);
      }
    }
  }

  lemma {:induction false} TrimRightMap(s: string, f: char -> char, sp: char -> bool)
    requires forall c :: sp(f(c)) == sp(c)
    ensures TrimRight(MapChars(s, f), sp) == MapChars(TrimRight(s, sp), f)
  {
    if s != [] {
      var init := s[..|s| - 1];
      assert s == init + [s[|s| - 1]];
      MapCharsAppend(init, [s[|s| - 1]], f);
      assert MapChars([s[|s| - 1]], f) == [f(s[|s| - 1])] + MapChars([], f);
      var m := MapChars(s, f);
      assert m[|m| - 1] == f(s[|s| - 1]) && m[..|m| - 1] == MapChars(init, f);
      if sp(s[|s| - 1]) {
        TrimRightMap(init, f, sp);
      }
    }
  }

  lemma {:induction false} CollapseMap(s: string, f: char -> char, sp: char -> bool)
    requires forall c :: sp(f(c)) == sp(c)
    requires f(' ') == ' '
    ensures Collapse(MapChars(s, f), sp) == MapChars(Collapse(s, sp), f)
    decreases |s|
  {
    if s != [] {
      var m := MapChars(s, f);
      assert m[0] == f(s[0]) && m[1..] == MapChars(s[1..], f);
      if sp(s[0]) {
        var rest := TrimLeft(s[1..], sp);
        TrimLeftMap(s[1..], f, sp);
        CollapseMap(rest, f, sp);
        MapCharsAppend([' '], Collapse(rest, sp), f);
        assert MapChars([' '], f) == [f(' ')] + MapChars([], f);
      } else {
        CollapseMap(s[1..], f, sp);
        MapCharsAppend([s[0]], Collapse(s[1..], sp), f);
        assert MapChars([s[0]], f) == [f(s[0])] + MapChars([], f);
      }
    }
  }

  /** Mapping after a filter is filtering after the map, when the map keeps the
      filtered class. */
  lemma {:induction false} DropMap(s: string, f: char -> char, sp: char -> bool)
    requires forall c :: sp(f(c)) == sp(c)
    ensures Drop(MapChars(s, f), sp) == MapChars(Drop(s, sp), f)
  {
    if s != [] {
      var m := MapChars(s, f);
      assert m[0] == f(s[0]) && m[1..] == MapChars(s[1..], f);
      DropMap(s[1..], f, sp);
      MapCharsAppend(if sp(s[0]) then [] else [s[0]], Drop(s[1..], sp), f);
      assert MapChars([s[0]], f) == [f(s[0])] + MapChars([], f);
    }
  }

  /** Two filters that agree on every character of `s` keep the same characters. */
  lemma {:induction false} DropSame(s: string, p: char -> bool, q: char -> bool)
    requires forall i :: 0 <= i < |s| ==> (p(s[i]) <==> q(s[i]))
    ensures Drop(s, p) == Drop(s, q)
  {
    if s != [] {
      DropSame(s[1..], p, q);
    }
  }

  /** Changing one character to another with the same image leaves the mapped
      string unchanged. */
  lemma MapCharsReplace(s: string, i: nat, x: char, f: char -> char)
    requires i < |s| && f(x) == f(s[i])
    ensures MapChars(s[i := x], f) == MapChars(s, f)
  {
    MapCharsAt(s, f);
    MapCharsAt(s[i := x], f);
  }

  /** A string already in collapsed-and-stripped shape is left alone, and only such
      strings are: `Tidy` describes exactly the fixed points. */
  lemma CollapseStripFixed(s: string, sp: char -> bool)
    ensures CollapseStrip(s, sp) == s <==> Tidy(s, sp)
  {
    if Tidy(s, sp) {
      assert forall i :: 0 <= i < |s| ==> s[i] in s;
      CollapseKeepsRunFree(s, sp);
    } else {
      CollapseStripShape(s, sp);
    }
  }

  lemma {:induction false} CollapseKeepsRunFree(s: string, sp: char -> bool)
    requires NoRuns(s, sp)
    requires forall i :: 0 <= i < |s| && sp(s[i]) ==> s[i] == ' '
    ensures Collapse(s, sp) == s
    decreases |s|
  {
    if s != [] {
      var t := s[1..];
      SliceKeeps(s, 1, |s|, sp);
      assert forall i :: 0 <= i < |t| ==> t[i] == s[i + 1];
      CollapseKeepsRunFree(t, sp);
      if sp(s[0]) {
        assert t == [] || !sp(t[0]);
        assert TrimLeft(t, sp) == t;
        assert s == [' '] + t;
      } else {
        assert s == [s[0]] + t;
      }
    }
  }
}
