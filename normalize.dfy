/** The two name normalisers of the flash-card program: `sanitize_filename`, which
    builds file names, and `norm_base`, the comparison key. Both run the same
    character pipeline (NFD, drop Mn marks, ё→е, drop punctuation); the first then
    turns `/` and `\` into `-` and tidies whitespace keeping case, the second
    strips the extension first and lower-cases last. */
module Normalize {
  import opened UnicodeData
  import opened Strings
  import opened Paths

  /** The character class `[?!:;,"'.…—–-]`. */
  const Punct: set<char> := {'?', '!', ':', ';', ',', '"', '\'', '.', '…', '—', '–', '-'}

  predicate IsPunct(c: char) { c in Punct }

  /** `.replace("ё", "е").replace("Ё", "Е")`, one character at a time. */
  function FoldYo(c: char): char
  {
    if c == 'ё' then 'е' else if c == 'Ё' then 'Е' else c
  }

  /** `.replace('/', '-').replace('\\', '-')`, one character at a time. */
  function Unslash(c: char): char
  {
    if c == '/' || c == '\\' then '-' else c
  }

  /** `unicodedata.normalize('NFD', s)`, one character at a time. */
  function Nfd(db: CharDb, s: string): string
  {
    if s == [] then [] else db.decompose(s[0]) + Nfd(db, s[1..])
  }

  /** The steps the two normalisers share: decompose, drop Mn marks, fold ё/Ё,
      delete the punctuation class. */
  function Clean(db: CharDb, s: string): string
  {
    var noAccents := Drop(Nfd(db, s), db.isMn);
    var yoFixed := MapChars(noAccents, FoldYo);
    Drop(yoFixed, IsPunct)
  }

  /** `sanitize_filename`: a name with whitespace in collapsed-and-stripped shape,
      holding no `/`, no `\` and nothing of the punctuation class except the `-`
      that stands for a slash. */
  function Sanitize(db: CharDb, text: string): (r: string)
    ensures Tidy(r, db.isSpace)
    ensures forall c :: c in r ==> c == '-' || (!IsPunct(c) && c != '/' && c != '\\')
  {
    UnslashedMembers(db, text);
    CollapseStripShape(MapChars(Clean(db, text), Unslash), db.isSpace);
    CollapseStrip(MapChars(Clean(db, text), Unslash), db.isSpace)
  }

  /** `norm_base`: the comparison key of a file name or word. */
  function NormBase(db: CharDb, name: string): string
  {
    MapChars(CollapseStrip(Clean(db, SplitextRoot(name)), db.isSpace), db.lower)
  }

  /** What `sanitize_filename` leaves alone: decomposed, no Mn mark, no punctuation,
      no slash, tidy whitespace. */
  ghost predicate SafeName(db: CharDb, s: string)
  {
    && Tidy(s, db.isSpace)
    && forall c :: c in s ==> Stable(db, c) && !db.isMn(c) && !IsPunct(c) && c != '/' && c != '\\'
  }

  /** What `norm_base` leaves alone: decomposed, no Mn mark, no punctuation (so no
      dot), tidy whitespace, already lower-case. */
  ghost predicate Canonical(db: CharDb, s: string)
  {
    && Tidy(s, db.isSpace)
    && forall c :: c in s ==> Stable(db, c) && !db.isMn(c) && !IsPunct(c) && db.lower(c) == c
  }

  // ---------------------------------------------------------------------------
  // The shared steps

  lemma {:induction false} NfdAppend(db: CharDb, a: string, b: string)
    ensures Nfd(db, a + b) == Nfd(db, a) + Nfd(db, b)
  {
    if a == [] {
      assert a + b == b;
    } else {
      assert (a + b)[0] == a[0] && (a + b)[1..] == a[1..] + b;
      NfdAppend(db, a[1..], b);
    }
  }

  lemma {:induction false} NfdIsDecomposed(db: CharDb, s: string)
    requires DecompositionFacts(db)
    ensures forall c :: c in Nfd(db, s) ==> Stable(db, c)
  {
    if s != [] {
      NfdIsDecomposed(db, s[1..]);
    }
  }

  lemma {:induction false} NfdOfDecomposed(db: CharDb, s: string)
    requires forall c :: c in s ==> Stable(db, c)
    ensures Nfd(db, s) == s
  {
    if s != [] {
      assert s[0] in s;
      assert forall c :: c in s[1..] ==> c in s;
      NfdOfDecomposed(db, s[1..]);
      assert s == [s[0]] + s[1..];
    }
  }

  /** What the shared steps keep: no punctuation, and either a non-mark character
      of the decomposed input or the е/Е that replaced a ё/Ё. */
  lemma CleanMembers(db: CharDb, s: string)
    ensures forall c :: c in Clean(db, s) ==>
      !IsPunct(c) && ((c in Nfd(db, s) && !db.isMn(c)) || c == 'е' || c == 'Е')
  {
    var n := Nfd(db, s);
    var m := Drop(n, db.isMn);
    var y := MapChars(m, FoldYo);
    DropMembers(n, db.isMn);
    DropMembers(y, IsPunct);
    forall c | c in y
      ensures (c in n && !db.isMn(c)) || c == 'е' || c == 'Е'
    {
      MapCharsMembers(m, FoldYo, c);
    }
  }

  /** Spaces and Cyrillic letters are outside the punctuation class. */
  lemma NotPunct(c: char)
    requires c == ' ' || IsCyrillicUpper(c) || IsCyrillicLower(c)
    ensures !IsPunct(c)
  {
  }

  /** ё and Ё are not decomposed: NFD splits them. */
  lemma YoDecomposes(db: CharDb)
    requires CyrillicFacts(db)
    ensures !Stable(db, 'ё') && !Stable(db, 'Ё')
  {
  }

  /** е and Е are decomposed letters, not marks. */
  lemma YeIsKept(db: CharDb)
    requires CyrillicFacts(db)
    ensures Stable(db, 'е') && !db.isMn('е') && Stable(db, 'Е') && !db.isMn('Е')
  {
    assert IsCyrillicLower('е') && IsCyrillicUpper('Е');
  }

  /** The shared steps work character by character, so they distribute over
      concatenation. */
  lemma CleanAppend(db: CharDb, a: string, b: string)
    ensures Clean(db, a + b) == Clean(db, a) + Clean(db, b)
  {
    NfdAppend(db, a, b);
    DropAppend(Nfd(db, a), Nfd(db, b), db.isMn);
    MapCharsAppend(Drop(Nfd(db, a), db.isMn), Drop(Nfd(db, b), db.isMn), FoldYo);
    DropAppend(MapChars(Drop(Nfd(db, a), db.isMn), FoldYo), MapChars(Drop(Nfd(db, b), db.isMn), FoldYo), IsPunct);
  }

  /** After decomposition and mark removal no ё or Ё is left (NFD has already split
      them into е/Е and U+0308), so the ё→е replacement never changes anything. */
  lemma YoStepIsRedundant(db: CharDb, s: string)
    requires DecompositionFacts(db) && CyrillicFacts(db)
    ensures MapChars(Drop(Nfd(db, s), db.isMn), FoldYo) == Drop(Nfd(db, s), db.isMn)
  {
    var n := Nfd(db, s);
    var m := Drop(n, db.isMn);
    NfdIsDecomposed(db, s);
    DropMembers(n, db.isMn);
    YoDecomposes(db);
    MapCharsIdentity(m, FoldYo);
  }

  /** Every character the shared steps keep is decomposed, not a mark, not in the
      punctuation class, and not ё or Ё. */
  lemma CleanOutput(db: CharDb, s: string)
    requires DecompositionFacts(db) && CyrillicFacts(db)
    ensures forall c :: c in Clean(db, s) ==>
      Stable(db, c) && !db.isMn(c) && !IsPunct(c) && c != 'ё' && c != 'Ё'
  {
    NfdIsDecomposed(db, s);
    CleanMembers(db, s);
    YeIsKept(db);
    YoDecomposes(db);
  }

  /** The shared steps leave alone exactly the strings made of decomposed,
      non-mark, non-punctuation characters. */
  lemma CleanFixed(db: CharDb, s: string)
    requires DecompositionFacts(db) && CyrillicFacts(db)
    ensures Clean(db, s) == s <==> forall c :: c in s ==> Stable(db, c) && !db.isMn(c) && !IsPunct(c)
  {
    if forall c :: c in s ==> Stable(db, c) && !db.isMn(c) && !IsPunct(c) {
      NfdOfDecomposed(db, s);
      DropIdentity(s, db.isMn);
      YoDecomposes(db);
      MapCharsIdentity(s, FoldYo);
      DropIdentity(s, IsPunct);
    } else if Clean(db, s) == s {
      CleanOutput(db, s);
    }
  }

  /** Decomposing twice is decomposing once, so the shared steps give the same
      result on a string and on its NFD form. */
  lemma CleanOfNfd(db: CharDb, s: string)
    requires DecompositionFacts(db)
    ensures Clean(db, Nfd(db, s)) == Clean(db, s)
  {
    NfdIsDecomposed(db, s);
    NfdOfDecomposed(db, Nfd(db, s));
  }

  // ---------------------------------------------------------------------------
  // NFD and splitext

  /** The decomposition of a single character is its database entry. */
  lemma NfdOfChar(db: CharDb, c: char)
    ensures Nfd(db, [c]) == db.decompose(c)
  {
    assert Nfd(db, [c]) == db.decompose(c) + Nfd(db, []);
  }

  /** Where position `i` of `s` lands in `Nfd(s)`: the length of the decomposed
      prefix before it, with -1 (no position) kept as it is. */
  function NfdPos(db: CharDb, s: string, i: int): int
    requires -1 <= i <= |s|
  {
    if i < 0 then -1 else |Nfd(db, s[..i])|
  }

  /** Later positions land strictly later, since no decomposition is empty. */
  lemma NfdPosGrows(db: CharDb, s: string, i: int, j: int)
    requires SeparatorFacts(db) && -1 <= i < j <= |s|
    ensures NfdPos(db, s, i) < NfdPos(db, s, j)
  {
    if i >= 0 {
      assert s[..j] == s[..i] + s[i..j];
      NfdAppend(db, s[..i], s[i..j]);
      assert s[i..j] == [s[i]] + s[i + 1..j];
      NfdAppend(db, [s[i]], s[i + 1..j]);
      NfdOfChar(db, s[i]);
    }
  }

  lemma {:induction false} LastIndexAppendWithout(x: string, y: string, c: char)
    requires c !in y
    ensures LastIndex(x + y, c) == LastIndex(x, c)
  {
    if y != [] {
      var init := y[..|y| - 1];
      assert y[|y| - 1] in y;
      assert (x + y)[|x + y| - 1] == y[|y| - 1];
      assert (x + y)[..|x + y| - 1] == x + init;
      assert c !in init by {
        assert forall d :: d in init ==> d in y;
      }
      LastIndexAppendWithout(x, init, c);
    } else {
      assert x + y == x;
    }
  }

  /** The last `.` (or `/`) of the decomposed string is where the last one of the
      string itself lands. */
  lemma {:induction false} NfdLastIndex(db: CharDb, s: string, c: char)
    requires SeparatorFacts(db) && Stable(db, c) && (c == '.' || c == '/')
    ensures LastIndex(Nfd(db, s), c) == NfdPos(db, s, LastIndex(s, c))
  {
    if s != [] {
      var init := s[..|s| - 1];
      var last := s[|s| - 1];
      assert s == init + [last];
      NfdAppend(db, init, [last]);
      NfdOfChar(db, last);
      if last == c {
        assert LastIndex(Nfd(db, s), c) == |Nfd(db, init)|;
      } else {
        assert c !in db.decompose(last);
        LastIndexAppendWithout(Nfd(db, init), db.decompose(last), c);
        NfdLastIndex(db, init, c);
        var d := LastIndex(init, c);
        assert LastIndex(s, c) == d;
        if d >= 0 {
          assert s[..d] == init[..d];
        }
      }
    }
  }

  /** A decomposed string is all dots exactly when the string is. */
  lemma {:induction false} NfdAllDots(db: CharDb, x: string)
    requires SeparatorFacts(db) && Stable(db, '.')
    ensures AllDots(Nfd(db, x)) <==> AllDots(x)
  {
    if x != [] {
      var b := db.decompose(x[0]);
      var r := Nfd(db, x[1..]);
      assert Nfd(db, x) == b + r;
      NfdAllDots(db, x[1..]);
      if x[0] == '.' {
        AllDotsCons(x[1..]);
        assert [x[0]] + x[1..] == x;
        AllDotsCons(r);
      } else {
        assert b[0] in b;
        assert (b + r)[0] == b[0] != '.';
      }
    }
  }

  lemma AllDotsCons(r: string)
    ensures AllDots(['.'] + r) <==> AllDots(r)
  {
    var t := ['.'] + r;
    assert forall i :: 0 <= i < |r| ==> t[i + 1] == r[i];
    assert forall i :: 0 < i < |t| ==> t[i] == r[i - 1];
  }

  /** The decomposition of a prefix is a prefix of the decomposition. */
  lemma NfdPrefix(db: CharDb, s: string, n: nat)
    requires n <= |s|
    ensures |Nfd(db, s[..n])| <= |Nfd(db, s)|
    ensures Nfd(db, s)[..|Nfd(db, s[..n])|] == Nfd(db, s[..n])
  {
    assert s == s[..n] + s[n..];
    NfdAppend(db, s[..n], s[n..]);
  }

  /** The decomposed text between two landed positions is the decomposition of
      the text between the original ones. */
  lemma NfdSlice(db: CharDb, s: string, sep: int, dot: nat)
    requires -1 <= sep < dot <= |s| && (sep >= 0 ==> Stable(db, s[sep]))
    ensures NfdPos(db, s, sep) + 1 <= NfdPos(db, s, dot) <= |Nfd(db, s)|
    ensures Nfd(db, s)[NfdPos(db, s, sep) + 1..NfdPos(db, s, dot)] == Nfd(db, s[sep + 1..dot])
  {
    var lo := sep + 1;
    var x, y := Nfd(db, s[..lo]), Nfd(db, s[lo..dot]);
    assert Nfd(db, s[..dot]) == x + y by {
      assert s[..dot] == s[..lo] + s[lo..dot];
      NfdAppend(db, s[..lo], s[lo..dot]);
    }
    assert |x| == NfdPos(db, s, sep) + 1 by {
      if sep >= 0 {
        NfdLandsOne(db, s, sep);
      } else {
        assert s[..lo] == [];
      }
    }
    var n, d := Nfd(db, s), Nfd(db, s[..dot]);
    NfdPrefix(db, s, dot);
    assert |d| == |x| + |y| && |d| <= |n| && n[..|x| + |y|] == x + y;
    SliceOfPrefix(n, x, y);
  }

  /** When `x + y` starts `n`, the slice of `n` after `x` is `y`. */
  lemma SliceOfPrefix(n: string, x: string, y: string)
    requires |x| + |y| <= |n| && n[..|x| + |y|] == x + y
    ensures n[|x|..|x| + |y|] == y
  {
    assert n[|x|..|x| + |y|] == n[..|x| + |y|][|x|..];
    assert (x + y)[|x|..] == y;
  }

  /** A decomposed character occupies one position. */
  lemma NfdLandsOne(db: CharDb, s: string, i: nat)
    requires i < |s| && Stable(db, s[i])
    ensures |Nfd(db, s[..i + 1])| == |Nfd(db, s[..i])| + 1
  {
    assert s[..i + 1] == s[..i] + [s[i]];
    NfdAppend(db, s[..i], [s[i]]);
    NfdOfChar(db, s[i]);
  }

  /** Where `splitext` cuts the decomposed name: where it cuts the name itself,
      landed, or nowhere. */
  lemma RootLengthOfNfd(db: CharDb, s: string)
    requires SeparatorFacts(db) && Stable(db, '.') && Stable(db, '/')
    ensures RootLength(Nfd(db, s)) == if RootLength(s) < |s| then NfdPos(db, s, RootLength(s)) else |Nfd(db, s)|
  {
    var sep := LastIndex(s, '/');
    var dot := LastIndex(s, '.');
    NfdLastIndex(db, s, '/');
    NfdLastIndex(db, s, '.');
    if dot > sep {
      NfdPosGrows(db, s, sep, dot);
      NfdSlice(db, s, sep, dot);
      NfdAllDots(db, s[sep + 1..dot]);
    } else if dot < sep {
      NfdPosGrows(db, s, dot, sep);
    }
  }

  /** `splitext` commutes with NFD: the root of the decomposed name is the
      decomposed root. */
  lemma SplitextOfNfd(db: CharDb, s: string)
    requires SeparatorFacts(db) && Stable(db, '.') && Stable(db, '/')
    ensures SplitextRoot(Nfd(db, s)) == Nfd(db, SplitextRoot(s))
  {
    var n := RootLength(s);
    RootLengthOfNfd(db, s);
    assert s == s[..n] + s[n..];
    NfdAppend(db, s[..n], s[n..]);
  }

  // ---------------------------------------------------------------------------
  // sanitize_filename

  lemma UnslashedMembers(db: CharDb, s: string)
    ensures forall c :: c in MapChars(Clean(db, s), Unslash) ==>
      c == '-' || (!IsPunct(c) && c != '/' && c != '\\')
  {
    CleanMembers(db, s);
    forall c | c in MapChars(Clean(db, s), Unslash)
      ensures c == '-' || (!IsPunct(c) && c != '/' && c != '\\')
    {
      MapCharsMembers(Clean(db, s), Unslash, c);
    }
  }

  /** Under the Unicode facts, a sanitized name is also fully decomposed and free
      of Mn marks. */
  lemma SanitizeOutput(db: CharDb, s: string)
    requires DecompositionFacts(db) && CyrillicFacts(db) && AsciiFacts(db)
    ensures forall c :: c in Sanitize(db, s) ==> Stable(db, c) && !db.isMn(c) && c != 'ё' && c != 'Ё'
  {
    var clean := Clean(db, s);
    var u := MapChars(clean, Unslash);
    CleanOutput(db, s);
    AsciiKept(db);
    forall c | c in u
      ensures Stable(db, c) && !db.isMn(c) && c != 'ё' && c != 'Ё'
    {
      MapCharsMembers(clean, Unslash, c);
    }
    CollapseStripShape(u, db.isSpace);
  }

  /** The space and the hyphen that `sanitize_filename` writes are decomposed and
      not marks. */
  lemma AsciiKept(db: CharDb)
    requires AsciiFacts(db)
    ensures Stable(db, ' ') && !db.isMn(' ') && Stable(db, '-') && !db.isMn('-')
  {
    assert IsAscii(' ') && IsAscii('-');
  }

  /** A `-` in a sanitized name always stands for a slash or backslash of the
      decomposed input. */
  lemma HyphenComesFromSlash(db: CharDb, s: string)
    requires '-' in Sanitize(db, s)
    ensures '/' in Nfd(db, s) || '\\' in Nfd(db, s)
  {
    var clean := Clean(db, s);
    var u := MapChars(clean, Unslash);
    assert '-' in u by {
      assert Sanitize(db, s) == CollapseStrip(u, db.isSpace);
      CollapseStripShape(u, db.isSpace);
    }
    HyphenInUnslashed(db, clean);
    CleanMembers(db, s);
  }

  /** NFD makes no slash or backslash that was not already in its input. */
  lemma {:induction false} NfdMakesNoSlash(db: CharDb, s: string, c: char)
    requires SeparatorFacts(db) && (c == '/' || c == '\\') && c in Nfd(db, s)
    ensures c in s
  {
    if s != [] {
      if c !in db.decompose(s[0]) {
        NfdMakesNoSlash(db, s[1..], c);
        assert s == [s[0]] + s[1..];
      }
    }
  }

  lemma HyphenInUnslashed(db: CharDb, clean: string)
    requires '-' in MapChars(clean, Unslash)
    ensures '/' in clean || '\\' in clean || '-' in clean
  {
    MapCharsMembers(clean, Unslash, '-');
  }

  /** `sanitize_filename` leaves a string unchanged exactly when it is a `SafeName`. */
  lemma SanitizeFixed(db: CharDb, s: string)
    requires Coherent(db)
    ensures Sanitize(db, s) == s <==> SafeName(db, s)
  {
    if SafeName(db, s) {
      SafeNameIsFixed(db, s);
    } else if Sanitize(db, s) == s {
      FixedIsSafeName(db, s);
    }
  }

  lemma SafeNameIsFixed(db: CharDb, s: string)
    requires DecompositionFacts(db) && CyrillicFacts(db) && SafeName(db, s)
    ensures Sanitize(db, s) == s
  {
    CleanFixed(db, s);
    MapCharsIdentity(s, Unslash);
    CollapseStripFixed(s, db.isSpace);
  }

  lemma FixedIsSafeName(db: CharDb, s: string)
    requires Coherent(db) && Sanitize(db, s) == s
    ensures SafeName(db, s)
  {
    SanitizeOutput(db, s);
    assert forall c :: c in s ==> Stable(db, c) && !db.isMn(c);
    assert forall c :: c in s ==> c == '-' || (!IsPunct(c) && c != '/' && c != '\\');
    if '-' in s {
      NfdOfDecomposed(db, s);
      HyphenComesFromSlash(db, s);
      assert false;
    }
  }

  /** Sanitizing twice gives the same name exactly when the first result has no `-`.
      Punctuation is deleted before slashes become `-`, so a name made from a slash
      loses that `-` when sanitized again. */
  lemma SanitizeIdempotentIff(db: CharDb, s: string)
    requires Coherent(db)
    ensures Sanitize(db, Sanitize(db, s)) == Sanitize(db, s) <==> '-' !in Sanitize(db, s)
  {
    var y := Sanitize(db, s);
    SanitizeFixed(db, y);
    SanitizeOutput(db, s);
    SafeNameIffNoHyphen(db, s);
  }

  /** A name with no slash or backslash, sanitized twice, is sanitized once: only a
      separator of the input can put a `-` into the result. */
  lemma SanitizeIdempotent(db: CharDb, s: string)
    requires Coherent(db) && '/' !in s && '\\' !in s
    ensures Sanitize(db, Sanitize(db, s)) == Sanitize(db, s)
  {
    SanitizeIdempotentIff(db, s);
    if '-' in Sanitize(db, s) {
      HyphenComesFromSlash(db, s);
      if '/' in Nfd(db, s) {
        NfdMakesNoSlash(db, s, '/');
      } else {
        NfdMakesNoSlash(db, s, '\\');
      }
      assert false;
    }
  }

  lemma SafeNameIffNoHyphen(db: CharDb, s: string)
    requires forall c :: c in Sanitize(db, s) ==> Stable(db, c) && !db.isMn(c)
    ensures SafeName(db, Sanitize(db, s)) <==> '-' !in Sanitize(db, s)
  {
    assert IsPunct('-');
  }

  /** Inserting a combining mark (such as the stress accent U+0301) anywhere does
      not change what the shared steps produce. */
  lemma MarkIgnored(db: CharDb, s: string, i: nat, m: char)
    requires i <= |s| && db.isMn(m) && Stable(db, m)
    ensures Clean(db, s[..i] + [m] + s[i..]) == Clean(db, s)
  {
    CleanOfMark(db, m);
    CleanInsert(db, s, i, m);
  }

  /** Inserting a punctuation character anywhere does not change what the shared
      steps produce. */
  lemma PunctIgnored(db: CharDb, s: string, i: nat, p: char)
    requires i <= |s| && IsPunct(p) && Stable(db, p) && !db.isMn(p)
    ensures Clean(db, s[..i] + [p] + s[i..]) == Clean(db, s)
  {
    CleanOfPunct(db, p);
    CleanInsert(db, s, i, p);
  }

  /** A character that cleans to nothing may be inserted anywhere. */
  lemma CleanInsert(db: CharDb, s: string, i: nat, x: char)
    requires i <= |s| && Clean(db, [x]) == []
    ensures Clean(db, s[..i] + [x] + s[i..]) == Clean(db, s)
  {
    CleanAppend(db, s[..i] + [x], s[i..]);
    CleanAppend(db, s[..i], [x]);
    CleanAppend(db, s[..i], s[i..]);
    assert s[..i] + s[i..] == s;
  }

  /** The shared steps on a string with one position overwritten. */
  lemma CleanAt(db: CharDb, s: string, i: nat, x: char)
    requires i < |s|
    ensures Clean(db, s[i := x]) == Clean(db, s[..i]) + Clean(db, [x]) + Clean(db, s[i + 1..])
  {
    assert s[i := x] == s[..i] + [x] + s[i + 1..];
    CleanAppend(db, s[..i] + [x], s[i + 1..]);
    CleanAppend(db, s[..i], [x]);
  }

  /** Overwriting a character with one that cleans the same way changes nothing. */
  lemma CleanReplace(db: CharDb, s: string, i: nat, x: char)
    requires i < |s| && Clean(db, [x]) == Clean(db, [s[i]])
    ensures Clean(db, s[i := x]) == Clean(db, s)
  {
    CleanAt(db, s, i, x);
    CleanAt(db, s, i, s[i]);
    assert s[i := s[i]] == s;
  }

  /** A lone punctuation character cleans to nothing. */
  lemma CleanOfPunct(db: CharDb, p: char)
    requires IsPunct(p) && Stable(db, p) && !db.isMn(p)
    ensures Clean(db, [p]) == []
  {
    assert Nfd(db, [p]) == [p] + Nfd(db, []);
    assert Drop([p], db.isMn) == [p] + Drop([], db.isMn);
    assert MapChars([p], FoldYo) == [p] + MapChars([], FoldYo);
  }

  /** A lone combining mark cleans to nothing. */
  lemma CleanOfMark(db: CharDb, m: char)
    requires db.isMn(m) && Stable(db, m)
    ensures Clean(db, [m]) == []
  {
    assert Nfd(db, [m]) == [m] + Nfd(db, []);
  }

  /** A lone decomposed, non-mark, non-punctuation character other than ё/Ё is
      kept as it is. */
  lemma CleanOfKept(db: CharDb, x: char)
    requires Stable(db, x) && !db.isMn(x) && !IsPunct(x) && FoldYo(x) == x
    ensures Clean(db, [x]) == [x]
  {
    assert Nfd(db, [x]) == [x] + Nfd(db, []);
    assert Drop([x], db.isMn) == [x] + Drop([], db.isMn);
    assert MapChars([x], FoldYo) == [x] + MapChars([], FoldYo);
    assert Drop([x], IsPunct) == [x] + Drop([], IsPunct);
  }

  /** `sanitize_filename` ignores stress marks. */
  lemma SanitizeIgnoresStress(db: CharDb, s: string, i: nat, m: char)
    requires i <= |s| && db.isMn(m) && Stable(db, m)
    ensures Sanitize(db, s[..i] + [m] + s[i..]) == Sanitize(db, s)
  {
    MarkIgnored(db, s, i, m);
  }

  /** A ё or Ё goes through the shared steps exactly as е or Е does. */
  lemma YoCharIgnored(db: CharDb, c: char)
    requires CyrillicFacts(db) && MarkFacts(db) && (c == 'ё' || c == 'Ё')
    ensures Clean(db, [c]) == Clean(db, [FoldYo(c)]) == [FoldYo(c)]
  {
    var e := FoldYo(c);
    var m := '\U{0308}';
    YeIsKept(db);
    assert IsCombiningMark(m);
    NotPunct(e);
    assert Nfd(db, [c]) == [e, m] by {
      assert Nfd(db, [c]) == db.decompose(c) + Nfd(db, []);
    }
    assert Nfd(db, [e, m]) == [e, m] by {
      assert Nfd(db, [e, m]) == [e] + Nfd(db, [m]);
      assert Nfd(db, [m]) == [m] + Nfd(db, []);
    }
    CleanOfKept(db, e);
    CleanOfMark(db, m);
    CleanAppend(db, [e], [m]);
    assert [e] + [m] == [e, m];
  }

  /** Writing е for ё (or Е for Ё) does not change what the shared steps produce. */
  lemma YoIgnored(db: CharDb, s: string, i: nat)
    requires CyrillicFacts(db) && MarkFacts(db)
    requires i < |s| && (s[i] == 'ё' || s[i] == 'Ё')
    ensures Clean(db, s[i := FoldYo(s[i])]) == Clean(db, s)
  {
    YoCharIgnored(db, s[i]);
    CleanReplace(db, s, i, FoldYo(s[i]));
  }

  /** `sanitize_filename` maps ё and е (Ё and Е) alike. */
  lemma SanitizeIgnoresYo(db: CharDb, s: string, i: nat)
    requires Coherent(db)
    requires i < |s| && (s[i] == 'ё' || s[i] == 'Ё')
    ensures Sanitize(db, s[i := FoldYo(s[i])]) == Sanitize(db, s)
  {
    YoIgnored(db, s, i);
  }

  /** `sanitize_filename` deletes punctuation wherever it stands: "слово?!" and
      "слово" get the same name. */
  lemma SanitizeIgnoresPunct(db: CharDb, s: string, i: nat, p: char)
    requires i <= |s| && IsPunct(p) && Stable(db, p) && !db.isMn(p)
    ensures Sanitize(db, s[..i] + [p] + s[i..]) == Sanitize(db, s)
  {
    PunctIgnored(db, s, i, p);
  }

  /** `sanitize_filename` gives the same name for a word in composed (NFC) and in
      decomposed (NFD) form. */
  lemma SanitizeIgnoresComposition(db: CharDb, s: string)
    requires DecompositionFacts(db)
    ensures Sanitize(db, Nfd(db, s)) == Sanitize(db, s)
  {
    CleanOfNfd(db, s);
  }

  /** й and Й without their breve. */
  function Unbreve(c: char): char
  {
    if c == 'й' then 'и' else if c == 'Й' then 'И' else c
  }

  /** NFD splits й (Й) into и (И) and the combining breve U+0306, which is then
      dropped: й goes through the shared steps as и does. */
  lemma ShortICharFolds(db: CharDb, c: char)
    requires CyrillicFacts(db) && MarkFacts(db) && (c == 'й' || c == 'Й')
    ensures Clean(db, [c]) == Clean(db, [Unbreve(c)]) == [Unbreve(c)]
  {
    var e := Unbreve(c);
    var m := '\U{0306}';
    assert IsCyrillicLower('и') && IsCyrillicUpper('И');
    assert Stable(db, e) && !db.isMn(e);
    assert IsCombiningMark(m);
    NotPunct(e);
    assert Nfd(db, [c]) == [e, m] by {
      assert Nfd(db, [c]) == db.decompose(c) + Nfd(db, []);
    }
    assert Nfd(db, [e, m]) == [e, m] by {
      assert Nfd(db, [e, m]) == [e] + Nfd(db, [m]);
      assert Nfd(db, [m]) == [m] + Nfd(db, []);
    }
    CleanOfKept(db, e);
    CleanOfMark(db, m);
    CleanAppend(db, [e], [m]);
    assert [e] + [m] == [e, m];
  }

  /** `sanitize_filename` writes и for й (И for Й), so names that differ only
      there collide: "мой" and "мои" get the same name. */
  lemma SanitizeFoldsShortI(db: CharDb, s: string, i: nat)
    requires CyrillicFacts(db) && MarkFacts(db)
    requires i < |s| && (s[i] == 'й' || s[i] == 'Й')
    ensures Sanitize(db, s[i := Unbreve(s[i])]) == Sanitize(db, s)
  {
    ShortICharFolds(db, s[i]);
    CleanReplace(db, s, i, Unbreve(s[i]));
  }

  lemma ShortIWordsCollide(db: CharDb)
    requires CyrillicFacts(db) && MarkFacts(db)
    ensures Sanitize(db, "мой") == Sanitize(db, "мои")
  {
    SanitizeFoldsShortI(db, "мой", 2);
    assert "мой"[2 := Unbreve('й')] == "мои";
  }

  /** Whitespace aside, a sanitized name holds exactly the characters the shared
      steps keep, in their order, with slashes written as `-`: the only other
      change is to whitespace. */
  lemma SanitizeKeeps(db: CharDb, s: string)
    requires AsciiFacts(db)
    ensures Drop(Sanitize(db, s), db.isSpace) == Drop(MapChars(Clean(db, s), Unslash), db.isSpace)
  {
    assert IsAscii(' ');
    CollapseStripKeeps(MapChars(Clean(db, s), Unslash), db.isSpace);
  }

  /** On decomposed, mark-free text the shared steps delete exactly the
      punctuation, and keep every other character as it is, case included. */
  lemma CleanOfDecomposed(db: CharDb, s: string)
    requires CyrillicFacts(db)
    requires forall c :: c in s ==> Stable(db, c) && !db.isMn(c)
    ensures Clean(db, s) == Drop(s, IsPunct)
  {
    NfdOfDecomposed(db, s);
    DropIdentity(s, db.isMn);
    YoDecomposes(db);
    MapCharsIdentity(s, FoldYo);
  }

  /** What survives `sanitize_filename` on decomposed, mark-free text: apart from
      whitespace, the input without its punctuation, in order and in its own
      case, with slashes as `-`. */
  lemma SanitizeContents(db: CharDb, s: string)
    requires CyrillicFacts(db) && AsciiFacts(db)
    requires forall c :: c in s ==> Stable(db, c) && !db.isMn(c)
    ensures Drop(Sanitize(db, s), db.isSpace) == Drop(MapChars(Drop(s, IsPunct), Unslash), db.isSpace)
  {
    SanitizeKeeps(db, s);
    CleanOfDecomposed(db, s);
  }

  // ---------------------------------------------------------------------------
  // norm_base

  /** Lower-casing keeps the tidy whitespace shape. */
  lemma LowerKeepsTidy(db: CharDb, t: string)
    requires LowerFacts(db) && db.lower(' ') == ' ' && Tidy(t, db.isSpace)
    ensures Tidy(MapChars(t, db.lower), db.isSpace)
  {
    var r := MapChars(t, db.lower);
    MapCharsAt(t, db.lower);
    forall c | c in r && db.isSpace(c)
      ensures c == ' '
    {
      MapCharsMembers(t, db.lower, c);
    }
  }

  /** Every key `norm_base` produces is `Canonical`. */
  lemma NormBaseOutput(db: CharDb, name: string)
    requires Coherent(db)
    ensures Canonical(db, NormBase(db, name))
  {
    var clean := Clean(db, SplitextRoot(name));
    var t := CollapseStrip(clean, db.isSpace);
    CollapseStripShape(clean, db.isSpace);
    CleanOutput(db, SplitextRoot(name));
    assert IsAscii(' ') && Caseless(' ');
    NotPunct(' ');
    assert Stable(db, ' ') && !db.isMn(' ') && db.lower(' ') == ' ';
    forall c | c in t
      ensures Stable(db, c) && !db.isMn(c) && !IsPunct(c)
    {
      assert c in clean || c == ' ';
    }
    LowerCanonical(db, t);
  }

  /** Lower-casing a tidy string of decomposed, non-mark, non-punctuation
      characters gives a `Canonical` one. */
  lemma LowerCanonical(db: CharDb, t: string)
    requires LowerFacts(db) && db.lower(' ') == ' ' && Tidy(t, db.isSpace)
    requires forall c :: c in t ==> Stable(db, c) && !db.isMn(c) && !IsPunct(c)
    ensures Canonical(db, MapChars(t, db.lower))
  {
    var r := MapChars(t, db.lower);
    forall c | c in r
      ensures Stable(db, c) && !db.isMn(c) && !IsPunct(c) && db.lower(c) == c
    {
      MapCharsMembers(t, db.lower, c);
      var d :| d in t && c == db.lower(d);
      LowerOfKept(db, d);
    }
    LowerKeepsTidy(db, t);
  }

  /** Lower-casing a decomposed, non-mark, non-punctuation character gives one of
      the same kind that lower-casing leaves alone. */
  lemma LowerOfKept(db: CharDb, d: char)
    requires LowerFacts(db) && Stable(db, d) && !db.isMn(d) && !IsPunct(d)
    ensures var c := db.lower(d); Stable(db, c) && !db.isMn(c) && !IsPunct(c) && db.lower(c) == c
  {
    PunctIsCaseless(db.lower(d));
  }

  /** The punctuation class has no letters. */
  lemma PunctIsCaseless(c: char)
    ensures IsPunct(c) ==> Caseless(c)
  {
  }

  /** `norm_base` leaves a string unchanged exactly when it is `Canonical`. */
  lemma NormBaseFixed(db: CharDb, s: string)
    requires Coherent(db)
    ensures NormBase(db, s) == s <==> Canonical(db, s)
  {
    if Canonical(db, s) {
      assert '.' !in s by {
        assert IsPunct('.');
      }
      CleanFixed(db, s);
      CollapseStripFixed(s, db.isSpace);
      MapCharsIdentity(s, db.lower);
    } else if NormBase(db, s) == s {
      NormBaseOutput(db, s);
    }
  }

  /** `norm_base` is idempotent. */
  lemma NormBaseIdempotent(db: CharDb, s: string)
    requires Coherent(db)
    ensures NormBase(db, NormBase(db, s)) == NormBase(db, s)
  {
    NormBaseOutput(db, s);
    NormBaseFixed(db, NormBase(db, s));
  }

  /** A stress mark inserted anywhere into a dot-free word leaves its key unchanged.
      (With a dot the guard matters: `.mp3` has no extension to `splitext` and keys
      to "mp3", while a mark before it makes `.mp3` an extension and keys to "".) */
  lemma NormBaseIgnoresStress(db: CharDb, s: string, i: nat, m: char)
    requires Coherent(db)
    requires '.' !in s && i <= |s| && db.isMn(m) && Stable(db, m)
    ensures NormBase(db, s[..i] + [m] + s[i..]) == NormBase(db, s)
  {
    var t := s[..i] + [m] + s[i..];
    assert m != '.' by {
      assert IsAscii('.');
    }
    assert '.' !in t by {
      assert forall c :: c in t ==> c in s[..i] || c == m || c in s[i..];
    }
    MarkIgnored(db, s, i, m);
  }

  /** Writing е for ё (or Е for Ё) anywhere leaves the key unchanged. */
  lemma NormBaseIgnoresYo(db: CharDb, s: string, i: nat)
    requires Coherent(db)
    requires i < |s| && (s[i] == 'ё' || s[i] == 'Ё')
    ensures NormBase(db, s[i := FoldYo(s[i])]) == NormBase(db, s)
  {
    var t := s[i := FoldYo(s[i])];
    RootLengthOfReplace(s, i, FoldYo(s[i]));
    var n := RootLength(s);
    assert SplitextRoot(s) == s[..n] && SplitextRoot(t) == t[..n];
    if i < n {
      assert t[..n] == s[..n][i := FoldYo(s[i])];
      YoIgnored(db, s[..n], i);
    } else {
      assert t[..n] == s[..n];
    }
  }

  /** Whitespace aside, a key holds exactly the lower-cased characters the shared
      steps keep from the `splitext` root, in order. */
  lemma NormBaseKeeps(db: CharDb, s: string)
    requires LowerFacts(db) && AsciiFacts(db)
    ensures Drop(NormBase(db, s), db.isSpace) == MapChars(Drop(Clean(db, SplitextRoot(s)), db.isSpace), db.lower)
  {
    var x := Clean(db, SplitextRoot(s));
    assert IsAscii(' ');
    CollapseStripKeeps(x, db.isSpace);
    DropMap(CollapseStrip(x, db.isSpace), db.lower, db.isSpace);
  }

  /** Punctuation other than `.` inserted anywhere into a dot-free name leaves the
      key unchanged (a `.` would create an extension). */
  lemma NormBaseIgnoresPunct(db: CharDb, s: string, i: nat, p: char)
    requires '.' !in s && p != '.' && i <= |s| && IsPunct(p) && Stable(db, p) && !db.isMn(p)
    ensures NormBase(db, s[..i] + [p] + s[i..]) == NormBase(db, s)
  {
    var t := s[..i] + [p] + s[i..];
    assert '.' !in t by {
      assert forall c :: c in t ==> c in s[..i] || c == p || c in s[i..];
    }
    PunctIgnored(db, s, i, p);
  }

  /** Lower-casing a decomposed, non-mark character of a name leaves the key
      unchanged: keys ignore case. */
  lemma NormBaseIgnoresCase(db: CharDb, s: string, i: nat)
    requires LowerFacts(db) && CyrillicFacts(db)
    requires i < |s| && Stable(db, s[i]) && !db.isMn(s[i])
    ensures NormBase(db, s[i := db.lower(s[i])]) == NormBase(db, s)
  {
    var c := s[i];
    var l := db.lower(c);
    if l != c {
      LowerChangesLetter(db, c);
      var t := s[i := l];
      RootLengthOfReplace(s, i, l);
      var n := RootLength(s);
      assert SplitextRoot(s) == s[..n] && SplitextRoot(t) == t[..n];
      if i < n {
        assert t[..n] == s[..n][i := l];
        LowerKeyOfReplace(db, s[..n], i);
      } else {
        assert t[..n] == s[..n];
      }
    } else {
      assert s[i := l] == s;
    }
  }

  /** A character that lower-casing changes is a decomposed letter: no `.`, no
      `/`, no punctuation, no ё/Ё, and so is its lower-case form. */
  lemma LowerChangesLetter(db: CharDb, c: char)
    requires LowerFacts(db) && CyrillicFacts(db)
    requires Stable(db, c) && !db.isMn(c) && db.lower(c) != c
    ensures var l := db.lower(c);
      && c != '.' && c != '/' && l != '.' && l != '/'
      && Stable(db, l) && !db.isMn(l) && !IsPunct(c) && !IsPunct(l)
      && FoldYo(c) == c && FoldYo(l) == l
  {
    var l := db.lower(c);
    assert !Caseless(c) && !Caseless(l);
    PunctIsCaseless(c);
    PunctIsCaseless(l);
    YoDecomposes(db);
  }

  /** The core of `NormBaseIgnoresCase`, on the root: the shared steps keep the
      character, and lower-casing the collapsed result makes both spellings
      agree. */
  lemma LowerKeyOfReplace(db: CharDb, r: string, i: nat)
    requires LowerFacts(db) && CyrillicFacts(db)
    requires i < |r| && Stable(db, r[i]) && !db.isMn(r[i]) && db.lower(r[i]) != r[i]
    ensures MapChars(CollapseStrip(Clean(db, r[i := db.lower(r[i])]), db.isSpace), db.lower)
         == MapChars(CollapseStrip(Clean(db, r), db.isSpace), db.lower)
  {
    var c := r[i];
    var l := db.lower(c);
    LowerChangesLetter(db, c);
    CleanOfKept(db, c);
    CleanOfKept(db, l);
    CleanAt(db, r, i, l);
    CleanAt(db, r, i, c);
    assert r[i := c] == r;
    var a := Clean(db, r[..i]);
    var u := Clean(db, r);
    assert u == a + [c] + Clean(db, r[i + 1..]);
    assert Clean(db, r[i := l]) == u[|a| := l];
    assert Caseless(' ');
    MapCharsReplace(u, |a|, l, db.lower);
    CollapseStripMap(u[|a| := l], db.lower, db.isSpace);
    CollapseStripMap(u, db.lower, db.isSpace);
  }

  /** Appending an extension to a dot-free stem leaves its key unchanged. The stem
      must be non-empty and must not end in `/`: otherwise the dot would lead its
      final path component, and `splitext` would keep it. */
  lemma NormBaseIgnoresExtension(db: CharDb, s: string, ext: string)
    requires s != [] && '.' !in s && s[|s| - 1] != '/'
    requires ext != [] && ext[0] == '.' && '.' !in ext[1..] && '/' !in ext
    ensures NormBase(db, s + ext) == NormBase(db, s)
  {
    RootOfStemWithExtension(s, ext);
  }

  /** `norm_base` gives the same key for a name in composed (NFC) and in
      decomposed (NFD) form: decomposition never moves the extension. */
  lemma NormBaseIgnoresComposition(db: CharDb, name: string)
    requires DecompositionFacts(db) && SeparatorFacts(db) && AsciiFacts(db)
    ensures NormBase(db, Nfd(db, name)) == NormBase(db, name)
  {
    assert IsAscii('.') && IsAscii('/');
    SplitextOfNfd(db, name);
    CleanOfNfd(db, SplitextRoot(name));
  }

  /** The comparison the scan tier makes: a stress mark inserted anywhere into
      the stem of a file name leaves its key unchanged, so "четы́ре.mp3" and
      "четыре.mp3" share a key. The guards are those of `NormBaseIgnoresExtension`. */
  lemma NormBaseIgnoresStressInStem(db: CharDb, s: string, ext: string, i: nat, m: char)
    requires Coherent(db)
    requires s != [] && '.' !in s && s[|s| - 1] != '/'
    requires ext != [] && ext[0] == '.' && '.' !in ext[1..] && '/' !in ext
    requires i <= |s| && db.isMn(m) && Stable(db, m)
    ensures NormBase(db, s[..i] + [m] + s[i..] + ext) == NormBase(db, s + ext)
  {
    assert m != '.' && m != '/' by {
      assert IsAscii('.') && IsAscii('/');
    }
    StemInsert(s, i, m);
    NormBaseIgnoresExtension(db, s[..i] + [m] + s[i..], ext);
    NormBaseIgnoresExtension(db, s, ext);
    NormBaseIgnoresStress(db, s, i, m);
  }

  /** Punctuation other than `.` inserted anywhere into the stem of a file name
      leaves its key unchanged. */
  lemma NormBaseIgnoresPunctInStem(db: CharDb, s: string, ext: string, i: nat, p: char)
    requires s != [] && '.' !in s && s[|s| - 1] != '/'
    requires ext != [] && ext[0] == '.' && '.' !in ext[1..] && '/' !in ext
    requires p != '.' && i <= |s| && IsPunct(p) && Stable(db, p) && !db.isMn(p)
    ensures NormBase(db, s[..i] + [p] + s[i..] + ext) == NormBase(db, s + ext)
  {
    StemInsert(s, i, p);
    NormBaseIgnoresExtension(db, s[..i] + [p] + s[i..], ext);
    NormBaseIgnoresExtension(db, s, ext);
    NormBaseIgnoresPunct(db, s, i, p);
  }

  /** Inserting a character other than `.` and `/` into a dot-free stem that
      does not end in `/` gives another such stem. */
  lemma StemInsert(s: string, i: nat, x: char)
    requires s != [] && '.' !in s && s[|s| - 1] != '/'
    requires i <= |s| && x != '.' && x != '/'
    ensures var t := s[..i] + [x] + s[i..]; t != [] && '.' !in t && t[|t| - 1] != '/'
  {
    var t := s[..i] + [x] + s[i..];
    assert forall c :: c in t ==> c in s[..i] || c == x || c in s[i..];
    if i < |s| {
      assert t[|t| - 1] == s[|s| - 1];
    }
  }

  /** A lone whitespace character leaves nothing but whitespace after the shared
      steps. */
  lemma CleanOfSpace(db: CharDb, w: char)
    requires CyrillicFacts(db) && db.isSpace(w) && Stable(db, w)
    ensures Drop(Clean(db, [w]), db.isSpace) == []
  {
    if db.isMn(w) {
      CleanOfMark(db, w);
    } else if IsPunct(w) {
      CleanOfPunct(db, w);
    } else {
      YoDecomposes(db);
      CleanOfKept(db, w);
      assert Drop([w], db.isSpace) == [] + Drop([], db.isSpace);
    }
  }

  /** Whitespace aside, inserting a whitespace character into a dot-free name
      leaves its key unchanged. */
  lemma NormBaseIgnoresSpace(db: CharDb, s: string, i: nat, w: char)
    requires LowerFacts(db) && AsciiFacts(db) && CyrillicFacts(db)
    requires '.' !in s && i <= |s| && db.isSpace(w) && Stable(db, w)
    ensures Drop(NormBase(db, s[..i] + [w] + s[i..]), db.isSpace) == Drop(NormBase(db, s), db.isSpace)
  {
    var t := s[..i] + [w] + s[i..];
    assert w != '.' by {
      assert IsAscii('.');
    }
    assert '.' !in t by {
      assert forall c :: c in t ==> c in s[..i] || c == w || c in s[i..];
    }
    NormBaseKeeps(db, t);
    NormBaseKeeps(db, s);
    CleanIgnoresSpace(db, s, i, w);
  }

  /** Whitespace aside, a whitespace character inserted anywhere vanishes in the
      shared steps. */
  lemma CleanIgnoresSpace(db: CharDb, s: string, i: nat, w: char)
    requires CyrillicFacts(db) && i <= |s| && db.isSpace(w) && Stable(db, w)
    ensures Drop(Clean(db, s[..i] + [w] + s[i..]), db.isSpace) == Drop(Clean(db, s), db.isSpace)
  {
    var a, b := Clean(db, s[..i]), Clean(db, s[i..]);
    CleanAppend(db, s[..i] + [w], s[i..]);
    CleanAppend(db, s[..i], [w]);
    CleanAppend(db, s[..i], s[i..]);
    assert s[..i] + s[i..] == s;
    CleanOfSpace(db, w);
    DropAppend(a + Clean(db, [w]), b, db.isSpace);
    DropAppend(a, Clean(db, [w]), db.isSpace);
    DropAppend(a, b, db.isSpace);
  }
}
