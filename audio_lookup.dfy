/** Finding audio files by word: the native MP3 lookup (`find_audio_path` and the
    filename-hint cascade of `play_audio`) and the selector of the newest user
    recording (`find_latest_user_recording`). A folder is passed in as a `Listing`
    and file times as a map, and the lookups return bare entry names rather than
    joined paths. */
module AudioLookup {
  import opened Wrappers
  import opened UnicodeData
  import opened Strings
  import opened Paths
  import opened Normalize

  /** A folder as the program sees it: `None` when it is missing or cannot be
      listed, otherwise its entry names in `os.listdir` order. */
  type Listing = Option<seq<string>>

  /** `os.path.exists(os.path.join(folder, name))` for a plain entry name. */
  predicate Exists(dir: Listing, name: string)
  {
    dir.Some? && name in dir.value
  }

  /** `f.lower().endswith(ext)`. */
  predicate HasExt(db: CharDb, f: string, ext: string)
  {
    EndsWith(MapChars(f, db.lower), ext)
  }

  predicate IsBlank(c: char) { c == ' ' }

  /** `s.replace(" ", "")`. */
  function Unspaced(s: string): string
  {
    Drop(s, IsBlank)
  }

  // ---------------------------------------------------------------------------
  // find_audio_path

  /** The name the direct tier tries: `sanitize_filename(word) + ".mp3"`. */
  function DirectName(db: CharDb, word: string): string
  {
    Sanitize(db, word) + ".mp3"
  }

  /** Entry `f` is an MP3 candidate that passes the key comparison of the scan
      tier (`loose` false) or of the space-insensitive tier (`loose` true) for
      the key `target`. */
  predicate KeyMatches(db: CharDb, f: string, target: string, loose: bool)
  {
    && HasExt(db, f, ".mp3")
    && if loose then Unspaced(NormBase(db, f)) == Unspaced(target) else NormBase(db, f) == target
  }

  /** `names[i]` is the earliest entry that passes the comparison. */
  ghost predicate IsFirst(db: CharDb, names: seq<string>, i: int, target: string, loose: bool)
  {
    && 0 <= i < |names|
    && KeyMatches(db, names[i], target, loose)
    && forall j :: 0 <= j < i ==> !KeyMatches(db, names[j], target, loose)
  }

  /** No entry passes the comparison. */
  ghost predicate NoMatch(db: CharDb, names: seq<string>, target: string, loose: bool)
  {
    forall j :: 0 <= j < |names| ==> !KeyMatches(db, names[j], target, loose)
  }

  /** One pass of a scan tier from position `from` on: the position of the first
      entry that passes the test `ok`, or `None`. */
  function FirstMatch(names: seq<string>, ok: string -> bool, from: nat): (r: Option<nat>)
    requires from <= |names|
    ensures r.Some? ==> from <= r.value < |names| && ok(names[r.value])
    ensures r.Some? ==> forall j :: from <= j < r.value ==> !ok(names[j])
    ensures r.None? ==> forall j :: from <= j < |names| ==> !ok(names[j])
    decreases |names| - from
  {
    if from == |names| then None
    else if ok(names[from]) then Some(from)
    else FirstMatch(names, ok, from + 1)
  }

  /** The two scan tiers of `find_audio_path` for the key `target`: the first
      MP3 whose key equals it, else the first whose key equals it once spaces
      are removed. */
  function ScanTiers(db: CharDb, names: seq<string>, target: string): (r: Option<nat>)
    ensures r.Some? ==> r.value < |names|
    ensures !NoMatch(db, names, target, false) ==> r.Some? && IsFirst(db, names, r.value, target, false)
    ensures NoMatch(db, names, target, false) && !NoMatch(db, names, target, true) ==>
      r.Some? && IsFirst(db, names, r.value, target, true)
    ensures r.None? <==> NoMatch(db, names, target, false) && NoMatch(db, names, target, true)
  {
    match FirstMatch(names, f => KeyMatches(db, f, target, false), 0)
    case Some(i) => Some(i)
    case None => FirstMatch(names, f => KeyMatches(db, f, target, true), 0)
  }

  /** `find_audio_path`: the direct name when it exists, else the first MP3 whose
      key equals the word's key, else the first whose key equals it once spaces
      are removed, else `None`. */
  function FindAudioPath(db: CharDb, word: string, dir: Listing): (r: Option<string>)
    ensures dir.None? ==> r.None?
    ensures r.Some? ==> Exists(dir, r.value)
    ensures Exists(dir, DirectName(db, word)) ==> r == Some(DirectName(db, word))
    ensures dir.Some? && !Exists(dir, DirectName(db, word)) && !NoMatch(db, dir.value, NormBase(db, word), false) ==>
      exists i :: IsFirst(db, dir.value, i, NormBase(db, word), false) && r == Some(dir.value[i])
    ensures
      && dir.Some? && !Exists(dir, DirectName(db, word))
      && NoMatch(db, dir.value, NormBase(db, word), false) && !NoMatch(db, dir.value, NormBase(db, word), true)
      ==> exists i :: IsFirst(db, dir.value, i, NormBase(db, word), true) && r == Some(dir.value[i])
    ensures r.None? <==>
      || dir.None?
      || (&& !Exists(dir, DirectName(db, word))
          && NoMatch(db, dir.value, NormBase(db, word), false)
          && NoMatch(db, dir.value, NormBase(db, word), true))
  {
    match dir
    case None => None
    case Some(names) =>
      var direct := DirectName(db, word);
      if direct in names then Some(direct)
      else match ScanTiers(db, names, NormBase(db, word))
        case Some(i) => Some(names[i])
        case None => None
  }

  /** At most one position is the first match, so the scan tiers pick a single
      entry. */
  lemma IsFirstUnique(db: CharDb, names: seq<string>, i: int, k: int, target: string, loose: bool)
    requires IsFirst(db, names, i, target, loose) && IsFirst(db, names, k, target, loose)
    ensures i == k
  {
  }

  /** An empty folder yields nothing. */
  lemma FindAudioPathEmpty(db: CharDb, word: string)
    ensures FindAudioPath(db, word, Some([])) == None
  {
  }

  /** A result of the scan tiers always has an extension `.mp3` in any case;
      only the direct tier can return a name the scans would not look at. */
  lemma FindAudioPathIsMp3(db: CharDb, word: string, dir: Listing)
    requires FindAudioPath(db, word, dir).Some?
    ensures var f := FindAudioPath(db, word, dir).value;
      f == DirectName(db, word) || HasExt(db, f, ".mp3")
  {
  }

  /** A word spelt with ё finds the file named with е by the direct tier. */
  lemma YoWordFindsYeFile(db: CharDb, word: string, i: nat, names: seq<string>)
    requires Coherent(db)
    requires i < |word| && (word[i] == 'ё' || word[i] == 'Ё')
    requires DirectName(db, word[i := FoldYo(word[i])]) in names
    ensures FindAudioPath(db, word, Some(names)) == Some(DirectName(db, word[i := FoldYo(word[i])]))
  {
    SanitizeIgnoresYo(db, word, i);
  }

  /** The space-insensitive tier compares keys without spaces, so a whitespace
      character inserted anywhere into a dot-free word or name does not change
      what it compares ("пятьдесят" and "пять десят"). */
  lemma LooseKeyIgnoresSpace(db: CharDb, s: string, i: nat, w: char)
    requires Coherent(db)
    requires '.' !in s && i <= |s| && db.isSpace(w) && Stable(db, w)
    ensures Unspaced(NormBase(db, s[..i] + [w] + s[i..])) == Unspaced(NormBase(db, s))
  {
    NormBaseIgnoresSpace(db, s, i, w);
    UnspacedKey(db, s[..i] + [w] + s[i..]);
    UnspacedKey(db, s);
  }

  /** In a key every whitespace character is a plain space, so removing spaces
      removes all whitespace. */
  lemma UnspacedKey(db: CharDb, name: string)
    requires Coherent(db)
    ensures Unspaced(NormBase(db, name)) == Drop(NormBase(db, name), db.isSpace)
  {
    var k := NormBase(db, name);
    NormBaseOutput(db, name);
    assert db.isSpace(' ') by {
      assert IsAscii(' ');
    }
    forall i | 0 <= i < |k|
      ensures IsBlank(k[i]) <==> db.isSpace(k[i])
    {
      assert k[i] in k;
    }
    DropSame(k, IsBlank, db.isSpace);
  }

  // ---------------------------------------------------------------------------
  // play_audio

  /** The file `play_audio` plays: with a non-empty hint, `hint + ".mp3"` if it
      exists, else `sanitize_filename(hint) + ".mp3"` if that exists; failing
      both, or with an empty hint, whatever `find_audio_path` finds. `None` is the
      "Missing audio" warning. */
  function PlayAudioPath(db: CharDb, word: string, hint: string, dir: Listing): (r: Option<string>)
    ensures hint != "" && Exists(dir, hint + ".mp3") ==> r == Some(hint + ".mp3")
    ensures hint != "" && !Exists(dir, hint + ".mp3") && Exists(dir, Sanitize(db, hint) + ".mp3") ==>
      r == Some(Sanitize(db, hint) + ".mp3")
    ensures hint == "" || (!Exists(dir, hint + ".mp3") && !Exists(dir, Sanitize(db, hint) + ".mp3")) ==>
      r == FindAudioPath(db, word, dir)
    ensures r.Some? ==> Exists(dir, r.value)
    ensures dir.None? ==> r.None?
  {
    var hinted :=
      if hint == [] then None
      else if Exists(dir, hint + ".mp3") then Some(hint + ".mp3")
      else if Exists(dir, Sanitize(db, hint) + ".mp3") then Some(Sanitize(db, hint) + ".mp3")
      else None;
    if hinted.None? then FindAudioPath(db, word, dir) else hinted
  }

  /** The hint wins over the word: when the literal hinted file exists, the word
      does not matter. */
  lemma HintOverridesWord(db: CharDb, word1: string, word2: string, hint: string, dir: Listing)
    requires hint != "" && Exists(dir, hint + ".mp3")
    ensures PlayAudioPath(db, word1, hint, dir) == PlayAudioPath(db, word2, hint, dir)
  {
  }

  // ---------------------------------------------------------------------------
  // Recordings

  /** The file `record_audio` writes for a word:
      `sanitize_filename(word) + "_your_voice.wav"`. */
  function RecordingName(db: CharDb, word: string): string
  {
    Sanitize(db, word) + "_your_voice.wav"
  }

  /** `f` is a recording `find_latest_user_recording` considers for the base name
      `base`: a `.wav` in any case whose `splitext` root starts with `base`. */
  predicate IsRecordingOf(db: CharDb, base: string, f: string)
  {
    HasExt(db, f, ".wav") && StartsWith(SplitextRoot(f), base)
  }

  /** A recording whose time can be read (`getmtime` raising `OSError` is a name
      missing from `mtimes`). */
  predicate Candidate(db: CharDb, base: string, mtimes: map<string, int>, f: string)
  {
    IsRecordingOf(db, base, f) && f in mtimes
  }

  /** No candidate among the first `n` entries is newer than `t`. */
  ghost predicate AtMost(db: CharDb, base: string, names: seq<string>, mtimes: map<string, int>, n: nat, t: int)
    requires n <= |names|
  {
    forall j :: 0 <= j < n && Candidate(db, base, mtimes, names[j]) ==> mtimes[names[j]] <= t
  }

  /** Every candidate among the first `n` entries is strictly older than `t`. */
  ghost predicate Below(db: CharDb, base: string, names: seq<string>, mtimes: map<string, int>, n: nat, t: int)
    requires n <= |names|
  {
    forall j :: 0 <= j < n && Candidate(db, base, mtimes, names[j]) ==> mtimes[names[j]] < t
  }

  /** Among the first `n` entries, `names[i]` is the recording the selector must
      return: its time beats the `-1` start value, no candidate is newer, and
      every earlier candidate is strictly older (the first of equal times wins). */
  ghost predicate IsLatest(db: CharDb, base: string, names: seq<string>, mtimes: map<string, int>, n: nat, i: int)
    requires n <= |names|
  {
    && 0 <= i < n
    && Candidate(db, base, mtimes, names[i])
    && mtimes[names[i]] > -1
    && AtMost(db, base, names, mtimes, n, mtimes[names[i]])
    && Below(db, base, names, mtimes, i, mtimes[names[i]])
  }

  /** Among the first `n` entries no candidate beats the `-1` start value. */
  ghost predicate NoRecording(db: CharDb, base: string, names: seq<string>, mtimes: map<string, int>, n: nat)
    requires n <= |names|
  {
    AtMost(db, base, names, mtimes, n, -1)
  }

  /** `find_latest_user_recording`: `None` for a missing or unreadable folder,
      otherwise the newest recording for the word's sanitized name. */
  method FindLatestRecording(db: CharDb, word: string, dir: Listing, mtimes: map<string, int>)
    returns (r: Option<string>)
    ensures dir.None? ==> r.None?
    ensures dir.Some? && r.None? ==> NoRecording(db, Sanitize(db, word), dir.value, mtimes, |dir.value|)
    ensures dir.Some? && r.Some? ==>
      exists i :: IsLatest(db, Sanitize(db, word), dir.value, mtimes, |dir.value|, i) && r.value == dir.value[i]
  {
    if dir.None? {
      return None;
    }
    r := LatestRecording(db, Sanitize(db, word), dir.value, mtimes);
  }

  /** The running maximum after the first `n` entries: the position of the
      newest candidate so far and its time, starting from no position and `-1`
      and moving only on a strictly newer candidate. */
  function Newest(db: CharDb, base: string, names: seq<string>, mtimes: map<string, int>, n: nat): (r: (Option<nat>, int))
    requires n <= |names|
    ensures r.1 >= -1
    ensures r.0.None? ==> r.1 == -1
    ensures r.0.Some? ==> r.0.value < n && Candidate(db, base, mtimes, names[r.0.value]) && r.1 == mtimes[names[r.0.value]]
  {
    if n == 0 then (None, -1)
    else
      var (at, t) := Newest(db, base, names, mtimes, n - 1);
      var f := names[n - 1];
      if Candidate(db, base, mtimes, f) && mtimes[f] > t then (Some(n - 1), mtimes[f]) else (at, t)
  }

  /** The running maximum is the latest recording among the entries seen, or no
      position when no candidate beats `-1`. */
  lemma {:induction false} NewestIsLatest(db: CharDb, base: string, names: seq<string>, mtimes: map<string, int>, n: nat)
    requires n <= |names|
    ensures var (at, t) := Newest(db, base, names, mtimes, n);
      && t >= -1
      && (at.None? ==> t == -1 && NoRecording(db, base, names, mtimes, n))
      && (at.Some? ==> IsLatest(db, base, names, mtimes, n, at.value) && t == mtimes[names[at.value]])
  {
    if n > 0 {
      NewestIsLatest(db, base, names, mtimes, n - 1);
      var (at, t) := Newest(db, base, names, mtimes, n - 1);
      var f := names[n - 1];
      if Candidate(db, base, mtimes, f) && mtimes[f] > t {
        NewerExtends(db, base, names, mtimes, n - 1, at, t);
      } else {
        OlderKeeps(db, base, names, mtimes, n - 1, at, t);
      }
    }
  }

  /** An entry at position `n` that is not a strictly newer candidate leaves the
      latest recording where it was. */
  lemma OlderKeeps(db: CharDb, base: string, names: seq<string>, mtimes: map<string, int>, n: nat, at: Option<nat>, t: int)
    requires n < |names| && t >= -1
    requires at.None? ==> t == -1 && NoRecording(db, base, names, mtimes, n)
    requires at.Some? ==> IsLatest(db, base, names, mtimes, n, at.value) && t == mtimes[names[at.value]]
    requires !(Candidate(db, base, mtimes, names[n]) && mtimes[names[n]] > t)
    ensures at.None? ==> NoRecording(db, base, names, mtimes, n + 1)
    ensures at.Some? ==> IsLatest(db, base, names, mtimes, n + 1, at.value)
  {
    AtMostExtends(db, base, names, mtimes, n, t);
  }

  /** A strictly newer candidate at position `n` is the latest among the first
      `n + 1` entries. */
  lemma NewerExtends(db: CharDb, base: string, names: seq<string>, mtimes: map<string, int>, n: nat, at: Option<nat>, t: int)
    requires n < |names| && t >= -1
    requires at.None? ==> t == -1 && NoRecording(db, base, names, mtimes, n)
    requires at.Some? ==> IsLatest(db, base, names, mtimes, n, at.value) && t == mtimes[names[at.value]]
    requires Candidate(db, base, mtimes, names[n]) && mtimes[names[n]] > t
    ensures IsLatest(db, base, names, mtimes, n + 1, n)
  {
    var tn := mtimes[names[n]];
    AtMostRaises(db, base, names, mtimes, n, t, tn);
    AtMostExtends(db, base, names, mtimes, n, tn);
  }

  /** Entry `n` keeps the bound `t` when it is no candidate newer than `t`. */
  lemma AtMostExtends(db: CharDb, base: string, names: seq<string>, mtimes: map<string, int>, n: nat, t: int)
    requires n < |names| && AtMost(db, base, names, mtimes, n, t)
    requires !(Candidate(db, base, mtimes, names[n]) && mtimes[names[n]] > t)
    ensures AtMost(db, base, names, mtimes, n + 1, t)
  {
  }

  /** A bound `t` below `u` makes every candidate strictly older than `u`. */
  lemma AtMostRaises(db: CharDb, base: string, names: seq<string>, mtimes: map<string, int>, n: nat, t: int, u: int)
    requires n <= |names| && AtMost(db, base, names, mtimes, n, t) && t < u
    ensures Below(db, base, names, mtimes, n, u) && AtMost(db, base, names, mtimes, n, u)
  {
  }

  /** The loop of `find_latest_user_recording`. */
  method LatestRecording(db: CharDb, base: string, names: seq<string>, mtimes: map<string, int>)
    returns (r: Option<string>)
    ensures r.None? ==> NoRecording(db, base, names, mtimes, |names|)
    ensures r.Some? ==> exists i :: IsLatest(db, base, names, mtimes, |names|, i) && r.value == names[i]
  {
    var latest := -1;
    r := None;
    ghost var at: Option<nat> := None;
    var i := 0;
    while i < |names|
      invariant 0 <= i <= |names|
      invariant Newest(db, base, names, mtimes, i) == (at, latest)
      invariant at.None? <==> r.None?
      invariant at.Some? ==> at.value < i && r.value == names[at.value]
    {
      var f := names[i];
      if Candidate(db, base, mtimes, f) && mtimes[f] > latest {
        latest := mtimes[f];
        r := Some(f);
        at := Some(i);
      }
      i := i + 1;
    }
    NewestIsLatest(db, base, names, mtimes, |names|);
    if r.Some? {
      assert IsLatest(db, base, names, mtimes, |names|, at.value);
    }
  }

  /** At most one position is the latest recording, so the selector's result is
      determined by the listing and the times. */
  lemma IsLatestUnique(db: CharDb, base: string, names: seq<string>, mtimes: map<string, int>, n: nat, i: int, k: int)
    requires n <= |names|
    requires IsLatest(db, base, names, mtimes, n, i) && IsLatest(db, base, names, mtimes, n, k)
    ensures i == k
  {
  }

  /** Lower-casing leaves `.wav` and `_your_voice.wav` as they are. */
  lemma LowerKeepsSuffix(db: CharDb, s: string)
    requires LowerFacts(db) && AsciiFacts(db)
    requires forall c :: c in s ==> IsAscii(c) && !IsAsciiUpper(c)
    ensures MapChars(s, db.lower) == s
  {
    forall c | c in s
      ensures db.lower(c) == c
    {
      if !IsAsciiLower(c) {
        assert Caseless(c);
      }
    }
    MapCharsIdentity(s, db.lower);
  }

  /** Ending in a lower-case ASCII suffix survives lower-casing the whole name. */
  lemma HasExtOfSuffix(db: CharDb, s: string, ext: string)
    requires LowerFacts(db) && AsciiFacts(db)
    requires forall c :: c in ext ==> IsAscii(c) && !IsAsciiUpper(c)
    ensures HasExt(db, s + ext, ext)
  {
    MapCharsAppend(s, ext, db.lower);
    LowerKeepsSuffix(db, ext);
  }

  /** The file `record_audio` writes for a word is found again as a recording of
      that word. */
  lemma RecordingNameQualifies(db: CharDb, word: string)
    requires Coherent(db)
    ensures IsRecordingOf(db, Sanitize(db, word), RecordingName(db, word))
  {
    var base := Sanitize(db, word);
    assert '.' !in base by {
      assert IsPunct('.');
    }
    RecordingOfBase(db, base);
  }

  lemma RecordingOfBase(db: CharDb, base: string)
    requires LowerFacts(db) && AsciiFacts(db) && '.' !in base
    ensures IsRecordingOf(db, base, base + "_your_voice.wav")
  {
    var stem := base + "_your_voice";
    assert base + "_your_voice.wav" == stem + ".wav";
    WavIsLower();
    HasExtOfSuffix(db, stem, ".wav");
    RecordingRoot(base);
    assert stem[..|base|] == base;
  }

  lemma WavIsLower()
    ensures forall c :: c in ".wav" ==> IsAscii(c) && !IsAsciiUpper(c)
  {
  }

  /** The `splitext` root of a recording name is the base with `_your_voice`. */
  lemma RecordingRoot(base: string)
    requires '.' !in base
    ensures SplitextRoot(base + "_your_voice.wav") == base + "_your_voice"
  {
    var stem := base + "_your_voice";
    assert base + "_your_voice.wav" == stem + ".wav";
    assert '.' !in stem;
    RootOfStemWithExtension(stem, ".wav");
  }

  /** Matching is by prefix: the recording of any word whose sanitized name
      extends this word's also counts as a recording of this word (the recording
      of "кошка" is considered for "кош"). */
  lemma LongerWordRecordingQualifies(db: CharDb, word: string, other: string)
    requires Coherent(db)
    requires StartsWith(Sanitize(db, other), Sanitize(db, word))
    ensures IsRecordingOf(db, Sanitize(db, word), RecordingName(db, other))
  {
    var b := Sanitize(db, other);
    assert '.' !in b by {
      assert IsPunct('.');
    }
    ExtendedBaseQualifies(db, Sanitize(db, word), b);
  }

  lemma ExtendedBaseQualifies(db: CharDb, base: string, longer: string)
    requires LowerFacts(db) && AsciiFacts(db) && '.' !in longer && StartsWith(longer, base)
    ensures IsRecordingOf(db, base, longer + "_your_voice.wav")
  {
    RecordingOfBase(db, longer);
    var root := longer + "_your_voice";
    assert root[..|longer|] == longer;
    assert root[..|base|] == longer[..|base|];
  }
}
