/** The generator of native MP3 files: its own copy of `sanitize_filename`, the
    word list it speaks, and the file name it saves each word under. Speech
    synthesis, saving and the pause between requests are not part of this model. */
module GenerateAudio {
  import opened Wrappers
  import opened UnicodeData
  import opened Strings
  import opened Normalize
  import opened AudioLookup

  /** The generator's `sanitize_filename`, step by step as it is written there:
      each `replace` is its own pass. It returns exactly what the flash-card
      program's copy returns. */
  function SanitizeFilename(db: CharDb, text: string): (r: string)
    ensures r == Sanitize(db, text)
  {
    var noAccents := Drop(Nfd(db, text), db.isMn);
    var yoFixed := ReplaceChar(ReplaceChar(noAccents, 'ё', 'е'), 'Ё', 'Е');
    var cleaned := Drop(yoFixed, IsPunct);
    var unslashed := ReplaceChar(ReplaceChar(cleaned, '/', '-'), '\\', '-');
    SameSteps(noAccents, cleaned);
    CollapseStrip(unslashed, db.isSpace)
  }

  /** The two `replace` passes of each pair do what one character map does. */
  lemma SameSteps(noAccents: string, cleaned: string)
    ensures ReplaceChar(ReplaceChar(noAccents, 'ё', 'е'), 'Ё', 'Е') == MapChars(noAccents, FoldYo)
    ensures ReplaceChar(ReplaceChar(cleaned, '/', '-'), '\\', '-') == MapChars(cleaned, Unslash)
  {
    MapCharsTwice(noAccents, c => if c == 'ё' then 'е' else c, c => if c == 'Ё' then 'Е' else c, FoldYo);
    MapCharsTwice(cleaned, c => if c == '/' then '-' else c, c => if c == '\\' then '-' else c, Unslash);
  }

  /** The words the generator speaks, with their stress marks (U+0301, already
      decomposed), and their English glosses. */
  const Words: seq<(string, string)> := [
    ("ну\U{0301}ль", "zero"),
    ("оди\U{0301}н", "one"),
    ("два\U{0301}", "two"),
    ("три\U{0301}", "three"),
    ("четы\U{0301}ре", "four"),
    ("пять", "five"),
    ("шесть", "six"),
    ("се\U{0301}мь", "seven"),
    ("во\U{0301}семь", "eight"),
    ("де\U{0301}вять", "nine"),
    ("де\U{0301}сять", "ten")
  ]

  /** The same words without stress marks. */
  const Plain: seq<string> := ["нуль", "один", "два", "три", "четыре", "пять", "шесть", "семь", "восемь", "девять", "десять"]

  /** The file the generator saves a word under. */
  function GeneratedName(db: CharDb, rus: string): (r: string)
    ensures r == DirectName(db, rus)
  {
    SanitizeFilename(db, rus) + ".mp3"
  }

  /** A word of basic Cyrillic letters other than й/Й passes through
      `sanitize_filename` unchanged. */
  lemma CyrillicWordIsSafe(db: CharDb, s: string)
    requires CyrillicFacts(db)
    requires forall c :: c in s ==> (IsCyrillicLower(c) || IsCyrillicUpper(c)) && c != 'й' && c != 'Й'
    ensures SafeName(db, s)
  {
    forall c | c in s
      ensures !IsPunct(c) && !db.isSpace(c)
    {
      NotPunct(c);
    }
    assert forall i :: 0 <= i < |s| ==> s[i] in s;
  }

  /** A stress mark in an otherwise safe word is all that `sanitize_filename`
      removes. */
  lemma StressRemoved(db: CharDb, s: string, i: nat)
    requires Coherent(db) && SafeName(db, s) && i <= |s|
    ensures Sanitize(db, s[..i] + ['\U{0301}'] + s[i..]) == s
  {
    assert IsCombiningMark('\U{0301}');
    SanitizeIgnoresStress(db, s, i, '\U{0301}');
    SanitizeFixed(db, s);
  }

  /** Where each word of the list carries its stress mark; -1 for none. */
  const StressAt: seq<int> := [2, 3, 3, 3, 4, -1, -1, 2, 2, 2, 2]

  /** Each listed word is its unstressed spelling with at most one U+0301
      inserted. */
  lemma WordsAreStressedPlain(k: nat)
    requires k < |Words|
    ensures |Plain| == |StressAt| == |Words|
    ensures StressAt[k] < 0 ==> Words[k].0 == Plain[k]
    ensures StressAt[k] >= 0 ==>
      StressAt[k] <= |Plain[k]| && Words[k].0 == Plain[k][..StressAt[k]] + ['\U{0301}'] + Plain[k][StressAt[k]..]
  {
  }

  /** The unstressed spellings use only basic Cyrillic letters other than й. */
  lemma PlainIsCyrillic(k: nat)
    requires k < |Plain|
    ensures forall c :: c in Plain[k] ==> (IsCyrillicLower(c) || IsCyrillicUpper(c)) && c != 'й' && c != 'Й'
  {
  }

  /** The unstressed spellings are pairwise different. */
  lemma PlainDistinct(k: nat, l: nat)
    requires k < |Plain| && l < |Plain| && k != l
    ensures Plain[k] != Plain[l]
  {
  }

  /** Every word of the list is saved under its unstressed spelling: ну́ль as
      "нуль.mp3", оди́н as "один.mp3", четы́ре as "четыре.mp3", and so on. */
  lemma WordsLoseTheirStress(db: CharDb, k: nat)
    requires Coherent(db) && k < |Words|
    ensures SanitizeFilename(db, Words[k].0) == Plain[k]
    ensures GeneratedName(db, Words[k].0) == Plain[k] + ".mp3"
  {
    WordsAreStressedPlain(k);
    PlainIsCyrillic(k);
    var s := Plain[k];
    CyrillicWordIsSafe(db, s);
    if StressAt[k] < 0 {
      SanitizeFixed(db, s);
    } else {
      StressRemoved(db, s, StressAt[k]);
    }
  }

  /** No two words of the list are saved under the same name. */
  lemma GeneratedNamesDistinct(db: CharDb, k: nat, l: nat)
    requires Coherent(db) && k < |Words| && l < |Words| && k != l
    ensures GeneratedName(db, Words[k].0) != GeneratedName(db, Words[l].0)
  {
    WordsAreStressedPlain(k);
    WordsLoseTheirStress(db, k);
    WordsLoseTheirStress(db, l);
    PlainDistinct(k, l);
    SuffixKeepsApart(Plain[k], Plain[l], ".mp3");
  }

  lemma SuffixKeepsApart(a: string, b: string, x: string)
    requires a != b
    ensures a + x != b + x
  {
    if |a| == |b| {
      assert (a + x)[..|a|] == a && (b + x)[..|b|] == b;
    }
  }

  /** In a folder holding a generated file, looking its word up finds that file by
      the direct tier, whatever else the folder holds. */
  lemma GeneratedFileIsFoundDirectly(db: CharDb, k: nat, names: seq<string>)
    requires k < |Words| && GeneratedName(db, Words[k].0) in names
    ensures FindAudioPath(db, Words[k].0, Some(names)) == Some(GeneratedName(db, Words[k].0))
  {
  }

  /** Every listed word, stressed as it is, finds the file named after its
      unstressed spelling (четы́ре finds "четыре.mp3") by the direct tier. */
  lemma WordFindsItsPlainFile(db: CharDb, k: nat, names: seq<string>)
    requires Coherent(db) && k < |Words| && Plain[k] + ".mp3" in names
    ensures FindAudioPath(db, Words[k].0, Some(names)) == Some(Plain[k] + ".mp3")
  {
    WordsLoseTheirStress(db, k);
    GeneratedFileIsFoundDirectly(db, k, names);
  }

  /** The empty text gives the empty name. */
  lemma EmptyTextEmptyName(db: CharDb)
    ensures SanitizeFilename(db, "") == ""
  {
  }
}
