/** The four pieces of the Unicode character database the normalisers consult:
    `unicodedata.normalize('NFD', ·)`, `unicodedata.category(·) == 'Mn'`, the
    whitespace class shared by `\s` and `str.strip()`, and `str.lower()`. No table
    is encoded: the database is a value of type `CharDb`, and `Coherent` collects
    the facts about it that the properties below rely on. `Sample` is one database
    meeting them, so the facts are consistent. */
module UnicodeData {

  /** `decompose` maps one character to its full canonical decomposition, `isMn`
      tests general category Mn, `isSpace` is the whitespace test, `lower` the
      per-character lower-case mapping. */
  datatype CharDb = CharDb(
    decompose: char -> string,
    isMn: char -> bool,
    isSpace: char -> bool,
    lower: char -> char)

  /** `c` is its own canonical decomposition. */
  predicate Stable(db: CharDb, c: char)
  {
    db.decompose(c) == [c]
  }

  predicate IsAscii(c: char) { c < '\U{0080}' }

  predicate IsAsciiUpper(c: char) { 'A' <= c <= 'Z' }

  predicate IsAsciiLower(c: char) { 'a' <= c <= 'z' }

  /** А..Я, U+0410..U+042F. */
  predicate IsCyrillicUpper(c: char) { 'А' <= c <= 'Я' }

  /** а..я, U+0430..U+044F. */
  predicate IsCyrillicLower(c: char) { 'а' <= c <= 'я' }

  /** The Combining Diacritical Marks block, U+0300..U+036F. */
  predicate IsCombiningMark(c: char) { '\U{0300}' <= c <= '\U{036F}' }

  /** Characters without case: ASCII other than letters, and the ellipsis, em dash
      and en dash. */
  predicate Caseless(c: char)
  {
    (IsAscii(c) && !IsAsciiUpper(c) && !IsAsciiLower(c)) || c == '…' || c == '—' || c == '–'
  }

  /** The ASCII characters for which Python's `str.isspace()` holds. */
  const AsciiSpaces: set<char> :=
    {' ', '\t', '\n', '\r', '\U{000B}', '\U{000C}', '\U{001C}', '\U{001D}', '\U{001E}', '\U{001F}'}

  /** The facts about the Unicode database that the model relies on. */
  ghost predicate Coherent(db: CharDb)
  {
    && DecompositionFacts(db) && SeparatorFacts(db) && LowerFacts(db) && AsciiFacts(db)
    && CyrillicFacts(db) && MarkFacts(db)
  }

  /** NFD is a full decomposition: what a character decomposes to decomposes no further. */
  ghost predicate DecompositionFacts(db: CharDb)
  {
    forall c, d :: d in db.decompose(c) ==> Stable(db, d)
  }

  /** No decomposition is empty, and `.`, `/` and `\` occur in a decomposition only
      as the decomposition of themselves, so NFD never moves a file extension and
      never makes a path separator. */
  ghost predicate SeparatorFacts(db: CharDb)
  {
    && (forall c :: db.decompose(c) != [])
    && (forall c, d :: d in db.decompose(c) && (d == '.' || d == '/' || d == '\\') ==> c == d)
  }

  /** Lower-casing is idempotent, keeps a decomposed character decomposed, creates no
      Mn mark, keeps whitespace and non-whitespace apart, and neither moves a caseless
      character nor lands on one. */
  ghost predicate LowerFacts(db: CharDb)
  {
    && (forall c :: db.lower(db.lower(c)) == db.lower(c))
    && (forall c :: Stable(db, c) ==> Stable(db, db.lower(c)))
    && (forall c :: !db.isMn(c) ==> !db.isMn(db.lower(c)))
    && (forall c :: db.isSpace(db.lower(c)) == db.isSpace(c))
    && (forall c :: Caseless(c) || Caseless(db.lower(c)) ==> db.lower(c) == c)
  }

  /** ASCII: nothing decomposes, nothing is a mark, the whitespace is `AsciiSpaces`,
      and A..Z lower-case to a..z. */
  ghost predicate AsciiFacts(db: CharDb)
  {
    && (forall c :: IsAscii(c) ==> Stable(db, c) && !db.isMn(c) && (db.isSpace(c) <==> c in AsciiSpaces))
    && (forall c :: IsAsciiUpper(c) ==> db.lower(c) == (c as int + 32) as char)
    && (forall c :: IsAsciiLower(c) ==> db.lower(c) == c)
  }

  /** Basic Cyrillic: only й and Й decompose, as do ё and Ё outside the range; А..Я
      lower-case to а..я and Ё to ё. */
  ghost predicate CyrillicFacts(db: CharDb)
  {
    && (forall c :: (IsCyrillicUpper(c) || IsCyrillicLower(c)) && c != 'й' && c != 'Й' ==>
          Stable(db, c) && !db.isMn(c) && !db.isSpace(c))
    && (forall c :: IsCyrillicUpper(c) ==> db.lower(c) == (c as int + 32) as char)
    && (forall c :: IsCyrillicLower(c) ==> db.lower(c) == c)
    && db.lower('Ё') == 'ё'
    && db.decompose('ё') == ['е', '\U{0308}'] && db.decompose('Ё') == ['Е', '\U{0308}']
    && db.decompose('й') == ['и', '\U{0306}'] && db.decompose('Й') == ['И', '\U{0306}']
  }

  /** Combining diacritical marks are Mn; grave, acute, breve and diaeresis do not
      decompose. */
  ghost predicate MarkFacts(db: CharDb)
  {
    && (forall c :: IsCombiningMark(c) ==> db.isMn(c) && !db.isSpace(c))
    && Stable(db, '\U{0300}') && Stable(db, '\U{0301}') && Stable(db, '\U{0306}') && Stable(db, '\U{0308}')
  }

  /** A database covering ASCII, basic Cyrillic with ё/Ё and the combining marks. */
  function Sample(): CharDb
  {
    CharDb(SampleDecompose, IsCombiningMark, IsAsciiSpace, SampleLower)
  }

  function SampleDecompose(c: char): string
  {
    if c == 'ё' then ['е', '\U{0308}'] else if c == 'Ё' then ['Е', '\U{0308}']
    else if c == 'й' then ['и', '\U{0306}'] else if c == 'Й' then ['И', '\U{0306}']
    else [c]
  }

  predicate IsAsciiSpace(c: char) { c in AsciiSpaces }

  function SampleLower(c: char): char
  {
    if IsAsciiUpper(c) || IsCyrillicUpper(c) then (c as int + 32) as char
    else if c == 'Ё' then 'ё' else c
  }

  lemma SampleIsCoherent()
    ensures Coherent(Sample())
  {
    var db := Sample();
    forall c, d | d in db.decompose(c)
      ensures Stable(db, d)
    {
      SampleDecomposeStable(c, d);
    }
    assert DecompositionFacts(db);
    SampleSeparatorFacts();
    SampleLowerIsCoherent();
    SampleTablesAreCoherent();
  }

  lemma SampleSeparatorFacts()
    ensures SeparatorFacts(Sample())
  {
    var db := Sample();
    forall c
      ensures db.decompose(c) == SampleDecompose(c) && SampleDecompose(c) != []
    {
    }
  }

  lemma SampleLowerIsCoherent()
    ensures LowerFacts(Sample())
  {
    var db := Sample();
    forall c
      ensures db.lower(db.lower(c)) == db.lower(c)
      ensures Stable(db, c) ==> Stable(db, db.lower(c))
      ensures !db.isMn(c) ==> !db.isMn(db.lower(c))
      ensures db.isSpace(db.lower(c)) == db.isSpace(c)
      ensures Caseless(c) || Caseless(db.lower(c)) ==> db.lower(c) == c
    {
      SampleLowerFacts(c);
    }
  }

  lemma SampleTablesAreCoherent()
    ensures AsciiFacts(Sample()) && CyrillicFacts(Sample()) && MarkFacts(Sample())
  {
    SampleAsciiFacts();
    SampleCyrillicFacts();
    SampleMarkFacts();
  }

  lemma SampleAsciiFacts()
    ensures AsciiFacts(Sample())
  {
    var db := Sample();
    forall c
      ensures IsAsciiUpper(c) ==> db.lower(c) == (c as int + 32) as char
      ensures IsAsciiLower(c) ==> db.lower(c) == c
      ensures IsAscii(c) ==> Stable(db, c) && !db.isMn(c) && (db.isSpace(c) <==> c in AsciiSpaces)
    {
      assert db.lower(c) == SampleLower(c);
      assert db.decompose(c) == SampleDecompose(c);
    }
  }

  lemma SampleCyrillicFacts()
    ensures CyrillicFacts(Sample())
  {
    var db := Sample();
    forall c
      ensures IsCyrillicUpper(c) ==> db.lower(c) == (c as int + 32) as char
      ensures IsCyrillicLower(c) ==> db.lower(c) == c
      ensures (IsCyrillicUpper(c) || IsCyrillicLower(c)) && c != 'й' && c != 'Й' ==>
                Stable(db, c) && !db.isMn(c) && !db.isSpace(c)
    {
      assert db.lower(c) == SampleLower(c);
      assert db.decompose(c) == SampleDecompose(c);
    }
    assert db.lower('Ё') == 'ё';
    assert db.decompose('ё') == ['е', '\U{0308}'] && db.decompose('Ё') == ['Е', '\U{0308}'];
    assert db.decompose('й') == ['и', '\U{0306}'] && db.decompose('Й') == ['И', '\U{0306}'];
  }

  lemma SampleMarkFacts()
    ensures MarkFacts(Sample())
  {
    var db := Sample();
    forall c
      ensures IsCombiningMark(c) ==> db.isMn(c) && !db.isSpace(c)
    {
      assert db.decompose(c) == SampleDecompose(c);
    }
    assert Stable(db, '\U{0300}') && Stable(db, '\U{0301}') && Stable(db, '\U{0306}') && Stable(db, '\U{0308}');
  }

  lemma SampleDecomposeStable(c: char, d: char)
    requires d in SampleDecompose(c)
    ensures SampleDecompose(d) == [d]
  {
  }

  lemma SampleLowerFacts(c: char)
    ensures SampleLower(SampleLower(c)) == SampleLower(c)
    ensures SampleDecompose(c) == [c] ==> SampleDecompose(SampleLower(c)) == [SampleLower(c)]
    ensures !IsCombiningMark(c) ==> !IsCombiningMark(SampleLower(c))
    ensures IsAsciiSpace(SampleLower(c)) == IsAsciiSpace(c)
    ensures Caseless(c) || Caseless(SampleLower(c)) ==> SampleLower(c) == c
  {
  }
}
