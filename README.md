# Audio flash cards: file naming and audio lookup

A Dafny model of the part of the Russian audio flash-card program that turns
words into file names and finds audio files again:

- `sanitize_filename`, which exists in two identical copies: one in the
  flash-card GUI and one in the MP3 generator. It decomposes the text (NFD),
  drops combining `Mn` marks, folds ё/Ё to е/Е, deletes the punctuation class
  `?!:;,"'.…—–-`, turns `/` and `\` into `-`, collapses whitespace runs to one
  space, and trims.
- `norm_base`, the comparison key. It takes the `os.path.splitext` root, runs the
  same steps except the slash replacement, and lower-cases.
- `find_audio_path`, which tries three tiers in order: the direct sanitized name,
  then the first `.mp3` with an equal key, then the first `.mp3` with an equal key
  once spaces are removed.
- The filename-hint cascade of `play_audio`.
- `find_latest_user_recording`, a loop that keeps a running maximum of
  modification times.
- The names under which recordings (`record_audio`) and generated MP3s are saved,
  and the generator's word list.

Module layout:

| module | what it holds |
|---|---|
| `Strings` | `seq<char>` helpers: character deletion and mapping, `re.sub(r'\s+', ' ', s).strip()` |
| `UnicodeData` | the Unicode database as a parameter (`CharDb`), plus the facts assumed about it |
| `Paths` | POSIX `os.path.splitext` |
| `Normalize` | `sanitize_filename` and `norm_base`, and their properties |
| `AudioLookup` | `find_audio_path`, `play_audio`'s cascade, the recording name, the latest-recording selector |
| `GenerateAudio` | the generator's copy of `sanitize_filename`, `WORDS`, the generated file name |

### Unicode database as a parameter

The Unicode database is not encoded. Every operation takes a
`CharDb(decompose, isMn, isSpace, lower)`, which stands for the following per
character:

- NFD decomposition;
- category `Mn`;
- the regex `\s` / `str.isspace` class;
- `str.lower`.

The predicate `Coherent` lists the facts the proofs rely on:

- decompositions are final;
- no decomposition is empty, and `.`, `/` and `\` occur in a decomposition only
  as their own, so decomposing never moves a file extension and never makes a
  path separator;
- lower-casing is idempotent and keeps classes apart;
- ASCII and basic Cyrillic behave as in Unicode;
- ё/Ё/й/Й decompose;
- U+0300..U+036F are `Mn`.

Lemmas require only the parts of `Coherent` they use. `UnicodeData.Sample` is a
small concrete database, proved to satisfy `Coherent`, so the assumptions are
consistent.

### Folders as parameters

A folder is a `Listing`: `None` when it is missing or cannot be listed, otherwise
its entry names in listing order. `os.path.exists(join(folder, n))` is membership
in the listing. File times are a `map<string, int>`, and a name missing from the
map is a `getmtime` that raises `OSError`. Lookups return the bare entry name, not
the joined path.

### Behaviour worth knowing

- `sanitize_filename` does not change letter case (gui_flash_cards.py:19-27).
  Only `norm_base` lower-cases (gui_flash_cards.py:42). `Normalize.SanitizeContents`
  states what survives sanitizing.
- The second hint tier of `play_audio` (gui_flash_cards.py:96-98) checks that
  exactly `sanitize_filename(hint) + ".mp3"` exists. It does not scan for a
  normalised match.
- The latest-recording selector compares with strict `>` (gui_flash_cards.py:162),
  so of equal times the first listed wins.
- Recordings are matched by prefix (gui_flash_cards.py:157), so
  "кошка_your_voice.wav" counts as a recording of "кош".
- The ё→е replacement (gui_flash_cards.py:25) never changes anything. NFD has
  already split ё into е + U+0308, and line 23 has dropped the mark.
  `Normalize.YoStepIsRedundant` proves this.
- In the same way, NFD splits й into и + U+0306, and line 23 drops the breve. So
  both normalisers write и for й, and "мой" and "мои" get the same file name and
  the same key. `Normalize.SanitizeFoldsShortI` and `Normalize.ShortIWordsCollide`
  state this.
- `norm_base` takes the `splitext` root first (gui_flash_cards.py:36), so a
  stress mark or punctuation character counts only when it changes where
  `splitext` cuts. For a stress mark or a punctuation character other than `.`,
  that happens when the final path component has nothing but dots before its
  last `.`: ".mp3" has no extension and keys to "mp3", while "́.mp3" (a mark
  before the dot) keys to "". An inserted `.` can itself start a new
  extension: "ab" keys to "ab", while "a.b" keys to "a". For a name of a non-empty stem
  plus an extension, as in "четы́ре.mp3" against "четыре.mp3", marks and
  punctuation in the stem make no difference
  (`Normalize.NormBaseIgnoresStressInStem`, `Normalize.NormBaseIgnoresPunctInStem`).

## Model

| member | source | states |
|---|---|---|
| Normalize.Sanitize | gui_flash_cards.py:19-27 | the result has no whitespace at either end, no two adjacent whitespace characters, and no whitespace but ' '; it holds no punctuation-class character, no `/` and no `\`, except the `-` that slashes become |
| Normalize.Clean | gui_flash_cards.py:21-26 | the steps both normalisers share (NFD, `Mn` removal, ё/Ё folding, punctuation deletion); what they keep is stated by `Normalize.CleanOutput`, `Normalize.CleanFixed` and `Normalize.CleanOfDecomposed` |
| Normalize.SanitizeKeeps | gui_flash_cards.py:26-27 | apart from whitespace, a sanitized name holds exactly the characters the shared steps keep, in order, with slashes written as `-` |
| Normalize.CleanOfDecomposed | gui_flash_cards.py:21-26 | on decomposed, mark-free text the shared steps delete exactly the punctuation and keep every other character, case included |
| Normalize.SanitizeContents | gui_flash_cards.py:19-27 | apart from whitespace, the sanitized name of decomposed, mark-free text is the text without its punctuation, in order and in its own case, with slashes as `-` |
| Normalize.SanitizeIgnoresComposition | gui_flash_cards.py:19-27 | a word gives the same sanitized name in composed (NFC) and decomposed (NFD) form |
| Normalize.SanitizeIgnoresPunct | gui_flash_cards.py:26 | inserting a punctuation-class character anywhere does not change the sanitized name ("слово?!" and "слово" get the same name) |
| Normalize.PunctIgnored | gui_flash_cards.py:26 | a punctuation-class character inserted anywhere vanishes in the shared steps |
| Normalize.SanitizeFoldsShortI | gui_flash_cards.py:21-24 | writing и for й (И for Й) at any position does not change the sanitized name |
| Normalize.ShortIWordsCollide | gui_flash_cards.py:21-24 | "мой" and "мои" get the same sanitized name |
| Normalize.SanitizeOutput | gui_flash_cards.py:21-25 | every character of a sanitized name is fully decomposed, is not an `Mn` mark, and is not ё/Ё |
| Normalize.HyphenComesFromSlash | gui_flash_cards.py:26 | a `-` in a sanitized name always comes from a `/` or `\` of the decomposed input (input hyphens are deleted) |
| Normalize.SanitizeFixed | gui_flash_cards.py:19-27 | sanitizing leaves a string unchanged if and only if it is tidy, decomposed, mark-free, punctuation-free and slash-free |
| Normalize.SanitizeIdempotent | gui_flash_cards.py:26 | a name with no `/` and no `\`, sanitized twice, equals the name sanitized once |
| Normalize.SanitizeIdempotentIff | gui_flash_cards.py:26 | sanitizing twice equals sanitizing once if and only if the first result has no `-` ("a/b" → "a-b" → "ab") |
| Normalize.SanitizeIgnoresStress | gui_flash_cards.py:21-24 | inserting a decomposed `Mn` mark anywhere does not change the sanitized name |
| Normalize.SanitizeIgnoresYo | gui_flash_cards.py:21-25 | writing е for ё (Е for Ё) at any position does not change the sanitized name |
| Normalize.YoStepIsRedundant | gui_flash_cards.py:25 | after NFD and mark removal the ё/Ё replacement is the identity |
| Normalize.CleanOutput | gui_flash_cards.py:21-26 | the shared steps keep only decomposed, non-mark, non-punctuation characters other than ё/Ё |
| Normalize.CleanFixed | gui_flash_cards.py:21-26 | the shared steps leave a string unchanged if and only if all its characters are decomposed, non-mark and non-punctuation |
| Normalize.CleanAppend | gui_flash_cards.py:21-26 | the shared steps distribute over concatenation |
| Normalize.MarkIgnored | gui_flash_cards.py:21-24 | a decomposed `Mn` mark inserted anywhere vanishes in the shared steps |
| Normalize.YoIgnored | gui_flash_cards.py:21-25 | ё and е (Ё and Е) at the same position give the same output of the shared steps |
| Normalize.NormBaseOutput | gui_flash_cards.py:29-42 | every key is tidy, decomposed, mark-free and punctuation-free, so it has no `.`; lower-casing leaves it unchanged |
| Normalize.NormBase | gui_flash_cards.py:29-42 | the key of a name; what it holds and when two names share a key are stated by the `NormBase…` lemmas below |
| Normalize.NormBaseKeeps | gui_flash_cards.py:36-42 | apart from whitespace, a key holds exactly the lower-cased characters the shared steps keep from the `splitext` root, in order |
| Normalize.NormBaseFixed | gui_flash_cards.py:29-42 | `norm_base` leaves a string unchanged if and only if the string is such a key |
| Normalize.NormBaseIdempotent | gui_flash_cards.py:29-42 | applying `norm_base` twice equals applying it once |
| Normalize.NormBaseIgnoresStress | gui_flash_cards.py:36-38 | for a dot-free name, inserting a decomposed `Mn` mark anywhere leaves the key unchanged |
| Normalize.NormBaseIgnoresYo | gui_flash_cards.py:36-39 | replacing ё by е (Ё by Е) anywhere leaves the key unchanged |
| Normalize.NormBaseIgnoresPunct | gui_flash_cards.py:36-40 | for a dot-free name, inserting a punctuation-class character other than `.` anywhere leaves the key unchanged |
| Normalize.NormBaseIgnoresCase | gui_flash_cards.py:36-42 | lower-casing any decomposed, non-mark character of a name leaves the key unchanged |
| Normalize.NormBaseIgnoresStressInStem | gui_flash_cards.py:36-38 | for a name made of a non-empty dot-free stem and an extension, a decomposed `Mn` mark inserted anywhere into the stem leaves the key unchanged ("четы́ре.mp3" and "четыре.mp3" share a key) |
| Normalize.NormBaseIgnoresPunctInStem | gui_flash_cards.py:36-40 | for such a name, a punctuation-class character other than `.` inserted anywhere into the stem leaves the key unchanged |
| Normalize.NormBaseIgnoresComposition | gui_flash_cards.py:36-37 | a name gives the same key in composed (NFC) and decomposed (NFD) form |
| Normalize.SplitextOfNfd | gui_flash_cards.py:36-37 | the `splitext` root of a decomposed name is the decomposed `splitext` root |
| Normalize.NormBaseIgnoresSpace | gui_flash_cards.py:36-42 | for a dot-free name, inserting a whitespace character anywhere changes the key only in its whitespace |
| Normalize.CleanOfNfd | gui_flash_cards.py:21-26 | the shared steps give the same output on a string and on its decomposed form |
| Normalize.NormBaseIgnoresExtension | gui_flash_cards.py:36 | a non-empty dot-free stem not ending in `/` has the same key with an extension such as `.mp3` appended |
| Paths.SplitextRoot | gui_flash_cards.py:36 | the root is a prefix of the name, and a name without a dot is its own root |
| Paths.RootLengthFacts | gui_flash_cards.py:36 | whatever `splitext` cuts off starts at the last dot and holds no `/`, and a non-dot character of the final component precedes it |
| Paths.RootLengthCuts | gui_flash_cards.py:36 | when the final path component holds a `.` after some non-dot character, `splitext` does cut an extension off |
| Paths.RootOfStemWithExtension | gui_flash_cards.py:36 | the root of stem + `.ext` is the stem, for a non-empty dot-free stem not ending in `/` |
| Strings.CollapseStripShape | gui_flash_cards.py:27 | whitespace collapsing and stripping leaves no whitespace at either end, no whitespace run and no whitespace but ' ', and adds no character except ' ' |
| Strings.CollapseStripFixed | gui_flash_cards.py:27 | collapsing and stripping an already tidy string gives it back unchanged |
| Strings.CollapseStrip | gui_flash_cards.py:27 | collapsing and stripping never lengthens the text; its output is pinned down by `Strings.CollapseStripShape`, `Strings.CollapseStripKeeps`, `Strings.CollapseStripJoin`, `Strings.CollapseStripTrim` and `Strings.CollapseStripFixed` |
| Strings.CollapseStripTrim | gui_flash_cards.py:27 | a whitespace run at either end of a text is dropped: adding one in front or behind does not change the collapsed and stripped result |
| Strings.CollapseStripJoin | gui_flash_cards.py:27 | a whitespace run between a word-ending and a word-starting part becomes exactly one space: the result is the two parts collapsed and stripped, joined by ' ' |
| Strings.CollapseStripKeeps | gui_flash_cards.py:27 | collapsing and stripping keeps every non-whitespace character, in order; only whitespace is removed or rewritten |
| AudioLookup.KeyMatches | gui_flash_cards.py:54-72 | an entry takes part in a scan tier when its lower-cased name ends in `.mp3`, and matches when its key equals the word's key (scan tier) or does so once spaces are removed (loose tier); `AudioLookup.ScanTiers` and `AudioLookup.FindAudioPath` state the tiers over it |
| AudioLookup.FirstMatch | gui_flash_cards.py:64-66 | the position found passes the test and every earlier position fails it; `None` means every position fails |
| AudioLookup.ScanTiers | gui_flash_cards.py:63-72 | the key tier's first match wins whenever there is one; the space-insensitive tier's first match is used only when the key tier finds nothing; `None` exactly when both tiers find nothing |
| AudioLookup.DirectName | gui_flash_cards.py:59 | the name the direct tier tries, `sanitize_filename(word) + ".mp3"`; `GenerateAudio.GeneratedName` proves it is the generator's file name |
| AudioLookup.FindAudioPath | gui_flash_cards.py:44-74 | a missing folder gives `None`; a result is always in the listing; an existing direct name wins; otherwise the first key match, then the first space-insensitive match; `None` exactly when all tiers miss |
| AudioLookup.IsFirstUnique | gui_flash_cards.py:64-72 | there is at most one first match, so each scan tier's choice is determined |
| AudioLookup.FindAudioPathEmpty | gui_flash_cards.py:53-56 | an empty folder gives `None` |
| AudioLookup.FindAudioPathIsMp3 | gui_flash_cards.py:54-72 | any result other than the direct name ends in `.mp3` in some case |
| AudioLookup.LooseKeyIgnoresSpace | gui_flash_cards.py:68-72 | the loose tier's comparison is unchanged by a whitespace character inserted anywhere into a dot-free word or name |
| AudioLookup.UnspacedKey | gui_flash_cards.py:69-71 | removing spaces from a key removes all its whitespace, since every whitespace character of a key is a plain space |
| AudioLookup.YoWordFindsYeFile | gui_flash_cards.py:58-61 | a word spelt with ё finds the file named with е by the direct tier |
| AudioLookup.PlayAudioPath | gui_flash_cards.py:90-104 | with a non-empty hint, an existing `hint.mp3` wins, then an existing sanitized hint name; an empty hint or two misses fall back to `find_audio_path`; a result is always in the listing |
| AudioLookup.HintOverridesWord | gui_flash_cards.py:91-94 | when the literal hinted file exists, the display word does not affect the file played |
| AudioLookup.IsRecordingOf | gui_flash_cards.py:155-157 | an entry counts as a recording of a base name when its lower-cased name ends in `.wav` and its raw `splitext` root starts with the base (a prefix test, not a key comparison); `AudioLookup.RecordingNameQualifies` and `AudioLookup.LongerWordRecordingQualifies` state what it accepts |
| AudioLookup.FindLatestRecording | gui_flash_cards.py:141-170 | a missing folder gives `None`; otherwise it returns the latest recording of the sanitized word, or `None` when no candidate beats -1 |
| AudioLookup.LatestRecording | gui_flash_cards.py:150-166 | the loop returns the `.wav` whose root starts with the base, whose time is greatest and beats -1, and which is listed first among equal times; `None` when there is none |
| AudioLookup.Newest | gui_flash_cards.py:150-166 | the running maximum after `n` entries: the time never drops below -1; no position means the time is still -1; a position is a readable candidate whose time is the running time |
| AudioLookup.NewestIsLatest | gui_flash_cards.py:150-166 | the running maximum over the first `n` entries is the latest recording among them, or no candidate beats -1 and the time is still -1 |
| AudioLookup.NewerExtends | gui_flash_cards.py:162-164 | a candidate strictly newer than the running time becomes the latest |
| AudioLookup.OlderKeeps | gui_flash_cards.py:155-166 | an entry that is not a strictly newer candidate leaves the latest recording as it was |
| AudioLookup.IsLatestUnique | gui_flash_cards.py:162 | at most one position is the latest recording |
| AudioLookup.RecordingName | gui_flash_cards.py:131 | the file `record_audio` writes; `AudioLookup.RecordingNameQualifies` proves the selector always considers it |
| AudioLookup.RecordingNameQualifies | gui_flash_cards.py:155-158 | the name `record_audio` writes for a word (line 131) is always a recording the selector considers for that word |
| AudioLookup.LongerWordRecordingQualifies | gui_flash_cards.py:157 | the recording of any word whose sanitized name extends this word's sanitized name is also considered for this word |
| GenerateAudio.SanitizeFilename | generate_audio.py:30-46 | the generator's copy returns exactly what the GUI's copy returns, for every input |
| GenerateAudio.SameSteps | generate_audio.py:42-44 | each pair of `replace` passes equals one per-character map |
| GenerateAudio.EmptyTextEmptyName | generate_audio.py:30-46 | the empty text gives the empty name |
| GenerateAudio.CyrillicWordIsSafe | generate_audio.py:38-45 | a word of basic Cyrillic letters other than й/Й is already a safe name |
| GenerateAudio.StressRemoved | generate_audio.py:38-41 | a U+0301 inserted into a safe name is the only thing sanitizing removes |
| GenerateAudio.WordsAreStressedPlain | generate_audio.py:14-26 | each listed word is its plain spelling with at most one U+0301 inserted |
| GenerateAudio.PlainDistinct | generate_audio.py:14-26 | the plain spellings of the listed words are pairwise different |
| GenerateAudio.WordsLoseTheirStress | generate_audio.py:51 | each listed word is saved under its unstressed spelling + `.mp3` (ну́ль → нуль.mp3, четы́ре → четыре.mp3) |
| GenerateAudio.GeneratedName | generate_audio.py:51 | the generator's file name for a word is exactly the name the direct tier of `find_audio_path` tries for it |
| GenerateAudio.GeneratedNamesDistinct | generate_audio.py:48-53 | no two listed words are saved under the same file name |
| GenerateAudio.GeneratedFileIsFoundDirectly | generate_audio.py:51 | once a generated file is in the folder, looking up its word finds it by the direct tier |
| GenerateAudio.WordFindsItsPlainFile | generate_audio.py:51 | every listed word, stressed as written, finds the file named after its unstressed spelling |
| UnicodeData.SampleIsCoherent | gui_flash_cards.py:22-23 | the facts assumed about the Unicode database hold for a concrete database |

## Left out

- NFD canonical reordering of combining characters: decomposition is modelled per character.
- `str.lower` on a whole string (final sigma, İ → i̇): lower-casing is modelled per character.
- The regex `\s` class and `str.strip` are assumed to agree (one `isSpace`).
- The Unicode database itself is not encoded. Its facts are stated as the requirements of the lemmas (`Coherent` and its parts).
- File system calls (`isdir`, `listdir`, `exists`, `getmtime`, `makedirs`) become parameters. A missing folder and a failed listing are both `None`. Dangling symbolic links are not modelled.
- `os.path.join` is left out: lookups return the entry name. Hints containing `/` and absolute hints are treated as plain entry names.
- AudioLookup.PlayAudioPath: `os.path.exists` is exact membership in the listing. On a case- or normalisation-insensitive file system, such as the default APFS of macOS, `exists` also succeeds for a name differing in case or Unicode form. So `play_audio("один", "Нуль")` beside "нуль.mp3" plays that file through the hint tier (gui_flash_cards.py:92-94), while the model falls through to the lookup of "один". "A result is always in the listing" holds for an exact-match file system only.
- AudioLookup.FindAudioPath: the same exact-match `exists` is used for the direct tier (gui_flash_cards.py:59-61), so on such a file system the direct tier can succeed where the model moves on to the scans.
- Float modification times are integers. A time strictly between -1 and 0 cannot be expressed.
- AudioLookup.FindAudioPath: the separate candidate list is folded into the scan. Each scan tier tests the `.mp3` suffix itself.
- The tkinter GUI, message boxes, CSV loading, audio playback and recording, daemon threads, gTTS synthesis, `time.sleep`, the generation loop's output, the ffmpeg setup and the pydub smoke test are all left out. They are I/O, concurrency or configuration.
