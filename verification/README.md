# wordle_tui core in Dafny

A model of the library of `wordle_tui`, a terminal word-guessing game. The
library does two things, and this project models both:

- **Guess scoring** (`check_word`). The guess is trimmed. It is then zipped with
  the solution character by character. A position is `Green` when the two
  characters are equal. It is `Yellow` when they differ but the guess character
  occurs anywhere in the solution. Otherwise it is `Gray`. Occurrences in the
  solution are never consumed. So a repeated guess letter is coloured at every
  position, however few copies the solution holds. Comparison is case-sensitive,
  and only the guess is trimmed.
- **Solution extraction** (the parsing tail of `get_daily_word`). The reply text
  of the word service is split on `,`. The first field containing `solution` is
  split once on `:`. Bytes 1..6 of the text after the colon are the word; byte 0
  is the opening quote.

Modules:

- `Text` (`text.dfy`) holds the Rust string primitives these use. `Trim` is
  `str::trim`, stripping Unicode White_Space from both ends. `Contains` is
  substring search. `ByteSlice` is `&s[lo..hi]` on UTF-8 text: it fails unless
  both byte offsets fall on character boundaries.
- `Scoring` (`scoring.dfy`) holds `Color`, `CheckWord` and the lemmas about it.
- `DailyWord` (`daily_word.dfy`) holds `Split`, `SplitOnce`, `FirstContaining`,
  `ExtractSolution` and the lemmas about them.

Where the source panics (both `expect` calls and an out-of-range slice),
`ExtractSolution` returns an `Err` that names the failing step:
`SolutionNotFound`, `SplitFailed` or `SliceOutOfRange`.

Facts about the code that a reader familiar with Wordle might not expect:

- Matched letters are not consumed, unlike the usual two-pass Wordle rule. Every
  copy of a solution letter in the guess is coloured
  (`DuplicateLettersNotConsumed`, `EveryCopyColoured`).
- Comparison is case-sensitive (`CaseSensitive`).
- Words of any length are zipped to the shorter one, and scoring never fails
  (`CheckWord`).
- A reply that cannot be parsed makes `get_daily_word` panic rather than return
  its `Err`. Here that outcome is an `Err` value naming the step.
- The library has no board operations: no append, remove or submit.

## Model

| member | source | states |
|---|---|---|
| Text.Trim | src/lib.rs:45 | The trimmed guess is the infix of the input that starts after all leading whitespace; everything after it is whitespace; it neither starts nor ends with whitespace |
| Text.TrimUntrimmed | src/lib.rs:45 | Trimming leaves a string unchanged when neither end is whitespace |
| Text.TrimIdempotent | src/lib.rs:45 | Trimming twice is trimming once |
| Text.IsWhitespace | src/lib.rs:45 | The characters `trim` strips are Unicode White_Space; among ASCII characters exactly tab, line feed, vertical tab, form feed, carriage return and space, and none above U+3000 |
| Text.ContainsIff | src/lib.rs:31 | `contains` holds exactly when the pattern starts at some index of the text |
| Text.ContainsAcrossSeparator | src/lib.rs:30-31 | A pattern without the separator occurs in `a`, separator, `b` exactly when it occurs in `a` or in `b` |
| Text.ByteSlice | src/lib.rs:36 | The slice succeeds exactly when `lo <= hi` and both byte offsets are character boundaries; the result spans `hi - lo` bytes and is the run of characters starting at byte `lo` |
| Text.AsciiByteSlice | src/lib.rs:36 | When the first `hi` characters are ASCII and `hi` is within the text, the byte slice is the character slice `s[lo..hi]` |
| Text.AsciiByteSliceOutOfRange | src/lib.rs:36 | On ASCII text, a slice ending past the end fails |
| Scoring.Judge | src/lib.rs:46-54 | Green exactly when the two letters are equal; Yellow exactly when they differ and the guess letter occurs in the solution; Gray exactly when they differ and it does not |
| Scoring.ZipScore | src/lib.rs:45-55 | One colour per position of the shorter sequence; Green iff the letters match; Yellow iff they differ and the guess letter occurs in the whole solution; Gray iff it does not occur |
| Scoring.CheckWord | src/lib.rs:43-56 | Length is the smaller of the trimmed guess's and the solution's; the per-position rule holds against the trimmed guess and the untrimmed solution |
| Scoring.CheckWordUnique | src/lib.rs:46-54 | Any colouring that obeys the per-position rule equals the result of `check_word` |
| Scoring.GrayNeverAtMatch | src/lib.rs:47-52 | A position whose letters match is Green, never Gray |
| Scoring.NoOccurrenceIsConsumed | src/lib.rs:49-50 | Every position whose guess letter occurs in the solution is non-Gray, however often the letter repeats |
| Scoring.ColouredCopies | src/lib.rs:49-52 | Under any colouring whose Gray positions are exactly the letters absent from the solution, the number of coloured copies of a letter equals its number of copies in the guess when the solution holds it, and zero otherwise |
| Scoring.EveryCopyColoured | src/lib.rs:45-55 | For every letter, the coloured copies in the scored part of the trimmed guess number all of its copies there when the solution holds the letter, and none otherwise; the solution's count of the letter plays no part |
| Scoring.SelfScoreAllGreen | src/lib.rs:45-48 | A word with no surrounding whitespace scored against itself is all Green, one per letter |
| Scoring.AllGreenIffPrefixesAgree | src/lib.rs:45-48 | Every verdict is Green exactly when the trimmed guess and the solution agree on the scored prefix |
| Scoring.FiveGreensIsWin | src/lib.rs:45-48 | Against a five-letter solution, five Greens occur exactly when the trimmed guess starts with the solution |
| Scoring.DuplicateLettersNotConsumed | src/lib.rs:49-50 | For any three distinct non-space letters, a guess shaped like "ELLEL" against a solution shaped like "LEVEL" gives Yellow, Yellow, Yellow, Green, Green: three L's are coloured though the solution has two |
| Scoring.CaseSensitive | src/lib.rs:47-49 | "A" against "a" is Gray |
| Scoring.SolutionNotTrimmed | src/lib.rs:45 | " a " against " a" is Yellow: the guess is trimmed, the solution is not |
| DailyWord.Split | src/lib.rs:30 | Splitting on a separator gives at least one field; no field holds the separator; joining the fields restores the text |
| DailyWord.SplitJoin | src/lib.rs:30 | Splitting the join of separator-free fields gives those fields back |
| DailyWord.SplitAcross | src/lib.rs:30 | The fields of `a`, separator, `b` are the fields of `a` followed by those of `b` |
| DailyWord.SplitOnce | src/lib.rs:33-35 | Fails exactly when the colon is absent; otherwise the parts around the first colon, with no colon in the first part |
| DailyWord.FirstContaining | src/lib.rs:31-32 | None exactly when no field contains the pattern; otherwise the index of a field that contains it, with no earlier field containing it |
| DailyWord.ContainsInSomeField | src/lib.rs:30-32 | A separator-free pattern occurs in the joined text exactly when it occurs in some field |
| DailyWord.SolutionValue | src/lib.rs:30-35 | Fails with SolutionNotFound exactly when "solution" is not in the text (equivalently, no field contains it); fails with SplitFailed exactly when the first field containing it has no colon; never fails with a slice error; a found value is the text after the first colon of that field, so it holds no comma |
| DailyWord.AfterFirstColonUnique | src/lib.rs:33-35 | A field has only one text after its first colon |
| DailyWord.SolutionValueIff | src/lib.rs:30-35 | The value is `v` exactly when the reply is `pre`, field, `post`, where `pre` is empty or ends in a comma, `post` is empty or starts with one, the field holds no comma and mentions "solution", `pre` does not mention it, and `v` follows the field's first colon |
| DailyWord.KeyFieldFound | src/lib.rs:30-32 | A comma-delimited field that mentions "solution", with no mention before it, is the field `find` returns |
| DailyWord.KeyFieldExists | src/lib.rs:30-32 | The field `find` returns is comma-delimited in the reply, and no text before it mentions "solution" |
| DailyWord.JoinAround | src/lib.rs:30 | A text is the join of the fields before field `i`, that field, and the join of those after it, separators included |
| DailyWord.FieldsAround | src/lib.rs:30 | The fields of `pre`, a comma-free field, `post` (commas at the joins) are `pre`'s fields, that field, then `post`'s |
| DailyWord.ExtractSolution | src/lib.rs:30-37 | Fails with SolutionNotFound exactly when "solution" does not occur in the reply; with SplitFailed exactly when the first field containing it has no colon; with SliceOutOfRange exactly when a value was found but byte 1 or byte 6 of it is not a character boundary; otherwise the word is the byte slice 1..6 of the value, exactly five bytes of UTF-8, so between two and five characters |
| DailyWord.AsciiExtraction | src/lib.rs:33-36 | On ASCII text the word is characters 1..6 of the value after the colon, exactly five characters; extraction fails with SliceOutOfRange exactly when that value is shorter than six characters |
| DailyWord.ExtractFromPayload | src/lib.rs:30-37 | For any five-letter ASCII word, a reply whose first field mentioning "solution" holds `"solution":"word"` yields that word, with or without commas around the field, such as `{"solution":"word"}` |
| DailyWord.PayloadValue | src/lib.rs:30-35 | The value found in such a reply is the quoted word followed by the rest of its field |
| DailyWord.NoColonMeansSplitFailed | src/lib.rs:31-34 | Extraction fails with SplitFailed exactly when the first comma-delimited field mentioning "solution" holds no colon, whatever the rest of the reply holds |
| DailyWord.ShortReplyHasNoSolution | src/lib.rs:31-32 | A reply shorter than "solution" fails with SolutionNotFound |
| DailyWord.PayloadFields | src/lib.rs:30 | The fields of `before`, comma, a comma-free field, comma, `after` are those of `before`, that field, then those of `after` |

## Left out

- The HTTP request and date formatting in `get_daily_word` (src/lib.rs:13-24) are network I/O and a clock. The model starts from the reply text. Network errors (`reqwest::Error`) are not modelled.
- Panics are modelled as `Err` values. The source aborts instead of returning an error.
- Text is a sequence of Unicode scalar values. Its UTF-8 encoding is modelled only through byte lengths, which is all the `[1..6]` slice depends on.
- The `Color` to terminal-colour mapping, the table widget, the key-event loop and the `todo!()` renderer in src/app.rs are UI code.
- The runtime and terminal setup in src/main.rs are plumbing.
- A 6×5 board, its cursor, append, remove and submit, and win or loss detection are not modelled. The code declares the board field (src/app.rs:57-60) but has no operations on it.
- A consuming two-pass scorer is not modelled, because `check_word` does not implement one.
