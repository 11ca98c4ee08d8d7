# Résumé information extractor: a Dafny model of `InfoExtractor`

The repository scans a folder of PDF résumés. It extracts the plain text of
each one and pulls out three fields: the candidate's name, a mobile phone
number and an e-mail address. This project models the part that does the
extraction, the class `InfoExtractor` of main.py. A text goes in, and an
optional field value comes out.

The operations are pure, so the model is written as functions and lemmas:

- `text.dfy` (module `Text`) holds the character classes the regular
  expressions use: `\s`, `\d`, the characters `\b` treats as word
  characters, and the Han range `[一-鿿]`. It also has Python's
  `str.strip()`, `s[:n]`, and the maximal run of one character class,
  which is what a greedy `+` or `*` consumes. Last, `Leftmost` models the
  leftmost start that `re.search` settles on.
- `name_validation.dfy` (module `NameValidation`) models the title-word
  set `common_title_words` and the filter `_is_valid_name`.
- `phone.dfy` (module `Phone`) models `extract_phone`.
- `email.dfy` (module `Email`) models `extract_email`. The backtracking
  matcher for `[a-zA-Z0-9._%+-]+@[a-zA-Z0-9.-]+\.[a-zA-Z]{2,}` is
  written as a deterministic scan. It is proved to agree with a
  declarative description of the pattern's language:
  - it finds a match wherever the language has a word;
  - the match is the longest word starting there.
- `name_extraction.dfy` (module `NameExtraction`) models `extract_name`
  and its two strategies:
  - the keyword strategy: five label patterns tried in order, the
    leftmost match of each, and the name filter applied to the captured
    group;
  - the positional strategy: `re.findall` of 2 to 4 Han characters in
    the first 200 characters, and the first chunk that passes the filter.
- `examples.dfy` (module `ExtractorExamples`) and `name_examples.dfy`
  (module `NameExamples`) work out the results on concrete texts. Five
  of them are inputs of test_extraction.py (lines 33-36 and 52); the
  others, among them `电话13812345678` and every text in
  `name_examples.dfy`, are this model's own.

Each regular-expression search is modelled as a scan that gives the same
answer as the backtracking matcher, and a completeness lemma beside each
scan shows that it misses no match. The comment on each matcher function
explains why greedy matching needs no backtracking in that place. The
one exception is the domain of an e-mail address: there `LastTld` gives
back as many characters as it takes to reach a `.` that two letters
follow.

Some consequences of main.py's patterns, stated by the model:

- **Email:** `extract_email` (main.py:276-281) returns the first match of
  `re.search`, not the longest address in the text.
  `ExtractorExamples.EmailFirstNotLongest` shows this on the text of
  test_extraction.py:52.
- **Phone:** `extract_phone` (main.py:246-249) has one strict pattern,
  `\b1[3-9]\d{9}\b`. Numbers split by spaces, dashes or parentheses give
  nothing, so the inputs of test_extraction.py:34-35 give nothing
  (`ExtractorExamples.PhoneWithDashes`, `ExtractorExamples.PhoneWithSpaces`).
- **Name:** the positional strategy (main.py:355-368) does not look at
  lines. It only scans `text[:200]` with `findall`.
- **Email local part:** the pattern at main.py:276 accepts any non-empty
  run of `[a-zA-Z0-9._%+-]` before the `@`. This includes runs that start
  with a `.` and runs of one character.

## Model

| member | source | states |
|---|---|---|
| Text.Strip | main.py:389 | `strip()` returns the piece of the input from its first to its last non-space character. Everything outside that piece is whitespace. The result is empty exactly when the input is all whitespace. |
| Text.StripNoSpace | main.py:336 | A string without whitespace is left unchanged by `strip()`. |
| Text.StripKeeps | main.py:389 | Every non-space character survives `strip()`, at the same offset from the first non-space character. |
| Text.Prefix | main.py:355 | `text[:n]` has `min(len, n)` characters and starts the text. |
| Text.SpaceIsNotWordChar | main.py:247 | A whitespace character (`\s`, the same table `strip()` uses) is neither a word character for `\b`, nor Han, nor a digit. |
| Text.Run | main.py:276 | The maximal run of a character class: every character in it belongs to the class, and the character after it does not. This is what a greedy `+` or `*` consumes. |
| Text.Leftmost | main.py:249 | The search returns a start where the pattern matches and where it matches nowhere earlier. It returns nothing only when the pattern matches nowhere in the range. |
| NameValidation.ValidNameIff | main.py:370-408 | `_is_valid_name` holds exactly when the stripped candidate has 2 to 4 characters, all Han, and is not a title word. |
| NameValidation.HanHasNoDigit | main.py:399-406 | The digit check never rejects what the Han-only check accepts. |
| NameValidation.EmptyIsNotValid | main.py:385-386 | The empty candidate is rejected. |
| NameValidation.TitleWordsAreNotNames | main.py:212-228 | Every title word has 2 to 4 Han characters, and every title word is rejected as a name (main.py:396-397). |
| NameValidation.HanNonTitleIsValid | main.py:391-408 | Any 2 to 4 Han characters that are not a title word pass the filter. |
| NameValidation.DigitOrLatinIsNotValid | main.py:399-406 | A candidate with a digit or a Latin letter anywhere in it is rejected. |
| NameValidation.CleanName | main.py:389-408 | A valid, already stripped name is 2 to 4 Han characters, not a title word, and holds no whitespace. |
| Phone.FindPhone | main.py:247-249 | The result is the leftmost index where `\b1[3-9]\d{9}\b` matches. Nothing is returned only when it matches nowhere. |
| Phone.ExtractPhone | main.py:242-254 | The empty text gives nothing. Otherwise the result is nothing exactly when no index matches. A result is an 11-digit mobile number that occurs in the text, and it is the text of the leftmost match. |
| Phone.NoDigitNoPhone | main.py:247-249 | A text without digits gives no phone number. |
| Phone.NoMatchAfterWordChar | main.py:246-247 | No match starts right after a word character: `\b` fails there. |
| Phone.PhoneIsLeftmost | main.py:249-252 | When a number occurs at some index, a number is returned, and it starts at or before that index. |
| Email.LastTld | main.py:276 | The domain part backtracks to the last `.` inside the domain run that is followed by two letters. |
| Email.DomainMatch | main.py:276 | After the `@`, the domain part yields a dot and an end that satisfy the rest of the pattern. The letters reach as far as they can. |
| Email.EmailMatchAt | main.py:276 | A match at an index is a word of the pattern's language starting there. No letter follows its end. |
| Email.ShapeRuns | main.py:276 | Inside a word of the language, the local run stops at the `@` and the domain run reaches the end of the word. |
| Email.DomainMatchComplete | main.py:276 | The domain part matches whenever a domain, a dot and two or more letters follow the `@`. Its match reaches at least as far as those letters. |
| Email.EmailMatchComplete | main.py:276-278 | The matcher finds a match wherever a word of the language starts, and that match is at least as long as the word. |
| Email.FindEmail | main.py:278 | The result is the leftmost index where the pattern matches. Nothing is returned only when it matches nowhere. |
| Email.ExtractEmail | main.py:268-283 | The empty text gives nothing. A result occurs in the text. |
| Email.ExtractEmailNone | main.py:276-283 | Nothing is returned exactly when no piece of the text is an address. |
| Email.FindEmailFirst | main.py:278 | No address starts before the match that was found. No address starting at the same index is longer. |
| Email.MatchIsAddress | main.py:276-281 | The text of a match is an address. |
| Email.ExtractEmailFirst | main.py:256-283 | A result is an address of the text. No address starts before it, and none that starts at the same index is longer. |
| NameExtraction.MatchLabel | main.py:326-330 | A label match ends inside the text, and at a character that is not whitespace. What it accepts is stated by `MatchLabelSound` and `MatchLabelComplete`. |
| NameExtraction.MatchLabelSound | main.py:326-330 | A label match is a word of the label's language: each piece in turn, with case ignored as under `re.IGNORECASE`, followed by any run of whitespace. |
| NameExtraction.MatchLabelComplete | main.py:326-330 | Wherever a word of the label's language ends at a non-space character, the label matches, and its match ends exactly there. |
| NameExtraction.KeywordPatternsArePlain | main.py:325-331 | Every piece of the five label patterns is non-empty and starts with a character that is not whitespace. |
| NameExtraction.KeywordMatchAt | main.py:326-334 | A keyword match puts a colon after the label and only whitespace between the colon and the group. The group has 2 to 4 non-space characters, and it is as long as it can be. |
| NameExtraction.KeywordMatchSound | main.py:326-334 | A keyword match is a word of the whole pattern's language: the label, a colon, whitespace, and a group of 2 to 4 non-space characters. |
| NameExtraction.KeywordMatchComplete | main.py:326-334 | Wherever that language has a word, the pattern matches with the same colon and the same group start, and its group is at least as long. |
| NameExtraction.FindKeywordLeftmost | main.py:334 | The search gives nothing exactly when the language has no word anywhere. A result starts a word of the language, and no word starts before it. |
| NameExtraction.FindKeyword | main.py:334 | The result is the leftmost index where a keyword pattern matches, or nothing when it matches nowhere. |
| NameExtraction.LeftmostCapture | main.py:334-336 | `group(1)` of the leftmost match has 2 to 4 non-space characters and occurs in the text. |
| NameExtraction.FoundIsLeftmostLongest | main.py:326-334 | For each of the five labels, the match `re.search` finds is a word of the pattern's language, no word starts before it, and no word at its start has a longer group. |
| NameExtraction.LeftmostCaptureShape | main.py:325-336 | For each of the five labels: no capture exactly when no word of `<label>[：:]\s*([^\s\n]{2,4})` occurs in the text; otherwise the capture is the group of a word at some start `q`, it is the longest group of any word at `q` (the greedy `{2,4}`), and no word starts before `q`. |
| NameExtraction.Verdict | main.py:334-339 | One turn of the loop yields a name exactly when the leftmost capture exists and passes `_is_valid_name`, and the name is then that capture itself, because `strip()` leaves it unchanged. |
| NameExtraction.FirstName | main.py:333-341 | The first name among the turns' results is the result of one of those turns. |
| NameExtraction.FirstNameAt | main.py:333-339 | When every turn before the `k`-th yields nothing and the `k`-th yields a name, that name is the result. |
| NameExtraction.FirstNameNone | main.py:333-341 | There is no result exactly when no turn yields a name. |
| NameExtraction.TryPatterns | main.py:333-341 | A result passes `_is_valid_name`, is already stripped, and occurs in the text. |
| NameExtraction.ByKeyword | main.py:313-341 | A keyword-strategy result passes the filter, is stripped, and occurs in the text. |
| NameExtraction.TryPatternsFirst | main.py:333-339 | The first pattern in list order whose capture passes the filter decides the result. |
| NameExtraction.TryPatternsNone | main.py:333-341 | The keyword strategy gives nothing exactly when no pattern's capture passes the filter. |
| NameExtraction.HanChunks | main.py:359-361 | Every `findall` chunk has 2 to 4 Han characters and occurs in the searched text. |
| NameExtraction.HanChunkStarts | main.py:359-361 | Every chunk start lies inside the text. |
| NameExtraction.HanChunksScan | main.py:359-361 | `findall` scans left to right: the chunk starts increase and the chunks do not overlap. Each chunk is the run of Han characters at its start, cut to 4, and that run has at least 2 characters. Every index outside all chunks starts a Han run shorter than 2. |
| NameExtraction.HanChunksNonEmpty | main.py:359-361 | `findall` finds a chunk exactly when the text has two Han characters in a row. |
| NameExtraction.FirstValid | main.py:364-368 | The result is nothing exactly when no candidate passes the filter. Otherwise it is the first candidate that passes. |
| NameExtraction.ByPosition | main.py:343-368 | A positional result has 2 to 4 Han characters, is not a title word, passes the filter, and occurs in `text[:200]`. |
| NameExtraction.ValidHanIsNotTitle | main.py:365 | A Han chunk that passes the filter is not a title word. |
| NameExtraction.SubstringOfPrefix | main.py:355 | What occurs in `text[:200]` occurs in the text. |
| NameExtraction.ChunkValidIff | main.py:364-365 | A chunk passes the filter exactly when it is not a title word. |
| NameExtraction.ByPositionFirst | main.py:364-366 | The positional strategy returns the first chunk that is not a title word. |
| NameExtraction.ByPositionNone | main.py:361-368 | The positional strategy gives nothing exactly when every chunk is a title word. |
| NameExtraction.ExtractName | main.py:285-311 | The empty text gives nothing. A keyword result wins; otherwise the positional result is returned. Every name is 2 to 4 Han characters, passes the filter, is not a title word, and occurs in the text. |
| ExtractorExamples.PhoneAfterColon | test_extraction.py:33 | `电话：13812345678` gives `13812345678`. |
| ExtractorExamples.PhoneGluedToHan | main.py:246-247 | `电话13812345678` gives nothing, because `\b` fails between `话` and `1`. |
| ExtractorExamples.PhoneWithDashes | test_extraction.py:34 | `(+86) 159-2842-3292` gives nothing. |
| ExtractorExamples.PhoneWithSpaces | test_extraction.py:35 | `手机：138 1234 5678` gives nothing. |
| ExtractorExamples.PhoneAfterLabel | test_extraction.py:36 | `联系方式：15912345678` gives `15912345678`. |
| ExtractorExamples.TwoAddressesFirstMatch | test_extraction.py:52 | The match at `5` ends after `.com`. |
| ExtractorExamples.TwoAddressesFind | test_extraction.py:52 | The leftmost match starts at `5`. |
| ExtractorExamples.TwoAddressesSecond | test_extraction.py:52 | `gsm2832954437@163.com` is an address of the same text. |
| ExtractorExamples.EmailFirstNotLongest | test_extraction.py:52 | The result is `5@163.com`, although the longer address `gsm2832954437@163.com` follows it. |
| NameExamples.NoColonNoKeyword | main.py:326-331 | A text without a colon gives the keyword strategy nothing. |
| NameExamples.LabelledMatch | main.py:326 | In `姓名：张三`, the first pattern matches at 0 and captures `张三`. |
| NameExamples.BrokenLabel | main.py:326 | In `姓X：张三`, the first pattern does not match at 0, because `名` does not follow `姓`. |
| NameExamples.ZhangSanIsValid | main.py:370-408 | `张三` passes the filter and is already stripped. |
| NameExamples.LabelledName | main.py:298-304 | `姓名：张三` gives `张三` through the keyword strategy. |
| NameExamples.UnlabelledChunks | main.py:359-361 | `findall` on `个人简历 张三` yields `个人简历` and then `张三`. |
| NameExamples.SixHanChunks | main.py:359-361 | `findall` on `张三丰李四五` yields `张三丰李` and then `四五`. |
| NameExamples.FiveHanChunks | main.py:359-361 | `findall` on `张三丰李四` yields only `张三丰李`: the leftover `四` is too short. |
| NameExamples.UnlabelledName | main.py:301-309 | `个人简历 张三` falls back to the positional strategy. That strategy skips the title word and returns `张三`. |

## Left out

- FileScanner, PDFExtractor and the command-line entry of main.py: they do file and PDF I/O, which is outside this model.
- The result records and the exception classes (main.py:14-46): plain records and exception types with no behaviour of their own; the model returns its results as values instead.
- test_extraction.py and test_real_pdf.py call `parse_filename`, `extract_location`, `extract_salary` and others. Those methods are not defined in main.py, so they are not part of this model. The test scripts only print, so only their inputs appear here, in the example lemmas.
- The cached `re` module and the `__init__` constructor: the title-word set is a constant, `NameValidation.CommonTitleWords`.
- Phone.IsMobileNumber: `\d` is modelled as the ASCII digits. Python's `\d` on `str` also matches other Unicode decimal digits, such as full-width ones, and the model does not accept those.
- Text.IsWordChar: `\b` is modelled with ASCII letters, ASCII digits, `_` and the Han range as word characters. Python's Unicode `\w` has more word characters, so the model is exact only for texts made of those characters, whitespace and punctuation.
- Text.EqualsIgnoreCase: `re.IGNORECASE` is modelled as ASCII case folding. This is exact for the letters of `Name`/`name`, and the Han labels have no case.
- `_is_valid_name` also applies `\d` to its candidate. With ASCII digits in the model this check can differ from Python's on non-ASCII digits, but nothing changes: the Han-only check that follows rejects every digit (`NameValidation.HanHasNoDigit`).
- The order of the keyword loop: main.py:333-339 stops at the first pattern that yields a name, while `TryPatterns` computes the result of every turn and takes the first name. Each turn is a pure computation that always ends, so the result is the same.
- The `Optional[str]` results are modelled as `Option`. Where the source tests truthiness (`if name:`), the model tests `Some?`. No result can be the empty string, because every name has at least two characters.
