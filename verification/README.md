# Configuration utility model

A Dafny model of the three configuration helpers whose behaviour
`tests/config/configUtil.js` pins down. The helpers are:

- `parseIPlist`: reads an allow-list of IP ranges written as a bracketed
  list of bracketed pairs, such as `[[1.2.3.4,1.2.3.8],[7.6.5.4,7.6.9.9]]`.
  It returns the pairs in order. Any malformed list is rejected with the
  fixed `NOT_ALLOWED` message.
- `csvToArray`: turns a comma-separated environment value into an array of
  trimmed tokens. `undefined`, `null` and the empty text all give `[]`.
- `getReadReplicas`: reads a list of variable names from one environment
  variable and resolves each name through the same environment. Names that
  are not set are dropped. The result is `undefined` when nothing resolves
  or the variable is missing.

`config/configUtil.js` is not part of this model. The Dafny functions are
therefore a reference definition, written so that every assertion of the
test file follows as a lemma (module `ConfigUtilExamples`). The general
properties behind those assertions are proved in the other modules:

- round trips between canonical text and parsed values;
- whitespace insensitivity;
- order preservation;
- the exact accept/reject boundary.

Modules:

- `Wrappers`: `Option` and `Result`.
- `Text`: JavaScript-style whitespace, whitespace stripping, `trim`, `split`
  and `join`.
- `IpList`: the IP-list grammar, its canonical text and the parser.
  `Failure(NotAllowed)` stands for the thrown error.
- `Csv`: `csvToArray` over a JavaScript value that is `undefined`, `null`
  or a string.
- `Replicas`: `getReadReplicas` over an environment map. `None` stands for
  `undefined`.
- `ConfigUtilExamples`: the test file's cases, one lemma per `it`.

## Model

| member | source | states |
|---|---|---|
| IpList.Parse | tests/config/configUtil.js:18-78 | On success, both ends of every range are non-empty address tokens, and the canonical text of the result equals the input with its whitespace removed. Every failure carries exactly the `NOT_ALLOWED` message. |
| IpList.ParseStripped | tests/config/configUtil.js:22-78 | On whitespace-free text, success gives valid ranges whose canonical bracketed text is exactly that text. `[]` gives no ranges, and a text not enclosed in `[` and `]` is rejected. Every failure carries exactly the `NOT_ALLOWED` message. |
| IpList.ParseIff | tests/config/configUtil.js:29-70 | Both directions: the input parses to ranges `rs` exactly when `rs` are valid and the input without whitespace is their canonical bracketed text. |
| IpList.ParseFailsIff | tests/config/configUtil.js:72-78 | The parser rejects a text exactly when no list of valid ranges has that text, up to whitespace. |
| IpList.ParseListOf | tests/config/configUtil.js:22-27 | Round trip: the canonical text of any valid ranges is parsed back to the same ranges, in the same order. |
| IpList.ParseIgnoresInsertedSpace | tests/config/configUtil.js:29-70 | Whitespace inserted at any position leaves the parse result unchanged. |
| IpList.ParseRange | tests/config/configUtil.js:72-78 | An entry's inside is accepted only as two addresses around one comma. The range read back prints as that inside. Any other inside gives `NOT_ALLOWED`. |
| IpList.ParseEntries | tests/config/configUtil.js:22-78 | The entry scanner either returns a non-empty list of valid ranges whose canonical entry text is exactly its input, or fails with `NOT_ALLOWED`. |
| IpList.ParseEntriesOf | tests/config/configUtil.js:22-27 | The entry scanner returns the ranges of a canonical entry sequence in order. |
| IpList.ParseEntriesAfter | tests/config/configUtil.js:43-46 | Well-formed leading entries are kept, in order, in front of whatever the rest of the text yields. |
| IpList.EntriesNoSpace | tests/config/configUtil.js:22-27 | The canonical text of valid ranges has no whitespace in it, so stripping leaves it unchanged. |
| IpList.OneAddressEntryFails | tests/config/configUtil.js:72-78 | A list in which an entry holding a single address follows any number of well-formed entries is rejected with `NOT_ALLOWED`, whatever follows that entry. |
| IpList.EntryArityFails | tests/config/configUtil.js:72-78 | An entry whose inside does not split at commas into exactly two parts makes the entry scanner fail with `NOT_ALLOWED`. |
| Text.StripSpace | tests/config/configUtil.js:29-70 | Removing whitespace leaves a whitespace-free text no longer than the input. |
| Text.StripSpaceResult | tests/config/configUtil.js:29-70 | The stripped text has no whitespace and is no longer than the input. It is empty exactly when the input is all whitespace. |
| Text.StripSpaceIgnoresInsertedSpace | tests/config/configUtil.js:29-70 | Stripping a text with whitespace inserted anywhere gives the same result as stripping the original text. |
| Text.StripSpaceConcat | tests/config/configUtil.js:29-70 | Stripping distributes over concatenation. |
| Text.Trim | tests/config/configUtil.js:106-110 | The result has no whitespace at either end. |
| Text.TrimSlice | tests/config/configUtil.js:106-110 | The trimmed text is a slice of the input whose cut-off ends are all whitespace. |
| Text.TrimBlankIff | tests/config/configUtil.js:94-98 | A text trims to nothing exactly when it is all whitespace. |
| Text.TrimPadded | tests/config/configUtil.js:106-110 | Trimming whitespace-padded text gives back the trimmed core. |
| Text.Split | tests/config/configUtil.js:100-110 | There is at least one piece and no piece contains the separator. There is one piece exactly when the separator does not occur. |
| Text.JoinSplit | tests/config/configUtil.js:100-110 | Joining the pieces of a split with the separator rebuilds the text. |
| Text.SplitJoin | tests/config/configUtil.js:100-110 | Splitting a join of separator-free pieces gives back those pieces. |
| Csv.CsvToArray | tests/config/configUtil.js:82-110 | Every result token is non-empty, trimmed and comma-free. There are no more tokens than comma-separated pieces. `undefined` and `null` give `[]`. A string gives `[]` exactly when every piece is blank. |
| Csv.Tokens | tests/config/configUtil.js:106-110 | Trimming comma-free pieces yields tokens only, never more tokens than pieces. |
| Csv.BlankGivesNothing | tests/config/configUtil.js:94-98 | A text of whitespace only, in particular the empty text, gives no tokens. |
| Csv.CsvOfCommaFree | tests/config/configUtil.js:100-104 | A text without commas gives its trimmed self as the one token, or nothing when it is blank. |
| Csv.CsvConcat | tests/config/configUtil.js:106-110 | Order is kept: the tokens of `a,b` are the tokens of `a` followed by those of `b`. |
| Csv.TokensConcat | tests/config/configUtil.js:106-110 | The tokens of two concatenated piece lists are the tokens of each list, concatenated. |
| Csv.CsvIgnoresPadding | tests/config/configUtil.js:106-110 | Pieces padded with whitespace, joined by commas, give back exactly the tokens they trim to. |
| Csv.CsvRoundTrip | tests/config/configUtil.js:100-110 | Round trip: tokens joined with commas are read back unchanged. |
| Replicas.Resolve | tests/config/configUtil.js:160-172 | Resolution yields at most one value per name, and every value comes from the environment. |
| Replicas.ResolveEmpty | tests/config/configUtil.js:146-151 | Resolution gives nothing exactly when none of the names is set. |
| Replicas.ResolveConcat | tests/config/configUtil.js:167-172 | Resolution keeps order across concatenated name lists. |
| Replicas.ResolveAllSet | tests/config/configUtil.js:160-165 | When every name is set, resolution gives one value per name: the value of that name, in order. |
| Replicas.GetReadReplicas | tests/config/configUtil.js:145-173 | A missing key gives `undefined`. Otherwise the result is `undefined` exactly when none of the listed names is set. A defined result is the non-empty, in-order list of the values of the names that are set. |
| Replicas.ReplicasInOrder | tests/config/configUtil.js:160-172 | For a list `a,b` in which some name is set, in either part, the replicas are those named in `a` followed by those named in `b`. |
| Replicas.ReplicasDropUnset | tests/config/configUtil.js:167-172 | For a list `a,b,c` in which no name of `b` is set, the result is that of `a` and `c` alone: their replicas in order, or `undefined` when neither has a set name. Any of the parts may be empty, so an unset block may stand first, last or in between. |
| ConfigUtilExamples.ParseDefaultList | tests/config/configUtil.js:22-27 | The default list text parses to its single range, `0.0.0.0` to `255.255.255.255`. |
| ConfigUtilExamples.ParseSpaceAroundOpeningBracket | tests/config/configUtil.js:29-37 | Spaces around the opening brackets leave the same two ranges. |
| ConfigUtilExamples.ParseSpaceAroundClosingBracket | tests/config/configUtil.js:39-48 | Spaces around the closing brackets leave the same two ranges. |
| ConfigUtilExamples.ParseSpaceAroundComma | tests/config/configUtil.js:50-59 | Spaces around commas leave the same two ranges. |
| ConfigUtilExamples.ParseMiscSpaces | tests/config/configUtil.js:61-70 | Spaces scattered throughout leave the same two ranges. |
| ConfigUtilExamples.ParseWrongFormatFails | tests/config/configUtil.js:72-78 | A list whose second entry has one address fails with exactly `NOT_ALLOWED`. |
| ConfigUtilExamples.CsvUndefined | tests/config/configUtil.js:82-86 | `csvToArray(undefined)` is `[]`. |
| ConfigUtilExamples.CsvNull | tests/config/configUtil.js:88-92 | `csvToArray(null)` is `[]`. |
| ConfigUtilExamples.CsvEmpty | tests/config/configUtil.js:94-98 | `csvToArray('')` is `[]`. |
| ConfigUtilExamples.CsvSingleElement | tests/config/configUtil.js:100-104 | `csvToArray('abc')` is `['abc']`. |
| ConfigUtilExamples.CsvPaddedElements | tests/config/configUtil.js:106-110 | `csvToArray('abc,def , ghi')` is `['abc','def','ghi']`. |
| ConfigUtilExamples.ReplicasOnlyBadEntry | tests/config/configUtil.js:146-151 | When the only listed name is not set, the result is `undefined`. |
| ConfigUtilExamples.ReplicasWithoutVariable | tests/config/configUtil.js:153-158 | With the variable absent, the result is `undefined`. |
| ConfigUtilExamples.ReplicasResolved | tests/config/configUtil.js:160-165 | A listed name that is set resolves to its value. |
| ConfigUtilExamples.ReplicasBadEntryDropped | tests/config/configUtil.js:167-172 | In `test, test1`, the unset `test1` is dropped and `testURL` remains. |

## Left out

- `config/configUtil.js` is not part of this model. The functions here are a reference definition consistent with the tests, not a transcription of that file.
- The second `csvToArray` describe block (tests/config/configUtil.js:113-143) repeats the cases at lines 82-110 and adds nothing to model.
- IpList.IsAddress: an address is any non-empty run of characters other than whitespace, brackets and commas. Dotted-quad syntax and octet ranges (0-255) are not checked, because the tests never exercise them.
- IpList.Parse: whitespace is removed everywhere before scanning, including inside an address, so `[[1.2. 3.4,5.6.7.8]]` reads its first address as `1.2.3.4`. The tests never put whitespace inside an address, so this is a modelling choice.
- IpList.Parse: every malformed shape gives the one `NOT_ALLOWED` failure. The thrown JavaScript exception object and any message it might carry beyond that text are not modelled.
- Text.IsSpace: whitespace is the six ASCII characters space, tab, line feed, carriage return, vertical tab and form feed. The Unicode spaces that JavaScript's `trim` also removes are not modelled.
- Csv.CsvToArray: pieces that are empty after trimming are dropped. The tests never put an empty piece between commas, so this is a modelling choice.
- Replicas.GetReadReplicas: a name counts as set whenever it is a key of the environment. JavaScript's truthiness of an empty string value is not modelled.
- The mocha/chai test framework, the `done` callbacks, and reading `process.env` are left out. The environment is passed in as a map.
