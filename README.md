# One Piece card list exporter — Dafny model

`main.py` collects the card list of the One Piece card game, one CSV per series. `main`
then merges those files into one table. It flags duplicate printings, giving the normal
printing of a card number priority over its SP printing. It adds a katakana reading
(フリガナ) to every card name, asking a language model for names it does not know yet.
Last, it writes the table as CSV and as a JSON card list, which the code labels as
compatible with Google Apps Script (GAS) (main.py:262).

This project models the data steps of that program and proves what they guarantee:

- `clean_text`, which drops HTML tags and collapses whitespace (module `CleanText`, on top of
  the string helpers of `Text`);
- the SP-priority stable sort and the first-occurrence duplicate flags (`Merge`);
- the furigana step, that is, which names are asked, how they are cut into batches of 30,
  how the `{...}` object is cut out of the model's reply, and how answers are merged and
  looked up (`Furigana`);
- `generate_card_json_from_df` with `to_int`, the series title/code split and the
  '/'-separated lists (`CardExport`);
- the wiring of `main` from the merged rows to the JSON list (`Pipeline`).

The row shapes are in `Records`, and `Option` is in `Wrappers`.

Pure steps are functions with lemmas. The two loops of the program are methods with loop
invariants, each proved equal to a specification function whose properties are lemmas:

- the batch loop of `fetch_furigana_from_ai` is `Furigana.CollectReadings`;
- the row loop of `generate_card_json_from_df` is `CardExport.EmitFirstById`.

The export loop takes the row checks it uses and the card it builds as parameters.
`CardExport.GenerateCardJson` instantiates it with `CardExport.IdOf` and
`CardExport.MakeCard`.

Outside effects become parameters:

- `generate` is the language model: a batch maps to the reply text, or `None` when the call
  raises.
- `parse` is `json.loads`, with `None` when it raises.
- `hasApiKey` says whether `GEMINI_API_KEY` is set.
- `freshSuffix(k)` is the `uuid4` text drawn for row `k`.

Two details of the code that a reader of its comments could miss:

- The comments at main.py:268 and main.py:359-361 say duplicate printings are excluded and
  stay out of the JSON. But the flag is stored in the column `IsDuplicate`. The renaming
  never maps that column to 重複フラグ, and the output column selection drops it. So the
  export's test on 重複フラグ never holds, and flagged rows are exported (see Findings).
- The reply object is the match of `\{.*\}` with DOTALL, which runs from the first `{` to
  the last `}` of the reply.

## Model

| member | source | states |
|---|---|---|
| CleanText.CleanText | main.py:25-33 | None, NaN and any case of "nan" give ""; any other text gives `CleanString` of it, which has no tag, no leading or trailing whitespace, no two adjacent whitespace characters, only plain spaces as whitespace, and the same non-space characters as the text with its tags removed |
| CleanText.StripTags | main.py:31 | removing `<[^>]+>` leaves no tag, keeps a first character other than `<`, and adds no character (its full value is given by the splice lemmas below) |
| CleanText.StripTagsIdempotent | main.py:31 | removing tags twice is removing them once |
| CleanText.StripTagsOfTagFree | main.py:31 | text without a tag-shaped substring is left unchanged |
| CleanText.StripTagsSplice | main.py:31 | the text before the leftmost match `<x>` is kept as it is, the match is deleted, and removal goes on after it |
| CleanText.StripTagsLeftmost | main.py:31 | every text that has a tag is text none of whose `<` starts a match, then the leftmost match, then the rest, and tag removal keeps the first part and goes on with the rest |
| CleanText.StripTagsOpenTag | main.py:31 | "<b>x" becomes "x" |
| CleanText.CollapseSpaces | main.py:32 | after `\s+` → ' ' no two whitespace characters are adjacent, every whitespace character is a space, and the first character is kept or becomes a space |
| CleanText.CollapseKeepsNonSpace | main.py:32 | collapsing whitespace keeps every non-space character, in order |
| CleanText.CollapseSpaceFree | main.py:32 | text without whitespace is left unchanged |
| CleanText.CollapseSplice | main.py:32 | the text before the first whitespace is kept, the whole whitespace run after it becomes exactly one space, and the collapse goes on after the run |
| CleanText.CollapseLayout | main.py:32 | words separated by whitespace runs collapse to the words joined by single spaces, plus one space for trailing whitespace |
| CleanText.FindLayout | main.py:32 | every text that is not all whitespace is whitespace, then non-empty words separated by non-empty whitespace runs, then whitespace |
| CleanText.CleanString | main.py:31-32 | tag removal, collapsing and strip give a tag-free string with single inner spaces, stripped ends, and the non-space characters of the tag-free text |
| CleanText.CleanStringOfLayout | main.py:31-32 | however the tag-free text spaces out its words, the result is the words joined by single spaces |
| CleanText.CleanStringOfBlank | main.py:31-32 | text that is all whitespace once tags are removed gives "" |
| CleanText.CleanStringWords | main.py:31-32 | for every text: "" when the tag-free text is all whitespace, and otherwise the words of the tag-free text joined by single spaces |
| CleanText.CollapseSpacedWords | main.py:32 | the whitespace run in "a \t\n b" becomes one space |
| CleanText.CleanSpacedWords | main.py:32 | "a \t\n b" cleans to "a b" |
| CleanText.CleanTaggedNan | main.py:30-32 | "<b>nan</b>" cleans to "nan": the "nan" test runs before tags are removed |
| CleanText.CleanTextNotIdempotent | main.py:30-32 | cleaning "<b>nan</b>" twice gives "" while cleaning it once gives "nan" |
| Text.Strip | main.py:272 | `str.strip()` leaves no whitespace at either end |
| Text.StripSlice | main.py:272 | the stripped text is a slice of the input with only whitespace outside it |
| Text.StripIdempotent | main.py:272 | stripping twice is stripping once |
| Text.ContainsAt | main.py:362 | the `in` test holds exactly when the needle occurs at some position |
| Text.SplitOn | main.py:306 | `split('/')` gives at least one piece and no piece holds the separator |
| Text.JoinSplitOn | main.py:306 | joining the pieces of a split with the separator gives the text back |
| Text.SplitOnJoin | main.py:306 | splitting a join of separator-free pieces gives the pieces back |
| Merge.StrLessTransitive | main.py:363 | the string order the sort uses is transitive |
| Merge.StrLessTotal | main.py:363 | any two different strings are ordered one way |
| Merge.InsertStable | main.py:363 | inserting a row into sorted rows that agree key by key with the rows seen so far keeps them agreeing, key by key, with those rows plus the new one |
| Merge.StableSort | main.py:363 | the sorted table is a permutation of its input, ascending by (CardID, priority), and the rows of each key keep their input order |
| Merge.SortRowsSpec | main.py:362-363 | the same three facts for the rows once the priority column is dropped |
| Merge.MarkFrom | main.py:364 | a row is flagged exactly when its CardID was already seen or occurs earlier in the table |
| Merge.ResolveKeepsRows | main.py:362-366 | flagging removes no row: the flagged table holds the sorted rows in order |
| Merge.UnflaggedIsFirst | main.py:364 | a row is unflagged exactly when no earlier row has its CardID, so no two unflagged rows share a CardID |
| Merge.OneCanonicalPerCardId | main.py:364 | every CardID of the input keeps one unflagged row |
| Merge.PrefersNonSp | main.py:359-364 | the unflagged row of a CardID is a non-SP printing whenever the input has one |
| Merge.NormalBeforeSp | main.py:362-363 | in a two-row table, a normal printing sorts before its SP printing, in either input order |
| Merge.SpPrintingIsDuplicate | main.py:362-365 | in a two-row table of a normal and an SP printing of one CardID, the SP one is flagged and the normal one is not, in either input order |
| Merge.SampleRarities | main.py:362 | "SR" has priority 0 and "SR-SP" has priority 1 |
| Furigana.Targets | main.py:382 | the targets are the non-empty names missing from the dictionary, each once, in order of first occurrence |
| Furigana.Update | main.py:386 | `update` keeps every old key, takes the answered readings, and leaves unanswered keys alone |
| Furigana.Readings | main.py:390 | by definition: every row gets its name's reading, or "" when the dictionary lacks the name |
| Furigana.UpdateReadings | main.py:386-390 | after the update a row's reading is the answer, else the old reading, else "" |
| Furigana.Batches | main.py:222-227 | the batches are consecutive slices that together are the name list, each non-empty and at most 30 long, all but the last exactly 30 long |
| Furigana.BatchesPartition | main.py:224-227 | with distinct names, every name is in exactly one batch and every batch name is a name |
| Furigana.ExtractJsonObject | main.py:248-249 | a match exists exactly when some `{` precedes some `}`, and then it runs from the first `{` to the last `}` |
| Furigana.BatchResult | main.py:245-258 | by definition: a batch adds nothing when the call raises, when the reply has no object or when parsing raises, and otherwise the parsed object |
| Furigana.MergeAll | main.py:251 | after merging the batch answers in order, a key is present exactly when some batch answered it, with the last answer's value |
| Furigana.CollectReadings | main.py:226-258 | the batch loop returns the answers of all batches merged in batch order |
| Furigana.UniqueNames | main.py:224 | `list(set(names))` lists every distinct name once, in an unspecified order |
| Furigana.FetchFurigana | main.py:211-260 | without an API key the result is empty; otherwise it is the merged answers of the batches of some enumeration of the distinct names |
| Furigana.FetchedKeysAsked | main.py:224-251 | if the model answers only for names it was asked about, every fetched key is one of the names passed in |
| Furigana.SilentModelFetchesNothing | main.py:245-258 | a model whose calls all raise yields no reading |
| Furigana.ApplyFurigana | main.py:381-390 | the model is asked only if there are targets; the new dictionary is the old one updated with a possible fetch result for them; the readings are looked up in the new dictionary |
| CardExport.ToIntCases | main.py:293-297 | by definition: `to_int` gives null exactly for "" and "nan" in any case, an integer exactly when the cell without the whitespace `float()` drops is a signed run of ASCII digits (its value), and otherwise the cell itself |
| CardExport.ToIntPadding | main.py:293-297 | " 5\n" and "\u3000-12" read as 5 and -12: the whitespace `float()` drops is ignored |
| CardExport.ToIntSeparators | main.py:293-297 | a U+001C or U+001F beside the digits, which `float()` does not drop, leaves the cell as text |
| CardExport.ToIntOfIntText | main.py:293-297 | every optionally signed run of ASCII digits reads as the integer it spells |
| CardExport.ToIntOfDecimal | main.py:293-297 | every integer written in decimal reads back as itself |
| CardExport.ToIntNeedsDigits | main.py:293-297 | a non-empty, non-"nan" cell without a digit stays text |
| CardExport.LineMatchSpec | main.py:288 | a line matches `(.*)【(.*)】` exactly when a 【 precedes a 】, cut as title【code】rest with no 【 in the code and no 】 in the rest |
| CardExport.FirstLineMatchSpec | main.py:288 | the search finds the match of the first matching line, and nothing when no line matches |
| CardExport.SeriesRoundTrip | main.py:284-291 | a one-line "title【code】" splits back into the stripped title and code |
| CardExport.SeriesWithoutBrackets | main.py:286-291 | text lacking 【 or 】 is all title and gives the code "" |
| CardExport.SeriesCodeClean | main.py:288-291 | the series code is stripped and holds no 【 |
| CardExport.SlashListShape | main.py:306 | every colour or feature entry is non-empty, stripped and free of '/' |
| CardExport.SlashListOfJoin | main.py:306 | splitting a '/'-join drops the whitespace around each piece and gives the pieces back |
| CardExport.SlashListEmpty | main.py:306 | an empty cell gives an empty list |
| CardExport.SlashListRoundTrip | main.py:306 | re-joining an exported list with '/' and splitting again gives the same list |
| CardExport.EmitFirstById | main.py:264-321 | for any per-row check and card builder, the loop returns the cards of exactly the rows whose id is present and not yet seen, in row order |
| CardExport.GenerateCardJson | main.py:263-323 | the exported list is that of the export specification for the given rows and drawn suffixes |
| CardExport.ExportFollowsRows | main.py:267-282 | the exported cards are the cards of picked rows in rising row order; no picked row is marked 重複 or lacks a card number; no earlier kept row carries the same unique id |
| CardExport.ExportIdsDistinct | main.py:279-282 | no two exported cards share a unique id |
| CardExport.ExportCoversRows | main.py:267-282 | every row that is neither marked 重複 nor without a card number has its unique id on some exported card |
| CardExport.ExportIdShape | main.py:272-279 | every exported card has a card number, and its unique id is that number, '_' and the image id whenever it has an image id |
| CardExport.AllSkippedExportsNothing | main.py:268-273 | a table whose rows are all marked 重複 or lack a card number exports nothing |
| CardExport.UidsDiffer | main.py:276-279 | two rows with one card number and different non-empty image ids get different unique ids |
| CardExport.PickedRise | main.py:267 | the exported rows are taken in rising row order |
| Pipeline.FlagText | main.py:365 | the flag text is 重複 exactly for a duplicate |
| Pipeline.RunPipeline | main.py:357-407 | main sorts and flags the rows, fetches readings only when there are targets, builds the output table without a flag column, and exports that table |
| Pipeline.TableFollowsRows | main.py:363-401 | the output table holds every sorted row in order, with its reading and without a flag |
| Pipeline.AsWrittenExportsFlagged | main.py:364-405 | as written, every row with a card number has its unique id exported, flagged or not |
| Pipeline.SpPrintingExportedAsWritten | main.py:362-405 | as written, a flagged SP printing with its own image id is exported beside its normal printing |
| Pipeline.CorrectedExportsUnflagged | main.py:269-270 | with the flag under 重複フラグ, every exported card comes from an unflagged row |
| Pipeline.CorrectedExportOnePerCardId | main.py:364-365 | with the flag under 重複フラグ, the exported cards come from rows of pairwise different CardIDs |
| Pipeline.SpPrintingDroppedWhenCorrected | main.py:269-270 | with the flag under 重複フラグ, only the normal printing of a normal/SP pair can be exported |

## Left out

- Scraping the card list pages (main.py:35-195): HTTP, HTML parsing and the series list are not modelled. The merged table is the input.
- File I/O, meaning the per-series CSV files, the furigana dictionary file, and the output CSV and JSON (main.py:198-209, 336-356, 402-410). The dictionary is a parameter and the table and card list are results.
- The Gemini client setup, the prompt text, `print` and `time.sleep` (main.py:217-243, 255). The model is the `generate` parameter applied to the batch.
- `json.loads` is the `parse` parameter. A reply object whose values are not strings is not modelled, because the dictionary maps names to strings.
- `uuid.uuid4()` is the `freshSuffix` parameter, one drawn text per row position.
- `list(set(...))` orders names by string hashing. `Furigana.UniqueNames` picks any order, and the fetch result is stated for some enumeration.
- CardExport.ToInt: an integer is read only from an optional sign and ASCII digits, once the whitespace `float()` drops is removed. Cells that `float()` reads in other spellings (decimals such as "1.5", exponents such as "1e3", underscores such as "1_000", non-ASCII digits) stay text in the model, where `int(float(v))` returns the truncated integer. Digit runs beyond 2^53 keep their exact value, which `float` would round. From about 1.8e308 up, `float()` gives inf, `int()` raises OverflowError and `to_int` returns the cell text, while the model still gives the integer (so `ToIntOfIntText` and `ToIntOfDecimal` hold in the source only for values `float` holds exactly).
- CleanText.CleanText: only `None`, NaN (`None` in the model) and string inputs are modelled. `str()` of other values is not.
- Rows missing a column are not modelled, so `KeyError` is not either. Every row has every column, as `fillna('')` and the fixed column list provide.
- `scrape_new_cards.py` and `clean_data.py` are not part of this model.

## Findings

| source | as written | input that shows it | evidently intended | confidence | as-written member | corrected member |
|---|---|---|---|---|---|---|
| main.py:364-401 | the duplicate flag is stored in `IsDuplicate`, which the renaming never maps to 重複フラグ and the column selection drops, so the export's `row.get('重複フラグ') == '重複'` test never holds | a normal printing and an SP printing of one card number with different non-empty image ids: the SP row is flagged, yet both rows are exported under different unique ids | the flag is written under 重複フラグ, so flagged printings are left out of the JSON and at most one card per CardID is exported | not executed | Pipeline.SpPrintingExportedAsWritten | Pipeline.CorrectedExportsUnflagged |
