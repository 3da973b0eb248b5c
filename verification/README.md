# C.G.P.A. Chatbot core, modelled in Dafny

This project models the two parts of the campus chatbot that hold its logic.

- **Knowledge-base build** (`backend/process_data.py`):
  - `clean_text` collapses whitespace.
  - `universal_chunker` makes a lookahead split at `\n## `, `\n---`, `Unit <digit>` and `Module <digit>`. It strips each piece, drops blank pieces and tags the rest with `[tag] `. A piece whose tagged form is longer than `max_chunk_size` is re-cut into windows with an overlap of 200 characters.
  - The file-name tag expression, the choice of reader by extension, and the loop of `create_knowledge_base` that concatenates the chunks of every kept file in listing order.
- **Chat back end** (`backend/app.py`):
  - `get_context`: a keyword rule that dumps the room and timetable chunks, or otherwise a top-8 ranked selection with a 0.1 cut-off and a fallback sentence.
  - The action branch of `/chat`. It reads the model's reply as a JSON command. It then either upserts attendance for the students an id list or a name/id pattern selects and replies with a confirmation, or runs the read-only analysis (distinct-date denominator, present counts, first numeric mark, name and comparator filter, markdown table). In every other case it replies with the model's own text.

Modules:

| file | module | models |
|---|---|---|
| `wrappers.dfy` | `Wrappers` | `Option` |
| `text.dfy` | `Text` | Python string operations on `seq<char>`: `isspace`, `strip`, `lower`, `title`, `startswith`, `endswith`, `in`, `join`, `replace`, `str(int)` |
| `segmenter.dfy` | `Segmenter` | `clean_text`, the lookahead split, `universal_chunker` |
| `corpus.dfy` | `CorpusBuilder` | reader dispatch, tag derivation, the build loop |
| `retrieval.dfy` | `Retrieval` | `get_context` |
| `json.dfy` | `Json` | values from `json.loads`, `dict.get`, truthiness, `str()`, `float()` |
| `attendance.dfy` | `Attendance` | the roster dict, id and pattern resolution, the attendance store, the confirmation |
| `analysis.dfy` | `Analysis` | `analyze_data`: counts, percentage, marks, filter, table |
| `handler.dfy` | `ActionHandler` | the whole action branch and its fallbacks |

Functions state what the Python computes. Methods with loops (`UniversalChunker`, `AppendWindows`, `BuildKnowledgeBase`, `SelectRelevant`, `ResolveIds`, `ResolvePattern`, `ApplyAttendance`, `MarksOf`, `BuildMasterData`, `FilterItems`, `RenderTable`) are proved against those functions. The attendance store is a class whose `records` map is updated in place.

The model follows the code in three places where it behaves differently from what one might expect:
- One might expect an ambiguous id token to be rejected. Instead it resolves to the *first* roster id that ends with it, in roster order (`Attendance.AmbiguousTokenTakesFirst`).
- One might expect every chunk to be at most `max_chunk_size` long. Only the untagged window is bounded; a tagged window can be `len(tag) + 3` characters longer (`Segmenter.ChunkCanExceedMax`).
- One might expect the tag to drop the file's extension. Instead it removes `.txt` and `.pdf` wherever they occur, in a single left-to-right pass, keeps image extensions, and title-cases after every non-letter (`CorpusBuilder.PngTag`, `CorpusBuilder.ReplaceIsSinglePass`).

## Model

| member | source | states |
|---|---|---|
| Segmenter.CleanTextNormalized | backend/process_data.py:32-33 | the output of `clean_text` has no leading or trailing whitespace, and its only whitespace is single spaces |
| Segmenter.CleanTextKeepsText | backend/process_data.py:32-33 | `clean_text` keeps every non-whitespace character, in order |
| Segmenter.CleanTextFixesNormalized | backend/process_data.py:32-33 | a text that is already normalised is returned unchanged |
| Segmenter.CleanTextIdempotent | backend/process_data.py:32-33 | `clean_text(clean_text(s)) == clean_text(s)` |
| Segmenter.CollapseKeepsText | backend/process_data.py:33 | `re.sub(r'\s+', ' ', s)` keeps the non-whitespace characters |
| Segmenter.CollapseSingleSpaced | backend/process_data.py:33 | after the substitution, every whitespace character is a single space not followed by whitespace |
| Segmenter.CollapseFixesSingleSpaced | backend/process_data.py:33 | the substitution leaves single-spaced text unchanged |
| Segmenter.StripKeepsSingleSpaced | backend/process_data.py:33 | `strip()` keeps a text single-spaced |
| Text.StripSpec | backend/process_data.py:47 | `strip()` returns a contiguous slice; the characters removed on both sides are whitespace; the result starts and ends with non-whitespace; it is empty iff the input is all whitespace |
| Segmenter.MarkersDoNotOverlap | backend/process_data.py:42 | no boundary marker starts inside another one |
| Segmenter.NextCutSpec | backend/process_data.py:42 | the next cut is the first later position where the lookahead matches, or the end |
| Segmenter.PiecesConcat | backend/process_data.py:42 | joining the pieces gives back the text |
| Segmenter.PiecesStartAtMarkers | backend/process_data.py:42 | every piece after the first starts with a boundary marker |
| Segmenter.PiecesNoInnerMarker | backend/process_data.py:42 | no piece holds a marker position except at its start |
| Segmenter.LookaheadSplitSpec | backend/process_data.py:42 | the split is lossless, has at least one piece, and every piece after the first is non-empty and starts at a marker; the first piece is empty iff the text is empty or starts with a marker |
| Segmenter.UniversalChunker | backend/process_data.py:36-62 | the loop over pieces returns `Chunks(text, tag, max)` |
| Segmenter.AppendWindows | backend/process_data.py:58-60 | the inner `range` loop appends exactly the tagged windows of the piece, in order |
| Segmenter.ChunkPiecesAppend | backend/process_data.py:44-60 | output order follows piece order: the chunks of `a + b` are those of `a` followed by those of `b` |
| Segmenter.BlankPieceEmitsNothing | backend/process_data.py:46-48 | a piece yields no chunk iff it is all whitespace |
| Segmenter.ShortPieceEmittedOnce | backend/process_data.py:51-55 | a piece whose tagged form fits is emitted exactly once, as `[tag] ` plus the stripped piece |
| Segmenter.SlicesAt | backend/process_data.py:58-59 | slice k exists iff `start + k*step < len`, and it is `c[start + k*step : start + k*step + size]` |
| Segmenter.WindowAt | backend/process_data.py:58-59 | window k starts at `k*(max-200)` and is at most `max` long |
| Segmenter.WindowsOverlap | backend/process_data.py:58-59 | a full window is followed by another, and the two share exactly 200 characters |
| Segmenter.SlicesReassemble | backend/process_data.py:58-60 | the first `step` characters of each slice, then the last slice, rebuild the text from `start` |
| Segmenter.WindowsCover | backend/process_data.py:58-60 | the windows together cover every character of the piece |
| Segmenter.EveryChunkTagged | backend/process_data.py:51-60 | every emitted chunk starts with `[tag] ` |
| Segmenter.ChunkLengthBound | backend/process_data.py:54-60 | every chunk is at most `max + len(tag) + 3` long |
| Segmenter.ChunkCanExceedMax | backend/process_data.py:57-60 | the first window of an over-long stripped piece is exactly `max + len(tag) + 3` long, which is more than `max` |
| CorpusBuilder.ReaderIgnoresCase | backend/process_data.py:104-110 | the reader is chosen from the lower-cased name, so names differing only in case get the same reader |
| CorpusBuilder.PdfFileIsCleaned | backend/process_data.py:107-109 | a name ending in `.pdf` in any case goes to the PDF reader, and its content is `clean_text` of the page text |
| CorpusBuilder.TextFileIsRaw | backend/process_data.py:110-113 | a name ending in `.txt` in any case goes to the text reader, and its content is the file text unchanged |
| CorpusBuilder.UnknownExtensionContributesNothing | backend/process_data.py:101-116 | a name ending in none of `.png`, `.jpg`, `.jpeg`, `.pdf`, `.txt` gets no reader, empty content and no chunk |
| CorpusBuilder.UpperCasePdfExtension | backend/process_data.py:107-109 | `Syllabus.PDF` is read as a PDF |
| CorpusBuilder.ReadFile | backend/process_data.py:99-123 | one pass of the loop: a dotfile or an empty read contributes nothing, otherwise the chunks of the content under the file's tag |
| CorpusBuilder.BuildKnowledgeBase | backend/process_data.py:95-123 | the loop builds `KnowledgeChunks(files)` |
| CorpusBuilder.KnowledgeChunksAppend | backend/process_data.py:98-123 | the chunks of two listings in a row are the two chunk lists in a row |
| CorpusBuilder.KnowledgeChunksOne | backend/process_data.py:98-123 | a one-file listing yields that file's chunks |
| CorpusBuilder.KnowledgeChunksInsert | backend/process_data.py:98-123 | a file's chunks sit between the chunks of the files listed before and after it |
| CorpusBuilder.SkippedFileContributesNothing | backend/process_data.py:99-116 | removing a dotfile or a file with empty content does not change the result |
| CorpusBuilder.IncludedFileContributesItsChunks | backend/process_data.py:116-123 | a kept file contributes `universal_chunker(content, tag)` at its place in the listing |
| CorpusBuilder.EveryKnowledgeChunkTagged | backend/process_data.py:120-123 | every chunk of the knowledge base starts with `[tag] ` for the tag of some kept file |
| CorpusBuilder.Spaced | backend/process_data.py:120 | `replace('_', ' ')` keeps the length, leaves no underscore and changes exactly the underscores |
| Text.ReplaceCharIsMap | backend/process_data.py:120 | replacing one character by another maps each position independently |
| CorpusBuilder.TitleAppend | backend/process_data.py:120 | `title()` of a concatenation split where the left part is empty or ends with a non-letter, or the right part is empty or starts with one, is the concatenation of the two `title()`s |
| CorpusBuilder.TitleKeepsNonLetters | backend/process_data.py:120 | `title()` keeps the length and every non-letter |
| CorpusBuilder.TagHasNoUnderscore | backend/process_data.py:120 | no tag contains an underscore |
| CorpusBuilder.TxtTag | backend/process_data.py:120 | for a dot-free base name, the tag of `base.txt` is the title-cased, spaced base |
| CorpusBuilder.PdfTag | backend/process_data.py:120 | the same for `base.pdf` |
| CorpusBuilder.PngTag | backend/process_data.py:120 | the tag of `base.png` keeps the extension, as `.Png` |
| CorpusBuilder.InventoryFileTag | backend/process_data.py:120 | `campus_room_inventory.txt` gets the tag `Campus Room Inventory`, the tag the room rule of `get_context` looks for |
| CorpusBuilder.ReplaceIsSinglePass | backend/process_data.py:120 | removal is one left-to-right pass: `notes.t.txtxt` becomes `notes.txt` and gets the tag `Notes.Txt` |
| Retrieval.GetContext | backend/app.py:93-128 | the method returns `Context(query, chunks, ...)` |
| Retrieval.SelectRelevant | backend/app.py:119-121 | the loop keeps, in order, the chunks at the top indices whose score is above 0.1 |
| Retrieval.NoIndexNoContext | backend/app.py:94 | with no index or no chunks, the result is `""` whatever the query |
| Retrieval.TriggerIgnoresRanking | backend/app.py:102-108 | a trigger query gives the dump, whatever the scores and their ranking |
| Retrieval.TriggerIsCaseInsensitive | backend/app.py:96-102 | two queries equal up to letter case either both trigger the dump or neither does |
| Retrieval.UpperCaseTriggers | backend/app.py:96-102 | the query `ROOM` triggers the dump |
| Retrieval.MatchingCount | backend/app.py:104-105 | the comprehension keeps every copy of a chunk holding the needle and no other chunk |
| Retrieval.MatchingAppend | backend/app.py:104-105 | the comprehension keeps corpus order |
| Retrieval.DumpCountsBothLists | backend/app.py:104-108 | a chunk that holds both needles appears twice in the dump |
| Retrieval.DumpHoldsEveryMatch | backend/app.py:104-108 | every chunk that holds either needle appears in the dump |
| Retrieval.EmptyDumpIsEmpty | backend/app.py:102-108 | a trigger query with no matching chunk gives `""`, not the fallback sentence |
| Retrieval.TopIndicesSpec | backend/app.py:117 | `argsort()[-8:][::-1]` gives `min(8, n)` distinct indices in non-increasing score order, each scoring at least as well as every index left out |
| Retrieval.TopHoldsTail | backend/app.py:117 | each of the last eight argsort entries is among the top indices |
| Retrieval.KeptIndicesSpec | backend/app.py:119-121 | an index is kept iff it is a top index scoring above 0.1, and kept indices keep their top order |
| Retrieval.KeptAllAbove | backend/app.py:119-121 | when every top index scores above 0.1, all of them are kept |
| Retrieval.RankedSelectionSpec | backend/app.py:113-121 | at most 8 distinct indices, each scoring above 0.1, in non-increasing score order, and no index left out above the cut-off scores more than a kept one |
| Retrieval.FewKeptMeansAllRelevant | backend/app.py:117-121 | fewer than 8 kept means every chunk scoring above 0.1 was kept |
| Retrieval.SentinelWhenNothingKept | backend/app.py:125-126 | the ranked branch returns the fallback sentence iff nothing was kept |
| Retrieval.RankedContextHoldsKept | backend/app.py:125-128 | every kept chunk appears in the ranked answer |
| Text.JoinContains | backend/app.py:128 | every joined item appears in the result of `join` |
| Json.FindKey | backend/app.py:238-239 | the position found is the first item with that key; no item has it when nothing is found |
| Json.GetOr | backend/app.py:238-239 | `dict.get(key, default)` is the value stored under the key when present, and the default otherwise |
| Json.SpellingsConvertAlike | backend/app.py:332 | a comparison value given as an int or as its decimal text (or as `true`/`false` for 1 and 0) converts to the same number |
| Json.FloatOfIntString | backend/app.py:332 | `float(str(i))` is `i` for every int |
| Json.DigitsOfNatToString | backend/app.py:332 | reading back the digits of `str(n)` gives `n` |
| Json.NoDigitNoFloat | backend/app.py:332 | a digit-free string is rejected by the modelled decimal grammar, so `float()` raises on it (`nan` and `inf` spellings are left out) |
| Attendance.ValidMapSpec | backend/app.py:243 | the roster dict has distinct keys; its keys are exactly the students' ids; each id maps to the name of the last student with that id |
| Attendance.ValidMapOfDistinctIds | backend/app.py:243 | with distinct ids, the dict lists the students' (id, name) pairs in roster order |
| Attendance.InsertLookup | backend/app.py:243 | a dict assignment sets the key and leaves every other key's value alone |
| Attendance.InsertKeys | backend/app.py:243 | a dict assignment adds at most the assigned key and keeps keys distinct |
| Attendance.FirstEndingWithSpec | backend/app.py:252 | `next(...)` finds the first id in roster order that ends with the token, and finds none iff no id does |
| Attendance.ResolveIds | backend/app.py:249-253 | the loop over tokens builds `ExplicitTargets(d, tokens)` |
| Attendance.ExplicitTargetsSpec | backend/app.py:248-253 | at most one target per token; each target is a non-empty roster id ending with some token |
| Attendance.UnmatchedTokenDropped | backend/app.py:252-253 | a token no id ends with adds no target |
| Attendance.AmbiguousTokenTakesFirst | backend/app.py:252 | with ids CSE101, ECE101 and CSE102, the token `101` resolves to CSE101 only, and `999` to nothing |
| Attendance.ResolvePattern | backend/app.py:256-270 | the loop over the roster builds `PatternTargets` |
| Attendance.PatternTargetsSpec | backend/app.py:262-270 | a roster id is selected iff its lower-cased name (field `name`) or id (otherwise) passes the chosen test against the lower-cased value |
| Attendance.UnknownPatternTypeSelectsNobody | backend/app.py:265-268 | a pattern type other than startswith, endswith or contains selects nobody |
| Attendance.PatternEndsWith101 | backend/app.py:256-270 | `endswith` `101` on the id, over CSE101, ECE101 and CSE102, selects CSE101 and ECE101 |
| Attendance.AttendanceStore.Upsert | backend/app.py:278-281 | the record keyed (student, class, date) holds the status afterwards, and every other key is unchanged |
| Attendance.UpsertAllSpec | backend/app.py:277-281 | after the loop, each targeted key holds the status; every other key is as before; no key is added except targeted ones |
| Attendance.UpsertAllIdempotent | backend/app.py:277-281 | running the same upserts twice gives the same store as running them once |
| Attendance.NamesOf | backend/app.py:282 | one updated name per target |
| Attendance.ApplyAttendance | backend/app.py:276-282 | the loop leaves the store as `UpsertAll` and returns the targets' names, in order |
| Attendance.ConfirmationListsEveryName | backend/app.py:288-289 | with at most five updates, every updated name appears in the message |
| Attendance.ConfirmationSummarises | backend/app.py:286-287 | with more than five, the message holds the count and the first two names |
| Attendance.ConfirmationStartsWithStatus | backend/app.py:284-289 | every confirmation starts with the check mark and the bold status |
| Analysis.DatesOfOneStudent | backend/app.py:305-312 | one student's records in one class differ in their date |
| Analysis.PresentAtMostTotal | backend/app.py:305-312 | a student's present count never exceeds the number of distinct dates |
| Analysis.RoundHalfEvenNear | backend/app.py:313 | the rounded quotient is within one half of the exact one |
| Analysis.RoundHalfEvenAtMost | backend/app.py:313 | rounding never goes above a whole bound of the exact quotient |
| Analysis.AttendanceTenthsSpec | backend/app.py:313 | the percentage in tenths is 0 with no dates, otherwise within half a tenth of `present / total * 100`, and at most 100.0 when present <= total |
| Analysis.ThreeOfFive | backend/app.py:313 | 3 present out of 5 dates prints as `60.0` |
| Analysis.TieRoundsToEven | backend/app.py:313 | 1 out of 16 (6.25%) rounds to 6.2 |
| Analysis.FirstNumberSpec | backend/app.py:318-321 | the value found is the first numeric value in item order; none is found iff no value is numeric |
| Analysis.MarksSpec | backend/app.py:316-321 | marks are always a number: the first numeric detail of a non-empty dict, else 0 |
| Analysis.MarksOf | backend/app.py:316-321 | the loop with its `break` returns `Marks(details)` |
| Analysis.BuildMasterData | backend/app.py:308-323 | one item per student, in roster order, as `ItemOf` computes it |
| Analysis.ItemAtMostHundred | backend/app.py:310-313 | each item's present count is at most the denominator and its percentage at most 100.0 |
| Analysis.FilterItems | backend/app.py:325-340 | the filter loop returns `Filter(items, ...)` |
| Analysis.FilterAppend | backend/app.py:325-340 | filtering distributes over concatenation, so the order is kept |
| Analysis.FilterSpec | backend/app.py:325-340 | no more survivors than items; an item survives iff it is in the list and passes both the name and the comparator test |
| Analysis.FilterIsSubsequence | backend/app.py:325-340 | the survivors are the items at strictly increasing positions of the master data |
| Analysis.NameFilterDrops | backend/app.py:327 | a non-empty search name not found in the lower-cased name drops the item |
| Analysis.OnlyNameDecides | backend/app.py:329-338 | with no operator, no value, a value `float()` rejects or an unknown operator, only the name test decides |
| Analysis.ComparatorDecides | backend/app.py:329-337 | otherwise the item survives the comparator iff the target compares with `float(value)` as the operator says |
| Analysis.RenderTable | backend/app.py:345-350 | the `table +=` loop gives the header for the filter type followed by one row per survivor |
| Analysis.RowsHoldEveryItem | backend/app.py:346-350 | every survivor's row appears in the table |
| Analysis.NoMatchIffNoSurvivor | backend/app.py:342-352 | the reply is the no-match message iff nothing survives; otherwise it starts with the report heading |
| Analysis.ReportHasEverySurvivor | backend/app.py:345-352 | every survivor has its row in the report |
| Analysis.Analyze | backend/app.py:296-352 | the analysis returns `AnalysisReply(...)` |
| ActionHandler.TargetsAreRosterIds | backend/app.py:247-270 | every target from either case is a key of the roster dict |
| ActionHandler.HandleReply | backend/app.py:229-357 | the handler's reply and the store afterwards are those of `Handle` |
| ActionHandler.FallbackCases | backend/app.py:229-237 | no `"action":`, a parse error or no class gives the model's text and leaves the store unchanged |
| ActionHandler.UnknownActionFallsBack | backend/app.py:354-357 | a command that is not a dict, or names another action, gives the model's text and leaves the store unchanged |
| ActionHandler.AnalysisIsReadOnly | backend/app.py:296-352 | the analysis never changes the store |
| ActionHandler.NoTargetNoWrite | backend/app.py:272-273 | an update that selects nobody replies "No students found" and writes nothing |
| ActionHandler.OnlyRosterKeysChange | backend/app.py:276-282 | only records of the request's class whose student is on the roster can change |
| ActionHandler.ReplayIsIdempotent | backend/app.py:276-282 | handling the same reply twice leaves the store as after the first time |
| ActionHandler.UpdateMarksEveryTarget | backend/app.py:237-282 | after an update, every target's record for the command's date holds the command's status, `Present` by default |

## Left out

- Reading files is not modelled. Each file is given with the text its reader would return: the Gemini description of an image, the PDF pages joined with newlines, the contents of a text file, or `""` on failure (backend/process_data.py:65-84, 111-114). The `time.sleep` throttling and the `data_dir` existence check are left out too.
- The directory listing is an input sequence; the order `os.listdir` returns is not modelled.
- TF-IDF fitting, pickling and JSON persistence of the knowledge base, and `load_brain`, are not modelled (backend/process_data.py:126-140).
- `vectorizer.transform`, `cosine_similarity` and `argsort` are not computed. The scores and an ascending argsort of them are inputs, with `None` for an exception while scoring. Ties in `argsort` may be in any order.
- Retrieval.Context: the 0.1 cut-off and the scores are exact reals, not IEEE doubles.
- Retrieval.Context: assumes one score per chunk. The chunk list is saved (backend/process_data.py:128-129) before the vectorizer is fitted (backend/process_data.py:136), so a failed fit can leave an older matrix next to a newer chunk list. With more scores than chunks, `chunks[idx]` raises part-way through the loop (backend/app.py:119-121), and `get_context` returns the chunks appended before the failure. The model does not capture this partial result; a scoring failure there is all-or-nothing.
- Gemini chat calls, the Supabase client (the roster, the record queries, conversation history), Flask routing, `jsonify` and CORS are not modelled. The roster and the attendance store are inputs to the handler.
- The roster upload route (backend/app.py:364-400) is not modelled.
- `json.loads` is an input function returning `None` for a parse error. Objects it returns are assumed to have distinct keys. Python's `str()` of floats, lists and dicts is the text carried by the value.
- Segmenter.UniversalChunker: requires `max_chunk_size > 200`. The code is only called with 4000. With exactly 200 `range` raises, and below 200 it silently drops over-long pieces; neither is modelled.
- Text.Lower: ASCII only; `lower()` and `title()` of non-ASCII letters are not modelled. Text.IsSpace is Python's `str.isspace` set.
- Json.ToFloat: accepts an optional sign, digits and at most one point, with surrounding whitespace. Exponents, `inf`, `nan` and underscores are not modelled.
- Json.ToFloat: converts exactly to a real, where Python's `float()` rounds to the nearest double. So `"value": "70.00000000000000001"` or `9007199254740993` with `==` keeps a student with marks 70 or 9007199254740992 in Python but drops them in the model. An int of magnitude at least 2**1024 makes `float()` raise `OverflowError`; the bare `except` then skips the comparator and keeps every student, while the model compares exactly. An over-long decimal string becomes `inf` in Python and a large exact value in the model.
- Json.FloatOfIntString: holds over exact reals; for ints beyond 2**53 Python's `float(str(i))` is the nearest double, not `i`, and above 2**1024 it is `inf`.
- Json.SpellingsConvertAlike: holds over exact reals; in Python an int beyond 2**1024 raises `OverflowError` while its decimal text converts to `inf`.
- Json.Json: `JFloat.x` is the decimal value of the float literal as written, not the nearest double. So `"value": 33.3` with `==` keeps a student whose attendance rounds to 33.3, as in Python, where both sides are the same double. `json.loads` also accepts the constants `NaN`, `Infinity` and `-Infinity`, and reads an overflowing literal such as `1e400` as `inf`. No `Json` value stands for these. In the analysis filter (backend/app.py:329-338), `"value": NaN` drops every student under any of the five operators. `Infinity` drops every student under `>`, `>=` and `==`, and `-Infinity` under `<`, `<=` and `==`. The reply is then "No students matched your criteria.". The model cannot reach these cases.
- Json.NoDigitNoFloat: holds of the modelled decimal grammar only. Python's `float()` also accepts `nan`, `inf` and `infinity` in any case and with a sign. In the analysis filter, `"value": "nan"` with any of the five operators, or `"value": "inf"` with `>`, drops every student. The model rejects these values, so the comparator is skipped and every student is kept (`Analysis.PassesComparator`).
- Segmenter.StartsWithMarker: `\d` in the split pattern is Unicode-aware on a Python `str`, so `Unit ٣` or `Module ３` starts a piece in Python. The model's digit test (`Text.IsDigit`) is ASCII `0`-`9` only. The same holds for the digits `float()` accepts (`Json.ParseDecimal`).
- Analysis.AttendanceTenths: the percentage is the exact quotient rounded half to even at one decimal. Python rounds the float value, which can differ near ties that a double cannot represent exactly.
- Attendance.ValidMap: student ids and names are strings. The class id is a string too, with `""` standing for a missing or empty class id.
- Attendance.AttendanceStore.Upsert: the date is an ordinary part of the key. A `None` date and SQL's handling of `NULL` in the conflict key are not modelled.
- Exceptions other than those of the command's shape are not modelled: database errors, and names that are not strings.

