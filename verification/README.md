# Smart duplicate detection engine: a Dafny model

The engine is an interactive deduplication ledger. It keeps three containers:
- the set of distinct entries (`uniqueSet`);
- the count of each entry (`frequencyMap`);
- the history of every processed entry, in order (`inputHistory`).

Each processed entry is also appended to a data file, and the file is replayed at startup. Raw input is normalized first: Java's `trim`, then `toLowerCase`. Input that normalizes to the empty string is ignored.

The model has five modules:

- `Text` (text.dfy) covers the string handling:
  - `String.trim`, ASCII `toLowerCase` and their composition `normalize`;
  - `String.split(",")`, including Java's rule that trailing empty pieces are dropped;
  - `Admitted`, the filter that turns raw pieces into the values handed to `processEntry`.
- `Order` (order.dfy) gives the order that `viewUniqueEntries` sorts by (`String.CASE_INSENSITIVE_ORDER`) and insertion into a sorted sequence.
- `Ledger` (ledger.dfy) holds the engine state.
  - `Engine` is a class. Its fields are the three containers plus `store`, the lines of the data file.
  - Every operation that changes the engine or iterates over its containers is a method; `Summary`, which only counts, is a function. Each method that updates the three containers is proved to keep the ledger invariant `Valid`; `SaveToFile` touches only the store, which `Valid` does not read, so its frame alone keeps the invariant. `Valid` says: the set equals the map's keys, the keys are the history's elements, each count is the number of occurrences in the history, and every recorded value is in normal form.
  - The reports are proved against value-level specifications: `ScanResult`, `DuplicateLines`, `Summary`.
  - `Startup` models the two calls `main` makes before the menu, with the corrected load (see Findings). As written, `main` never gets past `loadDataFromFile` once the data file holds an entry.
- `Reload` (reload.dfy) models the load loop exactly as the code has it. There, reading and appending go to the same file (see Findings).
- `Scenarios` (scenarios.dfy) holds small worked runs: the same word in different case and padding, and adding `cat` and then `CAT`.

`HashMap` and `HashSet` iteration order is not specified by Java. Every operation that iterates over the map therefore takes the order as a parameter `order`, required to list each key exactly once (`IsEnumeration`). The results are stated for whichever order the library uses.

Three points where the code's behaviour is easy to misread:
- `clearAllData` empties the three containers and leaves the data file as it is. Truncating the file on clear would be the natural reading; the code does not do it, and the model follows the code.
- The duplicate flag of a single add is computed in `addSingleEntry` before `processEntry` runs; `processEntry` itself returns nothing. The model follows the code.
- `loadDataFromFile` hands every line to `processEntry`, which writes it back to the file being read. `Reload` models that loop as written. `Ledger.Engine.LoadDataFromFile` is the corrected load: it replays each line once and leaves the file unchanged (see Findings).

## Model

| member | source | states |
|---|---|---|
| Text.Trim | SmartDuplicateDetectionEngine.java:187 | the result has no char at or below U+0020 at either end, is no longer than the input, and is empty exactly when every input char is blank |
| Text.ToLower | SmartDuplicateDetectionEngine.java:187 | same length as the input, no upper-case letter in the result, and each char is the input's char lowered by `LowerChar` |
| Text.LowerChar | SmartDuplicateDetectionEngine.java:187 | an ASCII upper-case letter moves down by `'a' - 'A'`, every other char stays as it is, and the result is never upper-case nor changes blankness |
| Text.IsBlank | SmartDuplicateDetectionEngine.java:187 | the test `trim` applies at both ends: a char is blank when its code is at or below U+0020 |
| Text.TrimIsSlice | SmartDuplicateDetectionEngine.java:187 | `trim` returns a middle slice `s[i..j]` of its argument, and everything cut off before `i` and after `j` is blank |
| Text.TrimLeft | SmartDuplicateDetectionEngine.java:187 | the leading scan of `trim`: every char dropped is blank and the result does not start with a blank |
| Text.TrimRight | SmartDuplicateDetectionEngine.java:187 | the trailing scan of `trim`: every char dropped is blank and the result does not end with a blank |
| Text.Normalize | SmartDuplicateDetectionEngine.java:186-188 | the normal form has no blank at either end, no upper-case letter, and is no longer than the raw input |
| Text.NormalizeBlank | SmartDuplicateDetectionEngine.java:78-83 | `normalize` yields the empty string (the ignored case) exactly for input made only of blanks |
| Text.NormalizeIdempotent | SmartDuplicateDetectionEngine.java:186-188 | normalizing a normal form changes nothing |
| Text.EntryIsNormalForm | SmartDuplicateDetectionEngine.java:186-188 | a value is a recordable entry exactly when it is non-empty and its own normal form |
| Text.NormalizeIgnoresCase | SmartDuplicateDetectionEngine.java:186-188 | inputs equal up to case have the same normal form |
| Text.NormalizeIgnoresPadding | SmartDuplicateDetectionEngine.java:186-188 | blank padding before and after an input does not change its normal form |
| Text.TrimIgnoresPadding | SmartDuplicateDetectionEngine.java:187 | trimming a padded input gives the same as trimming the unpadded one |
| Text.Split | SmartDuplicateDetectionEngine.java:101 | splitting at every comma gives at least one piece, and no piece contains a comma |
| Text.JoinSplit | SmartDuplicateDetectionEngine.java:101 | gluing the pieces back with commas gives the input back |
| Text.SplitJoin | SmartDuplicateDetectionEngine.java:101 | splitting a comma-glued list of comma-free pieces gives the pieces back |
| Text.DropTrailingEmpty | SmartDuplicateDetectionEngine.java:101 | the result is a prefix of the pieces that does not end in an empty piece; only empty pieces were removed |
| Text.JavaSplit | SmartDuplicateDetectionEngine.java:101 | without a comma the whole input is the one piece; otherwise the pieces are a prefix of the plain split that does not end in an empty piece, and every piece it drops is empty |
| Text.JavaSplitAdmitted | SmartDuplicateDetectionEngine.java:101-110 | `split(",")` and a plain split at every comma hand the same values to `processEntry` |
| Text.AdmittedOne | SmartDuplicateDetectionEngine.java:105-109 | one piece contributes at most one value, and that value is an entry |
| Text.Admitted | SmartDuplicateDetectionEngine.java:104-110 | the values handed to `processEntry` are no more than the pieces, and each is an entry |
| Text.AdmittedMembers | SmartDuplicateDetectionEngine.java:104-110 | a value is handed to `processEntry` exactly when it is non-empty and some piece normalizes to it |
| Text.NormalsAt | SmartDuplicateDetectionEngine.java:105 | position `i` of `Normals` holds the normal form of piece `i` |
| Text.AdmittedStep | SmartDuplicateDetectionEngine.java:104-110 | one more loop turn appends exactly what the next piece contributes |
| Text.AdmittedStepAfter | SmartDuplicateDetectionEngine.java:104-110 | the same step after what the history or file already held: it grows by the next piece's contribution |
| Text.AdmittedDropTrailingEmpty | SmartDuplicateDetectionEngine.java:101-110 | trailing empty pieces contribute nothing |
| Text.AdmittedEntries | SmartDuplicateDetectionEngine.java:196-201 | lines that are already entries are replayed unchanged, so a file the engine wrote loads back as the history that wrote it |
| Text.TrimLeftIsSuffix | SmartDuplicateDetectionEngine.java:187 | what remains after leading blanks are dropped is a suffix of the input |
| Text.TrimRightIsPrefix | SmartDuplicateDetectionEngine.java:187 | what remains after trailing blanks are dropped is a prefix of the input |
| Order.LessIrreflexive | SmartDuplicateDetectionEngine.java:122 | no string sorts before itself |
| Order.LessTotal | SmartDuplicateDetectionEngine.java:122 | of two different strings one sorts before the other |
| Order.LessTransitive | SmartDuplicateDetectionEngine.java:122 | the order is transitive |
| Order.CaseInsensitiveLess | SmartDuplicateDetectionEngine.java:122 | the comparator `String.CASE_INSENSITIVE_ORDER`: `a` sorts before `b` when the ASCII-lowered `a` is lexicographically less than the ASCII-lowered `b`, a proper prefix first |
| Order.CaseInsensitiveOnEntries | SmartDuplicateDetectionEngine.java:122 | on entries, the case-insensitive order is plain lexicographic order |
| Order.Insert | SmartDuplicateDetectionEngine.java:121-122 | inserting a new element into a strictly sorted list keeps it strictly sorted, adds exactly that element, and grows it by one |
| Order.StrictlySortedDistinct | SmartDuplicateDetectionEngine.java:121-122 | a strictly sorted list holds no element twice |
| Ledger.CountOf | SmartDuplicateDetectionEngine.java:229 | `getOrDefault(v, 0)`: the count stored for `v`, or zero when `v` is not a key |
| Ledger.Repeated | SmartDuplicateDetectionEngine.java:211-213 | the keys the `count > 1` filter keeps: those whose count is above one |
| Ledger.CountsPositive | SmartDuplicateDetectionEngine.java:229 | under the invariant every key has a count of at least one |
| Ledger.ConsistentAfterProcess | SmartDuplicateDetectionEngine.java:226-231 | recording one more occurrence keeps the set, map and history consistent |
| Ledger.CountsAfterAppend | SmartDuplicateDetectionEngine.java:104-110 | after a run of recordings, the keys grow by the recorded values, and each count grows by the value's occurrences in the run |
| Ledger.ScanDeterministic | SmartDuplicateDetectionEngine.java:168-182 | for a given iteration order the most-frequent scan has one possible result |
| Ledger.SumOverEmpty | SmartDuplicateDetectionEngine.java:154-156 | summing counts taken from an empty history gives zero |
| Ledger.SumOverAddOne | SmartDuplicateDetectionEngine.java:154-156 | one more occurrence raises the sum over an enumeration by one exactly when the enumeration lists it |
| Ledger.EnumerationSum | SmartDuplicateDetectionEngine.java:147-157 | the counts of the frequency report add up to the number of processed entries |
| Ledger.HistoryBound | SmartDuplicateDetectionEngine.java:206-217 | distinct entries plus repeated entries never exceed the total |
| Ledger.DuplicateLinesMembers | SmartDuplicateDetectionEngine.java:131-145 | a line is in the duplicate report exactly when its entry is listed and its count is above one |
| Ledger.DuplicateLinesCount | SmartDuplicateDetectionEngine.java:131-145 | over an order without repeats, the report has one line per repeated entry |
| Ledger.Engine.constructor | SmartDuplicateDetectionEngine.java:7-9 | the containers start empty, the invariant holds, and the store is the given file |
| Ledger.Engine.SaveToFile | SmartDuplicateDetectionEngine.java:218-225 | the value is appended to the file as one line |
| Ledger.Engine.Remember | SmartDuplicateDetectionEngine.java:227-229 | the history gains the value at its end, the set gains it, and its count rises by one from `getOrDefault(v, 0)`; the invariant is kept |
| Ledger.Engine.ProcessEntry | SmartDuplicateDetectionEngine.java:226-231 | as `Remember`, and the value is also appended to the file |
| Ledger.Engine.Admit | SmartDuplicateDetectionEngine.java:105-109 | a piece is recorded exactly when its normal form is non-empty, and then its normal form is recorded |
| Ledger.Engine.MostFrequent | SmartDuplicateDetectionEngine.java:168-182 | nothing for an empty map; otherwise a key whose count no other exceeds, with its count, and the first such key in iteration order |
| Ledger.Engine.AddSingleEntry | SmartDuplicateDetectionEngine.java:76-95 | blank input changes nothing and is ignored; otherwise the normal form is recorded, flagged a duplicate exactly when it was already a key, and the most frequent entry is reported; the invariant is kept |
| Ledger.Engine.Record | SmartDuplicateDetectionEngine.java:85-94 | the duplicate flag is taken before recording; the entry is then recorded and the scan result reported |
| Ledger.Engine.AdmitAll | SmartDuplicateDetectionEngine.java:104-110 | the count is the number of admitted values; the history gains exactly those values in order; the keys and each count grow accordingly |
| Ledger.Engine.AddBulkEntries | SmartDuplicateDetectionEngine.java:97-114 | every non-blank piece of `split(",")` is recorded in order and counted; the file gains the same values; the most frequent entry is reported |
| Ledger.Engine.UniqueEntries | SmartDuplicateDetectionEngine.java:115-129 | each distinct entry is listed once, nothing else is listed, and each one comes before every case-insensitively greater one |
| Ledger.Engine.DuplicateEntries | SmartDuplicateDetectionEngine.java:131-145 | exactly the entries counted more than once are listed, each with its count; there are as many as the summary's duplicate figure |
| Ledger.Engine.FrequencyReport | SmartDuplicateDetectionEngine.java:147-157 | one line per key in iteration order, with its count; the counts add up to the total number of entries |
| Ledger.Engine.Summary | SmartDuplicateDetectionEngine.java:206-217 | total is the history's length, unique is its number of distinct entries, duplicates its number of repeated entries, and unique plus duplicates is at most the total |
| Ledger.Engine.ClearAllData | SmartDuplicateDetectionEngine.java:159-164 | the three containers are empty and the summary is all zero; the data file is unchanged |
| Ledger.Engine.LoadDataFromFile | SmartDuplicateDetectionEngine.java:190-205 | the history gains the normal form of each non-blank line of the file, in order; the set and counts follow; the file itself is unchanged |
| Ledger.Startup | SmartDuplicateDetectionEngine.java:14-16 | a fresh engine over a file holds the admitted lines; a file of entries loads back as exactly that history; the summary is taken afterwards |
| Reload.AtEnd | SmartDuplicateDetectionEngine.java:196 | `readLine()` returns `null`, ending the loop, exactly when the reader's next line index is at or past the file's last line |
| Reload.Step | SmartDuplicateDetectionEngine.java:196-201 | one loop turn reads one line; when its normal form is non-empty, that form is appended to both the history and the file being read |
| Reload.StepKeepsDistance | SmartDuplicateDetectionEngine.java:196-201 | when every unread line is an entry, a turn reads one line and appends one, so the number of unread lines stays the same |
| Reload.Run | SmartDuplicateDetectionEngine.java:196-201 | `k` turns of the loop: the reader advances by at most `k` lines, and by fewer only when it has reached the end; the file grows by exactly as many lines as the history |
| Reload.StepKeepsUnreadEntry | SmartDuplicateDetectionEngine.java:196-201 | an unread line with a non-blank normal form survives a turn: either it is read and its normal form is appended past the reader, or it is still ahead |
| Reload.NeverReachesEndFrom | SmartDuplicateDetectionEngine.java:194-201 | as long as one such line is ahead of the reader, `k` turns advance the reader by exactly `k` lines and never reach the end |
| Reload.AsWrittenNeverReachesEnd | SmartDuplicateDetectionEngine.java:194-201 | as written, the load never reaches the end of a file with any unread line whose normal form is non-empty (such as `a` or ` A`), whatever the other lines |
| Reload.AsWrittenKeepsDistance | SmartDuplicateDetectionEngine.java:194-201 | when every unread line is already an entry, the number of unread lines never shrinks and every turn records one more entry |
| Reload.AsWrittenOneLine | SmartDuplicateDetectionEngine.java:194-201 | a file holding the line `a` holds it three times after two turns, and `a` has been counted twice |
| Scenarios.CaseAndPaddingCollapse | SmartDuplicateDetectionEngine.java:186-188 | `cat`, `CAT` and ` Cat ` all normalize to `cat` |
| Scenarios.ScanOneKey | SmartDuplicateDetectionEngine.java:168-182 | over a map with a single key, the scan reports that key with its count |
| Scenarios.CatTwice | SmartDuplicateDetectionEngine.java:76-95 | adding `cat` and then `CAT` to an empty engine reports a new entry and then a duplicate, and `cat` is most frequent with count two |

## Left out

- Console interaction is not modelled: the menu, `getChoice`, the prompts and the printed messages. The raw line an operation reads is a parameter. What it prints is returned (`SingleOutcome`, `BulkOutcome`, the report sequences, `Stats`).
- File handling is reduced to a sequence of lines, `store`:
  - `File.exists`, the readers and writers, and the `IOException` paths are not modelled;
  - a missing file is an empty sequence;
  - a write never fails.
- The data file is a sequence of lines, and `SaveToFile` stores one value as one line. That relies on no entry holding a line break: `bw.newLine()` would otherwise split it, and `readLine` would load it back as several lines. The program guarantees this, because every raw value comes from `Scanner.nextLine` or `readLine`, which strip line terminators; `IsEntry` does not restate it.
- `toLowerCase` is modelled for ASCII letters only. Java also lowers non-ASCII letters, and locale-specific rules are ignored.
- `String.CASE_INSENSITIVE_ORDER` folds case char by char. The model folds ASCII letters only and compares whole chars. Java compares UTF-16 code units, so strings outside the Basic Multilingual Plane may order differently.
- `Collections.sort` (TimSort) is replaced by insertion into a sorted list. The list is strictly sorted and holds each distinct entry once, so it is the only possible result.
- `HashMap` and `HashSet` iteration order is a parameter. No particular order, and so no particular tie-break in the most-frequent scan, is modelled.
- `String.split` takes a regular expression. Only the single-comma pattern the code uses is modelled.
- The `main` menu loop and the exit choice are not modelled. `Startup` covers the two calls made before the loop.
- Ledger.Engine.ProcessEntry: counts are unbounded naturals. The Java `Integer` count would wrap after 2^31 - 1 occurrences of one entry.
- Ledger.Engine.MostFrequent: `maxCount` is unbounded, for the same reason.

## Findings

| source | as written | input that shows it | evidently intended | confidence | as-written member | corrected member |
|---|---|---|---|---|---|---|
| SmartDuplicateDetectionEngine.java:194-201 | the load loop reads the data file with a `BufferedReader` while `processEntry` (line 230, through `saveToFile`) appends each loaded entry to the same file; every line read adds one line past the reader, so the end of the file is never reached | a data file holding the single line `a` | each line present when loading starts is replayed once, and loading leaves the file as it was | medium, not executed (relies on the reader seeing bytes appended after it was opened, which a `FileInputStream` on a growing file does) | Reload.AsWrittenNeverReachesEnd | Ledger.Engine.LoadDataFromFile |
