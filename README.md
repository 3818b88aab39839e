# CsvJsonProcessor model

A Dafny model of the per-cell JSON pruning in `CsvJsonProcessorService` of
CsvJsonProcessor. The service reads a CSV file, keeps the header row as it
is, and passes every later cell that looks like JSON through
`extractDataAndRemoveResult`. That method parses the cell and picks a
target. An object-valued `data` field is the target. A `data` that is not
an object is returned as it is. Without `data`, an object root is the target.
Any other root makes the method return the cell text unchanged. In the
target, the `result` field is removed from `imageInfos` when that is an
object, or from each object element when it is an array. The chosen node is
then serialised. A cell whose processing throws keeps its original text.

Modules:

- `Wrappers`: `Option`.
- `JsonTree`: the parsed tree. Objects are ordered association lists, as in
  Jackson's `ObjectNode`. It defines `Get`, `Has`, `Remove` and
  `Replace`, and the `WellFormed` invariant (unique field names everywhere).
- `CellClassifier`: Java's `String.trim` and `isJsonFormat`.
- `JsonPruner`: target selection (`Select`), the `imageInfos` rewrite
  (`PruneContainer`) and `Extract`. These specification functions sit beside
  methods that follow the source's statements and loops and are proved equal
  to them. The lemmas state what each branch yields.
- `CsvProcessor`: per-cell processing, `processJsonInRow` and the row loop
  of `processCsvFile`, with lemmas on row count, column count, the header
  row and fail-open cells.

Jackson's `readTree` becomes a parameter `parse: string -> Option<Json>`,
where `None` is the exception thrown on malformed text. `writeValueAsString`
becomes a parameter `ser: Json -> string`. Every statement about them is
universally quantified over these two functions. The one exception is the
re-processing lemma, which assumes that `ser` round-trips the node it emits.

The model follows the code, not the repository's test. The test
(src/test/java/com/example/csvjsonprocessor/service/CsvJsonProcessorServiceTest.java:30,44)
expects `result` to disappear from `{"data":{"user":...,"result":"success"}}`.
The code removes `result` only below `imageInfos`. So for that input the
data object, `result` included, is what gets written.
`JsonPruner.ResultDirectlyUnderDataExample` and `JsonPruner.DataObjectSelected`
state this.

Running the pruner again on its own output is not always a no-op. Each run
unwraps one level of `data`. So `{"data":{"data":{"x":1}}}` gives
`{"data":{"x":1}}`, and a second run gives `{"x":1}`
(`JsonPruner.NestedDataExample`). `JsonPruner.ReprocessIsNoOp` proves that a
second run changes nothing when two conditions hold: the emitted node has no
`data` field of its own, and serialisation round-trips it.

## Model

| member | source | states |
|---|---|---|
| JsonTree.Has | src/main/java/com/example/csvjsonprocessor/service/CsvJsonProcessorService.java:119 | `has(key)` is true exactly for an object that has a field named `key`, never for an array or a scalar |
| JsonTree.Get | src/main/java/com/example/csvjsonprocessor/service/CsvJsonProcessorService.java:120 | the lookup finds a value exactly when the key is one of the object's field names, and that field holds the value found |
| JsonTree.Remove | src/main/java/com/example/csvjsonprocessor/service/CsvJsonProcessorService.java:133 | after removal the key is absent; the entries left are exactly the entries whose key differs; every other key has the same value; removing an absent key changes nothing |
| JsonTree.Replace | src/main/java/com/example/csvjsonprocessor/service/CsvJsonProcessorService.java:131-133 | mutating the node under a key keeps the field names and their order; that key now holds the new value; all other keys keep theirs |
| JsonTree.RemoveAt | src/main/java/com/example/csvjsonprocessor/service/CsvJsonProcessorService.java:133 | with unique field names, removing a present key deletes exactly its one entry and keeps the others in order |
| JsonTree.RemoveIdempotent | src/main/java/com/example/csvjsonprocessor/service/CsvJsonProcessorService.java:141 | removing the same key twice is the same as removing it once |
| JsonTree.RemovePreservesWellFormed | src/main/java/com/example/csvjsonprocessor/service/CsvJsonProcessorService.java:133 | removing a field keeps field names unique throughout the object |
| JsonTree.ReplacePreservesWellFormed | src/main/java/com/example/csvjsonprocessor/service/CsvJsonProcessorService.java:131-133 | replacing a field's value by a well-formed value keeps the object well formed |
| CellClassifier.TrimStartIndex | src/main/java/com/example/csvjsonprocessor/service/CsvJsonProcessorService.java:104 | the start index of `trim`: every char before it is at or below U+0020, and the char at it (if any) is not |
| CellClassifier.TrimEndIndex | src/main/java/com/example/csvjsonprocessor/service/CsvJsonProcessorService.java:104 | the length of the string without its trailing blanks, which is `trim`'s `len` whenever the string has a non-blank char: every char from it on is at or below U+0020, and the char just before it (if any) is not |
| CellClassifier.Trim | src/main/java/com/example/csvjsonprocessor/service/CsvJsonProcessorService.java:100-104 | `str.trim()` is empty exactly when the cell is all blanks; otherwise it is the span between the two indices and starts and ends with a non-blank char |
| CellClassifier.IsJsonFormat | src/main/java/com/example/csvjsonprocessor/service/CsvJsonProcessorService.java:99-107 | a null or all-blank cell is not JSON-like, and a JSON-like cell trims to at least two chars (both delimiters) |
| CellClassifier.DelimiterChars | src/main/java/com/example/csvjsonprocessor/service/CsvJsonProcessorService.java:105-106 | the `startsWith`/`endsWith` tests hold exactly when the first and last chars are a matching brace or bracket pair, which takes at least two chars |
| CellClassifier.BlankIsNotJson | src/main/java/com/example/csvjsonprocessor/service/CsvJsonProcessorService.java:99-102 | null, empty and all-blank cells are not JSON-like |
| CellClassifier.TrimSpan | src/main/java/com/example/csvjsonprocessor/service/CsvJsonProcessorService.java:104 | trimming yields exactly the span from the first to the last non-blank char |
| CellClassifier.IsJsonFormatIff | src/main/java/com/example/csvjsonprocessor/service/CsvJsonProcessorService.java:99-107 | a cell is JSON-like if and only if, apart from surrounding blanks, it starts with `{` and ends with `}` or starts with `[` and ends with `]` |
| JsonPruner.StripResult | src/main/java/com/example/csvjsonprocessor/service/CsvJsonProcessorService.java:139-142 | an object element loses its `result` field and keeps every other field's value; a non-object element is unchanged |
| JsonPruner.PruneImageInfos | src/main/java/com/example/csvjsonprocessor/service/CsvJsonProcessorService.java:131-145 | an object `imageInfos` loses `result`; an array keeps its length and order with each element stripped; any other value is unchanged |
| JsonPruner.PruneContainer | src/main/java/com/example/csvjsonprocessor/service/CsvJsonProcessorService.java:127-146 | the container keeps its field names in order; every field but `imageInfos` keeps its value; `imageInfos`, when present, holds its pruned value; without `imageInfos` nothing changes |
| JsonPruner.StripEach | src/main/java/com/example/csvjsonprocessor/service/CsvJsonProcessorService.java:138-143 | the array after the loop: the same length, no object element keeps a `result` field, object elements keep every other field's value, every non-object element unchanged |
| JsonPruner.RemoveResultFromEach | src/main/java/com/example/csvjsonprocessor/service/CsvJsonProcessorService.java:138-143 | the for loop over the `imageInfos` array yields each element stripped of `result`, in order |
| JsonPruner.RemoveResultFromImageInfos | src/main/java/com/example/csvjsonprocessor/service/CsvJsonProcessorService.java:127-146 | the in-place `imageInfos` step yields the pruned container |
| JsonPruner.ReplaceSame | src/main/java/com/example/csvjsonprocessor/service/CsvJsonProcessorService.java:127-146 | storing back the value a field already holds changes nothing |
| JsonPruner.Select | src/main/java/com/example/csvjsonprocessor/service/CsvJsonProcessorService.java:119-178 | only a non-object root yields the input text; a present non-object `data` is emitted as it is; an object `data`, or an object root without `data`, yields an object with that container's field names |
| JsonPruner.Extract | src/main/java/com/example/csvjsonprocessor/service/CsvJsonProcessorService.java:115-179 | the pruner fails exactly when parsing fails; a non-object root gives back the input text; an object root gives the serialised selected node |
| JsonPruner.ExtractDataAndRemoveResult | src/main/java/com/example/csvjsonprocessor/service/CsvJsonProcessorService.java:115-179 | the method's answer is the specification `Extract`: no answer on a parse failure, otherwise the serialised selected node or the input text |
| JsonPruner.DataObjectSelected | src/main/java/com/example/csvjsonprocessor/service/CsvJsonProcessorService.java:119-148 | an object-valued `data` is the answer: its field names in order, every field but `imageInfos` unchanged (a `result` directly under `data` included), an `imageInfos` field holds its pruned value, and the root's other fields do not matter |
| JsonPruner.ImageInfosObjectPruned | src/main/java/com/example/csvjsonprocessor/service/CsvJsonProcessorService.java:127-163 | with `imageInfos` an object, reached through `data` or in a root without `data`, the answer's `imageInfos` has no `result` and every other field of it is unchanged |
| JsonPruner.ImageInfosArrayPruned | src/main/java/com/example/csvjsonprocessor/service/CsvJsonProcessorService.java:137-143 | with `imageInfos` an array, reached through `data` or in a root without `data`, the answer's array has the same length, object elements lose only `result`, and other elements are unchanged |
| JsonPruner.ImageInfosScalarKept | src/main/java/com/example/csvjsonprocessor/service/CsvJsonProcessorService.java:127-146 | an `imageInfos` that is neither object nor array leaves the container unchanged |
| JsonPruner.DataNotObjectSelected | src/main/java/com/example/csvjsonprocessor/service/CsvJsonProcessorService.java:149-151 | a `data` that is not an object (null included) is itself the answer, without pruning |
| JsonPruner.NoDataRootSelected | src/main/java/com/example/csvjsonprocessor/service/CsvJsonProcessorService.java:153-174 | without `data`, an object root is the answer with its field names kept, every field but `imageInfos` unchanged, and `imageInfos`, when present, replaced by its pruned value |
| JsonPruner.NonObjectRootReturnsInput | src/main/java/com/example/csvjsonprocessor/service/CsvJsonProcessorService.java:155-178 | a root that parses to an array or a scalar makes the pruner return the input text itself |
| JsonPruner.PruneImageInfosIdempotent | src/main/java/com/example/csvjsonprocessor/service/CsvJsonProcessorService.java:131-145 | pruning an already pruned `imageInfos` changes nothing |
| JsonPruner.PruneContainerIdempotent | src/main/java/com/example/csvjsonprocessor/service/CsvJsonProcessorService.java:127-146 | pruning an already pruned container changes nothing |
| JsonPruner.ReprocessIsNoOp | src/main/java/com/example/csvjsonprocessor/service/CsvJsonProcessorService.java:115-179 | feeding the pruner its own output again gives the same text, when serialisation round-trips the emitted node and that node has no `data` field |
| JsonPruner.NestedDataExample | src/main/java/com/example/csvjsonprocessor/service/CsvJsonProcessorService.java:119-148 | a `data` nested in `data` is unwrapped once per run, so a second run changes the output again |
| JsonPruner.PruneImageInfosWellFormed | src/main/java/com/example/csvjsonprocessor/service/CsvJsonProcessorService.java:131-145 | pruning `imageInfos` keeps field names unique |
| JsonPruner.PruneContainerWellFormed | src/main/java/com/example/csvjsonprocessor/service/CsvJsonProcessorService.java:127-146 | pruning a well-formed container keeps it well formed |
| JsonPruner.SelectWellFormed | src/main/java/com/example/csvjsonprocessor/service/CsvJsonProcessorService.java:119-176 | the emitted node is well formed whenever the parsed root is |
| JsonPruner.ArrayUnderDataExample | src/main/java/com/example/csvjsonprocessor/service/CsvJsonProcessorService.java:137-143 | an array of two objects under `data.imageInfos` comes out with `url` kept and `result` gone in both |
| JsonPruner.ResultDirectlyUnderDataExample | src/main/java/com/example/csvjsonprocessor/service/CsvJsonProcessorService.java:119-148 | a `result` directly under `data` with no `imageInfos` is kept; the answer is the whole `data` object |
| CsvProcessor.ProcessCell | src/main/java/com/example/csvjsonprocessor/service/CsvJsonProcessorService.java:74-88 | a cell that is not JSON-like, or whose text does not parse, is kept; a cell changes only when it is JSON-like and parses |
| CsvProcessor.ProcessJsonCell | src/main/java/com/example/csvjsonprocessor/service/CsvJsonProcessorService.java:74-88 | the try/catch around the pruner yields the per-cell specification: the pruner's answer, or the original cell when it throws |
| CsvProcessor.ProcessedRow | src/main/java/com/example/csvjsonprocessor/service/CsvJsonProcessorService.java:70-91 | a processed row has the input's length, a cell that is not JSON-shaped is kept, and a cell only changes when it is JSON-shaped and parses |
| CsvProcessor.ProcessJsonInRow | src/main/java/com/example/csvjsonprocessor/service/CsvJsonProcessorService.java:70-91 | the output row has the input's length and cell i is the processing of input cell i alone |
| CsvProcessor.ProcessedFile | src/main/java/com/example/csvjsonprocessor/service/CsvJsonProcessorService.java:41-55 | the processed file has as many rows as the input, the first row is kept as read, and every row keeps its number of cells |
| CsvProcessor.ProcessCsvRows | src/main/java/com/example/csvjsonprocessor/service/CsvJsonProcessorService.java:41-55 | the rows collected equal `ProcessedFile`: the first row as read, every later row processed, in order |
| CsvProcessor.FileShape | src/main/java/com/example/csvjsonprocessor/service/CsvJsonProcessorService.java:41-55 | as many rows out as in, the header row verbatim, every later row processed, and every row keeps its column count |
| CsvProcessor.UnprocessableCellKept | src/main/java/com/example/csvjsonprocessor/service/CsvJsonProcessorService.java:77-87 | a data cell that is not JSON-like, or whose text does not parse, is written out byte for byte |
| CsvProcessor.CellsIndependent | src/main/java/com/example/csvjsonprocessor/service/CsvJsonProcessorService.java:73-89 | an output cell depends only on the input cell in the same column |
| CsvProcessor.ParsedCellReplaced | src/main/java/com/example/csvjsonprocessor/service/CsvJsonProcessorService.java:77-81 | a JSON-like cell that parses is replaced by the serialised selected node, or by its own text for a non-object root |

## Left out

- JSON parsing and serialisation (`objectMapper.readTree`, `writeValueAsString`, src/main/java/com/example/csvjsonprocessor/service/CsvJsonProcessorService.java:116,148,151,174) are Jackson calls. They are the parameters `parse` and `ser`. A parse failure stands for the thrown exception. Serialisation is taken never to throw.
- Duplicate field names in the input text: what Jackson then keeps is part of the abstract `parse`. `Get` reads the first entry. The lemmas that need unique names say so, through `UniqueKeys` or `WellFormed`.
- In-place mutation of Jackson nodes: `remove("result")` on an `ObjectNode` is a rewrite of the freshly parsed value. No other reference to the parsed tree exists, so no aliasing is lost.
- Numbers are `real` values. Jackson's distinction between integer, long, big-integer and floating-point nodes is not modelled, and neither is their textual form.
- CSV reading and writing (`CSVReader`, `CSVWriter`, `FileReader`, `FileWriter`, src/main/java/com/example/csvjsonprocessor/service/CsvJsonProcessorService.java:41,59-62) is I/O through a library. The input is the sequence of rows the reader yields, and the output is the list handed to `writeAll`. File errors are not modelled.
- Logging (`logger.info/debug/warn`) has no effect on behaviour.
- The controller (src/main/java/com/example/csvjsonprocessor/controller/CsvProcessorController.java:18-35) is stdin prompts and console output.
- The Spring `@Service` wiring and the constructor (src/main/java/com/example/csvjsonprocessor/service/CsvJsonProcessorService.java:24-26) hold no logic.
- `String.trim` works on UTF-16 code units and Dafny strings on Unicode scalar values. The blanks it strips (U+0000 to U+0020) are the same in both.
