# Insurance-plan normalisation of the Clean-ADS transformer

This project is a Dafny model of `MedicalDataProcessor` in `lib/transform.py`.
The processor works in four steps:

1. It walks a folder of spreadsheet exports. It keeps every file whose name
   ends in `.xlsx` and does not start with "~". That skips Excel lock files
   (`~$...`), but also any other name starting with "~", such as
   `~notes.xlsx`. It tags each row with the name of the directory the file
   is in. That tag is the `Source` column.
2. It concatenates the resulting frames.
3. It normalises the "Insurance Name Plan1" column with an ordered rule table.
   Each rule has a `ReplaceLowerContains` pattern and a `ReplaceTo` value.
4. It writes one CSV per distinct `Source`.

The substitution in step 3 is a cascade, not first-match-wins. Rules are
tried in table order. When a rule's pattern occurs in the lower-cased
*current* value, the rule's replacement takes the place of the whole value.
The next rule is then tested against that replacement.

Modules:

- `Wrappers` (wrappers.dfy): the `Option` type.
- `Text` (text.dfy): `str.lower()` on ASCII letters, the substring test
  `needle in hay`, `startswith` and `endswith`.
- `Mapping` (mapping.dfy): the plan cell (`Cell`), rules, one rule step, and
  the cascade as a left fold (`Cascade`). It also holds the lemmas about the
  cascade.
- `Files` (files.dfy): rows and records, the file-name filter, `basename`,
  the `Source` tagging, and the frames one directory walk loads.
- `Partition` (partition.dfy): `unique()` on `Source`, the per-source filter,
  and the CSV files `save_files` writes.
- `Processor` (processor.dfy): the class `MedicalDataProcessor`.
  - `ProcessFiles` appends to `dfList`. Its inner loop, over the files of one
    directory, is the method `LoadDirectory`.
  - `ApplyMapping` rewrites an `array<Record>` in place. It first converts
    every plan cell to text, then loops over the rules. Each rule is applied
    to the whole column by `ApplyRule`, a loop over the records; this is the
    per-rule `apply` over the column in the source.
  - `SaveFiles` and `Run` complete the pipeline.

Two consequences of the code are easy to miss:

- Only the value is lower-cased. The pattern is not, so matching is not fully
  case-insensitive. A pattern with an upper-case letter can never match
  (`UpperPatternNeverMatches`).
- One might expect re-running the normalisation to change nothing whenever the
  table has no cyclic substitutions. That does not hold for this code.
  `ReRunCanChange` gives a two-rule table with no cycle whose output changes
  when it is run again. `Idempotent` proves the property under a condition
  that is sufficient: every replacement is left alone by the whole table.

## Model

| member | source | states |
|---|---|---|
| `Text.Lower` | lib/transform.py:41 | `x.lower()` keeps the length, turns each ASCII capital into its lower-case letter (code point + 32), leaves no upper-case letter and keeps every other character |
| `Text.LowerIdempotent` | lib/transform.py:41 | lower-casing a lower-cased value changes nothing |
| `Text.Contains` | lib/transform.py:41 | `p in s` is true exactly when `p` occurs at some position of `s`; the empty pattern occurs everywhere |
| `Mapping.CellText` | lib/transform.py:36 | `astype(str)` keeps a text cell's text and turns a missing cell into "nan", so afterwards a missing cell and the text "nan" are the same value |
| `Mapping.Matches` | lib/transform.py:41 | a rule matches exactly when its pattern occurs in the lower-cased value; an empty pattern matches every value and a pattern longer than the value matches none |
| `Mapping.MatchIgnoresValueCase` | lib/transform.py:41 | a value and its lower-cased form match exactly the same rules |
| `Mapping.MatchesAnyCaseOfValue` | lib/transform.py:41 | the pattern "cat" matches the values "CAT" and "Cat" |
| `Mapping.Step` | lib/transform.py:39-43 | one rule applied to one value yields either the value itself or the rule's whole replacement |
| `Mapping.Cascade` | lib/transform.py:37-44 | running the table yields the original value or one rule's replacement as a whole, never a splice |
| `Mapping.LastFiring` | lib/transform.py:37-44 | finds the last rule whose pattern occurs in the value produced by the rules before it; no later rule fires, and `None` means no rule fired at its step |
| `Mapping.CascadeNoFiring` | lib/transform.py:37-44 | a run of rules none of which fires leaves the value produced before them unchanged |
| `Mapping.CascadeIsLastFiring` | lib/transform.py:37-44 | the result is the original text when no rule fired at its step, and otherwise the `ReplaceTo` of the last rule that fired |
| `Mapping.CascadeSplit` | lib/transform.py:37-44 | running the table `r1 + r2` is running `r1`, then `r2` on its output: rules compose as a left fold in index order |
| `Mapping.CascadeFirst` | lib/transform.py:37-44 | the first rule's output is the input of the rest of the table, so a later rule is tested against an earlier replacement |
| `Mapping.PassThrough` | lib/transform.py:39-43 | a value in which no pattern occurs (lower-cased) comes back unchanged, for every table including the empty one |
| `Mapping.UpperPatternNeverMatches` | lib/transform.py:41 | a pattern holding an upper-case letter never occurs in a lower-cased value, so its rule leaves every value alone |
| `Mapping.UpperPatternRuleInert` | lib/transform.py:37-44 | such a rule can be deleted from any position of the table without changing any result |
| `Mapping.EmptyPatternResets` | lib/transform.py:37-44 | a rule with an empty pattern fires on every value, so the result no longer depends on the value or on the rules before it |
| `Mapping.Idempotent` | lib/transform.py:37-44 | when every replacement is a fixed point of the table, running the table twice gives the same result as running it once |
| `Mapping.CascadeExample` | lib/transform.py:37-44 | rules ("a"→"X"), ("x"→"Y") turn "cat" into "Y", although the first matching rule alone gives "X" |
| `Mapping.ReRunCanChange` | lib/transform.py:37-44 | rules ("b"→"c"), ("a"→"b") turn "a" into "b", and running them again gives "c" |
| `Files.Accepted` | lib/transform.py:24 | a name passes the filter exactly when its last five characters are ".xlsx" and its first character is not "~" |
| `Files.AcceptedStem` | lib/transform.py:24 | `stem + ".xlsx"` is accepted exactly when the stem is empty or does not start with "~" |
| `Files.AcceptedHasStem` | lib/transform.py:24 | every accepted name is such a stem plus ".xlsx", with the stem not starting with "~" |
| `Files.RejectedNames` | lib/transform.py:24 | names starting with "~" (lock files among them), ".xls" names and upper-case ".XLSX" names are skipped |
| `Files.Basename` | lib/transform.py:27 | the base name is the longest suffix of the path that holds no '/' |
| `Files.Tag` | lib/transform.py:31 | `df["Source"] = source` keeps the frame's number of rows |
| `Files.TagRows` | lib/transform.py:30-31 | tagging keeps the number of rows and each row's cells, and sets every row's `Source` to the directory name, overwriting any `Source` column the sheet had |
| `Files.LoadedDir` | lib/transform.py:23-32 | a directory yields at most one frame per file |
| `Files.LoadedDirOne` | lib/transform.py:24-32 | a single file yields its tagged rows when its name is accepted and nothing otherwise |
| `Files.LoadedDirConcat` | lib/transform.py:23-32 | loading two runs of files is loading each, in order, so every accepted file is loaded exactly once and in file order |
| `Files.Loaded` | lib/transform.py:22-32 | the walk over all directories yields at most one frame per file it lists |
| `Files.LoadedOne` | lib/transform.py:22-32 | a walk of one directory yields what that directory's files yield |
| `Files.LoadedConcat` | lib/transform.py:22-32 | loading two parts of a walk is loading each, in walk order |
| `Files.LoadedNoneAccepted` | lib/transform.py:22-32 | a walk in which no file name is accepted loads nothing |
| `Files.LoadedDirFrames` | lib/transform.py:22-32 | each frame loaded from a directory is one accepted file's rows tagged with the directory's base name; a directory with no accepted file adds nothing |
| `Files.LoadedSourcesHaveNoSlash` | lib/transform.py:27-31 | every loaded row's `Source` is a single path component |
| `Partition.BySource` | lib/transform.py:51 | the rows of one source contain exactly the frame's rows with that tag, and no more rows than the frame |
| `Partition.BySourceConcat` | lib/transform.py:51 | filtering commutes with concatenation, so each group keeps the frame's order |
| `Partition.UniqueSources` | lib/transform.py:48 | `unique()` lists each tag in the frame once and lists nothing else |
| `Partition.UniqueSourcesOrder` | lib/transform.py:48 | `unique()` lists the tags in order of first appearance: each tag occurs in the frame before any row of a tag listed after it |
| `Partition.GroupsFor` | lib/transform.py:48-51 | group `j` is tag `j` with the rows of that tag |
| `Partition.Partition` | lib/transform.py:48-51 | the groups have distinct tags, none is empty, each holds only frame rows of its own tag, and every frame row is in some group |
| `Partition.PartitionCovers` | lib/transform.py:48-51 | the groups together hold exactly the frame's records, each as often as in the frame |
| `Partition.RecordInOwnGroup` | lib/transform.py:48-51 | each record lies in exactly one group, the one matching its own `Source` |
| `Partition.CsvFiles` | lib/transform.py:47-51 | every file written is non-empty, each of its rows is a frame row whose tag gives the file's name, and every frame row is written to some file |
| `Partition.CsvNamesDistinct` | lib/transform.py:48-51 | no two groups write file names that are equal as strings |
| `Processor.NormalizeRecord` | lib/transform.py:36-44 | normalising a record changes only its plan cell, which becomes text: the original cell's text or one rule's replacement |
| `Processor.Normalized` | lib/transform.py:36-44 | normalising a frame keeps its number of records and, record by record, the `Source` tag and every other column |
| `Processor.Concat` | lib/transform.py:59 | a row is in the concatenation exactly when it is in one of the frames |
| `Processor.EmptyTableOnlyConverts` | lib/transform.py:36-37 | with an empty table the only change is the conversion of the plan cell to text |
| `Processor.MissingPlanMatchesNan` | lib/transform.py:36-43 | a missing plan becomes the text "nan" before matching, so a "nan" pattern rewrites it |
| `Processor.NormalizeCommutesWithSplit` | lib/transform.py:36-51 | normalising and then taking one source's rows gives the same result as taking them first and normalising them; each record's result depends only on that record |
| `Processor.NormalizeKeepsSources` | lib/transform.py:36-48 | normalising leaves the list of distinct sources, and with it the output file names, unchanged |
| `Processor.MedicalDataProcessor.constructor` | lib/transform.py:9-13 | a new processor keeps its three paths and starts with no frames |
| `Processor.MedicalDataProcessor.LoadDirectory` | lib/transform.py:23-32 | appends to `dfList` exactly the tagged frames of the directory's accepted files, in file order |
| `Processor.MedicalDataProcessor.ProcessFiles` | lib/transform.py:21-32 | appends to `dfList` exactly the tagged frames of the accepted files, in walk order |
| `Processor.MedicalDataProcessor.ApplyRule` | lib/transform.py:38-43 | one rule over a column that is already text (as line 36 leaves it): each record's plan becomes the rule's replacement when the pattern occurs in it lower-cased, and every other record and field is unchanged |
| `Processor.MedicalDataProcessor.ApplyMapping` | lib/transform.py:34-45 | afterwards each array element is its old record with the plan cell converted to text and run through the whole table in order. Every other field and the record count stay the same |
| `Processor.MedicalDataProcessor.SaveFiles` | lib/transform.py:47-51 | writes one "<source>.csv" per distinct source, in first-appearance order, each holding that source's rows in frame order |
| `Processor.MedicalDataProcessor.Run` | lib/transform.py:53-63 | loads the frames, then fails if there are none. Otherwise it writes the per-source files of the concatenated, normalised frame |

## Left out

- Reading sheets and the directory walk are I/O. `ProcessFiles` and `Run` take the walk as a parameter: a list of directories, each with its files and the rows reading each file gives.
- `load_mapping` reads the rule table from a sheet, which is I/O. The table is a parameter, a contiguous sequence of rules indexed from 0. Gaps in the index labels that `dropna` could leave would make the source fail, and that failure is not modelled.
- Writing the CSV files and joining them to the output folder are I/O. `SaveFiles` returns the file names and rows instead.
- `dropna(how="all")` on the sheets and on the rule table is not modelled. Rows are taken as reading gives them.
- Patterns and replacements are strings by type. A missing or numeric pattern or replacement would make the source raise an error or change type; this is not modelled.
- `Cell` holds text or a missing value (shown as "nan"). Converting numbers or dates to text with `astype(str)` is not modelled.
- `Text.Lower` lower-cases ASCII letters only. Python's `lower()` also folds non-ASCII letters, and the difference cuts both ways. A pattern with a non-ASCII capital (say "É") can match here but never in the source. A lower-case non-ASCII pattern ("é") matches a value holding the capital ("É") in the source but not here.
- `Files.Basename` follows POSIX `os.path.basename`, where '/' is the only separator. On Windows `os.path` also splits on '\' and after a drive letter such as "C:"; that is not modelled.
- `Partition.CsvNamesDistinct`: the file names differ as strings. On a case-insensitive file system, the default on Windows and macOS, "Aetna.csv" and "aetna.csv" are one file, so the later group's CSV overwrites the earlier one. File-system case rules are not modelled.
- `pd.concat` is modelled as `Concat`, for frames that share one schema. A record has the plan cell, the `Source` tag and a map of every other column. Column union with missing-value fill and index renumbering are not modelled. Concatenating an empty list fails, and `Run` returns `None` in that case.
- The `warnings` filter is left out because it is library configuration.
- Bracket-code extraction, conflict detection, exact-match mapping and category assignment are not part of this model. `lib/transform.py` holds no code for them.
