# doxy-coverage in Dafny

A verified model of doxy-coverage, the tool that measures API documentation
coverage from Doxygen's XML output. The tool reads `index.xml`, loads the XML
file of every compound that is not a directory or a group, and classifies
every `compounddef` and `memberdef` node. A node counts unless its kind is
namespace-like or it is a static function. A counted node is documented when
one of its three description elements has a child element. It is recorded
under its resolved source file and an identity built from its name and
argsstring, with last-write-wins. The report then gives per-file counts, the
undocumented identities of each file in sorted order, a global percentage by
truncating integer division, and a signal measured against the threshold.

Modules:

- `Wrappers` (`wrappers.dfy`): `Option`.
- `DoxygenXml` (`doxygen_xml.dfy`): the XML nodes the tool reads, and Python's `"%s"` of an optional text.
- `Host` (`host.dfy`): the filesystem and XML loader as parameters, and `os.path.join`.
- `Classifier` (`classifier.dfy`): `parse_definition`, split into `Classify` (whether the node counts and what it writes) and `ParseDefinition` (the merge).
- `Loader` (`loader.dfy`): `parse_file` and `parse` as loops, proved equal to folds of `ParseDefinition`, with lemmas about the folds.
- `IdOrder` (`id_order.dfy`): Python 2's ordering of identities, and the sort of a file's identities.
- `Reporter` (`reporter.dfy`): `report` and `get_coverage`.
- `Scenarios` (`scenarios.dfy`): one worked run, a file with one documented and one undocumented function.

Where the code departs from the tool's documented intent (excluding namespaces, counting documented definitions, ordering files by coverage), the model follows the code:

- The namespace test on line 59 is `kind in ('namespace')`. The parentheses hold a string, not a tuple, so any substring of "namespace" is excluded (`""`, `"name"`, `"space"`, `"e"`).
- "Documented" means that a description element has a child ELEMENT (`findall("./briefdescription/")`, whose trailing `/` selects children). Bare text directly inside `<briefdescription>` does not count, while an empty `<para/>` does.
- The identity appends the argsstring whenever an `argsstring` ELEMENT exists, even an empty one. An empty `<argsstring/>` has text None, so the identity becomes the name followed by `"None"`. When the chosen name is itself None and there is no argsstring, the key is Python's None. This is why `DefId` is `Option<string>`.
- The sort by coverage (lines 165-170) uses `get_coverage`, which filters `(line, documented)` tuples by truthiness. A non-empty tuple is always true, so every file's key is 100. The stable sort therefore leaves `keys()` as it is, and the report visits the files in reverse `keys()` order, not from highest coverage to lowest.

## Model

| member | source | states |
|---|---|---|
| `Classifier.Classify` | doxy-coverage.py:57-109 | The node is skipped if its kind is a substring of "namespace", if it is a static function, if it has no location, no file or no line, or if the file is not a regular file. In every other case it writes `(int(line), documented)` under `realpath(file)` and its identity, and documented holds iff one of the three descriptions has a child element. |
| `Classifier.ParseDefinition` | doxy-coverage.py:111-119 | A skipped node leaves the index unchanged. Otherwise the written file gains the identity with the new entry, overwriting any earlier one. Every other identity of that file and every other file are unchanged, and no entry is lost. |
| `Classifier.IsSubstringIff` | doxy-coverage.py:59 | `k in s` on strings holds iff `k` occurs contiguously in `s` at some index. |
| `Classifier.SubstringsOfNamespaceAreExcluded` | doxy-coverage.py:59-60 | "namespace", "name", "space", "e" and the empty kind are all excluded by the namespace test. |
| `Classifier.KindWithForeignCharacterIsKept` | doxy-coverage.py:59-60 | A kind containing a character that "namespace" lacks passes the namespace test. |
| `Classifier.OtherKindsAreNotExcluded` | doxy-coverage.py:59-60 | The kinds "function", "class" and "file" pass the namespace test. |
| `Classifier.DocumentedIff` | doxy-coverage.py:66-71 | The loop over the three description tags finds one iff the brief, detailed or in-body description has a child element. |
| `Classifier.OverloadsAreDistinct` | doxy-coverage.py:98-109 | Two nodes with the same chosen name and argsstrings that format differently get different identities. |
| `Classifier.SameNameWithoutArgsCollide` | doxy-coverage.py:98-109 | Two nodes with the same chosen name and no argsstring element get the same identity. |
| `Host.Join` | doxy-coverage.py:147 | `os.path.join` ends with its second part. An absolute second part replaces the first. Otherwise the first part is a prefix, and exactly one '/' separates a non-empty first part from the second: one is added only when the first part does not already end in '/'. |
| `Loader.ParseFile` | doxy-coverage.py:121-132 | The loop over compounds and their members yields the fold of `parse_definition` over each `compounddef` followed by its `memberdef` nodes. |
| `Loader.ParseMembers` | doxy-coverage.py:129-130 | The inner loop over one compound's `memberdef` nodes continues the fold: starting from the fold over the nodes already visited, it yields the fold over those nodes followed by the members. |
| `Loader.Parse` | doxy-coverage.py:135-152 | The loop over index entries skips kinds `dir` and `group` and files that do not exist. It yields the index fold of the remaining compound files, starting from an empty index. |
| `Loader.FoldAppend` | doxy-coverage.py:125-130 | Folding a concatenation of node sequences equals folding the first part, then the second. |
| `Loader.SkippedNodeIsInvisible` | doxy-coverage.py:57-93 | Inserting a node that does not count anywhere in the sequence leaves the resulting index unchanged. |
| `Loader.LastWriteWins` | doxy-coverage.py:111-117 | Each entry of the folded index is the one written by the last counting node for that file and identity, or the prior entry if no node wrote it. |
| `Loader.FoldFiles` | doxy-coverage.py:111-117 | The folded index's files are exactly the prior files plus the files that counting nodes wrote to. |
| `Loader.NothingRemoved` | doxy-coverage.py:111-117 | Every file and every identity present before the fold is still present after it. |
| `Loader.ParseIsOneFold` | doxy-coverage.py:135-152 | `parse` equals a single fold of `parse_definition`, starting from the empty index, over every node it loads, in load order. |
| `Loader.RecordedEntriesHaveCountedSource` | doxy-coverage.py:57-152 | Every entry of the final index is the last write of a loaded node. That node is not namespace-like, not a static function, and has a location whose file exists. |
| `Loader.ParsedRecordsAreNonEmpty` | doxy-coverage.py:112-117 | Folding never creates an empty file record. |
| `IdOrder.SortIds` | doxy-coverage.py:189-190 | Sorting a file's identities gives each identity exactly once, in strictly ascending Python 2 order. |
| `Reporter.GetCoverageIsConstant` | doxy-coverage.py:156-163 | `get_coverage` is 100 for every record, whatever its documentation. |
| `Reporter.ReversedIsKeyOrder` | doxy-coverage.py:165-170 | The visiting order (reversed `keys()`) lists every file exactly once. |
| `Reporter.CountsPartitionRecord` | doxy-coverage.py:180-181 | `doc_yes + doc_no` equals the size of the file's record. |
| `Reporter.FilePercent` | doxy-coverage.py:182-187 | The printed per-file figure is at most 100 and is the truncated quotient: `p * total <= yes * 100 < (p + 1) * total`. |
| `Reporter.GlobalPercent` | doxy-coverage.py:196-197 | The global figure is at most 100 and is the truncated quotient of `total_yes * 100` by `total_all`. |
| `Reporter.Signal` | doxy-coverage.py:200 | The result is never negative. It is 0 exactly when the percentage reaches the threshold, and `threshold - percentage` otherwise. |
| `Reporter.ExampleFigures` | doxy-coverage.py:196-200 | 7 of 11 gives 63, and 85 against a threshold of 90 gives 5. |
| `Reporter.TotalsPartition` | doxy-coverage.py:172-185 | `total_yes + total_no` equals the sum of the record sizes over the files visited. |
| `Reporter.NoDefinitionsIffAllEmpty` | doxy-coverage.py:175-197 | `total_all` is 0 (the division fails) exactly when every record visited is empty. |
| `Reporter.ListingIsSound` | doxy-coverage.py:191-194 | Every listed line names an undocumented identity of the file, with its line. |
| `Reporter.ListingIsComplete` | doxy-coverage.py:191-194 | Every undocumented identity of the file is listed. |
| `Reporter.ListingIsSorted` | doxy-coverage.py:189-194 | Listing identities taken in ascending order keeps the listed lines in ascending identity order. |
| `Reporter.DescribeFile` | doxy-coverage.py:176-194 | A non-empty file's row holds its documented count, its total (the record size), the truncated percentage and its sorted undocumented listing. |
| `Reporter.VisitFiles` | doxy-coverage.py:172-194 | The loop over the files skips empty records and prints one row per non-empty file, in order. Its totals are the sums of the documented and undocumented counts. |
| `Reporter.Report` | doxy-coverage.py:155-200 | Files are visited in reversed `keys()` order with one row per non-empty file. The run fails with a division by zero iff every record is empty. Otherwise it returns the totals, the truncated global percentage and the threshold signal. |
| `Scenarios.ClassifiedNodes` | doxy-coverage.py:57-109 | A file compound without a line is skipped. Each function is written under its real path with identity `definition + argsstring`. |
| `Scenarios.TwoFunctionsIndex` | doxy-coverage.py:121-132 | One compound holding a documented and an undocumented function yields one file record with both entries. |
| `Scenarios.TwoFunctionsReport` | doxy-coverage.py:175-194 | That record has 1 documented and 1 undocumented entry, is 50 percent, and lists the undocumented function at its line. |

## Left out

- XML parsing (`ET.parse`, `iter`, `find`, `findall`) is not modelled. A compound file is given as its `compounddef` nodes, each with its `memberdef` nodes already in document order. A node keeps only the attributes and children the tool reads.
- The filesystem (`os.path.isfile`, `os.path.realpath`, `os.path.exists`) is not modelled. `isfile`, `realpath` and `load` are parameters, fixed for one run. `os.path.join` is modelled.
- `argparse`, `main`, `FATAL`/`sys.exit` and the exit when `index.xml` is missing are left out as process glue. So are `--noerror` and the truncation of the exit status to a byte. The threshold is a parameter instead of the global `ns`.
- Printed output is left out: the format strings and the "skip" diagnostic for a missing file. The report is returned as rows `(file, percent, documented, total, undocumented lines)` plus an outcome.
- A node without a `kind` attribute makes `None in 'namespace'` raise TypeError. The model's `kind` is always a string, so this crash is not represented.
- A `line` attribute that `int()` cannot read raises ValueError. The model takes the line already as an integer.
- The dictionaries that `parse_definition` updates in place are modelled as values returned to the caller. Only the caller holds them, so aliasing has no observable effect.
- `Reporter.FilePercent`: the source prints a float percentage through `%d`. The model uses the exact truncated integer and ignores float rounding, which only matters for records far larger than any real source file.
- Python 2's `list.sort(cmp)` and `reverse` are not modelled as algorithms. `keys()` order is a parameter, and the visiting order is its reverse. This is justified because the sort key is constant (`Reporter.GetCoverageIsConstant`) and Python's sort is stable.
- `IdOrder.SortIds`: `list.sort()` is modelled by its outcome (strictly ascending, same elements), not by its algorithm. Strings compare by character code, which matches Python 2 for the ASCII text Doxygen emits.
