# CSV deduplication table, modelled in Dafny

The Go package `csv` keeps a delimited text file in memory as a table (`Csv`).
The table holds a header, its records, and a key configuration: the name of a
unique-key column, whether sorting is on, the name of a sort column, and an
ascending flag. `Distinct` reduces the records to one per value of the
unique-key column. Among the records that share a key it keeps the one whose
sort field is strictly greatest under `strings.Compare`. On a tie the earliest
record is kept. This project models that table and its operations, and proves
what they compute.

Modules:

- `StringOrder` (`string_order.dfy`): `strings.Compare` as a three-way
  lexicographic comparison. It is proved equal to the textbook lexicographic
  order, antisymmetric and transitive. Go compares UTF-8 bytes and Dafny
  compares characters. On valid UTF-8 the byte order and the code-point
  order coincide, so on such input the two agree.
- `LineSplit` (`line_split.dfy`): `strings.Split` with a one-character
  separator, and its inverse `Join`, with both round trips.
- `Dedup` (`dedup.dfy`): what `Distinct` means. `Insert` is one pass of its
  loop body and `Reduce` the whole loop; `None` stands for a Go panic.
  `Faults` describes independently the inputs on which the Go code panics.
  `IsBest` describes the record kept for a key: none of that key is strictly
  greater, and every earlier one is strictly smaller. `Deduplicated` describes
  a correct output. The lemmas connect these and prove counting, permutation,
  determinacy-up-to-order and idempotence.
- `CsvTable` (`csv.dfy`): the class `Csv`, with the fields of the Go
  struct. It has a constructor (`InitCsv`), the key-index lookups,
  `Distinct`, `collect`, and the table-building half of `CsvRead`.
  `Distinct` reads the two key indices and hands the records to
  `DistinctRecords`, which runs the loop of the Go method and its final
  `collect`.
- `Scenarios` (`scenarios.dfy`): most of the cases of `csv/csv_test.go`,
  plus the equal-sort-value tie, a missing unique column, and sorting
  disabled. These cover the index lookups, `collect` of the two-entry map,
  the header line and first record line of the `CsvRead` test, and the
  `Distinct` test. `TestInitCsv` has no scenario of its own: what it checks
  is part of the constructor's contract.

Where the Go code panics, the model reports an error instead.
`newRecord[pk]` at csv/csv.go:129 panics when `pk == -1` or the record is
too short. On a key collision, `newRecord[sort]` or `m[name].value[sort]` at
csv/csv.go:134 panics in the same way. In these cases `Distinct` returns
`IndexOutOfRange` and leaves `Records` as they were. In Go the assignment to
`c.Records` comes after the loop, so a panic also leaves them untouched.
`Distinct` returns `Success` exactly when the input is not in `Faults`.

The order of `Distinct`'s output is left open, as Go's map iteration leaves
it. `Collect` may list the map's entries in any order. Every property of the
output is stated up to permutation, and any two correct outputs are proved to
be permutations of one another.

An empty name gets no special treatment: it matches an empty header cell
(`Scenarios.EmptyNameMatchesEmptyCell`).

## Model

| member | source | states |
|---|---|---|
| `StringOrder.Compare` | csv/csv.go:134 | the comparison is -1, 0 or 1, and 0 exactly when the strings are equal |
| `StringOrder.CompareIsLexicographic` | csv/csv.go:134 | Compare is -1 exactly when a comes before b lexicographically (a proper prefix, or smaller at the first difference), and 1 exactly when b comes before a |
| `StringOrder.CompareAntisymmetric` | csv/csv.go:134 | swapping the arguments negates the comparison |
| `StringOrder.GreaterTransitive` | csv/csv.go:134 | "strictly after" is transitive |
| `StringOrder.NotGreaterThenGreater` | csv/csv.go:134-135 | if p is not above s and r is strictly above s, then r is strictly above p; a replacement never loses an earlier maximum |
| `LineSplit.Split` | csv/csv.go:101-103 | a line splits into one more field than it has separators, and no field contains the separator |
| `LineSplit.JoinSplit` | csv/csv.go:101-103 | joining the fields of a split line with the separator gives the line back |
| `LineSplit.SplitJoin` | csv/csv.go:101-103 | splitting a joined row gives the row back when no field contains the separator |
| `CsvTable.IndexOf` | csv/csv.go:61-70 | the result is the smallest position holding the name, or -1 when no cell holds it |
| `CsvTable.Csv.constructor` | csv/csv.go:52-59 | InitCsv: the delimiter is the comma, header and records are empty, HasSort and IsAccending are false, Unique and Sort are empty |
| `CsvTable.Csv.UniqueKeyIndex` | csv/csv.go:61-70 | returns the first position of Unique in Header, or -1 when it is absent, whatever HasSort is |
| `CsvTable.Csv.SortKeyIndex` | csv/csv.go:72-84 | returns -1 whenever HasSort is false, even when Sort names a column; otherwise the first position of Sort, or -1 |
| `CsvTable.Collect` | csv/csv.go:113-119 | the result has one element per map entry, that entry's value, each key used once, in some order |
| `CsvTable.Csv.Distinct` | csv/csv.go:121-141 | succeeds exactly on inputs outside Faults; on failure Records is unchanged; on success Records is a correct deduplication of the old records; no other field changes |
| `CsvTable.DistinctRecords` | csv/csv.go:127-139 | fails exactly on the inputs in Faults; otherwise the result is a correct deduplication of the records for the given key and sort columns |
| `CsvTable.CsvRead` | csv/csv.go:86-107 | from lines already read: the header is the first line split on the comma, and record i is line i+1 split on the comma; an empty input gives an empty table |
| `Dedup.Insert` | csv/csv.go:129-137 | a new key never fails and is added; a collision fails exactly when either record lacks the sort field, and otherwise the new record replaces the stored one exactly when its sort field is strictly greater (strings.Compare == 1); any failure means a missing unique-key field or such a collision; on success the keys become the old keys plus this record's key, and no other entry changes |
| `Dedup.StepFails` | csv/csv.go:129-134 | a pass of the loop body that panics, after a prefix that did not, puts the whole input in Faults |
| `Dedup.ReduceBest` | csv/csv.go:128-138 | after the loop, the map's keys are exactly the unique-key values of the input, and each key maps to its best record: none of that key has a strictly greater sort field, and all earlier ones have strictly smaller ones |
| `Dedup.ReduceFails` | csv/csv.go:128-138 | the fold `Reduce` fails exactly on the inputs in `Faults`: some record has no unique-key field, or some record whose key occurs more than once has no sort field |
| `Dedup.ListingDeduplicates` | csv/csv.go:113-139 | the values of the map, listed once per key, form a correct deduplication of the input |
| `Dedup.DedupCount` | csv/csv.go:130-139 | the output has exactly one record per distinct key, so it is never longer than the input |
| `Dedup.DedupPermutation` | csv/csv.go:121-141 | when the input keys are already distinct, the output is a permutation of the input |
| `Dedup.DedupDeterminate` | csv/csv.go:113-139 | any two correct outputs for the same input are permutations of each other; only the order is unspecified |
| `Dedup.DedupIdempotent` | csv/csv.go:121-141 | a deduplicated table never makes Distinct fail, and deduplicating it again only reorders it |
| `Dedup.KeySetBound` | csv/csv.go:130-131 | a table has no more distinct keys than records |
| `Dedup.DistinctKeysCard` | csv/csv.go:130-131 | a table whose keys are distinct has as many keys as records |
| `Dedup.DistinctKeysNoFaults` | csv/csv.go:129-134 | a table whose keys are all present and distinct never reaches the sort-field comparison, so Distinct cannot fail on it, even with sorting off |
| `Scenarios.IndexExamples` | csv/csv_test.go:48-88 | the lookups of the index tests: Col3 is at 2, Col2 at 1, Col1 at 0, and Col0 and Col4 are -1 |
| `Scenarios.SortKeyExamples` | csv/csv_test.go:86-89 | on a table with header Col1, Col2, Col3, SortKeyIndex gives 0 for Col1, 1 for Col2, -1 for Col4, and -1 for Col2 once HasSort is false |
| `Scenarios.CollectExample` | csv/csv_test.go:109-131 | collect of the two-entry map gives both records, each once, in some order |
| `Scenarios.HeaderLineSplits` | csv/csv_test.go:148 | "col1,col2,col3" splits into col1, col2 and col3 |
| `Scenarios.QuotesStayInFields` | csv/csv_test.go:149 | a line of quoted fields splits on the commas, and each field keeps its double quotes |
| `Scenarios.EmptyNameMatchesEmptyCell` | csv/csv.go:61-70 | an empty name is found at an empty header cell, not reported missing |
| `Scenarios.DistinctBySecondColumn` | csv/csv_test.go:182-204 | with key col1 and sort col2, Distinct does not fail, and the output is the "01" row and ("02","val03","001"), because "val03" sorts after "val01" |
| `Scenarios.DistinctByThirdColumn` | csv/csv.go:134-135 | with sort col3 the two "02" rows tie on "001", and the earlier ("02","val01","001") is kept |
| `Scenarios.MissingUniqueColumnFails` | csv/csv.go:124-129 | for any header, a unique-key name it does not contain makes Distinct fail on any non-empty table |
| `Scenarios.UnsortedCollisionFails` | csv/csv.go:125-134 | with sorting off the sort index is -1, so a key collision fails, while a table without collisions does not |

## Left out

- File opening, `bufio.Scanner` and the `log.Fatal` exit in `CsvRead` are I/O and process termination. `CsvRead` starts from the lines already read. The scanner's line-length limit, and the scan error that `CsvRead` ignores, are not modelled.
- The `CsvHandle` interface is only a declaration. It names a method `Distint` that nothing implements, so there is nothing to model.
- `IsAccending` is kept as a field and set by the constructor. No operation reads it, so it has no behaviour. `Distinct` always prefers the greater sort field.
- The iteration order of Go maps is unspecified. `Collect` picks an arbitrary remaining key each time, and every contract holds whatever the order.
- Go panics on an out-of-range field index. The model returns the `IndexOutOfRange` status instead and leaves `Records` unchanged. The model does not say which record triggered the panic.
- `LineSplit.Split` models `strings.Split` for a one-character separator only. That is the only separator the package uses: `Comma` is `","`.
- Strings are sequences of Unicode scalar values. Input that is not valid UTF-8, which Go's strings can hold and compare byte by byte, is not modelled.
- `Reduce` and `Faults` are definitions without contracts of their own. Their properties are stated by `ReduceBest`, `ReduceFails` and `StepFails`.
- Of the `CsvRead` test's lines, only the header and the first record line are worked out; the other four differ from the first only in the field text.
- The test harness's printing and `reflect.DeepEqual` checks are not modelled. `Test_collect` expects one particular order of a map's values, which Go does not guarantee. The model states `collect` up to order.
