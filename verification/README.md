# JUnit merging and GKE versions in the Lustre CSI driver's integration-test tooling

This project models the two pure-logic parts of the integration-test tooling in
`test/k8s-integration` and proves properties of them in Dafny.

- **The JUnit merger** (`filter-junit.go`). `MergeJUnit` scans a list of
  directories for `*.xml` reports and skips the runner's own
  `junit_runner.xml`. It reads every report's suites and cases and keeps the
  cases whose name matches a test filter. It deduplicates them by name: the
  first case that ran wins, and otherwise the first case seen. It writes one
  merged suite. It removes the source files only when every directory could be
  listed. The skip marker `SkipReason` declares a one-space sentinel for "a
  `<skipped>` element with no text". Its methods have no `error` result, so the
  XML library never calls them (see "## Findings"). Decoding and encoding
  therefore take a `SkipCodec` parameter. `Library` is the program as written:
  the element's text is copied, so an empty `<skipped/>` reads as a run.
  `Marker` is the marker's own codec, which the comment on the type intends.
  Every contract of the merge holds under both codecs.
- **The GKE version parser** (`version.go`). `parseVersion` reads
  `[v]MAJOR.MINOR.PATCH[-gke.N]` into four integers, with -1 standing for "no
  suffix". `String` prints a version back. `compare`, `lessThan` and
  `atLeast` order versions lexicographically.

Modules:

| file | module | what it holds |
|---|---|---|
| `wrappers.dfy` | `Wrappers` | `Option` and `Result` |
| `decimal.dfy` | `Decimal` | digit strings: the `(0\|[1-9][0-9]*)` numeral shape, `Atoi` on digits, `%d` |
| `version.dfy` | `GkeVersion` | the version record, the hand-written grammar that replaces both regular expressions, parsing, printing and comparison |
| `junit_report.dfy` | `JUnitReport` | the report records, the skip marker's text codec, and the element view of a report |
| `dedup.dfy` | `Dedup` | the filter-and-dedup fold and the "ran beats skipped, else first seen" policy |
| `merge_junit.dfy` | `MergeJUnit` | the directory scan, the write, and the removal state machine over a filesystem snapshot |

The filesystem is a value `Env`. It gives each directory's listing (or its
error) and each file's read result. A file either cannot be read, cannot be
decoded, or is a decoded document. `Env` also gives whether encoding the
merged suite fails, whether writing it fails, and whether removing each file
fails. `MergeJUnit` returns an `Outcome` with three parts: the set of cases
written (if the write happened), the removals attempted, and the error
returned. The regular expression that filters test names is a predicate
parameter `matches`.

## Model

| member | source | states |
|---|---|---|
| `JUnitReport.UnmarshalText` | test/k8s-integration/filter-junit.go:57-62 | a present `<skipped>` element never decodes to "" (never reads as a run): empty text becomes the one-space sentinel, and non-empty text is kept as is |
| `JUnitReport.MarshalText` | test/k8s-integration/filter-junit.go:64-70 | every reason other than the sentinel is written as is; the text is empty exactly for "" and for the sentinel |
| `JUnitReport.MarshalUnmarshal` | test/k8s-integration/filter-junit.go:57-70 | decoding then encoding element text gives it back exactly when the text is not a lone space |
| `JUnitReport.UnmarshalMarshal` | test/k8s-integration/filter-junit.go:57-70 | encoding then decoding a reason gives it back exactly when the reason is not "" |
| `JUnitReport.DecodeSkip` | test/k8s-integration/filter-junit.go:50-62 | with the marker's decoder, a case reads as "ran" exactly when it has no `<skipped>` element |
| `JUnitReport.EncodeSkip` | test/k8s-integration/filter-junit.go:48-50 | with `omitempty` and the marker's encoder, the element is omitted exactly for a case that ran |
| `JUnitReport.DecodeEncodeSkip` | test/k8s-integration/filter-junit.go:53-70 | all three skip states (ran, skipped without text, skipped with text) survive writing and reading back |
| `JUnitReport.EncodeDecodeSkip` | test/k8s-integration/filter-junit.go:53-70 | a `<skipped>` element survives reading and writing back, except one whose text is a lone space |
| `JUnitReport.ReadSkip` | test/k8s-integration/filter-junit.go:50-62 | under either codec, non-empty text is kept as is; the field is "" exactly for no element, and as written also for an empty element |
| `JUnitReport.WriteSkip` | test/k8s-integration/filter-junit.go:48-50 | under either codec, the element is omitted exactly for "", and any reason other than the sentinel is written as is |
| `JUnitReport.WriteReadSkip` | test/k8s-integration/filter-junit.go:48-70 | under either codec, every skip reason is written so that it reads back as itself |
| `JUnitReport.DecodeCase` | test/k8s-integration/filter-junit.go:45-51 | a decoded case keeps its name, time, output and failure; it ran exactly when its element has no `<skipped>` child, or, as written, an empty one |
| `JUnitReport.EncodeCase` | test/k8s-integration/filter-junit.go:45-51 | an encoded case keeps its name, time, output and failure, and has no `<skipped>` child exactly when it ran |
| `JUnitReport.DecodeEncodeCase` | test/k8s-integration/filter-junit.go:45-51 | under either codec, every case is written so that it reads back as itself |
| `JUnitReport.DecodeDocument` | test/k8s-integration/filter-junit.go:36-51 | decoding keeps the suite structure and decodes each case in place |
| `JUnitReport.AllCases` | test/k8s-integration/filter-junit.go:107-108 | every case of every suite is visited; a single suite gives exactly its cases, in order |
| `JUnitReport.AllCasesMembers` | test/k8s-integration/filter-junit.go:107-108 | a case is visited exactly when it belongs to one of the suites |
| `JUnitReport.AllCasesAppend` | test/k8s-integration/filter-junit.go:107-108 | the cases of consecutive suites are visited suite by suite, so the visit order is document order |
| `JUnitReport.DecodeSkipAsWritten` | test/k8s-integration/filter-junit.go:50-62 | the library copies a present element's text into the field unchanged (so an empty element gives "") |
| `JUnitReport.EncodeSkipAsWritten` | test/k8s-integration/filter-junit.go:48-50 | the library omits the element exactly for "" and otherwise writes the field unchanged |
| `JUnitReport.EmptySkipLostAsWritten` | test/k8s-integration/filter-junit.go:53-70 | in the library's own handling, an empty `<skipped/>` is indistinguishable from no element and is dropped on output; the marker's codec keeps it |
| `Dedup.Step` | test/k8s-integration/filter-junit.go:112-116 | a step adds the case's name and touches no other entry; it keeps a stored case that ran and is never displaced by a skipped case; it replaces a skipped entry with a run; afterwards the name holds a run exactly when some case of it ran |
| `Dedup.MergeAll` | test/k8s-integration/filter-junit.go:112-116 | folding cases never drops a stored name, and a stored case that ran stays unchanged |
| `Dedup.MergeAllKeys` | test/k8s-integration/filter-junit.go:112-116 | the fold adds exactly the names of the cases it is given |
| `Dedup.MergeSuite` | test/k8s-integration/filter-junit.go:108-117 | the loop over one suite's cases never drops a stored name, and a stored case that ran stays unchanged |
| `Dedup.MergeSuites` | test/k8s-integration/filter-junit.go:107-118 | the loops over one file never drop a stored name, and a stored case that ran stays unchanged |
| `Dedup.MergeSuitesKeys` | test/k8s-integration/filter-junit.go:107-118 | after one file, the names are the previous names plus the names of the file's matching cases |
| `Dedup.Keep` | test/k8s-integration/filter-junit.go:109-111 | exactly the cases whose name passes the filter are kept |
| `Dedup.MergeSuiteIsMergeAll` | test/k8s-integration/filter-junit.go:108-117 | the loop over a suite's cases, with its filter test, folds exactly the suite's matching cases, in order |
| `Dedup.MergeSuitesIsMergeAll` | test/k8s-integration/filter-junit.go:107-118 | the two nested loops over a file fold exactly the file's matching cases, in document order |
| `Dedup.MergeAllAppend` | test/k8s-integration/filter-junit.go:83-120 | the map carried from file to file makes the whole scan one fold over the concatenated cases |
| `Dedup.MergeAllSummarizes` | test/k8s-integration/filter-junit.go:112-116 | from the empty map, the fold keeps exactly one entry per distinct name, and that entry is the first case of the name that ran, or its first case if none ran |
| `Dedup.StepSummarizes` | test/k8s-integration/filter-junit.go:112-116 | one step keeps that summary true when a case is appended |
| `Dedup.PreferredUnique` | test/k8s-integration/filter-junit.go:112-116 | the policy picks at most one case per name |
| `Dedup.PreferredIsInput` | test/k8s-integration/filter-junit.go:112-116 | the picked case is an input case of that name, and it ran exactly when some case of the name ran |
| `Dedup.MergeAllKeyedByName` | test/k8s-integration/filter-junit.go:112-116 | every stored value is an unmodified input case (or a value already stored) under its own name |
| `Dedup.RunNeverReplaced` | test/k8s-integration/filter-junit.go:112-116 | names are never removed, and a name that holds a case that ran keeps that very case for the rest of the fold |
| `Dedup.Output` | test/k8s-integration/filter-junit.go:122-127 | the written cases are exactly the map's values, in no particular order |
| `Dedup.OutputOnePerName` | test/k8s-integration/filter-junit.go:122-127 | the output names are exactly the map's names, and no two output cases share a name |
| `Dedup.RunReplacesEarlierSkip` | test/k8s-integration/filter-junit.go:112-116 | a skipped case followed by a run of the same name leaves only the run |
| `Dedup.FirstSkipKept` | test/k8s-integration/filter-junit.go:112-116 | two skipped cases of one name leave only the first |
| `Dedup.EmptySkipWinsAsWritten` | test/k8s-integration/filter-junit.go:53-70 | read the library's way, an empty `<skipped/>` followed by a real run keeps the skipped record; read through the marker's decoder, the run is kept |
| `MergeJUnit.ReportFileShape` | test/k8s-integration/filter-junit.go:93-95 | an entry is read exactly when it is `<base>.xml` and is not `junit_runner.xml` |
| `MergeJUnit.ReportPaths` | test/k8s-integration/filter-junit.go:92-97 | the files recorded for a directory are exactly its report entries |
| `MergeJUnit.RemoveFailures` | test/k8s-integration/filter-junit.go:143-148 | no removal error is collected exactly when every removal succeeds; each collected message comes from a failed removal |
| `MergeJUnit.ScanFiles` | test/k8s-integration/filter-junit.go:92-119 | the loop over one directory aborts only with the read or decode failure of one of that directory's entries; otherwise it leaves the directory errors alone and appends exactly the directory's report files to the removal list, in listing order |
| `MergeJUnit.ScanDirs` | test/k8s-integration/filter-junit.go:84-120 | the loop over directories aborts only with the read or decode failure of a report in one of the directories; otherwise it appends the messages of the unlistable directories to the errors and the report files of the listable ones to the removal list, in order |
| `MergeJUnit.ScanFilesAgrees` | test/k8s-integration/filter-junit.go:92-119 | the loop over one directory stops exactly when some report cannot be read or decoded, and then with the failure of the first such report in listing order; otherwise it has folded all the matching cases of its reports and recorded every report for removal |
| `MergeJUnit.ScanDirsAgrees` | test/k8s-integration/filter-junit.go:84-120 | across directories, unlistable ones only add their message to the errors; the scan aborts exactly when some report cannot be read or decoded, and then with the failure of the first such report in scan order; otherwise the map, the errors and the files to remove are those of all listable directories in order |
| `MergeJUnit.MergeJUnit` | test/k8s-integration/filter-junit.go:74-154 | the output is written exactly when every report decodes and encoding and writing succeed; the first report in scan order that cannot be read or decoded has its failure returned, with no write and no removal; once every report decodes, an encoding failure is returned as a marshal error, and otherwise a write failure as a write error; removals happen only after a write and only when every directory was listed, and then cover every report file; an unlistable directory gives a partial-merge error listing all directory errors; after a write with every directory listed, failed removals give a remove error holding the collected removal messages; no error is returned exactly when nothing failed; the written cases are the dedup of all matching cases |
| `MergeJUnit.MergeJUnitDedup` | test/k8s-integration/filter-junit.go:82-137 | when every report decodes and encoding and writing succeed, the report is written, and it holds no case whose name fails the filter, exactly one case per distinct matched name, and for each name the first run, or the first case if none ran |
| `MergeJUnit.FirstFailureAppend` | test/k8s-integration/filter-junit.go:98-105 | a failing report aborts the scan before any later directory is reached, and a directory whose reports all decode passes the abort of later directories through |
| `MergeJUnit.EmptySkipThenRun` | test/k8s-integration/filter-junit.go:53-70 | an empty `<skipped/>` for a name, then a run of that name in a later directory: as written the first record is written, as a pass with no output; with the marker's codec the run is written |
| `MergeJUnit.UnreadableDirectoryIsPartial` | test/k8s-integration/filter-junit.go:85-91 | with one unlistable and one readable directory, the readable one's cases are still written, the partial-merge error names the other's message, and nothing is removed |
| `GkeVersion.TrimPrefixV` | test/k8s-integration/version.go:87-88 | at most one leading 'v' is removed |
| `GkeVersion.LeadingNumeral` | test/k8s-integration/version.go:29-32 | a numeral split off the front is canonical, and the rest does not continue it |
| `GkeVersion.MatchVersion` | test/k8s-integration/version.go:29-32 | a match decomposes the input into three canonical numerals joined by dots, plus an empty suffix or a '-' followed by suffix characters |
| `GkeVersion.MatchVersionOfParts` | test/k8s-integration/version.go:29-32 | conversely, every such composition is matched with exactly those parts |
| `GkeVersion.MatchGkeExtra` | test/k8s-integration/version.go:33 | a match of the suffix expression is `gke.` followed by a canonical numeral |
| `GkeVersion.GkeExtraShape` | test/k8s-integration/version.go:64-66 | `isGKEExtraVersion` holds exactly for `gke.` followed by a canonical numeral |
| `GkeVersion.ExtractGkeExtraVersion` | test/k8s-integration/version.go:68-84 | no error exactly when the input is `gke.N`, and then the value is N (at least 0, printing back to the input); otherwise -1 with an error |
| `GkeVersion.FromSubmatches` | test/k8s-integration/version.go:95-119 | no suffix gives -1 as the fourth component; a suffix gives a value of at least 0 whose `gke.N` is the suffix after its '-' |
| `GkeVersion.ParseVersion` | test/k8s-integration/version.go:86-120 | every parsed version has non-negative numbers and a fourth component of at least -1 |
| `GkeVersion.ParseToStringRoundTrip` | test/k8s-integration/version.go:40-46 | parsing a printed well-formed version, with or without a leading 'v', gives it back |
| `GkeVersion.ParseVersionSound` | test/k8s-integration/version.go:86-120 | whatever is accepted is the printed form of the result, possibly after one 'v' |
| `GkeVersion.ParseVersionExactly` | test/k8s-integration/version.go:86-120 | the parser accepts exactly the printed forms of well-formed versions with at most one leading 'v', and returns that version |
| `GkeVersion.ParseVersionExtra` | test/k8s-integration/version.go:104-117 | `X.Y.Z` parses with -1 as its fourth component, and `X.Y.Z-gke.N` parses with N |
| `GkeVersion.OnlyOneVStripped` | test/k8s-integration/version.go:87-93 | a second leading 'v' is rejected |
| `GkeVersion.ToString` | test/k8s-integration/version.go:40-46 | a version always prints as a non-empty string; what it prints is stated by `GkeVersion.ToStringOmitsSuffix` and, as the inverse of parsing, by `GkeVersion.ParseToStringRoundTrip` |
| `GkeVersion.ToStringOmitsSuffix` | test/k8s-integration/version.go:40-46 | a parsed version prints with a `-gke.N` suffix exactly when its fourth component is not -1 |
| `GkeVersion.CompareFrom` | test/k8s-integration/version.go:137-148 | the loop returns only -1, 0 or 1, and 0 exactly when the remaining components are equal |
| `GkeVersion.Compare` | test/k8s-integration/version.go:132-148 | `compare` returns only -1, 0 or 1, and 0 exactly for equal versions |
| `GkeVersion.CompareIsLexicographic` | test/k8s-integration/version.go:137-148 | `compare` is negative exactly when the components are lexicographically smaller, and positive exactly when they are larger |
| `GkeVersion.CompareFromIsLex` | test/k8s-integration/version.go:137-148 | the loop from any position agrees with the lexicographic order on the remaining components |
| `GkeVersion.LexLessTail` | test/k8s-integration/version.go:138-145 | behind an equal first component, the rest decides |
| `GkeVersion.CompareReflexive` | test/k8s-integration/version.go:137-148 | `compare(v, v) == 0` |
| `GkeVersion.CompareAntisymmetric` | test/k8s-integration/version.go:137-148 | `compare(a, b) == -compare(b, a)` |
| `GkeVersion.CompareTransitive` | test/k8s-integration/version.go:137-148 | `compare` is transitive, strictly so when either step is strict |
| `GkeVersion.LessThan` | test/k8s-integration/version.go:150-153 | `lessThan` holds exactly when the four components are lexicographically smaller |
| `GkeVersion.AtLeast` | test/k8s-integration/version.go:155-158 | `atLeast` is exactly the negation of `lessThan` |
| `GkeVersion.LessThanStrictTotalOrder` | test/k8s-integration/version.go:150-153 | `lessThan` is irreflexive, asymmetric, total on distinct versions and transitive |
| `GkeVersion.NoSuffixBeforeGke` | test/k8s-integration/version.go:104-105 | `X.Y.Z` is strictly less than `X.Y.Z-gke.N` for every N of at least 0 |
| `Decimal.DigitRun` | test/k8s-integration/version.go:29 | the numeral matched is the maximal leading run of digits |
| `Decimal.NatToString` | test/k8s-integration/version.go:40-46 | `%d` of a natural is a canonical numeral that starts with '0' only for zero |
| `Decimal.ValueOfNatToString` | test/k8s-integration/version.go:98-102 | `Atoi` of a printed natural gives the natural back |
| `Decimal.NatToStringOfValue` | test/k8s-integration/version.go:29 | printing the value of a canonical numeral gives the numeral back, so canonical numerals and naturals correspond one to one |

## Left out

- `pkg/cloud_provider/lustre/cloud.go` and `pkg/cloud_provider/auth/token_source.go` are not part of this model. They are configuration reading, metadata-server lookups, OAuth token requests and rate limiting, all network or library calls.
- The regular expression engine. The test filter is an arbitrary predicate `matches`. A pattern that fails to compile (the `MustCompile` panic) is not modelled. The two version expressions are replaced by an equivalent hand-written grammar.
- XML syntax. A report file is given either as "cannot be decoded" or as a decoded element tree. The indentation of the written file is not modelled. The written report is the set of decoded cases. `EncodeCase` with the same codec gives their element form.
- Failure-message wording. Errors carry the underlying message and, for file errors, the file's directory and name. `filepath.Join` is not modelled: a file is the pair (directory, entry name).
- The order of the written cases. The source ranges over a Go map, so the order is unspecified. The output is a set.
- A failed `os.WriteFile` is modelled as "nothing written". A partly written or truncated destination is not modelled.
- Logging (`klog`), and `mustParseVersion`, which only turns a parse error into a fatal log call.
- `strconv.Atoi` overflow on components wider than 64 bits. Numbers are unbounded naturals. Two branches of `extractGKEExtraVersion` can therefore never be taken: the "atoi failed" error and the "negative value" check. `FromSubmatches` keeps the source's `err != nil` check anyway.
- The accessors `major`, `minor`, `patch` and `extra` are the fields of `Version`. `isGKEExtraVersion` ignores its receiver, so `IsGkeExtraVersion` takes only the string.
- `ToString` of a version that the parser cannot produce (a negative number, or a fourth component below -1) prints with a minus sign, as `%d` does, but nothing is proved about it.
- The source appends a report to the removal list before reading it. This order cannot be observed: a read or decode failure returns at once and the list is discarded. The model keeps the same order.
- MergeJUnit.RemoveFailures: states that the collected messages come from failed removals and that there are none exactly when all removals succeed. It does not state that every failed removal contributes one message in file order.
- MergeJUnit.MergeJUnit: directories and paths are assumed not to alias. The same directory listed twice, or `d` next to `d/`, gives a second removal of one file. The source's second `os.Remove` of that file fails, but the snapshot gives each path a single removal result. The destination file is not a parameter. A destination that is itself a scanned report would be written and then removed, and the model does not represent that.
- GkeVersion.ToString: its own contract states only that the text is non-empty; the format is stated by the lemmas named in its row.
- Dedup.OutputOnePerName: states one output case per stored name but not the cardinality `|Output(m)| == |m|`.

## Findings

| source | as written | input that shows it | evidently intended | confidence | as-written member | corrected member |
|---|---|---|---|---|---|---|
| test/k8s-integration/filter-junit.go:53-70 | `UnmarshalText` and `MarshalText` return no `error`. So `SkipReason` implements neither `encoding.TextUnmarshaler` nor `encoding.TextMarshaler`, and `encoding/xml` never calls them. An empty `<skipped/>` is stored as "", which the merge reads as "ran", and `omitempty` drops it on output. | One report has case `Foo` with `<skipped/>`. A later report has `Foo` that ran. The merged report keeps the skipped record, with no `<skipped>` element, so it reads as a pass. The real run is discarded. | The comment at line 53 says a present `<skipped>` must be re-encoded even when empty: an empty element decodes to the sentinel " ", a later run replaces it, and a kept skip is written back as an empty `<skipped>` | high (library behaviour for methods with these signatures); not executed | `MergeJUnit.EmptySkipThenRun` with `Library`, `JUnitReport.EmptySkipLostAsWritten`, `Dedup.EmptySkipWinsAsWritten` | `MergeJUnit.EmptySkipThenRun` with `Marker`, `JUnitReport.DecodeSkip`, `JUnitReport.EncodeDecodeSkip`, `JUnitReport.DecodeEncodeSkip` |
