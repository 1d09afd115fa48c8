# Release and quality tooling of lotus-advise, verified

This project models the algorithms behind the repository's release and quality gates and proves what they promise
over every input, every run and every order in which their inputs arrive. Each module follows one script (or one
independent half of it); a loop of a script is a method with a loop, an object that a script updates is a class, and
each is tied by its contract to a specification whose own properties are proved as lemmas.

| modules | what they model |
|---|---|
| `ChangedLines`, `ChangedText`, `ChangedCoverage` | the unified-diff reader of the changed-coverage gate on lines and on text, and the attribution of changed lines to measured statements |
| `LicenseGraph`, `LicenseTerms`, `LicenseInventory`, `LicenseMeaning`, `LicenseFreshness` | the walk over installed dependencies, compound license terms, license classification and validation, and the comparison with a regenerated inventory |
| `RequirementFiles`, `RequirementText`, `LockRecords`, `TomlText`, `DependencyLock`, `LockInjective`, `LockMeaning` | the recursive requirements reader and the files it reads, the lock's package records, and the lock as TOML: printed, read back and checked |
| `DependencyConstraints` | exact constraints from the lock, and the installed graph they govern |
| `DuplicateCode`, `CloneIdentity`, `OversizedCode`, `OversizedRatchet`, `BanditBaseline`, `BanditMeaning`, `QualityTrend` | gates that hold what they observe to a reviewed baseline |
| `DecimalText`, `GoldenFixtures` | decimal rescaling and the golden-fixture updater |
| `TrustFreshness`, `FreshnessMeaning` | derivation, refresh, validation and certification of trust-telemetry freshness |
| `ApiVocabulary`, `FieldTerms`, `AttributeCatalog`, `CatalogMeaning` | field extraction from JSON schemas and the attribute catalog built from it |
| `WikiScope` | the reader of NUL-separated name-status records |
| `Wrappers`, `Text`, `TextLines`, `Json`, `Sorting`, `Search`, `Packaging` | shared ground: results, strings, `splitlines`, JSON values with Python's equality, stable sorting, keyed depth-first search, package names |

## Where the obvious claim is false

The code is kept as it is; each item names the failing input and the condition under which the code does what is
promised.

- Reading a diff back is exact on its lines, but the reader gets a text and cuts it with `str.splitlines`, which also
  cuts inside a line (at a form feed or U+2028, say). A cut-off piece that starts with a blank or "+" makes the reader
  reject the diff (`ChangedText.InnerBlankRejected`), or fills a count so that an added line is taken for a file header
  (`ChangedText.PieceFillsCount`). As long as no piece looks like a header, a diff is accepted exactly when no piece
  starts with "+" or a blank, and then it is read exactly (`ChangedText.InnerBoundariesIff`,
  `ChangedText.ReadPrintedText`).
- A hunk that lacks added lines is not always rejected: when exactly one line is missing and another file follows,
  that file's `+++ b/` header is taken for the missing line and its lines are recorded for the wrong file
  (`ChangedLines.DamagedBeforeFile`, `ChangedLines.SwallowedHeaderMisattributes`). A diff cut inside a hunk is
  rejected exactly when the cut drops new lines (`ChangedLines.CutInsideHunk`).
- The dependency walk drops a package that it meets again under other extras, so it can miss reachable packages
  (`LicenseGraph.SecondVisitDropped`). It misses none when the extras that the index and the roots mention for a
  package select targets of the same names (`LicenseGraph.MentionedVariantsAgree`, `LicenseGraph.VisitedExact`); this
  is sufficient, and what is necessary as well depends on the order of the requirements (`LicenseGraph.WalkCompleteIff`).
- Refreshing telemetry is not idempotent when there is no observation, and forgets staleness then
  (`TrustFreshness.IdempotentIff`, `TrustFreshness.UnobservedForgetsStaleness`).
- Updating a golden fixture does not always settle it: a template such as `1E+3` loses its exponent
  (`GoldenFixtures.PositiveExponentDrifts`, `GoldenFixtures.UpdateThenCheck`).
- Clone findings depend on the order of the report when clones of one base share their line bounds, although the
  fingerprints do not (`DuplicateCode.OrderIrrelevantIff`, `DuplicateCode.FingerprintsInvariant`).
- Different clones can share a fingerprint's base when a path contains "|" (`CloneIdentity.PipesCollide`); over paths and
  formats without it, bases agree exactly for the same clone (`CloneIdentity.BaseEqualIff`).
- A written lock does not always pass its own check: an empty list of tables leaves no key behind
  (`DependencyLock.EmptyLockRejected`), and strings outside the Basic Multilingual Plane are written as surrogate pairs
  that TOML does not have (`DependencyLock.WidePathUnreadable`); exactly when it passes is `DependencyLock.WriteThenCheck`.
- A license inventory does not always validate against the policy and day it was built with: an exception that carries
  an `exception_*` key of its own makes the record look stale (`LicenseInventory.OwnExceptionIdIsStale`,
  `LicenseInventory.BuildInventoryThenValidate`).
- Dotted field names are not always distinct. Over non-empty dot-free names they are exactly when no property `q` and
  its sibling `q[]` lead to fields of one name (`ApiVocabulary.DistinctNamesIff`); an empty or dotted name collides
  with what it spells out (`ApiVocabulary.UncleanNamesCollide`).

## Model

| member | source | states |
|---|---|---|
| `ChangedLines.ChangedSourceLines` | scripts/changed_coverage_gate.py:40-92 | the loop over the lines of git's output ends with the recorded lines, or the error, that the state machine's fold gives |
| `ChangedLines.ReadPrintedDiff` | scripts/changed_coverage_gate.py:56-92 | reading the lines of any printed diff, whatever its files, hunks and texts, records exactly the patched paths of the form `stem + ".py"` (backslashes as slashes), each with exactly the added line numbers of all its hunks |
| `TextLines.SplitText` | scripts/changed_coverage_gate.py:56 | splitting a printed text splits each of its lines: a line ends where it was printed to end |
| `TextLines.SplitPlainText` | scripts/changed_coverage_gate.py:56 | lines without boundaries come back as they were printed |
| `TextLines.BoundaryExact` | scripts/changed_coverage_gate.py:56 | the ten characters at which a line ends |
| `ChangedText.ReadPrintedText` | scripts/changed_coverage_gate.py:23-92 | the same for the text of any printed diff, provided that what stands after a boundary inside a line starts with neither "+", a blank nor "@@" |
| `ChangedText.InnerBoundariesIff` | scripts/changed_coverage_gate.py:56-92 | as long as nothing that is cut off looks like a header, a printed diff is accepted if and only if nothing that is cut off starts with "+" or a blank |
| `ChangedText.OverfullRejected` | scripts/changed_coverage_gate.py:48-92 | once a hunk has too many new lines the diff is rejected, whatever follows |
| `ChangedText.InnerBlankRejected` | scripts/changed_coverage_gate.py:56-92 | any added line with a boundary before a blank or "+", such as `a = "<U+2028> b"`, makes the reader reject the diff |
| `ChangedText.PieceFillsCount` | scripts/changed_coverage_gate.py:56-61 | a cut-off piece can fill the count of its hunk, so that an added line is read as the header of another file |
| `ChangedLines.ZeroContextRange` | scripts/changed_coverage_gate.py:62-78 | in a zero-context hunk the added lines are exactly the announced new range |
| `ChangedLines.CutInsideHunk` | scripts/changed_coverage_gate.py:50-59 | a diff cut inside its last hunk is accepted if and only if no new line of the hunk is cut off |
| `ChangedLines.DamagedBeforeHunk` | scripts/changed_coverage_gate.py:50-68 | a hunk with missing lines is rejected when another hunk of the file follows |
| `ChangedLines.DamagedBeforeFile` | scripts/changed_coverage_gate.py:50-68 | when another file follows, a hunk with missing lines is rejected unless exactly one line is missing |
| `ChangedLines.SwallowedHeaderMisattributes` | scripts/changed_coverage_gate.py:55-61 | with exactly one line missing, the next file's changes are recorded for the damaged file |
| `ChangedCoverage.SmallestSpan` | scripts/changed_coverage_gate.py:153 | a minimum of the candidates' spans |
| `ChangedCoverage.CollectNode` | scripts/changed_coverage_gate.py:141-148 | a measured node becomes a candidate of exactly the changed lines that it covers, after the earlier candidates |
| `ChangedCoverage.ChangedExecutableStatements` | scripts/changed_coverage_gate.py:133-157 | the union over the changed lines of the statement lines attributed to each |
| `ChangedCoverage.AttributedExact` | scripts/changed_coverage_gate.py:141-157 | a statement is attributed if and only if it reaches over a changed line and no measured statement that does is shorter |
| `ChangedCoverage.AttributedUnion` | scripts/changed_coverage_gate.py:149-157 | attribution distributes over unions of changed lines |
| `ChangedCoverage.AttributedMeasured` | scripts/changed_coverage_gate.py:141-157 | only measured statements are ever attributed |
| `ChangedCoverage.DeepestInside` | scripts/changed_coverage_gate.py:141-157 | in a well-nested tree, the deepest measured statement that covers a line lies within every other one that does |
| `ChangedCoverage.SmallestIsDeepest` | scripts/changed_coverage_gate.py:149-157 | the smallest-span rule attributes a line to exactly the deepest measured statement covering it, in whatever order the nodes come |
| `ChangedCoverage.PercentExact` | scripts/changed_coverage_gate.py:110-117 | the percentage falls with the missing share, is 100 exactly when nothing is missing, and stays within 0 and 100 |
| `ChangedCoverage.MeasureChanged` | scripts/changed_coverage_gate.py:101-117 | what a file measures: the statements that its changed lines are attributed to, and the missing ones among them |
| `ChangedCoverage.EvaluateChangedFiles` | scripts/changed_coverage_gate.py:186-201 | from changed lines, statement nodes and coverage data: each file's measurement, and as failures exactly the files whose rounded percentage is below the floor |
| `ChangedCoverage.PassingFloor` | scripts/changed_coverage_gate.py:127-193 | a passing file is at most half a hundredth of a percent below the floor |
| `ChangedCoverage.PassingExactly` | scripts/changed_coverage_gate.py:127-193 | for a floor of whole hundredths, the exact boundary of what rounding lets pass |
| `ChangedCoverage.FilePassesExactly` | scripts/changed_coverage_gate.py:101-193 | the exact condition for a file to pass, in whole numbers of attributed and missing statements |
| `LicenseGraph.Walker.Walk` | scripts/license_ip_evidence.py:313-344 | the recursive walk extends the visited packages as depth-first search does and grants the group to exactly the packages it newly visits |
| `LicenseGraph.WalkRoot` | scripts/license_ip_evidence.py:300-310 | one root's walk, started with nothing visited, grants the root's group to its first visits |
| `LicenseGraph.DependencyGraphMembership` | scripts/license_ip_evidence.py:295-310 | the result records for each package exactly the groups of the roots whose walks visit it |
| `LicenseGraph.TargetExact` | scripts/license_ip_evidence.py:326-352 | a package leads to exactly the packages that a parsed requirement of its index entry names, without a marker or with one that holds for some requested extra (for the empty one, if none is requested) |
| `LicenseGraph.WalkSoundAndClosed` | scripts/license_ip_evidence.py:313-352 | on any graph, cyclic or not: everything marked is reachable, each package is met once, the targets that apply under its first extras are marked too, and the order is depth-first preorder |
| `LicenseGraph.UnconditionalMarked` | scripts/license_ip_evidence.py:313-352 | what a marked package requires without a marker, or with one that holds whatever the extra is, is always marked |
| `LicenseGraph.VisitedExact` | scripts/license_ip_evidence.py:313-352 | when the variants of one package that can be reached lead to the same names, a name is marked if and only if it is reachable |
| `LicenseGraph.MembershipExact` | scripts/license_ip_evidence.py:295-344 | when that holds for every root, a package's groups are exactly those of the roots that reach it |
| `LicenseGraph.MentionedVariantsAgree` | scripts/license_ip_evidence.py:313-352 | it holds when the extras that the index and the roots mention for a package select targets of the same names: a condition that can be checked before the walk |
| `LicenseGraph.IrrelevantExtrasAgree` | scripts/license_ip_evidence.py:347-352 | and that is so in particular when no marker looks at extras |
| `LicenseGraph.RootOrderIrrelevant` | scripts/license_ip_evidence.py:295-310 | the result does not depend on the order or repetition of the roots |
| `LicenseGraph.WalkCompleteIff` | scripts/license_ip_evidence.py:322-325 | in general the walk marks everything reachable if and only if every dropped visit had only targets that were marked anyway |
| `LicenseGraph.SecondVisitDropped` | scripts/license_ip_evidence.py:322-325 | a graph whose walk drops extras on a second visit and so misses a reachable package |
| `Packaging.CanonicalEqualIff` | scripts/license_ip_evidence.py:322 | canonical names agree if and only if the names can be turned into each other by changing the case of letters, separators, and the lengths of their runs |
| `Packaging.CanonicalFixed` | scripts/license_ip_evidence.py:322 | canonical names have no capitals, only "-" as a separator and never two in a row; the names of that form are those that stay as they are |
| `LicenseTerms.ExpressionAllowedIff` | scripts/license_ip_evidence.py:456-458 | a license expression with operators and parentheses is allowed if and only if each of its terms is, terms of several words included |
| `LicenseTerms.WordsAreTerm` | scripts/license_ip_evidence.py:456-458 | words other than the operators, separated by a blank, make one term |
| `RequirementFiles.RequirementReader.ParseRequirementFile` | scripts/license_ip_evidence.py:230-274 | the recursive reader, with its shared set of visited files, yields the expansion of the include graph or its first error, on cyclic includes too |
| `RequirementFiles.ExpandSucceedsIff` | scripts/dependency_lock_evidence.py:100-151 | expansion succeeds if and only if every include-reachable file exists and holds only acceptable requirements |
| `RequirementFiles.ExpandVisitsReachable` | scripts/dependency_lock_evidence.py:100-142 | the files opened are exactly the include-reachable ones |
| `RequirementFiles.ExpandExact` | scripts/dependency_lock_evidence.py:100-142 | each reachable file is opened once, in depth-first preorder of first inclusion, and the result is exactly their own requirements, each file's in its order |
| `RequirementFiles.ExpandContributes` | scripts/license_ip_evidence.py:230-274 | a file contributes its own requirements when first met and nothing afterwards |
| `RequirementText.ReadPrintedPart` | scripts/dependency_lock_evidence.py:110-151 | each printed line, with blanks and a comment around it, reads back as the requirement, include, option, comment or unreadable text that it was printed from; a requirement without exactly one pin is refused where one is required and kept without a version otherwise |
| `RequirementText.ExpandPrinted` | scripts/dependency_lock_evidence.py:100-151 | expanding the printed files of an include tree yields exactly its requirements in the order of the text and opens its files in that order, or fails with the first requirement that is refused |
| `TomlText.ReadEscaped` | scripts/dependency_lock_evidence.py:295-296 | a quoted string reads back as itself if and only if it stays in the Basic Multilingual Plane |
| `TomlText.ReadPrintedValue` | scripts/dependency_lock_evidence.py:295-300 | the same for whole values: integers, booleans, strings and arrays of strings |
| `DependencyLock.ToToml` | scripts/dependency_lock_evidence.py:247-292 | the loops print the lock's lines: root fields, one block per requirement file and package, the summary |
| `DependencyLock.ReadPrintedLock` | scripts/dependency_lock_evidence.py:247-300 | a printed lock reads if and only if its strings stay in the Basic Multilingual Plane, and then gives the built dictionary back, empty lists of tables aside |
| `LockInjective.PrintedLockInjective` | scripts/dependency_lock_evidence.py:247-300 | payloads that print alike are equal, whatever characters their strings hold |
| `LockInjective.EscapeUnique` | scripts/dependency_lock_evidence.py:295-296 | escapes are uniquely readable, surrogate pairs included |
| `DependencyLock.PackageMismatchFailures` | scripts/dependency_lock_evidence.py:203-224 | reports exactly the missing, the stale and the differently versioned package names |
| `DependencyLock.ValidateDependencyLock` | scripts/dependency_lock_evidence.py:81-93 | no failures if and only if the lock is accepted: declared source, Python range, documents equal as Python compares them, and no package mismatch; each kind of failure exactly when it applies |
| `DependencyLock.WriteThenCheck` | scripts/dependency_lock_evidence.py:81-97 | writing a lock and checking it against its own payload succeeds if and only if it is readable, neither list is empty, the source is declared and the range admits 3.11 |
| `DependencyLock.EmptyLockRejected` | scripts/dependency_lock_evidence.py:81-97 | a lock without packages is written, read and rejected |
| `DependencyLock.WidePathUnreadable` | scripts/dependency_lock_evidence.py:295-296 | a path with a character above U+FFFF makes the written lock unreadable |
| `LockMeaning.AcceptedExact` | scripts/dependency_lock_evidence.py:81-93 | a lock is accepted if and only if it declares its source, its range admits 3.11, the documents are equal as Python compares them, and their last package tables of each name show the same names and versions |
| `LockMeaning.DifferExact` | scripts/dependency_lock_evidence.py:203-224 | versions differ for a name if and only if its last tables in the two documents show different ones |
| `LockMeaning.EqualDocumentsExact` | scripts/dependency_lock_evidence.py:88-93 | the comparison is equality of keys and of values, where a truth value counts as 0 or 1 |
| `LockRecords.RecordOf` | scripts/dependency_lock_evidence.py:170-182 | a record joins a package with its direct requirements; its lists are the sorted sets of their groups, files, extras and hashes |
| `LockRecords.PackageRecords` | scripts/dependency_lock_evidence.py:154-196 | succeeds if and only if needed direct versions agree and every direct requirement is listed, and otherwise names an offending package; then one record per listed name, of the last package of that name, in strict order of names |
| `LockRecords.RecordJoins` | scripts/dependency_lock_evidence.py:154-196 | a record's version is that of the last package of its name or else of the direct requirements of that name; it is direct if there are any, and lists exactly their groups, files, extras and hashes |
| `LockRecords.DisagreesExact` | scripts/dependency_lock_evidence.py:154-196 | direct requirements disagree if and only if two of one name pin different versions |
| `LockRecords.SummaryConserves` | scripts/dependency_lock_evidence.py:71-77 | the direct count is the number of distinct direct requirements, and direct and transitive make up all packages |
| `DependencyConstraints.ReadLock` | scripts/dependency_constraint_evidence.py:64-95 | accepts if and only if all packages are named, versioned, marked and agree on versions; the constraints are then exactly their pins and the direct set exactly the direct names; otherwise the error is that of the first offending package |
| `DependencyConstraints.WriteConstraints` | scripts/dependency_constraint_evidence.py:10-23 | accepts if and only if each refreshed name is a direct package of the lock, and otherwise names one that is absent or not direct; versions change, the set of names never does; the file lists the names in order |
| `DependencyConstraints.FileDetermines` | scripts/dependency_constraint_evidence.py:20-22 | the lines of a constraint file determine every name and its version |
| `DependencyConstraints.CollectTargets` | scripts/dependency_constraint_evidence.py:44-55 | the names that active, and that inactive, requirements target |
| `DependencyConstraints.ValidateInstalled` | scripts/dependency_constraint_evidence.py:26-61 | accepts if and only if everything installed is locked at its version and every locked name is installed or named by some inactive requirement and by no active or direct one; otherwise the first offending package, an unreadable requirement, or the first missing name in order is reported |
| `DependencyConstraints.ActiveTargetsInstalled` | scripts/dependency_constraint_evidence.py:44-61 | in an accepted graph every locked target of a direct or active requirement is installed at the locked version |
| `DependencyConstraints.RefreshedPinsInstalled` | scripts/dependency_constraint_evidence.py:10-61 | a graph accepted against refreshed constraints has every refreshed package at its new version and nothing from outside the lock |
| `DuplicateCode.ParseJscpdReport` | scripts/duplicate_code_gate.py:185-259 | the whole reader: findings of the valid clones, or the first error in report order |
| `DuplicateCode.GroupCandidates` | scripts/duplicate_code_gate.py:223-240 | the dictionary maps each base, in order of first appearance, to its candidates in report order |
| `DuplicateCode.NumberGroup` | scripts/duplicate_code_gate.py:241-258 | the occurrence loop numbers the members of a sorted group from one |
| `DuplicateCode.NumberOccurrences` | scripts/duplicate_code_gate.py:240-258 | the numbered findings of all groups, group by group; `ParseJscpdReport` sorts them |
| `DuplicateCode.FingerprintsEncode` | scripts/duplicate_code_gate.py:240-259 | fingerprints are pairwise distinct and are exactly the occurrences of the multiset of bases |
| `DuplicateCode.EncodedInjective` | scripts/duplicate_code_gate.py:243-246 | different multisets of bases never have the same fingerprints |
| `DuplicateCode.EncodedOneMore` | scripts/duplicate_code_gate.py:243-246 | one more clone adds exactly one fingerprint |
| `DuplicateCode.BaseOfSameClone` | scripts/duplicate_code_gate.py:159-183 | swapping the two files of a clone or shifting its lines keeps its base fingerprint |
| `CloneIdentity.LocationExact` | scripts/duplicate_code_gate.py:42-177 | a location is read if and only if its name is not blank, is relative, and stands for a path (itself, or the one scan path's file of that name), and its bounds are in order |
| `CloneIdentity.CandidateExact` | scripts/duplicate_code_gate.py:197-222 | an entry is accepted if and only if its fields are given, its format is allowed, its locations are read and its numbers are positive |
| `CloneIdentity.BaseEqualIff` | scripts/duplicate_code_gate.py:180-183 | for an injective digest and paths without vertical bars, two entries have the same base if and only if their formats, their unordered pairs of paths and the lines of their fragments agree |
| `CloneIdentity.PipesCollide` | scripts/duplicate_code_gate.py:180-183 | a vertical bar in paths makes clones between different files collide |
| `CloneIdentity.FingerprintsEqualIff` | scripts/duplicate_code_gate.py:185-259 | two reports have the same fingerprints if and only if they report the same clones, each equally often |
| `CloneIdentity.FindingsConserve` | scripts/duplicate_code_gate.py:185-259 | the findings say of the clones exactly what the entries say (format, places, lines, tokens), as often as they say it |
| `CloneIdentity.FindingsOrdered` | scripts/duplicate_code_gate.py:216-217 | in every finding the smaller place comes first |
| `DuplicateCode.FingerprintsInvariant` | scripts/duplicate_code_gate.py:185-259 | the set of fingerprints is unchanged by permuting the report, swapping files or shifting lines |
| `DuplicateCode.Decide` | scripts/duplicate_code_gate.py:323-360 | passes if and only if the observed fingerprints equal the baseline; new and resolved ones are exactly the two differences |
| `DuplicateCode.OrderIrrelevantIff` | scripts/duplicate_code_gate.py:240-259 | the findings themselves are the same for every order of the report if and only if tied clones are identical |
| `OversizedCode.FunctionCollector.Visit` | scripts/oversized_code_gate.py:211-250 | a visit restores the scope stack and appends exactly the findings of the pure recursion |
| `OversizedCode.FunctionCollector.GenericVisit` | scripts/oversized_code_gate.py:218-234 | visiting the children restores the scope stack and appends their findings in order |
| `OversizedCode.FunctionCollector.VisitClassDef` | scripts/oversized_code_gate.py:218-221 | pushes and pops the class name around its body |
| `OversizedCode.FunctionCollector.VisitFunctionDef` | scripts/oversized_code_gate.py:223-233 | records the function itself before what is nested in it |
| `OversizedCode.FunctionCollector.Record` | scripts/oversized_code_gate.py:235-250 | one finding if and only if the function is longer than the threshold |
| `OversizedCode.CollectIsPreorder` | scripts/oversized_code_gate.py:211-250 | the findings are exactly the oversized functions of the tree, in preorder, each with the dotted names of what encloses it, by an independent definition on tree positions |
| `OversizedCode.BeforeIsStrict` | scripts/oversized_code_gate.py:211-250 | preorder puts exactly one of two different positions first |
| `OversizedCode.FindingsExact` | scripts/oversized_code_gate.py:211-250 | a finding is reported if and only if it tells of a function of the tree with more lines than allowed, counted from its first to its last |
| `OversizedCode.SymbolNames` | scripts/oversized_code_gate.py:239 | its symbol splits into the enclosing classes and functions and its own name |
| `OversizedCode.RaisingKeeps` | scripts/oversized_code_gate.py:235-250 | raising the threshold only removes findings |
| `OversizedCode.DottedInjective` | scripts/oversized_code_gate.py:239 | the dotted symbol determines the enclosing names |
| `OversizedCode.FingerprintExact` | scripts/oversized_code_gate.py:24-40 | fingerprints agree if and only if kind, path and (for functions) symbol do |
| `OversizedCode.ScanRepository` | scripts/oversized_code_gate.py:253-292 | the findings of all files, sorted by fingerprint |
| `OversizedCode.ScanExact` | scripts/oversized_code_gate.py:253-292 | a scan finds the long modules and the long functions of every file, and nothing else |
| `OversizedCode.ScanOrdered` | scripts/oversized_code_gate.py:292 | each as often as it occurs, in order of fingerprints |
| `OversizedRatchet.ClassifyLiveFindings` | scripts/oversized_code_gate.py:319-335 | the three lists are exactly the new, grown and shrunken findings |
| `OversizedRatchet.StandingsPartition` | scripts/oversized_code_gate.py:319-335 | new, grown, shrunken and unchanged findings partition the observed ones |
| `OversizedRatchet.ClassifyBaselineState` | scripts/oversized_code_gate.py:338-351 | the resolved entries in order of fingerprints, the expired ones in order, and the provenance state |
| `OversizedRatchet.Decide` | scripts/oversized_code_gate.py:380-447 | an error if and only if fingerprints are duplicated; otherwise every finding and entry that calls for action is reported in order, and nothing if and only if nothing is expired and the map of observed lines equals the map of reviewed limits |
| `OversizedRatchet.DecidedExact` | scripts/oversized_code_gate.py:319-447 | each failure is reported exactly when what it says holds of the findings, the last reviewed entries and the day |
| `OversizedRatchet.RatchetExact` | scripts/oversized_code_gate.py:319-403 | nothing is new, grown, shrunken or resolved if and only if the two maps are equal |
| `OversizedRatchet.DuplicatesIff` | scripts/oversized_code_gate.py:253-403 | the gate raises its duplicate error if and only if two oversized functions of one file share their dotted path, or two scanned files of one path collide |
| `DecimalText.RescaleNearest` | update_goldens.py:47-50 | quantizing gives the multiple of the template's unit that is off by at most half a unit, the even one of two that are equally near |
| `DecimalText.ParseFormatMagnitude` | update_goldens.py:47-50 | fixed-point text parses back to the same coefficient and exponent unless the exponent is positive |
| `DecimalText.ParseFormatFixed` | update_goldens.py:47-50 | the same for signed numbers |
| `DecimalText.WrittenReads` | update_goldens.py:37-50 | a number written with a sign, a point, an exponent and blanks around it reads as its digits, moved by its exponent |
| `DecimalText.WordReads` | update_goldens.py:37-50 | the words for infinities and for not-a-number with a payload, in any case |
| `GoldenFixtures.ProjectKeepsShape` | update_goldens.py:53-67 | a projection has the template's keys and lengths wherever the template is a mapping or a list |
| `GoldenFixtures.ProjectedDecimalNearest` | update_goldens.py:47-50 | a projected decimal has the template's unit and is within half a unit of the actual value, keeping its sign |
| `GoldenFixtures.ProjectedValue` | update_goldens.py:47-50 | onto a plain decimal, a number is projected as a text whose real value is at most half the template's unit away |
| `GoldenFixtures.IntegerReads` | update_goldens.py:47-50 | an integer counts as what its decimal text reads as |
| `GoldenFixtures.RematchIff` | update_goldens.py:47-50 | rescaling to an already rescaled text changes nothing if and only if a positive exponent lost nothing |
| `GoldenFixtures.SelfProjectIff` | update_goldens.py:53-67 | a value projects onto itself unchanged if and only if its decimal strings are canonical |
| `GoldenFixtures.ReprojectIff` | update_goldens.py:53-67 | projecting onto an already projected template changes nothing if and only if the projection is steady at every leaf |
| `GoldenFixtures.PlainIsSteady` | update_goldens.py:53-67 | plain decimal templates and canonical actual strings always project steadily |
| `GoldenFixtures.PositiveExponentDrifts` | update_goldens.py:47-50 | 1234 onto `1E+3` gives 1000, and onto that 1234 |
| `GoldenFixtures.ProposalExpectedOutput` | update_goldens.py:86-101 | the loop over the expected keys is the projection of the values taken from the diagnostics for three keys and from the result for all others, and fails when it does |
| `GoldenFixtures.ProposalExact` | update_goldens.py:86-101 | a proposal's output has the expected keys, each projected from the diagnostics for three named keys and from the result for all others |
| `GoldenFixtures.NewSectionExact` | update_goldens.py:129-153 | what is regenerated: the proposal's section, or without one the artifact's, from a simulation of the inputs |
| `GoldenFixtures.GoldenFile.Regenerate` | update_goldens.py:129-153 | replaces one section, a proposal's before an artifact's, and nothing else |
| `GoldenFixtures.GoldenFile.Update` | update_goldens.py:156-162 | reports drift exactly when Python sees a difference, and writes only then and only without check |
| `GoldenFixtures.ChangesSeen` | update_goldens.py:156-162 | every change that a second projection makes is one that Python's equality sees |
| `Json.LeafExact` | update_goldens.py:156-162 | Python's equality of values that are no containers: the same value, or the same real number, truth values counting as 0 and 1 |
| `GoldenFixtures.UpdateThenCheck` | update_goldens.py:129-162 | after an update, a check reports no drift if and only if the projection is steady |
| `TrustFreshness.StateExact` | scripts/trust_telemetry_freshness.py:58-67 | current and stale as ranges of microseconds: truncation lets less than a second of the future count as age zero |
| `FreshnessMeaning.RefreshSucceedsIff` | scripts/trust_telemetry_freshness.py:70-138 | a refresh succeeds if and only if the section, its observation (or else its evaluation), its maximum and the evidence can be read |
| `FreshnessMeaning.RefreshExact` | scripts/trust_telemetry_freshness.py:58-138 | it then sets exactly the derived keys: age and state from the microseconds since the observation and the declared maximum itself, the blocking that goes with the state, the times and the run's identity |
| `TrustFreshness.Snapshot.ExpectedFreshnessPatch` | scripts/trust_telemetry_freshness.py:84-138 | the copy has the derived freshness, evidence and blocking, or the first reason why none can be derived; the original is untouched |
| `TrustFreshness.Snapshot.RefreshFile` | scripts/trust_telemetry_freshness.py:223-237 | the file becomes its own patch, or stays as it was on an error |
| `TrustFreshness.Snapshot.Validate` | scripts/trust_telemetry_freshness.py:141-196 | no failures if and only if the snapshot states the derived posture, names its run and is not observed in the future; each failure exactly when what it says holds |
| `FreshnessMeaning.ValidExact` | scripts/trust_telemetry_freshness.py:141-196 | a readable snapshot is valid if and only if it states the age, state, blocking, times and identity of its own observation |
| `TrustFreshness.Snapshot.Certify` | scripts/trust_telemetry_freshness.py:240-294 | the certified copy, or the first refusal in the order of the checks |
| `FreshnessMeaning.CertifiedIff` | scripts/trust_telemetry_freshness.py:240-275 | certification is granted if and only if commit, run, product, lineage, evidence and declared maximum are in order |
| `FreshnessMeaning.CertifiedShows` | scripts/trust_telemetry_freshness.py:276-294 | the identities that certification makes from product, commit and run |
| `TrustFreshness.LastRefreshDecides` | scripts/trust_telemetry_freshness.py:84-138 | with an observation, a series of refreshes leaves what its last refresh alone would, so refreshing is idempotent |
| `TrustFreshness.IdempotentIff` | scripts/trust_telemetry_freshness.py:70-138 | refreshing twice at one time is idempotent if and only if there is an observation, the age was zero, or it was negative with no maximum |
| `TrustFreshness.BlockedIff` | scripts/trust_telemetry_freshness.py:119-138 | a refreshed snapshot is blocked if and only if it is not current, for staleness if and only if it is stale, and keeps every other key |
| `TrustFreshness.StaleForGood` | scripts/trust_telemetry_freshness.py:58-138 | with an observation, stale at one refresh means stale and blocked at every later reference time, whatever refreshes came between |
| `TrustFreshness.UnobservedForgetsStaleness` | scripts/trust_telemetry_freshness.py:70-108 | without an observation, refreshing a stale snapshot twice makes it current |
| `TrustFreshness.RefreshThenCheck` | scripts/trust_telemetry_freshness.py:141-237 | a refreshed snapshot passes the check of the same time if and only if the run's identity is not blank, its observation is not in the future, and the refresh was repeatable |
| `TrustFreshness.CertifiedIsValid` | scripts/trust_telemetry_freshness.py:240-294 | a certified snapshot validates at its own time with age zero: current and open with a maximum age, unknown and blocked without |
| `QualityTrend.LoadPolicy` | scripts/quality_trend_gate.py:99-160 | accepts if and only if metrics and exceptions are sound and distinct; otherwise the first offending entry is named |
| `QualityTrend.FieldsExact` | scripts/quality_trend_gate.py:54-76 | what hexadecimal and non-empty fields are, character by character |
| `QualityTrend.SupportedExact` | scripts/quality_trend_gate.py:15-36 | the four supported metrics |
| `QualityTrend.SoundMetricExact` | scripts/quality_trend_gate.py:102-121 | a metric is sound if and only if it is one of the four, has a direction, a limit that is not negative and a reason |
| `QualityTrend.CoverageExact` | scripts/quality_trend_gate.py:163-177 | the docstring percentage exists exactly for consistent counts and falls exactly with the missing share |
| `QualityTrend.CompareMetrics` | scripts/quality_trend_gate.py:190-251 | one judged result per metric, with the exception for exactly this comparison if there is one; passed if and only if the head is at most the base plus the allowed delta (for "increase") or at least the base minus it (otherwise); an error if and only if two exceptions apply |
| `QualityTrend.PassesIff` | scripts/quality_trend_gate.py:190-251 | a comparison passes if and only if every metric stays, in its own direction, within the delta of its exception or else of the policy |
| `QualityTrend.AtMostOneApplies` | scripts/quality_trend_gate.py:125-159 | distinct exceptions never apply together, so a loaded policy never reaches the duplicate error |
| `QualityTrend.ExceptionsWiden` | scripts/quality_trend_gate.py:141-145 | at a fixed base, a loaded policy's exceptions only widen its limits |
| `QualityTrend.ExceptionsOnlyHelp` | scripts/quality_trend_gate.py:209-231 | what passes without exceptions passes with them |
| `QualityTrend.BaseChosen` | scripts/quality_trend_gate.py:333-362 | the one reviewed base is chosen, unless the supplied one is reviewed too or none is; several are ambiguous |
| `QualityTrend.BaseIndependentIff` | scripts/quality_trend_gate.py:333-362 | the comparison base is the same for every supplied merge base if and only if exactly one base is reviewed |
| `QualityTrend.VerdictIndependent` | scripts/quality_trend_gate.py:333-412 | with one reviewed base, the outcome of the gate is the same for every supplied merge base, and is that of the reviewed one |
| `QualityTrend.RunGate` | scripts/quality_trend_gate.py:395-444 | for a loaded policy the only errors left are an ambiguous base, exactly when several are reviewed and none is the supplied one, and an unreadable report at the base or the head |
| `QualityTrend.DriftBounded` | scripts/quality_trend_gate.py:205-231 | over a chain in which a metric held, the end is at most the start plus the sum of the allowed deltas (or at least the start minus it) |
| `QualityTrend.PassingChainDrift` | scripts/quality_trend_gate.py:190-251 | the same for chains of passing gate runs under changing policies |
| `QualityTrend.DriftReached` | scripts/quality_trend_gate.py:205-231 | the bound is reached from any start by any allowances |
| `BanditBaseline.LoadEntry` | scripts/bandit_high_severity_gate.py:281-339 | an entry is loaded if and only if nothing is missing, its levels and date parse and it has not expired; each failure exactly when what it says holds |
| `BanditMeaning.SoundExact` | scripts/bandit_high_severity_gate.py:281-339 | an entry counts if and only if eleven named fields are given, its levels are levels in whatever case, and its date has not passed |
| `BanditBaseline.LoadBaseline` | scripts/bandit_high_severity_gate.py:136-168 | no failures if and only if the baseline is sound; each failure exactly when what it says holds; the entries are those that load, in order |
| `BanditBaseline.IndexFindings` | scripts/bandit_high_severity_gate.py:91-98 | the findings' fingerprints, with exactly the repeated ones reported |
| `BanditBaseline.IndexEntries` | scripts/bandit_high_severity_gate.py:100-104 | the last entry of each fingerprint, with exactly the repeated ones reported |
| `BanditBaseline.Compare` | scripts/bandit_high_severity_gate.py:91-131 | every kind of failure is reported exactly when its meaning holds |
| `BanditMeaning.ReportedExact` | scripts/bandit_high_severity_gate.py:91-131 | what each failure says of the findings and of the last entry of each fingerprint; a severity increases only from LOW to MEDIUM |
| `BanditBaseline.NothingReportedIff` | scripts/bandit_high_severity_gate.py:91-131 | nothing is reported if and only if report and baseline have the same fingerprints, each once, nothing is HIGH and nothing is above its reviewed severity |
| `BanditBaseline.Validate` | scripts/bandit_high_severity_gate.py:80-133 | accepts if and only if the baseline is sound and matches the report, and reports exactly what there is to report of both; raises exactly for unsupported levels and unreadable line numbers |
| `BanditMeaning.FindingsExact` | scripts/bandit_high_severity_gate.py:229-270 | a report is read if and only if all its levels are; each finding tells of its result and is fingerprinted by its five fields |
| `BanditBaseline.BuildCurrentBaseline` | scripts/bandit_high_severity_gate.py:171-209 | the captured entries are those of the findings that are not HIGH, sorted by file, line and test |
| `BanditMeaning.CapturedExact` | scripts/bandit_high_severity_gate.py:171-209 | a captured baseline holds, in order, an entry with twelve named fields for each finding that is not HIGH, as often as it was found |
| `BanditBaseline.CapturedAccepts` | scripts/bandit_high_severity_gate.py:80-209 | a baseline captured from one report accepts another if and only if its entries are complete and unexpired and the other report matches the captured findings |
| `BanditBaseline.CaptureThenValidate` | scripts/bandit_high_severity_gate.py:80-209 | capturing a report and validating it succeeds if and only if nothing is HIGH, fingerprints are distinct, fields are complete and (unless the report is empty) the expiry is not past |
| `LicenseInventory.PackageLicenseRecords` | scripts/license_ip_evidence.py:355-397 | one record per package of the graph, in strict order of names, or an error exactly when some package cannot be classified |
| `LicenseMeaning.ClassExact` | scripts/license_ip_evidence.py:435-454 | the four classes in terms of the policy's sets and its first matching exception: an unexpired exception, then prohibited, then review, then allowed; classification fails if and only if that exception's date is unreadable |
| `LicenseMeaning.RecordShows` | scripts/license_ip_evidence.py:365-397 | what a record says of its package's origin, version, license, class and exception |
| `LicenseMeaning.BuiltRecordsShow` | scripts/license_ip_evidence.py:355-397 | the same for every package of the graph, at its place in the built list |
| `LicenseMeaning.RecordForFails` | scripts/license_ip_evidence.py:378-383 | building fails for a package if and only if the date of its first matching exception cannot be read |
| `LicenseInventory.ValidatePackage` | scripts/license_ip_evidence.py:155-184 | each kind of failure is reported for a package exactly when it applies |
| `LicenseMeaning.ReportedExact` | scripts/license_ip_evidence.py:155-184 | what each failure says of a package, in terms of its own keys and the policy's sets and exceptions |
| `LicenseInventory.ValidateInventory` | scripts/license_ip_evidence.py:140-185 | reports exactly what applies to the header and to some package, and nothing if and only if the inventory is valid; raises exactly when a package cannot be read or classified |
| `LicenseMeaning.SilentIff` | scripts/license_ip_evidence.py:140-185 | validation is silent if and only if the header is sound and every package either shows an unexpired exception that covers it, with its evidence, or has none and an allowed term that is neither prohibited, to be reviewed, empty nor unknown |
| `LicenseInventory.BuildThenValidate` | scripts/license_ip_evidence.py:355-507 | a record built and validated under one policy on one day never shows class drift, shows stale evidence if and only if its exception carries conflicting keys, and is valid under an exact condition |
| `LicenseInventory.BuildInventoryThenValidate` | scripts/license_ip_evidence.py:77-185 | the same for whole inventories: no class drift is ever reported, stale evidence for exactly the packages with conflicting exceptions, and nothing if and only if the header is sound and every package of the graph is good |
| `LicenseInventory.OwnExceptionIdIsStale` | scripts/license_ip_evidence.py:388-507 | an exception with an `exception_id` of its own makes a freshly built record stale |
| `LicenseInventory.PackageValidThroughIff` | scripts/license_ip_evidence.py:435-496 | a package valid on one day is valid on every earlier one, and on another exactly while its exception lasts |
| `LicenseInventory.ValidThroughIff` | scripts/license_ip_evidence.py:140-185 | the same for whole inventories |
| `LicenseFreshness.TransitivePackages` | scripts/license_ip_evidence.py:632-654 | the loop's map of named transitive packages |
| `LicenseFreshness.TransitiveMapExact` | scripts/license_ip_evidence.py:632-654 | the map has exactly the names of transitive packages, each with its last package |
| `LicenseFreshness.GovernanceDrifts` | scripts/license_ip_evidence.py:601-629 | reports exactly the shared names whose governance differs |
| `LicenseFreshness.DriftExact` | scripts/license_ip_evidence.py:601-654 | governance drifts if and only if the last transitive packages of a name differ in their groups, term, class or one of three exception keys |
| `LicenseFreshness.CompareWithExpected` | scripts/license_ip_evidence.py:188-219 | nothing is reported if and only if direct packages and compared keys are equal and the expected governance is a sub-map of the current one; each kind of failure exactly when it applies |
| `LicenseFreshness.DirectExact` | scripts/license_ip_evidence.py:188-219 | what is compared of the direct packages: those packages, each as often as it is listed, in order of names |
| `LicenseFreshness.ComparedExact` | scripts/license_ip_evidence.py:188-219 | the top-level keys that are compared: all but six named ones |
| `LicenseFreshness.FreshIsPreorder` | scripts/license_ip_evidence.py:188-219 | the comparison is reflexive and transitive, and both ways it makes governance equal |
| `LicenseFreshness.VersionsDoNotMatter` | scripts/license_ip_evidence.py:611-616 | version bumps of transitive packages alone never make an inventory stale |
| `WikiScope.ChangedWikiScope` | scripts/wiki_quality_gate.py:37-61 | the token loop fails exactly when a path is missing; otherwise its pages are exactly the surviving wiki pages, sorted, and the flag is set exactly when a change needs a full audit |
| `WikiScope.Consider` | scripts/wiki_quality_gate.py:48-60 | what one candidate path adds to the pages and the flag |
| `WikiScope.ReadPrinted` | scripts/wiki_quality_gate.py:39-46 | reading the printed stream of any list of changes gives those changes back: no path is taken for a status |
| `WikiScope.ReadIsWellFormed` | scripts/wiki_quality_gate.py:39-46 | a token list reads as certain changes if and only if those are well-formed and it is their fields with empty tokens only where a status may stand |
| `WikiScope.MissingPathRejected` | scripts/wiki_quality_gate.py:45-46 | a stream that ends in a status or in a rename's first path is rejected |
| `WikiScope.PageExact` | scripts/wiki_quality_gate.py:49-51 | for plain paths, pages are exactly the files `wiki/<stem>.md` with a non-empty stem |
| `WikiScope.PageGeneral` | scripts/wiki_quality_gate.py:49-51 | other paths may have empty and "." components besides the two |
| `WikiScope.NavigationExact` | scripts/wiki_quality_gate.py:52-57 | the two navigation pages |
| `ApiVocabulary.ExtractFields` | scripts/api_vocabulary_inventory.py:278-304 | the recursive loop yields the fields in order, or runs out of stack, as the specification does |
| `ApiVocabulary.ExtractIff` | scripts/api_vocabulary_inventory.py:278-373 | extraction succeeds within a stack depth if and only if no chain of nested schemas is longer |
| `ApiVocabulary.MoreDepthSame` | scripts/api_vocabulary_inventory.py:278-304 | the fields do not depend on how much stack was to spare |
| `ApiVocabulary.AcyclicTerminates` | scripts/api_vocabulary_inventory.py:134-142 | when the graph of references is acyclic, extraction terminates |
| `ApiVocabulary.TerminatesIff` | scripts/api_vocabulary_inventory.py:278-304 | extraction terminates if and only if no schema is nested in itself, through references, along a chain from the given one |
| `FieldTerms.FieldsExact` | scripts/api_vocabulary_inventory.py:278-334 | the extracted fields are exactly those that paths of properties lead to: named by the dotted path, required if and only if the schema that lists the property requires it |
| `ApiVocabulary.DistinctNamesIff` | scripts/api_vocabulary_inventory.py:287-303 | over non-empty dot-free property names, all dotted field names are distinct if and only if no property `q` and its sibling `q[]` lead to fields of one name |
| `ApiVocabulary.DistinctNames` | scripts/api_vocabulary_inventory.py:287-303 | so they are distinct when there are no such siblings |
| `ApiVocabulary.UncleanNamesCollide` | scripts/api_vocabulary_inventory.py:289-303 | in any schema, a property named like what is nested in a sibling (`u.v`, `u[].v`, or `v` under an empty name) makes two fields share a name, and so do the nested fields of a pair `q`, `q[]` |
| `ApiVocabulary.DottedTerm` | scripts/api_vocabulary_inventory.py:117-123 | the term of a dotted name is that of its last property, whatever the prefix |
| `FieldTerms.TermOfSpelling` | scripts/api_vocabulary_inventory.py:109-123 | a field is known by the words of its last property in snake case, two legacy names replaced, however the words are joined (by capitals, blanks, dashes or underscores) and padded |
| `FieldTerms.SnakeOfSpelling` | scripts/api_vocabulary_inventory.py:109-114 | a spelling of words becomes the words in snake case if and only if no single capital is followed by another capital |
| `ApiVocabulary.NeverLegacy` | scripts/api_vocabulary_inventory.py:117-119 | a canonical term is never a legacy term |
| `AttributeCatalog.FirstSeenExact` | scripts/api_vocabulary_inventory.py:527-533 | a first-seen list has each element once, in order of first occurrence |
| `AttributeCatalog.Catalog.Record` | scripts/api_vocabulary_inventory.py:498-507 | the catalog describes each attribute of all fields recorded so far: named after its first field, with the first-seen lists of types and locations |
| `AttributeCatalog.Catalog.Listed` | scripts/api_vocabulary_inventory.py:483 | the entries, each identifier once, in order |
| `AttributeCatalog.BuildInventory` | scripts/api_vocabulary_inventory.py:463-486 | an endpoint per operation, all controls in order, and a catalog that describes exactly the endpoints' fields |
| `CatalogMeaning.EndpointExact` | scripts/api_vocabulary_inventory.py:376-437 | an operation has an endpoint unless a schema nests deeper than the stack; it lists the parameters in order, then what belongs to the body, and what belongs to the response |
| `CatalogMeaning.ControlsExact` | scripts/api_vocabulary_inventory.py:386-411 | a control for each parameter of each operation, in order |
| `AttributeCatalog.FieldResolves` | scripts/api_vocabulary_inventory.py:498-533 | a field resolves to one entry, which lists its type and location without duplicates |
| `AttributeCatalog.ReferencesResolve` | scripts/api_vocabulary_inventory.py:463-486 | every endpoint and control reference of an inventory resolves to exactly one entry |
| `AttributeCatalog.ExtractedCoherent` | scripts/api_vocabulary_inventory.py:319-334 | a field's identifier, made from its property, is that of its whole dotted name |
| `AttributeCatalog.ValidateIdentity` | scripts/api_vocabulary_inventory.py:612-632 | an entry's errors are exactly those that apply to it |
| `CatalogMeaning.SnakeCaseExact` | scripts/api_vocabulary_inventory.py:573-575 | what snake case is, character by character |
| `CatalogMeaning.SpelledTermIsSnake` | scripts/api_vocabulary_inventory.py:109-123 | the term of words that start with a letter is snake case |
| `AttributeCatalog.ValidateCatalog` | scripts/api_vocabulary_inventory.py:598-609 | the errors of all entries, identifiers before each one counting as seen |
| `AttributeCatalog.BuiltCatalogReports` | scripts/api_vocabulary_inventory.py:498-632 | a built catalog is only ever reported for terms that are not snake case |
| `AttributeCatalog.BuildThenValidate` | scripts/api_vocabulary_inventory.py:463-632 | validating the catalog of a built inventory reports nothing but terms that are not snake case, and nothing at all if and only if the term of every field is snake case |

## Left out

- HTTP certification flows, git, pip, subprocesses, command lines and file reading: their results are inputs, git ancestry is an abstract relation.
- SHA-256, PEP 440 versions, PEP 508 markers, Python's `ast` and `datetime` parsing, `str` of arbitrary values: uninterpreted functions or data, with the laws used stated as predicates (`Faithful`).
- The proposal engine behind the golden fixtures, and the artifact it builds: an uninterpreted function of the inputs.
- `dead_code_gate.py`, `dependency_hygiene_gate.py`, `radon_complexity_gate.py`, `dependency_health_check.py`, the field-presence validators and the Markdown renderers: they repeat these patterns or only check single fields.
- The wording of messages: failures are datatypes of reasons. Where a failure comes from iterating a Python set or dictionary, its place among its siblings is left open.
- Shape checks of loaded JSON that only tell an object from a list, except where an operation branches on them.
- ChangedLines.ReadPrintedDiff: git's quoting of unusual paths and the tab that git appends to paths with spaces are not modelled; decimal digits are ASCII.
- ChangedText.InnerBoundariesIff: says nothing of diffs in which something that is cut off, or an added line, looks like a hunk or file header; whether such a diff is accepted depends on the counts around it.
- ChangedCoverage.PassingFloor: percentages are exact reals rounded half to even, not binary floats.
- QualityTrend.CompareMetrics: measures are given for every metric of the policy, as reading a report guarantees; measurements and limits are exact reals, so the rounding of float subtraction is not modelled; not-a-number limits are excluded.
- LicenseGraph.Walker.Walk: a requirement that does not parse is skipped as in the code; markers are evaluated by an abstract environment.
- RequirementText.ReadPrintedPart: the parser of requirements is uninterpreted; that it understands the printed text of a requirement is a hypothesis on that text.
- RequirementFiles.RequirementReader.ParseRequirementFile: paths are resolved by an abstract function; names are lower-cased as ASCII.
- TomlText.ReadEscaped: strings are sequences of Unicode scalar values, so lone surrogates do not occur; the TOML reader covers the forms that the printer produces.
- DecimalText.ParseFormatFixed: digits are ASCII; exponents beyond the context's limits and payloads of not-a-number values are not modelled.
- GoldenFixtures.UpdateThenCheck: numbers that the engine dumps are integers or strings, and the engine reads a number and the string that it is written as alike.
- GoldenFixtures.GoldenFile.Update: a file is its loaded document; key order and layout are not modelled.
- TrustFreshness.Snapshot.ExpectedFreshnessPatch: `str`-keyed objects only; the age is an exact integer division of microseconds.
- LicenseInventory.BuildThenValidate: JSON values are compared exactly, so that `1`, `1.0` and `True` are told apart; choosing a term from package metadata is an input.
- LicenseFreshness.CompareWithExpected: dependency groups that are not a list read as none.
- BanditBaseline.BuildCurrentBaseline: a finding's code is taken as already normalised, and writing and loading the payload is the identity.
- ApiVocabulary.ExtractFields: the type label of a schema, its description and its example are inputs; letters are lower-cased as ASCII.
- AttributeCatalog.ValidateIdentity: examples and the check for placeholders among them are not modelled.
- AttributeCatalog.ValidateCatalog: entries that are no objects are not modelled, nor are examples.
- AttributeCatalog.BuildThenValidate: placeholder examples are not modelled.
- WikiScope.ChangedWikiScope: tokens are decoded text; undecodable bytes are not modelled.
- BanditBaseline.Validate: the counts of findings by severity that accompany the failures are not modelled.
- LicenseInventory.ValidateInventory: building the index of distributions, merging roots of one name and the summary counts of an inventory are not modelled.
- CloneIdentity.BaseEqualIff: the digest is taken to be injective, which no hash is on all inputs.
- LockRecords.PackageRecords: reading the lock's requirement files and their digests is an input.
