# A verified model of the Loom registry

The Loom registry stores packages for the Loom client: it reads version and requirement
text, records published versions in SQL tables, keeps their tarballs as blobs addressed by
digest, and serves an index document the client resolves from. This project models the parts
where those jobs can go wrong without anybody noticing, and proves what they keep.

- **Versions and requirements** (`Orders`, `Versions`, `Precedence`, `Requirements`, `Intervals`,
  `Ceilings`, `RequirementText`, `CommaLists`). The parsers are methods proved to accept
  exactly the texts their printers write. The order is a total order up to build metadata and
  is compared with section 11 of Semantic Versioning 2.0.0. A requirement is an interval with
  a prerelease gate; what intersection, ceilings and comma lists accept is stated exactly.
- **Names and manifests** (`PackageNames`, `Manifests`). Lookup keys, squat keys, the order of
  names, and the reading of a dependency table that arrives in no particular order.
- **The index** (`Index`, `DocumentCache`, `Serving`, `Histories`). One package has one document. `Serving`
  is a labelled transition system in which publishes, yanks and index requests interleave
  step by step; it is proved that requests are served fresh documents, and exactly when.
  `Histories` ties its commits to the tables: the history a run of the registry's transactions
  leaves for a package is what the tables answer, moment by moment.
- **Blobs** (`Storage`, `Sweeping`, `SweptTables`). The sweep's effect and its report, and a
  transition system of publishes against one sweep at a time, in which the grace period is shown
  to be exact. `SweptTables` ties its steps to the transactions, to Put and to the sweep.
- **The tables** (`Tables`, `Registry`, `RegistryRuns`, `RegistryLaws`, `Outcomes`). Record, Yank, AddOwner,
  RemoveOwner and CreateScope, each one serial step over maps that stand for the tables of
  `internal/db/migrations/0001_initial.sql`. A transaction that fails leaves them as they were.
- **Reading and publishing** (`StoreReading`, `Snapshots`, `Publishing`). A package is read with
  three queries while commits fall between them; what comes back is one moment of the tables,
  and each version as it was published, with the mark of its last yank (`Marks`).
  `ServedDocuments` carries that to the document a client is served.
- **Small algorithms** (`Limiter`, `Latest`). The token bucket in exact arithmetic and the
  one-pass choice of the latest version.

`Wrappers`, `Text` and `Sorting` hold what the others share.

Where the repository's comments and its code disagree, the model follows the code:

- `internal/semver/requirement.go:82-83` says an intersection accepts exactly the versions both
  operands accept, and fails when they accept none in common. It accepts more when one operand
  names a prerelease the other does not; `Intervals.IntersectionExactWhenGatesShared` states
  when it is exact. It also succeeds for `>1.0.0` and `<1.0.1`, which have nothing in common;
  `Intervals.CommonVersionExactlyWhen` decides whether two requirements have.
- `internal/semver/requirement.go:26-28` says a requirement that exists always names a version.
  `>1.0.0, <1.0.1` is accepted and names none; `Intervals.NamesSomeVersion` decides it.
- `internal/index/index.go:165-166` says a stale document cannot be handed out. It can when two
  commits share a timestamp; `Serving.TrustworthyExactlyWhenSettled` states when it cannot.
- `internal/storage/storage.go:60-61` and `internal/publish/service.go:66-68` say nothing removes
  an unreferenced blob; `internal/maintain/maintain.go:64-105` does.

Three conditions are assumed of the surroundings, and are stated in the contracts that need
them. A transaction is one step, which is stronger than the isolation the SQL has: the count
of owners at `internal/db/owners.go:83-86` takes no lock. The bounds of the sweep's grace need
a record to commit less than grace after its blob's modification time. The cache needs no two
commits to one package to share `updated_at` with a different document in between;
`Histories.SharedMomentsServeStale` shows the tables themselves can break that.

## Model

| member | source | states |
|---|---|---|
| Versions.ParseNumericIdentifier | internal/semver/version.go:188-207 | digits with no leading zero, within an int32, and their value; nothing else reads as a number |
| Versions.ValidateIdentifiers | internal/semver/version.go:155-183 | accepts exactly dot-separated non-empty identifiers, with leading zeroes refused only where asked |
| Versions.ParseVersion | internal/semver/version.go:26-70 | reads what the grammar's inverse says, build metadata split off before the prerelease |
| Versions.ParserInvertsPrinter | internal/semver/version.go:26-105 | a text parses to a version exactly when the version is well formed and prints back as that text, byte for byte |
| Versions.CompareIsIdentity | internal/semver/version.go:79-94 | Compare is antisymmetric and zero exactly on the columns of the versions_identity key |
| Versions.CompareTransitive | internal/semver/version.go:79-150 | Compare is transitive on all versions |
| Versions.PrereleaseOrder | internal/semver/version.go:114-134 | prerelease texts are totally ordered, a release above its prereleases |
| Versions.IdentifierOrder | internal/semver/version.go:136-150 | identifiers are totally ordered, numbers below text |
| Text.DigitValues | internal/semver/version.go:194-200 | the digits, and that each stands for itself |
| Text.PlaceValue | internal/semver/version.go:193-204 | digits count by their place |
| Text.TrimSpaceDrops | internal/semver/requirement.go:30 | trimming drops the spaces at either end and nothing else |
| Text.SpaceCodes | internal/semver/requirement.go:30 | which characters are spaces, by code |
| Versions.ExampleReads | internal/semver/version.go:26-105 | the order in which the parts of a version are written and read |
| Versions.IdentifierCodes | internal/semver/version.go:166-175 | the characters of an identifier, by code: digits, ASCII letters and the dash |
| Versions.LeadingZeroesMatter | internal/semver/version.go:155-180 | an identifier may have leading zeroes exactly where they are not rejected or it is not a number |
| Orders.FirstDifferenceDecides | internal/semver/version.go:148 | texts compare by the codes of the first characters that differ, and a proper prefix is less |
| Precedence.FittingAgree | internal/semver/version.go:79-207 | on versions whose numerals fit an int32, Compare is section 11 of Semantic Versioning 2.0.0, stated by first differing identifiers and characters |
| Precedence.OversizedDisagrees | internal/semver/version.go:185-207 | every version with an oversized numeric identifier comes, by the standard, before some fitting version that Compare puts before it |
| Precedence.AgreesWithStandard | internal/semver/version.go:79-207 | a version agrees with the standard against every fitting version exactly when its own numerals fit |
| Requirements.ParsePartial | internal/semver/requirement.go:215-249 | reads one to three components padded with zeroes, refusing build metadata |
| Requirements.ParseClause | internal/semver/requirement.go:146-209 | the interval of one clause, or which of the two failures it has |
| Requirements.ParseRequirement | internal/semver/requirement.go:29-50 | folds the clauses of a comma list into one interval, refusing an empty one |
| Requirements.IntersectAll | internal/semver/requirement.go:103-119 | intersects from the left with an early exit; an empty list is unconstrained |
| Intervals.SatisfiesMeaning | internal/semver/requirement.go:64-80 | accepted means inside both bounds and a release, or a prerelease whose core a bound names |
| Intervals.PrereleasesConvex | internal/semver/version.go:79-134 | between two prereleases of one core lie only prereleases of that core |
| Intervals.NarrowedOpens | internal/semver/requirement.go:297-355 | inside a narrowed interval the gate opens exactly when it opened for either operand |
| Intervals.IntersectionAccepts | internal/semver/requirement.go:84-99 | an intersection accepts exactly what lies in both intervals and is a release or has its core's prerelease named by a bound of either operand |
| Intervals.IntersectKeepsOperands | internal/semver/requirement.go:87-94 | an operand that is the intersection already is returned whole, text and all |
| Intervals.EmptyExactlyWhen | internal/semver/requirement.go:340-347 | bounds are empty exactly when out of order and without a common version at the floor |
| Intervals.IntersectionKeepsCommon | internal/semver/requirement.go:82-99 | it keeps every version both accept, and is exact on releases |
| Intervals.RefusedIntersectionIsDisjoint | internal/semver/requirement.go:82-99 | when it is refused no version is accepted by both |
| Intervals.IntersectionExactWhenGatesShared | internal/semver/requirement.go:82-99 | it accepts exactly what both accept if and only if each of the two tighter bounds opens both gates or names a core with no prerelease inside |
| Intervals.CommonVersionExactlyWhen | internal/semver/requirement.go:82-99 | two requirements accept a version in common if and only if both accept one of the candidates of their narrowed interval, and never when the intersection fails |
| Intervals.NamesSomeVersion | internal/semver/requirement.go:26-28 | some version is accepted if and only if one of a few computed candidates is |
| Intervals.InclusiveFloorIsAccepted | internal/semver/requirement.go:64-80 | a non-empty requirement with an inclusive floor accepts that floor, prerelease or not |
| Ceilings.HalfOpenIsAgreement | internal/semver/requirement.go:251-282 | the half-open interval below a ceiling is agreement with the floor through one component |
| Ceilings.CaretCeilingIsNext | internal/semver/requirement.go:257-270 | the caret ceiling moves the compatibility component, and fails only at the largest one |
| Ceilings.WrittenCeilingIsNext | internal/semver/requirement.go:275-293 | the written ceiling moves the last written component, the minor at most, and fails only at the largest one |
| Ceilings.CeilingClauseAccepts | internal/semver/requirement.go:188-213 | a caret, bare, tilde or partial equals clause accepts exactly versions from the floor that agree with it and pass the gate, floor below ceiling and bounds within int32 |
| RequirementText.PartialParserInvertsPrinter | internal/semver/requirement.go:215-249 | a partial version is read from exactly the texts that write it |
| RequirementText.MalformedExactlyWhen | internal/semver/requirement.go:146-175 | a clause other than `*` is malformed exactly when it is no comparator, or none, and partial version with any space around them |
| RequirementText.CeilingClauseMeaning | internal/semver/requirement.go:146-213 | any text of a caret, bare, tilde or partial equals clause, space included: it lacks a ceiling exactly when its kept component is the largest, and otherwise accepts exactly what agrees with its floor and passes the gate |
| RequirementText.ComparisonClauseMeaning | internal/semver/requirement.go:178-192 | any text of `>=`, `>`, `<=`, `<` before any partial version, or of `=` before a full one, accepts exactly what compares so with the version written, releases and its own core's prereleases |
| RequirementText.StarMeaning | internal/semver/requirement.go:151-153 | a star accepts exactly the releases |
| RequirementText.EveryClauseHasAMeaning | internal/semver/requirement.go:178-198 | between them these cover every comparator on every partial version |
| RequirementText.NoCeilingMeans | internal/semver/requirement.go:200-213 | any clause that fails for want of a ceiling keeps a component that is the largest |
| RequirementText.ClauseAlone | internal/semver/requirement.go:29-50 | a text without commas is a requirement exactly when it is a clause, with its bounds and its failures |
| RequirementText.ParsedText | internal/semver/requirement.go:29-50 | a requirement keeps its text without the space around it |
| RequirementText.DescribeReadsBack | internal/semver/requirement.go:367-399 | printing any non-empty interval of versions without build metadata and parsing it gives the same bounds |
| RequirementText.ParsedIsFaithful | internal/semver/requirement.go:29-50 | every parsed requirement prints a text that parses back to it |
| RequirementText.IntersectIsFaithful | internal/semver/requirement.go:84-99 | intersection keeps that |
| RequirementText.ReachableReadsBack | internal/semver/requirement.go:103-135 | so every requirement reached by parsing and intersecting reads back from its own text |
| CommaLists.CommaListIsIntersection | internal/semver/requirement.go:29-50 | a comma list is accepted exactly when its single clauses intersect, with the same bounds |
| CommaLists.FirstBadClauseDecides | internal/semver/requirement.go:36-40 | the first clause that does not parse decides the failure of a list |
| CommaLists.EarlyExitIsHarmless | internal/semver/requirement.go:103-119 | stopping at the first empty intersection answers as intersecting everything would |
| CommaLists.IntersectionIgnoresOrder | internal/semver/requirement.go:103-119 | success and bounds depend only on the set of requirements, not on order or repetition |
| CommaLists.IntersectAllAccepts | internal/semver/requirement.go:103-119 | a refused list leaves every version rejected by one of its requirements; an accepted one accepts what all their intervals contain, if a release or opened by some bound |
| CommaLists.EmptyListIsAny | internal/semver/requirement.go:101-106 | an empty list constrains nothing |
| CommaLists.RequirementAccepts | internal/semver/requirement.go:29-80 | a parsed comma list accepts what every clause contains, if a release or opened by some clause |
| CommaLists.UnsatisfiableIsUnsatisfied | internal/semver/requirement.go:45-47 | a list refused as unsatisfiable has no version inside all its clauses |
| CommaLists.ReturnedFloorIsAccepted | internal/semver/requirement.go:29-50 | a returned requirement with an inclusive floor accepts that version |
| CommaLists.AcceptedButNamesNothing | internal/semver/requirement.go:26-28 | a text that parses and that no version satisfies |
| CommaLists.IntersectionAcceptsMore | internal/semver/requirement.go:82-83 | the intersection of `>=1.0.0-alpha` and `>=0.5.0` accepts a prerelease the second rejects |
| CommaLists.IntersectionOfNothing | internal/semver/requirement.go:82-83 | `>1.0.0` and `<1.0.1` intersect successfully, and no version satisfies the result or both of them |
| PackageNames.ParserInvertsPrinter | internal/pkgname/pkgname.go:23-67 | a text parses to a name exactly when the name is valid and prints as that text |
| PackageNames.CompareIsPreorder | internal/pkgname/pkgname.go:71-81 | Compare is antisymmetric in sign, transitive and total |
| PackageNames.UnscopedFirst | internal/pkgname/pkgname.go:69-77 | every unscoped name sorts before every scoped one |
| PackageNames.CompareByCode | internal/pkgname/pkgname.go:71-77 | scopes decide before names, each by the first character that differs in lower case |
| PackageNames.EqualIsSameButForCase | internal/pkgname/pkgname.go:79-81 | names are equal exactly when they differ only in the case of ASCII letters |
| PackageNames.SegmentCodes | internal/pkgname/pkgname.go:104-124 | a segment is a letter and at most sixty-three letters, digits, dashes and underscores, by code |
| PackageNames.EqualIsSameKey | internal/pkgname/pkgname.go:79-86 | names are equal exactly when their lookup keys are, because no segment holds a slash |
| PackageNames.SquatKeysCollide | internal/pkgname/pkgname.go:93-98 | squat keys collide exactly on names differing in case and in dash against underscore |
| PackageNames.SquatKeyIsCoarser | internal/pkgname/pkgname.go:93-98 | equal names share a squat key, and no scoped name shares one with an unscoped name |
| Manifests.ReadEntry | internal/manifest/manifest.go:123-142 | one entry is refused for its name, for a name seen before, or for its value |
| Manifests.StatementDeclares | internal/manifest/manifest.go:151-159 | a statement declares the requirement it parses to, for use |
| Manifests.TableDeclares | internal/manifest/manifest.go:161-185 | a table declares the requirement its version parses to, for development exactly when its flag says so, and nothing when either part is malformed |
| Manifests.OthersDeclareNothing | internal/manifest/manifest.go:187-189 | an entry that is neither declares nothing |
| Manifests.ReadDependencies | internal/manifest/manifest.go:114-149 | fails for a table too long, unreadable or with two spellings of one name, in whatever order it is visited, and otherwise lists what it declares, strictly ascending |
| Manifests.OneTableOneList | internal/manifest/manifest.go:114-149 | any two lists read from one table are equal, so iteration order cannot show |
| Manifests.NoNameTwice | internal/manifest/manifest.go:129-134 | no two entries of the list share a lookup key |
| Index.Build | internal/index/index.go:93-139 | shows every version with its own fields and all its dependencies, both in ascending order |
| Index.DocumentIsCanonical | internal/index/index.go:88-139 | the same rows in any order give the same document |
| Index.LastAcceptedIsGreatest | internal/semver/version.go:107-112 | the last entry a requirement accepts is the greatest version of the package it accepts |
| DocumentCache.Cache.constructor | internal/index/index.go:179-181 | an empty cache with room for at least one document |
| DocumentCache.Cache.Lookup | internal/index/index.go:183-194 | answers the held document only for the exact timestamp it was stored under |
| DocumentCache.Cache.Store | internal/index/index.go:196-210 | holds the document, evicting some entries only when there is no room, and never passes the limit |
| DocumentCache.StoringKeepsLimit | internal/index/index.go:200-209 | at most one entry is evicted, none while there is room, and the cache stays within its limit |
| Serving.EveryRunServesFresh | internal/api/api.go:173-206 | in every interleaving, if the key's history is settled, each answer is the document of a state current at some moment between the request's start and its end |
| Serving.RunKeepsLimit | internal/index/index.go:196-210 | in every interleaving the cache stays within its limit |
| Serving.UniqueStampsSettle | internal/db/publish.go:58-61 | a history with no two commits sharing a timestamp is settled |
| Serving.StaleHit | internal/api/api.go:175-205 | for any history that is not settled there is a run that serves a stale document |
| Serving.TrustworthyExactlyWhenSettled | internal/index/index.go:165-166 | every run over a history answers fresh documents if and only if the history is settled |
| Storage.Filesystem.Put | internal/storage/filesystem.go:24-79 | stores content under its digest, and leaves a blob already there alone, modification time included |
| Storage.Filesystem.Delete | internal/storage/filesystem.go:147-153 | the digest is gone and nothing else is; deleting what is absent succeeds |
| Storage.Visit | internal/maintain/maintain.go:74-99 | one blob's share of the report and of the removal |
| Storage.Sweep | internal/maintain/maintain.go:64-105 | removes exactly the unreferenced blobs at least grace old, or nothing on a dry run, in any walking order, and reports exactly what it scanned, spared, removed and freed |
| Sweeping.TimelyRunsStayInstallable | internal/maintain/maintain.go:56-105 | in every run where each row commits in time, or while another row references its blob, every row's blob exists |
| Sweeping.LateRecordLoses | internal/storage/filesystem.go:28-30 | a record committed at or after grace can lose its blob |
| Sweeping.GraceIsExact | internal/maintain/maintain.go:83-86 | a blob time and a commit time are safe in every run if and only if they are less than grace apart |
| SweptTables.InstallableMeansInstallable | internal/maintain/maintain.go:58-60 | a state of the sweep's transition system that reflects the tables and the file system is installable exactly when they are |
| SweptTables.TransactionsAreSteps | internal/publish/service.go:66-75 | a record that commits is that system's Record step, one that fails its Abandon step, and no other transaction moves it |
| SweptTables.PutIsAStep | internal/storage/filesystem.go:24-79 | Put is its PutBlob step, the blob's time included |
| SweptTables.SweepAloneIsTheSweep | internal/maintain/maintain.go:64-105 | with nothing between its steps, in any walking order, the system's sweep leaves the blobs that the sweep of the file system leaves |
| Tables.ExtendsTransitive | internal/db/migrations/0001_initial.sql:35-108 | growing without losing or altering a row, except update times, descriptions and yanked marks, composes |
| Registry.Store.Record | internal/db/publish.go:27-63 | the claim, the version, its dependencies, the update time and the description together, or no change and the failure |
| Registry.Store.OwnedPackage | internal/db/publish.go:67-98 | an owned package, a package created for a free name, or why not |
| Registry.Store.CreatePackage | internal/db/publish.go:122-156 | a package and its first owner, unless a lookup or squat key is taken |
| Registry.Store.InsertVersion | internal/db/publish.go:158-190 | a version row with every column, unless its identity is taken |
| Registry.Store.Yank | internal/db/publish.go:249-298 | the mark on that identity and the update time, or no change and the failure |
| Registry.Store.FindOwned | internal/db/owners.go:111-145 | the package, refusing in order a missing package, an actor who is no owner and an unknown login |
| Registry.Store.AddOwner | internal/db/owners.go:49-65 | the login's user joins the owners, or no change and the failure |
| Registry.Store.RemoveOwner | internal/db/owners.go:71-107 | the user leaves the owners, a stranger's removal changes nothing, and the last owner stays |
| Registry.Store.CreateScope | internal/db/scope.go:25-65 | the trimmed scope and its first member, or no change and the failure |
| RegistryRuns.EveryRunKeeps | internal/db/migrations/0001_initial.sql:35-108 | every run keeps every package owned, lookup keys, squat keys and version identities unique, stored names and rows readable, and loses or alters nothing but update times, descriptions and yanked marks |
| RegistryRuns.EveryReachableStateIsConsistent | internal/db/migrations/0001_initial.sql:35-108 | so does every state reached from empty tables |
| RegistryRuns.OwnersMoveAsAsked | internal/db/owners.go:47-107 | a change that commits adds or removes exactly the user named, on exactly the package named |
| RegistryRuns.StepMovesOwners | internal/db/owners.go:49-145 | a package's owners change only by an owner adding or removing the one user named |
| RegistryRuns.OwnershipComesFromOwners | internal/db/owners.go:109-145 | over any run, an owner owned the package at the start or was added by someone who then owned it |
| RegistryRuns.WrittenVersionReads | internal/db/publish.go:162-176 | the int32 columns of a parsed version hold it exactly |
| RegistryRuns.WrittenDependencyReads | internal/db/publish.go:45-51 | a dependency's row reads back as that name in its casing and that requirement |
| RegistryLaws.RecordedMeans | internal/db/publish.go:33-62 | a record that commits adds one version row holding what was published to a package of that name owned by the publisher, with the manifest's dependencies, and stamps and describes that package and no other |
| RegistryLaws.RecordCommitsExactlyWhen | internal/db/publish.go:33-190 | a record commits if and only if its name is the publisher's or free to claim, its version is not held, and no dependency is named twice |
| Outcomes.RecordRefusals | internal/db/publish.go:33-190 | which failure a record that does not commit is refused with, and that the nameless one means a dependency named twice |
| Outcomes.RecordLeaves | internal/db/publish.go:33-62 | a record that commits leaves every column of its version row and its package's stamp and description as it gives them, the version unyanked |
| Outcomes.NewPackageMeans | internal/db/publish.go:122-156 | a new package keeps its own casing, takes its scope's from the scope, and has its publisher for only owner |
| Outcomes.YankOutcome | internal/db/publish.go:249-298 | a yank commits if and only if an owner names a version the package holds, and which failure it has otherwise |
| Outcomes.OwnerAddedOutcome | internal/db/owners.go:49-65 | when adding an owner commits and how it is refused |
| Outcomes.OwnerRemovedOutcome | internal/db/owners.go:71-107 | when removing an owner commits and how it is refused |
| Outcomes.ScopeCreatedOutcome | internal/db/scope.go:25-65 | when creating a scope commits and how it is refused |
| Outcomes.ScopeCreatedRow | internal/db/scope.go:30-60 | a scope is stored in the casing it was given |
| RegistryLaws.FreshRegistry | internal/db/scope.go:18-24 | a fresh registry takes every unscoped name and refuses every scoped one |
| RegistryLaws.ScopeAdmitsItsMember | internal/db/scope.go:18-24 | in any registry, once a scope is created its member's record of a name in it commits if and only if no dependency is named twice and no taken name reads like it |
| RegistryLaws.ScopeCreatedMeans | internal/db/scope.go:25-65 | a new scope has the trimmed name's key and exactly one member, and no other membership changes |
| RegistryLaws.PublishedOnce | internal/db/publish.go:178-185 | after a record, no run leads to a state where that identity is recorded again, under any casing or build metadata, and the refusal is the right one |
| RegistryLaws.SquattersNeverSucceed | internal/db/publish.go:140-146 | after a package exists, no run leads to a state where a look-alike name is created |
| RegistryLaws.RemovingUndoesAdding | internal/db/owners.go:47-107 | adding then removing a new owner restores the tables |
| RegistryLaws.AddingUndoesRemoving | internal/db/owners.go:47-107 | removing then adding another owner restores the tables |
| RegistryLaws.LastOwnerIsTheActor | internal/db/owners.go:94-96 | a removal is refused for leaving nobody exactly when a sole owner removes themselves |
| RegistryLaws.YankMarksOne | internal/db/publish.go:276-296 | a yank marks the one row of that identity, stamps its package and touches nothing else |
| RegistryLaws.UnyankUndoesYank | internal/db/publish.go:248-298 | unyanking restores every version row |
| StoreReading.GatherVersions | internal/db/store.go:144-188 | the rows as versions in the order they came, and where each id stands |
| StoreReading.AttachDependencies | internal/db/store.go:197-235 | each dependency row goes to its version, in order, and the reading fails exactly when some row does not read |
| Snapshots.Locate | internal/db/store.go:80-112 | the row of a lookup key and its stored name, which always reads |
| Snapshots.ReadPackage | internal/db/store.go:28-40 | with commits between the three queries, answers the package exactly as it stood at the second, or that it was missing at the first |
| Snapshots.ReadVersion | internal/db/store.go:42-58 | one version as it stood at the second query, or missing |
| Snapshots.OneMomentOneDocument | internal/db/store.go:117-235 | any two reads of one moment render the same document |
| Snapshots.ClientChoosesGreatest | internal/semver/version.go:107-112 | the last entry of the document read from the tables that a requirement accepts is at least every recorded version it accepts |
| Snapshots.PublishedReadsBack | internal/db/store.go:28-40 | after any run, the package read shows a recorded version, once, as it was published: version fields, checksum, realm, moment, dependency names in their casing and requirements |
| Snapshots.PublishedVersionReadsBack | internal/db/store.go:42-58 | and so does the read of that one version |
| Snapshots.ShownWasPublished | internal/db/store.go:28-40 | and after any run every version the package read shows was published under that name by a record of the run, and is shown as it was published |
| Marks.StepMarks | internal/db/publish.go:249-298 | a yanked mark moves only by a yank of that version whose actor owns its package, to what the yank says |
| Marks.YankIsShown | internal/db/store.go:117-188 | after a yank the package read shows its mark on that version and every other mark as before |
| Marks.MarksAreShown | internal/db/store.go:117-188 | after any run the package read shows a version unyanked until its first committing yank, then with the mark of the last |
| Marks.MarkIsShown | internal/db/store.go:42-58 | and so does the read of that one version |
| ServedDocuments.EntriesAreRecords | internal/index/index.go:93-139 | after any run every entry of a package's document says what a record of the run published, and carries the mark of its last yank |
| ServedDocuments.RecordsHaveEntries | internal/index/index.go:93-139 | and every record that committed has such an entry |
| ServedDocuments.DocumentAscends | internal/index/index.go:93-102 | a document is headed by the stored name and its entries strictly ascend |
| ServedDocuments.OfferedAfterARun | internal/db/publish.go:192-246 | after any run a dependency is satisfiable if and only if some version satisfies it and its last yank, if any, put it back |
| Histories.OthersLeaveCommit | internal/db/publish.go:248-298 | a transaction that is no committing record or yank of a package leaves its update time and the document it shows as they were |
| Histories.ChangeStamps | internal/db/publish.go:58-61 | a committing record or yank stamps its package with its own moment |
| Histories.HistoryTracksTables | internal/db/store.go:60-76 | after any run, the update time and document of a package are the last commit of the history its records and yanks left |
| Histories.CommitIsAMoment | internal/db/store.go:28-40 | every commit of that history is what the tables answered at some moment of the run |
| Histories.RegistryServesFresh | internal/api/api.go:173-206 | if no two records or yanks of a package commit at one moment, every interleaving of that run with requests and evictions serves only documents current during the request |
| Histories.SharedMomentsServeStale | internal/db/publish.go:58-61 | a record stamped like an earlier record or yank of its package leaves a history over which some interleaving serves a stale document |
| Publishing.FindUnsatisfiable | internal/db/publish.go:192-246 | the dependencies no unyanked version satisfies, in order, whatever order the candidates came in |
| Publishing.UnmetAreThoseNotOffered | internal/db/publish.go:192-246 | a dependency is answered exactly when nothing unyanked satisfies it |
| Publishing.Service.Resolvable | internal/publish/service.go:80-111 | development dependencies are not asked about |
| Publishing.Service.Publish | internal/publish/service.go:56-78 | an upload is unresolvable exactly when a dependency for use is not offered; refused before its blob it changes nothing, refused after it leaves only the blob; accepted, it adds the version its manifest names, for that content, by that publisher, with the manifest's dependencies; and every recorded version keeps having its content |
| Publishing.PublishedIsShown | internal/publish/service.go:56-78 | what was published is what the package read shows, its dependencies as a multiset |
| Publishing.OfferedStaysMet | internal/publish/service.go:80-111 | what a dependency was published against is still recorded after any run, if perhaps yanked |
| Publishing.ReadRecordIsNeverRejected | internal/manifest/manifest.go:114-149 | a record whose dependencies were read from a table meets what a record asks of its payload, and is never refused for a reason the publisher is not told |
| Limiter.Limiter.Allow | internal/api/limiter.go:35-58 | takes a token, or answers the wait, and leaves each bucket where exact refilling puts it |
| Limiter.Limiter.Sweep | internal/api/limiter.go:62-68 | drops exactly the buckets that have refilled |
| Limiter.LevelLater | internal/api/limiter.go:49-50 | levels refill linearly up to burst, in any number of stages |
| Limiter.RefusalChangesNothing | internal/api/limiter.go:52-54 | a refused call changes no level at any later moment |
| Limiter.WaitIsExact | internal/api/limiter.go:52-54 | the wait is the least time until the next grant |
| Limiter.SweepingIsInvisible | internal/api/limiter.go:60-68 | over any calls, the limiter that sweeps answers as one that never does |
| Limiter.RefusedCallsCanBeDropped | internal/api/limiter.go:52-54 | every other answer of a run is the same without a refused call |
| Limiter.GrantsArePaidFor | internal/api/limiter.go:35-58 | grants are paid for by the starting level and the time |
| Limiter.WindowIsBounded | internal/api/limiter.go:35-58 | over any window of any run one key is granted at most burst plus elapsed over every |
| Limiter.WindowIsAttained | internal/api/limiter.go:35-58 | and for any number of refills a window of that length is granted exactly that many |
| Latest.LatestVersions | internal/db/catalog.go:166-203 | the one-pass fold shows, for each package, its greatest unyanked version, or its greatest when all are yanked |
| Latest.FillVersions | internal/db/catalog.go:311-319 | the page is the rows, newest first |
| Latest.LatestIsUnique | internal/db/catalog.go:155-203 | there is only one such version, so row order cannot show |
| Latest.PageLatestIsLatest | internal/catalog/catalog.go:56-66 | the page's newest unyanked entry, or else its head, is that version |
| Latest.FoldAgreesWithPage | internal/db/catalog.go:166-203 | the fold and the sorted page always agree |

## Left out

- HTTP routing, headers, JSON and HTML rendering, request ids, metrics and logging: plumbing. A document is its fields, and its body and ETag are functions of them.
- Tar and gzip decoding, path cleaning and TOML parsing: an upload arrives as an already read manifest (`Publishing.Service.read`) and a dependency table as an already decoded map. The package's page, which alone reads a version's edition, license, description, repository and authors back, is not part of this model.
- sha256: digests are a function of content, and nothing more is used of them.
- SQL text, connection pools and query errors: the tables are maps, a query answers rows in any order, and a transaction is one serial step. Interleaving single statements, as the unlocked count of owners allows, is a weaker model than this one.
- Row ids come from one counter that is not consumed by a rolled-back transaction; the sequences of the schema are separate and skip. Only that ids are distinct is used.
- Users: the login a change of owners or a new scope names is looked up outside, and its answer is a parameter. Deleting users, packages or scopes is not something the repository's code does.
- Registry.Store.Record: a schema error the source wraps without a name (a missing scope row, a component beyond int32, an empty tarball, a duplicate dependency) is one failure here, `Rejected`.
- Serving reads a package as one step; `Snapshots.ReadPackage` is what justifies it, and `Histories` what ties its commits to the tables.
- `Sweeping` has one sweep at a time, as one operator's command gives.
- File durability, temporary names and renames: Put is one step. Walking visits each blob present when the walk began, and files whose names are not digests are not part of this model.
- slices.SortFunc is a method known by its contract, an ascending permutation; nothing is assumed of where equal elements land.
- Floating point, Duration truncation and the rounding of Retry-After: the limiter is in exact real arithmetic.
- Limiter keys are a fixed-width integer type, as in the source.
- Unicode white space and case: trimming and folding are ASCII. Valid names and versions hold only ASCII; text around a requirement or a scope might not.
- Full-text search and its ranking, download counts, package pages, Verify, SortVersions, GitHub OAuth, sessions and tokens: lookups or foreign systems, with no hard invariant of their own.
