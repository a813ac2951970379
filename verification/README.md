# LunaSec verification

A Dafny model of the parts of LunaTrace and LunaDefend whose correctness is not visible from one function body,
and proofs of what those parts promise. `dafny verify dfyconfig.toml` checks everything.

Five groups of modules:

* **Snapshot store** (`MerkleTree`, `DependencyStore`, `DependencyGraph`, `SnapshotInsert`, `MerkleReadBack`,
  `SnapshotProtocol`).
  A snapshot turns lockfile dependency trees into a graph of nodes named by Merkle ids and writes to the database
  only what is not there yet. Proved: exactly when ids are canonical; the heap shape of the graph; that the batched
  insertion, with all its early returns and skipped subtrees, is one commit of a plan and equals inserting
  everything; exactly when everything reads back; and that under any interleaving of snapshots that read what is
  known outside their transactions the tables stay closed, whatever the ids, and hold exactly what was submitted
  where ids tell trees apart.
* **Log4Shell archives** (`ZipNames`, `Archive`, `ArchiveScan`, `ArchivePatch`, `PatchCommand`, `ArchiveRescan`,
  `ForcedPatch`, `ForcedRescan`). The scanner walks nested archives by their names; the patcher opens them through
  the zip reader, which looks up cleaned names, and rewrites each enclosing archive without one class. Proved: the
  scan finds exactly the known classes in archives with archive names, the rewriting loop deletes exactly the one
  member, patches commute and are idempotent, and a rescan reports exactly what is left. A run over the findings of a
  scan, where cleaning their paths changes nothing, patches exactly those that open and that the answers allow; a
  forced run never prompts and leaves a clean rescan under an exact condition.
* **Typed JSON** (`JsonTypes`, `JsonTransform`, `JsonRoundTrip`, `JsonUnions`). The transformer that checks and
  renames JSON values by a runtime type. Proved: it terminates, accepts exactly the conforming values, and uncasting
  undoes casting, with the families of types where it does not.
* **Findings** (`PackageGrouping`, `GroupingProperties`, `MatchDedupe`, `ArrayLiteral`, `VersionHashes`,
  `LibraryVersion`). Grouping findings by package over shared arrays, deduplicating scanner matches, array literals
  for PostgreSQL, the version table and versions read from file names.
* **Services** (`Tokenizer`, `Grants`, `Metrics`). Key store, time-limited grants and the metrics cache as state
  machines, with properties of whole runs.

`Options`, `Ordering` and `Text` hold what the groups share: absent values, stable sorting, splitting and joining.

How the model is built:

* Code that updates state is a class or a loop whose postcondition equates the result or the new state with a
  specification function; the properties are lemmas about those functions.
* Hashes, ciphers, the random byte stream, semantic-version, duration and date parsing are function parameters with
  only the laws stated. Freedom from hash collisions is assumed only where a theorem needs it, and only for the
  finite set of trees at hand: no hash into 128 bits is injective on all strings.
* What the clock, the user, the database or the network answers is a parameter of the call (`now`, `answers`,
  `replies`, `askSkip`, `kvOk`, `s3Ok`, `storeOk`).

Where the code does not keep what it seems to promise, the model follows the code and says exactly when the
promise holds:

* Child ids, name, version, the ecosystem and range of a node are hashed one after the other without a separator. Two
  packages can share an id under every hash because their fields run together (`LabelsCanBeAmbiguous`) or because a name
  begins with a child id (`LabelsCanPose`). Ids are canonical exactly when neither happens (`IdsCanonicalIff`), and
  exactly then everything that was snapshotted reads back (`MerkleSnapshotReadsBackIff`).
* A second snapshot of one build is refused after its nodes are stored (`SecondSnapshotRefused`).
* The scanner takes member names as they are, while opening a member cleans the names it is compared with. A nested
  archive named `/b.jar` is scanned but cannot be patched (`ShutArchiveStays`); a class named with a leading `/` is
  reported but never removed (`RootedClassIsImpostor`). Exactly the findings whose steps are proper names are patched
  (`ForcedLoopPatchesAll`), and `RescanIsSettledIff` says exactly when the rescan is clean.
* The reported path of a finding is cleaned as a file path. It names the archive exactly when there was nothing to
  clean (`PathNamesArchiveIff`), which holds for proper names below a clean file name (`ProperIsClean`); a class in
  `lib//b.jar` is listed as patched although nothing was removed (`CleanedPathIsMissed`). The two results before are
  about findings whose paths need no cleaning.
* The backup flag of the patch command is described as backing up each library, but several findings in one file
  overwrite the copy (`TwoFindingsLoseTheOriginal`): it is the original exactly when the earlier patches of that file
  had no class to remove (`BackupIsOriginalIff`).
* Array literals escape quotes but not backslashes: a list reads back exactly when no element has a backslash
  (`LiteralReadsBackIff`, `OneBackslashIsRefused`).
* Stored version strings read back exactly when no version contains the separator (`StoredVersionsReadBackIff`,
  `VersionWithSeparatorSplits`).
* The metrics cache adds int64 values. What was recorded is accounted for exactly when the carries of the sums recorded
  between two clones cancel (`ConservedIff`, `TwoRecordingsWrap`).
* Of token and secret only the first eight bytes seed the salts (`SameSeedIff`), and the prefix of every generated token
  fills them: all these tokens have the same salts and key (`GeneratedTokensShareSalts`). Lookup hashes still depend on
  the whole token.
* A grant is filed under session and token without a separator, so two pairs can share it (`SharedKeyIff`,
  `SessionRunsIntoToken`); tokens of one length, as the program generates them, rule that out (`TokensOfOneLength`).
* A file name such as `log4j-2.1-beta-.jar` loses its last hyphen (`LastHyphenLost`), exactly when the last part is
  empty and is not the version itself (`VersionKeepsRestIff`); the branches that rewrite `2.0-` and `1.0-` cannot be
  reached (`BranchesUnreachable`).
* Renaming below a union can bring a value back under another name (`RenamingUnderUnionFails`; `UnionComesBackIff`
  says when it does not), and two properties with one JavaScript name lose a value (`ComesBackIffDistinct`).
* The slug of a match joins its fields by colons, the first location by nothing, so that different packages can share
  one and be dropped (`NameRunsIntoLocation`; `VulnerabilitiesShareSlugIff`, `NamespacesShareSlugIff` and
  `PackagesShareSlugIff` say when).

## Model

| member | source | states |
|---|---|---|
| `MerkleTree.UndashDashed` | lunatrace/bsl/backend/src/database/dependency-relationship-dag-calculator.ts:60-70 | Putting dashes into a 32-digit hash keeps every digit: the digits read back from the 36 characters. |
| `MerkleTree.ConcatReadsBack` | lunatrace/bsl/backend/src/database/dependency-relationship-dag-calculator.ts:51-52 | Of two runs of joined child ids with text behind, one is the beginning of the other, and the text behind the shorter one continues with the ids that it lacks. |
| `MerkleTree.PreimageReadsBack` | lunatrace/bsl/backend/src/database/dependency-relationship-dag-calculator.ts:50-58 | Equal hashed strings mean the same child ids and the same concatenated fields, or fields that begin with the child ids that are missing. |
| `MerkleTree.PosingKeepsPreimage` | lunatrace/bsl/backend/src/database/dependency-relationship-dag-calculator.ts:50-58 | Conversely, fields that begin with the missing child ids give the same id for trees with different numbers of dependencies. |
| `MerkleTree.SameChildrenSameLabel` | lunatrace/bsl/backend/src/database/dependency-relationship-dag-calculator.ts:47-73 | The same multiset of child ids and the same concatenated fields give the same id: sorting is a canonical form of the multiset. |
| `MerkleTree.ReorderingKeepsId` | lunatrace/bsl/backend/src/database/dependency-relationship-dag-calculator.ts:47-118 | Reordering dependencies at any depth leaves the tree id unchanged, under every hash. |
| `MerkleTree.SameIdReadsBack` | lunatrace/bsl/backend/src/database/dependency-relationship-dag-calculator.ts:47-73 | Without collisions and fields that pose as child ids, equal ids mean equal child ids and equal concatenated fields. |
| `MerkleTree.IdDeterminesTree` | lunatrace/bsl/backend/src/database/dependency-relationship-dag-calculator.ts:75-118 | Among packages that what is hashed can tell apart, equal ids mean trees equal up to the order of dependencies at every depth. |
| `MerkleTree.IdsCanonicalIff` | lunatrace/bsl/backend/src/database/dependency-relationship-dag-calculator.ts:47-118 | Given no collision, equal ids and equality up to reordering coincide if and only if no two nodes with the same children have different fields that concatenate to the same text, and no node has fewer child ids than another and fields that begin with the missing ones. |
| `MerkleTree.PlainLabelsDoNotPose` | lunatrace/bsl/backend/src/database/dependency-relationship-dag-calculator.ts:50-58 | Fields that do not begin like an id never do the latter. |
| `MerkleTree.LabelsCanBeAmbiguous` | lunatrace/bsl/backend/src/database/dependency-relationship-dag-calculator.ts:50-58 | Two different packages that share an id under every hash. |
| `MerkleTree.LabelsCanPose` | lunatrace/bsl/backend/src/database/dependency-relationship-dag-calculator.ts:50-58 | Three packages with unambiguous fields, two of which share an id under every 128-bit hash because one name begins with a child id. |
| `Ordering.StringLeMeans` | lunatrace/bsl/backend/src/database/dependency-relationship-dag-calculator.ts:51 | The order in which child ids are sorted: a prefix first, otherwise by the first code unit that differs. |
| `DependencyStore.NoClashSeparates` | lunatrace/bsl/backend/src/database/dependency-relationship-dag-calculator.ts:47-73 | Ids that do not clash tell trees apart as far as the tables can: same row and same set of child ids. |
| `DependencyStore.StoredColumns` | lunatrace/bsl/backend/src/snapshot/node-package-tree.ts:219-283 | A tree is stored if and only if the row under its id has its name, its version and the range asked for, or the version where none was, and an edge leads from it to each of its dependencies. |
| `DependencyStore.MirrorUnique` | lunatrace/bsl/backend/src/snapshot/node-package-tree.ts:417-455 | The tables are determined by the set of trees they hold. |
| `DependencyStore.MirrorJoinsNodes` | lunatrace/bsl/backend/src/snapshot/node-package-tree.ts:432-455 | In tables that hold a downward closed set of trees every edge joins two stored nodes. |
| `DependencyStore.SameIdSameEdges` | lunatrace/bsl/backend/src/snapshot/node-package-tree.ts:434-442 | Two trees with one id contribute the same edges, so it does not matter which of them was kept. |
| `DependencyStore.StoredRootIsComplete` | lunatrace/bsl/backend/src/snapshot/node-package-tree.ts:356-360 | In a closed store, and with ids that tell trees apart, if the id of a tree is stored then so are the rows and edges of all its subtrees: skipping a known root loses nothing. |
| `DependencyStore.CollectCovers` | lunatrace/bsl/backend/src/snapshot/node-package-tree.ts:150-162 | The index of a tree files under every id that occurs in it a subtree with that id, and nothing else. |
| `DependencyStore.CollectAllCovers` | lunatrace/bsl/backend/src/snapshot/node-package-tree.ts:356-369 | So does the merged index of several trees, although later entries overwrite earlier ones. |
| `DependencyStore.CommitMirrors` | lunatrace/bsl/backend/src/snapshot/node-package-tree.ts:410-457 | Committing an index that covers the missing trees makes the tables hold the old and the new trees exactly. |
| `DependencyStore.SnapshotMirrors` | lunatrace/bsl/backend/src/snapshot/node-package-tree.ts:343-457 | The same for the plan of a snapshot, for any known roots and known ids that were read from the store at some earlier time. |
| `DependencyStore.SkippingInsertsTheSame` | lunatrace/bsl/backend/src/snapshot/node-package-tree.ts:343-457 | Skipping known roots and known ids leaves the same tables as inserting every node and edge of every submitted tree. |
| `DependencyStore.CommitKeepsClosed` | lunatrace/bsl/backend/src/snapshot/node-package-tree.ts:410-457 | Even where ids collide, a commit keeps the tables closed, as long as no planned tree has a child that is neither planned nor stored. |
| `DependencyStore.UnfoldGivesTree` | lunatrace/bsl/backend/src/snapshot/node-package-tree.ts:356-457 | Unfolding nodes and edges from the id of a stored tree gives that tree back, children as a set. |
| `DependencyGraph.GraphNode.LinkChildren` | lunatrace/bsl/backend/src/database/dependency-relationship-dag-calculator.ts:114-115 | Every child's parent is set to this node; no other link changes. |
| `DependencyGraph.BuildChildren` | lunatrace/bsl/backend/src/database/dependency-relationship-dag-calculator.ts:79-92 | One separate, fresh graph for each dependency, in order. |
| `DependencyGraph.DfsGenerateMerkleTreeFromDepTree` | lunatrace/bsl/backend/src/database/dependency-relationship-dag-calculator.ts:75-118 | The graph carries the tree's ids and ranges, no node is reached twice, each child's parent is the node that lists it, and the root has none. |
| `DependencyGraph.UniqueDependencyMap.RecursePackageGraph` | lunatrace/bsl/backend/src/snapshot/node-package-tree.ts:153-157 | Adds the index of the graph to the map, each node under its own id, later visits replacing earlier ones. |
| `DependencyGraph.PackageGraphToUniqueDependencyNodes` | lunatrace/bsl/backend/src/snapshot/node-package-tree.ts:150-162 | The map is the index of the tree and every entry is filed under its own id. |
| `DependencyGraph.UniqueNodesClosed` | lunatrace/bsl/backend/src/snapshot/node-package-tree.ts:150-162 | The keys of the map are exactly the ids reachable in the tree, and with an entry the ids of its children are keys too. |
| `SnapshotInsert.EdgeLeMeans` | lunatrace/bsl/backend/src/snapshot/node-package-tree.ts:56-74 | The comparator says that one edge is not after another exactly when parent, then child, are in order. |
| `SnapshotInsert.EdgeOrder` | lunatrace/bsl/backend/src/snapshot/node-package-tree.ts:56-74 | The comparator is a total order on edges. |
| `SnapshotInsert.BatchAlreadySorted` | lunatrace/bsl/backend/src/snapshot/node-package-tree.ts:279-280 | Sorting a batch of the globally sorted edges again changes nothing. |
| `SnapshotInsert.SliceExtends` | lunatrace/bsl/backend/src/snapshot/node-package-tree.ts:292-293 | Slices of 999 cut the list without gap or overlap. |
| `SnapshotInsert.AddRowsResult` | lunatrace/bsl/backend/src/snapshot/node-package-tree.ts:265-267 | With conflicts ignored the first row of an id stays, and every id of the batch has a row. |
| `SnapshotInsert.Database.SelectKnown` | lunatrace/bsl/backend/src/snapshot/node-package-tree.ts:343-346 | The query returns exactly the ids of the slice that have a node. |
| `SnapshotInsert.Database.InsertNodes` | lunatrace/bsl/backend/src/snapshot/node-package-tree.ts:219-268 | Adds the rows of a batch, name, version and range of the first node with an id each in its column; existing rows and all edges stay. |
| `SnapshotInsert.Database.InsertEdges` | lunatrace/bsl/backend/src/snapshot/node-package-tree.ts:270-283 | Adds the edges of a batch if all their ends are stored, and is rejected otherwise. |
| `SnapshotInsert.Database.InsertManifest` | lunatrace/bsl/backend/src/snapshot/node-package-tree.ts:476-507 | A manifest row goes in if its build has none for that path yet and the nodes it refers to are stored, and is an error otherwise. |
| `SnapshotInsert.FindCurrentlyKnownDependencies` | lunatrace/bsl/backend/src/snapshot/node-package-tree.ts:285-317 | The batch loop returns exactly the given ids that are stored. |
| `SnapshotInsert.InsertNodeBatches` | lunatrace/bsl/backend/src/snapshot/node-package-tree.ts:421-430 | After all batches every node is inserted, as if in one statement. |
| `SnapshotInsert.InsertEdgeBatches` | lunatrace/bsl/backend/src/snapshot/node-package-tree.ts:448-455 | After all batches every edge is inserted, and no batch is rejected when all ends are stored. |
| `SnapshotInsert.InsertTransaction` | lunatrace/bsl/backend/src/snapshot/node-package-tree.ts:410-457 | Nodes first, then edges: the transaction is one commit of the plan and violates no foreign key. |
| `SnapshotInsert.CandidatesClosed` | lunatrace/bsl/backend/src/snapshot/node-package-tree.ts:356-369 | A child of an index entry is itself in the index. |
| `SnapshotInsert.MergeGraph` | lunatrace/bsl/backend/src/snapshot/node-package-tree.ts:357-368 | Merging one package graph adds the indexes of exactly its unknown roots. |
| `SnapshotInsert.MergeUnknown` | lunatrace/bsl/backend/src/snapshot/node-package-tree.ts:354-369 | The merged map is the index of all submitted trees whose root is unknown. |
| `SnapshotInsert.InsertPackageGraphsIntoDatabase` | lunatrace/bsl/backend/src/snapshot/node-package-tree.ts:319-460 | Whichever early return is taken, the effect is one commit of the plan; no statement is rejected and no manifest row changes. |
| `SnapshotInsert.RootStored` | lunatrace/bsl/backend/src/snapshot/node-package-tree.ts:356-457 | Afterwards every submitted root is stored, even if ids collide. |
| `SnapshotInsert.SnapshotRefinesInsertAll` | lunatrace/bsl/backend/src/snapshot/node-package-tree.ts:319-460 | From a closed store the plan holds the old and the submitted trees exactly, equals inserting everything, and each submitted tree reads back. |
| `SnapshotInsert.SnapshotColumns` | lunatrace/bsl/backend/src/snapshot/node-package-tree.ts:219-283 | After a snapshot every package stored before or submitted, at any depth, has its name, version and range in the columns of its row and an edge to each dependency, and there are no other edges. |
| `MerkleReadBack.PosingChangesRow` | lunatrace/bsl/backend/src/snapshot/node-package-tree.ts:219-268 | A tree whose fields begin with the child ids of another never has the same row as the other. |
| `MerkleReadBack.ReadBackMeansDistinguishable` | lunatrace/bsl/backend/src/snapshot/node-package-tree.ts:356-457 | Whatever the tables hold: trees that all read back from them can be told apart by what is hashed. |
| `MerkleReadBack.MerkleSnapshotReadsBackIff` | lunatrace/bsl/backend/src/snapshot/node-package-tree.ts:319-460 | After a snapshot, given no collision, everything stored before and everything submitted reads back if and only if what is hashed tells these packages apart. |
| `MerkleReadBack.AmbiguousLabelsLoseATree` | lunatrace/bsl/backend/src/database/dependency-relationship-dag-calculator.ts:50-58 | Two packages of which at most one can ever be read back from any tables. |
| `SnapshotInsert.CollectPackageGraph` | lunatrace/bsl/backend/src/snapshot/node-package-tree.ts:88-146 | A lockfile gives its root, with the build id behind the version, and its direct dependencies, or nothing when it cannot be parsed. |
| `SnapshotInsert.BuildsKeepRootsApart` | lunatrace/bsl/backend/src/snapshot/node-package-tree.ts:117-120 | The roots of one lockfile in two builds have different versions. |
| `SnapshotInsert.CollectPackageGraphs` | lunatrace/bsl/backend/src/snapshot/node-package-tree.ts:87-147 | The submitted trees of all lockfiles, in order; each graph lists its own root. |
| `SnapshotInsert.InsertPackageManifestsIntoDatabase` | lunatrace/bsl/backend/src/snapshot/node-package-tree.ts:462-511 | The transaction goes through if and only if the build has no manifest for any of the paths yet and they differ; it then refers to each root and dependency, never to a missing node, and otherwise leaves nothing behind. |
| `SnapshotInsert.SnapshotPinnedDependencies` | lunatrace/bsl/backend/src/snapshot/node-package-tree.ts:513-526 | A whole snapshot: the tables get one commit of the plan in any case; it succeeds if and only if the build has no manifest for its lockfiles yet, and the manifests then refer to every submitted tree; they only ever refer to stored nodes. |
| `SnapshotInsert.SecondSnapshotRefused` | lunatrace/bsl/backend/src/snapshot/node-package-tree.ts:476-482 | After a snapshot with a lockfile the same build cannot be recorded again. |
| `SnapshotProtocol.PlanMirrors` | lunatrace/bsl/backend/src/snapshot/node-package-tree.ts:343-457 | A worker's plan, made from what it read at earlier moments, still completes the current tables. |
| `SnapshotProtocol.StoredTreesAfter` | lunatrace/bsl/backend/src/snapshot/node-package-tree.ts:343-457 | A step adds to the stored trees exactly those of a snapshot that it finishes. |
| `SnapshotProtocol.StepKeepsInv` | lunatrace/bsl/backend/src/snapshot/node-package-tree.ts:343-457 | Every step of every worker keeps the invariant: the tables hold exactly the trees stored so far. |
| `SnapshotProtocol.RunKeepsInv` | lunatrace/bsl/backend/src/snapshot/node-package-tree.ts:343-457 | The invariant holds in every state of every interleaved run. |
| `SnapshotProtocol.StepKeepsSafe` | lunatrace/bsl/backend/src/snapshot/node-package-tree.ts:343-457 | Every step keeps the tables closed, the manifests referring to stored nodes and what workers know stored, whatever ids trees have. |
| `SnapshotProtocol.ConcurrentClosure` | lunatrace/bsl/backend/src/snapshot/node-package-tree.ts:343-457 | In every reachable state, for any ids, colliding or not: each stored id is that of a tree whose row, child edges and children are stored, every edge joins stored nodes, every manifest refers to a stored node and the roots of every finished snapshot are stored. |
| `SnapshotProtocol.StartIsClosed` | lunatrace/bsl/backend/src/snapshot/node-package-tree.ts:343-457 | Tables that hold exactly a closed set of trees are such a starting point. |
| `SnapshotProtocol.FinishedReadsBack` | lunatrace/bsl/backend/src/snapshot/node-package-tree.ts:343-457 | From the moment a snapshot has finished, each of its trees reads back, whatever other workers do. |
| `SnapshotProtocol.InterleavingLeavesNoTrace` | lunatrace/bsl/backend/src/snapshot/node-package-tree.ts:343-457 | Runs that stored the same trees end with the same tables. |
| `SnapshotProtocol.StoreOnlyGrows` | lunatrace/bsl/backend/src/snapshot/node-package-tree.ts:410-457 | No row is ever changed or lost and no edge removed. |
| `Archive.JndiLookupIsClass` | lunatrace/cli/pkg/constants/vulnerablehashes.go:39 | The class to remove is scanned as a class and is never entered as an archive. |
| `Archive.JndiLookupElements` | lunatrace/cli/pkg/constants/vulnerablehashes.go:39 | The elements of its path. |
| `Archive.ClassNameIff` | lunatrace/cli/pkg/scan/scan.go:308-319 | A name is scanned as a class if and only if it ends in ".class", in any case. |
| `Archive.ArchiveNameIff` | lunatrace/cli/pkg/scan/scan.go:320-331 | A name is entered as an archive if and only if it ends in ".jar", ".war", ".zip" or ".ear", in any case. |
| `Archive.LowerCaseOf` | lunatrace/cli/pkg/util/fs.go:42-44 | A character becomes a given small letter if and only if it is that letter or its capital, apart from two characters beyond ASCII. |
| `Archive.NoExtBeforeSlash` | lunatrace/cli/pkg/util/fs.go:42-44 | A dot before the last slash starts no extension. |
| `Archive.RemovedAtPath` | lunatrace/cli/pkg/patch/archivepatch.go:257-333 | In the archive named by the nested path exactly the dropped members are gone, the rest in order. |
| `Archive.KeptElsewhere` | lunatrace/cli/pkg/patch/archivepatch.go:257-333 | Every other archive keeps its members in order with their content, except for the archives that enclose the patched one. |
| `Archive.RemoveCommutes` | lunatrace/cli/pkg/patch/command.go:47-78 | Two patches give the same result in either order, whatever archives they aim at. |
| `Archive.RemoveIdempotent` | lunatrace/cli/pkg/patch/command.go:47-78 | Patching an archive twice is patching it once. |
| `ArchiveScan.ScanArchiveForVulnerableFiles` | lunatrace/cli/pkg/scan/scan.go:260-296 | The loop over members, with its recursion, returns the findings of the archive tree in order. |
| `ArchiveScan.ScanFile` | lunatrace/cli/pkg/scan/scan.go:298-386 | A class is identified, an embedded archive is scanned under the path extended by its name, anything else is skipped. |
| `ArchiveScan.ScanUnder` | lunatrace/cli/pkg/scan/scan.go:355-386 | Every finding of a subtree is reported at a path that begins with the path of the subtree. |
| `ArchiveScan.FindingLeadsToArchive` | lunatrace/cli/pkg/scan/scanfile.go:77-164 | The nested path of a finding leads through archives to the one that holds the reported class, the reported hash is that of the file listed as the JndiLookup class in the same archive, and the path opens if and only if its steps are proper names. |
| `ArchiveScan.ReportedIsFound` | lunatrace/cli/pkg/scan/scan.go:260-386 | Whatever the scanner makes of a class in an archive to which archive names lead is among the findings: none is missed. |
| `ArchiveScan.ScanFindsExactly` | lunatrace/cli/pkg/scan/scan.go:260-386 | The findings of a scan are exactly those: a finding is reported if and only if archive names lead to an archive in which it is what the scanner makes of some class. |
| `ArchiveScan.NestedClassFound` | lunatrace/cli/pkg/scan/scan.go:320-386 | What the scanner makes of a class in an archive named with one of the four extensions is found by the scan of the archive around it. |
| `ArchiveScan.ReportedUnlessPatched` | lunatrace/cli/pkg/scan/scanfile.go:83-129 | A class is reported if and only if its hash is known and either some file is listed as the JndiLookup class beside it or none of the versions known for the hash is in the range. |
| `ArchiveScan.FindingExplained` | lunatrace/cli/pkg/scan/scanfile.go:101-160 | Every finding has the version and CVE of its hash and the score of that CVE. |
| `ZipNames.ProperIsListed` | lunatrace/cli/pkg/patch/archivepatch.go:129 | A proper name, a valid path without backslashes, is listed by the zip reader as it is. |
| `ZipNames.RootedName` | lunatrace/cli/pkg/patch/archivepatch.go:129 | A name that begins with "/" is listed without it and cannot be opened. |
| `ZipNames.AbsKeepsIff` | lunatrace/cli/pkg/scan/scanfile.go:142 | Making a path absolute leaves it as it is if and only if it is the root, or begins there and has no element that is empty, "." or "..". |
| `ZipNames.AbsOfRelative` | lunatrace/cli/pkg/scan/scanfile.go:142 | A relative path is one below the working directory. |
| `ZipNames.CleaningElements` | lunatrace/cli/pkg/patch/archivepatch.go:129 | Cleaning drops empty elements and ".", ".." takes back the element before it, and at the root it leads nowhere. |
| `ZipNames.BackslashedName` | lunatrace/cli/pkg/patch/archivepatch.go:129 | A proper name written with backslashes is listed with slashes. |
| `ZipNames.LeadingUpDropped` | lunatrace/cli/pkg/patch/archivepatch.go:129 | A leading "../" is not listed. |
| `ArchiveRescan.RescanHere` | lunatrace/cli/pkg/scan/scanfile.go:111-129 | Without the class, a scan of that archive loses the findings that are patchable or are the class itself and keeps the rest without a JndiLookup hash, unless another file is listed as the class. |
| `ArchiveRescan.ImpostorMeansNoTarget` | lunatrace/cli/pkg/patch/archivepatch.go:282 | An archive in which another file is listed as the class does not hold the class, so that a patch changes nothing there. |
| `ArchiveRescan.RescanAfterRemove` | lunatrace/cli/pkg/patch/archivepatch.go:209-333 | A rescan of the patched tree reports the findings of the scan before, settled at the patched archive and unchanged at every other, in the same order, unless another file is listed as the class there. |
| `ArchivePatch.OpenUnique` | lunatrace/cli/pkg/patch/archivepatch.go:123-148 | A file can be opened under its own name if and only if that name is proper. |
| `ArchivePatch.GetNestedZipReader` | lunatrace/cli/pkg/patch/archivepatch.go:123-148 | The members of the archive listed under the path, the same archive for an empty name, and an error for an invalid path, a missing file and anything that is not an archive. |
| `ArchivePatch.CopyAndFilterFilesFromZip` | lunatrace/cli/pkg/patch/archivepatch.go:257-333 | The copying loop, with its recursion, is exact removal at the nested path; it fails exactly when a step of the path is not an archive or does not open under its name. |
| `ArchivePatch.PromptKeeps` | lunatrace/cli/pkg/patch/archivepatch.go:282-302 | In the target archive a file with the class name stays if and only if its hash is not the reported one and the user asks to skip. |
| `PatchCommand.ProcessJavaArchive` | lunatrace/cli/pkg/patch/archivepatch.go:335-414 | The file is replaced by its filtered copy, the backup is the file as it was before, a dry run or a failure changes nothing. |
| `PatchCommand.AskIfShouldSkipPatch` | lunatrace/cli/pkg/patch/verifyaction.go:22-52 | The first reply among "y", "n" and "a" decides, whatever was typed before: "n" and the end of the input skip, "a" forces. |
| `PatchCommand.DecisionSays` | lunatrace/cli/pkg/patch/verifyaction.go:36-50 | What the specification takes from the replies is their first answer. |
| `PatchCommand.JavaArchivePatchCommand` | lunatrace/cli/pkg/patch/command.go:41-84 | The loop with its force and skip state leaves the files and the list of patched libraries of the round-by-round specification, and every archive well formed. |
| `PatchCommand.RemoveKeepsTidy` | lunatrace/cli/pkg/patch/archivepatch.go:257-333 | Removal keeps member names distinct and invents none. |
| `ForcedPatch.OrderAndRepetitionDoNotMatter` | lunatrace/cli/pkg/patch/command.go:47-78 | The outcome depends only on which archives are patched, not on their order nor on how often each is. |
| `ForcedPatch.StaysRipe` | lunatrace/cli/pkg/patch/archivepatch.go:282-302 | A patch elsewhere leaves a finding's path open and its class with the reported hash. |
| `ForcedPatch.RipeAfterAll` | lunatrace/cli/pkg/patch/archivepatch.go:282-302 | So do any number of patches. |
| `ForcedPatch.NoPrompt` | lunatrace/cli/pkg/patch/archivepatch.go:290-298 | As long as that holds the hash check passes and the mid-patch question is never asked. |
| `ForcedPatch.FindingIsRipe` | lunatrace/cli/pkg/patch/archivepatch.go:282-302 | At the time of the scan it holds for a finding if and only if the steps of its path are proper names. |
| `ForcedPatch.FindingPathSplits` | lunatrace/cli/pkg/scan/scan.go:381 | The steps of a finding's path contain no separator, if no member name does. |
| `ForcedPatch.PathNamesArchiveIff` | lunatrace/cli/pkg/scan/scanfile.go:142-151 | The reported path splits into the chain of archives if and only if there was nothing to clean in it. |
| `ForcedPatch.ProperIsClean` | lunatrace/cli/pkg/scan/scanfile.go:142-151 | Below a file with a clean name, a chain of proper names leaves nothing to clean. |
| `ForcedPatch.ScannedFindingForm` | lunatrace/cli/pkg/patch/archivepatch.go:341-343 | Where nothing is cleaned, splitting the path of a finding gives back the chain of archives that the scanner went through, and the finding is ripe for patching if and only if its path opens. |
| `ForcedPatch.PromptedRound` | lunatrace/cli/pkg/patch/command.go:52-77 | What an answer does to a round: "n" or none keeps everything, "y" makes it a forced round, "a" makes this and all later ones forced; a finding without a class is passed over. |
| `ForcedPatch.LoopPatchesAllowed` | lunatrace/cli/pkg/patch/command.go:41-84 | For every run over scanned findings with clean paths, forced or not: exactly the findings that open and that the answers allow are patched and listed; a dry run lists the same and changes no file. |
| `ForcedPatch.AnsweredYesIsPatched` | lunatrace/cli/pkg/patch/command.go:60-77 | A finding that opens and is answered "y" is listed, and its class is gone. |
| `ForcedPatch.AnsweredNoStays` | lunatrace/cli/pkg/patch/command.go:60-69 | A file stays as it is if no finding about it is answered "y" and none up to it "a". |
| `ForcedPatch.AnsweredAllForcesRest` | lunatrace/cli/pkg/patch/command.go:60-77 | From an answer "a" on the run is a forced run over the rest, whatever is answered later. |
| `ForcedPatch.ForcedLoopPatchesAll` | lunatrace/cli/pkg/patch/command.go:41-84 | A forced run over scanned findings, in any order and with paths that need no cleaning, patches exactly those whose paths open, hence all of them if and only if all open, and never depends on an answer. |
| `ForcedPatch.TakenOutEverywhere` | lunatrace/cli/pkg/patch/command.go:47-78 | After all patches the class is in none of the archives they aimed at. |
| `ForcedPatch.ReportedArchivesCleared` | lunatrace/cli/pkg/patch/command.go:41-84 | After the run the class is gone from every archive that a patched finding reported. |
| `ForcedRescan.RescanAfterAll` | lunatrace/cli/pkg/patch/command.go:47-78 | A rescan after all patches reports the findings before, settled at each patched archive in which no other file is listed as the class. |
| `ForcedRescan.RescanIsSettledIff` | lunatrace/cli/pkg/patch/command.go:41-84 | After a forced run over everything a scan of a file found, a rescan reports nothing that a patch would remove if and only if every finding was such before, or its path opens and no other file is listed as the class in its archive. |
| `ForcedRescan.ShutArchiveStays` | lunatrace/cli/pkg/patch/archivepatch.go:129 | A nested archive whose name begins with "/": two findings, none of which is patched. |
| `ForcedRescan.RootedClassIsImpostor` | lunatrace/cli/pkg/scan/scanfile.go:54 | A class whose name begins with "/" gives the reported hash, but is not the one the patcher removes. |
| `ForcedRescan.CleanedPathIsMissed` | lunatrace/cli/pkg/scan/scanfile.go:142-151 | A file with a nested `lib//b.jar`: the forced run lists both findings as patched and changes nothing. |
| `ForcedRescan.RemoveChangesNothingIff` | lunatrace/cli/pkg/patch/archivepatch.go:282-302 | A patch changes nothing if and only if the class is not in the archive. |
| `ForcedRescan.BackupIsOriginalIff` | lunatrace/cli/pkg/patch/archivepatch.go:386-401 | The backup that a forced run leaves beside a file is the original if and only if no earlier patch of the file in that run had a class to remove. |
| `ForcedRescan.TwoFindingsLoseTheOriginal` | lunatrace/cli/pkg/patch/archivepatch.go:386-401 | A file with two findings whose backup after the run is not the original. |
| `JsonTypes.Resolve` | lunatrace/bsl/backend/src/types/grype-cvss.ts:139-141 | Following references ends, at a type that is no reference and has no more references ahead of it than the name had. |
| `JsonTypes.TableEntry` | lunatrace/bsl/backend/src/types/grype-cvss.ts:57-64 | An entry of the property table comes from a declared property of that name. |
| `JsonTypes.TableHas` | lunatrace/bsl/backend/src/types/grype-cvss.ts:57-73 | Every declared property has an entry. |
| `JsonTransform.TransformAcceptsExactly` | lunatrace/bsl/backend/src/types/grype-cvss.ts:75-155 | The transformer succeeds exactly on the values that conform to the type, for unions whichever member they conform to. |
| `JsonTransform.PrimitiveAccepts` | lunatrace/bsl/backend/src/types/grype-cvss.ts:76-79 | The primitive types accept numbers, strings, booleans, undefined, and as objects null, arrays, objects and dates, and return the value. |
| `JsonTransform.ScalarAccepts` | lunatrace/bsl/backend/src/types/grype-cvss.ts:93-153 | What the other types without parts accept and return. |
| `JsonTransform.ObjectsAccepted` | lunatrace/bsl/backend/src/types/grype-cvss.ts:115-131 | An object type takes objects, and dates as objects without properties. |
| `JsonTransform.NamedSpecials` | lunatrace/bsl/backend/src/types/grype-cvss.ts:133-142 | A name for any, null or false is taken as the sample value, and a missing name as undefined. |
| `JsonTransform.FollowReferences` | lunatrace/bsl/backend/src/types/grype-cvss.ts:139-141 | The loop that reassigns the type ends with the resolved type. |
| `JsonTransform.RunTransform` | lunatrace/bsl/backend/src/types/grype-cvss.ts:75-155 | The recursive procedure computes the specified result, and terminates although types may be recursive. |
| `JsonTransform.RunTransformUnion` | lunatrace/bsl/backend/src/types/grype-cvss.ts:81-91 | The loop that swallows failures returns the result of the first member that accepts the value. |
| `JsonTransform.RunTransformArray` | lunatrace/bsl/backend/src/types/grype-cvss.ts:98-102 | Every element is transformed, in order; one failure fails the array. |
| `JsonTransform.RunTransformObject` | lunatrace/bsl/backend/src/types/grype-cvss.ts:115-131 | Filling the result key by key gives the renamed declared properties overlaid with the others. |
| `JsonTransform.FillDeclared` | lunatrace/bsl/backend/src/types/grype-cvss.ts:120-124 | The first loop: each declared property under its new name, a missing one as undefined. |
| `JsonTransform.FillOthers` | lunatrace/bsl/backend/src/types/grype-cvss.ts:125-129 | The second loop: all other own properties under their own names. |
| `JsonRoundTrip.DirectionsAgree` | lunatrace/bsl/backend/src/types/grype-cvss.ts:57-73 | For a type that keeps every name, casting and uncasting are the same function. |
| `JsonRoundTrip.ConformsUnfilled` | lunatrace/bsl/backend/src/types/grype-cvss.ts:115-131 | A value that lacks only undefined properties has every type that its completion has. |
| `JsonRoundTrip.TransformedAgain` | lunatrace/bsl/backend/src/types/grype-cvss.ts:81-131 | For such a type the result is the value completed by undefined properties, and transforming it again changes nothing, also through unions that take the first match. |
| `JsonRoundTrip.UncastUndoesCast` | lunatrace/bsl/backend/src/types/grype-cvss.ts:157-163 | For a reversible type, uncasting a successful cast succeeds and returns the value, completed by undefined properties. |
| `JsonRoundTrip.RoundTripOfJson` | lunatrace/bsl/backend/src/types/grype-cvss.ts:157-163 | For values from JSON.parse the original is then what JSON.stringify shows. |
| `JsonRoundTrip.GrypeCvssRoundTrip` | lunatrace/bsl/backend/src/types/grype-cvss.ts:38-48 | Every JSON value that toGrypeCvss accepts is what grypeCvssToJson writes back. |
| `JsonRoundTrip.GrypeCvssAccepts` | lunatrace/bsl/backend/src/types/grype-cvss.ts:185-203 | toGrypeCvss accepts exactly the lists of objects with metrics of exactly three numeric scores, a string vector, a string version and at most vendor metadata besides. |
| `JsonUnions.PlainTransform` | lunatrace/bsl/backend/src/types/grype-cvss.ts:115-131 | An object type that restricts no property accepts exactly the objects without other names, and renames each property. |
| `JsonUnions.CastRenames` | lunatrace/bsl/backend/src/types/grype-cvss.ts:157-163 | Casting gives a JSON property its JavaScript name, uncasting gives the JSON name back. |
| `JsonUnions.UnionComesBackIff` | lunatrace/bsl/backend/src/types/grype-cvss.ts:81-91 | Through a union of such object types every JSON value it accepts comes back if and only if each member that some object fits first is mapped back, name by name, by the first member that has all its JavaScript names. |
| `JsonUnions.RenamingUnderUnionFails` | lunatrace/bsl/backend/src/types/grype-cvss.ts:81-91 | Two object types in one union, and a value that fits the second only and comes back under the name of the first. |
| `JsonRoundTrip.ComesBackIffDistinct` | lunatrace/bsl/backend/src/types/grype-cvss.ts:57-73 | An object type that restricts no property returns every JSON object it accepts if and only if its JavaScript names are distinct. |
| `JsonRoundTrip.SharedJsNameLoses` | lunatrace/bsl/backend/src/types/grype-cvss.ts:66-73 | With two properties of one JavaScript name, an object that has both does not come back. |
| `PackageGrouping.VulnerablePackage.constructor` | lunatrace/bsl/common/src/group-vulnerabilities-by-package.ts:36-53 | A new package describes its finding, takes over its arrays of locations and versions, and has guide and finding arrays of its own. |
| `PackageGrouping.VulnerablePackage.MergeExistingFinding` | lunatrace/bsl/common/src/group-vulnerabilities-by-package.ts:55-90 | Merging changes the package to the merged data; it writes only to what the package owns, and replaces a shared array instead of extending it. |
| `PackageGrouping.WithMissing` | lunatrace/bsl/common/src/group-vulnerabilities-by-package.ts:63-68 | Either the same array or a new one, holding the old elements and then those that were missing. |
| `PackageGrouping.PushMissing` | lunatrace/bsl/common/src/group-vulnerabilities-by-package.ts:81-88 | Pushes the guides whose id is not there yet, in order. |
| `PackageGrouping.AddMissing` | lunatrace/bsl/common/src/group-vulnerabilities-by-package.ts:63-68 | An element is in the result exactly when it was in either list. |
| `PackageGrouping.SortSameOrder` | lunatrace/bsl/common/src/group-vulnerabilities-by-package.ts:24 | Sorting the references by severity sorts what they refer to. |
| `PackageGrouping.MergeOne` | lunatrace/bsl/common/src/group-vulnerabilities-by-package.ts:31 | Merging into one package leaves the data of every other package and of every input finding unchanged. |
| `PackageGrouping.GroupByPackage` | lunatrace/bsl/common/src/group-vulnerabilities-by-package.ts:20-34 | The result is the specified list of packages, made of fresh objects that share nothing they write to; no input array is changed. |
| `GroupingProperties.FoldedFindings` | lunatrace/bsl/common/src/group-vulnerabilities-by-package.ts:56-61 | A package lists one finding for each vulnerability of its findings: the first. |
| `GroupingProperties.FoldedFix` | lunatrace/bsl/common/src/group-vulnerabilities-by-package.ts:69-80 | A package is fixed if and only if one of its findings is; its fix versions are those of the first finding and of every fixed one. |
| `GroupingProperties.FoldedLists` | lunatrace/bsl/common/src/group-vulnerabilities-by-package.ts:63-89 | Its locations are the union of its findings' locations, and its guide ids the union of their guides'. |
| `GroupingProperties.FoldedHead` | lunatrace/bsl/common/src/group-vulnerabilities-by-package.ts:36-53 | Everything else is taken from the first finding. |
| `GroupingProperties.StepsFold` | lunatrace/bsl/common/src/group-vulnerabilities-by-package.ts:25-33 | There is one package for each purl, and it is the fold of that purl's findings alone, whatever stood between them. |
| `GroupingProperties.SortedLeader` | lunatrace/bsl/common/src/group-vulnerabilities-by-package.ts:16-24 | The first finding of a purl after sorting is the most severe one, the earliest of several. |
| `GroupingProperties.StepsDescend` | lunatrace/bsl/common/src/group-vulnerabilities-by-package.ts:25-34 | Packages come out in descending severity. |
| `GroupingProperties.GroupingByPurl` | lunatrace/bsl/common/src/group-vulnerabilities-by-package.ts:20-34 | For all inputs: one package for every purl that occurs, in descending severity, each with the maximum severity of its group, distinct vulnerabilities covering the group's, the union of its locations and guides, and fixed exactly when a member is. |
| `GroupingProperties.SeveritiesCompared` | lunatrace/bsl/common/src/types.ts:14 | Critical, high, medium, low, negligible, unknown, then any other name. |
| `GroupingProperties.SeverityByName` | lunatrace/bsl/common/src/group-vulnerabilities-by-package.ts:16-34 | A package is critical if and only if one of its findings is, high if and only if one is high and none critical, and so on down to unknown. |
| `GroupingProperties.MostSevereFirst` | lunatrace/bsl/common/src/group-vulnerabilities-by-package.ts:16-34 | No package stands after a less severe one, told by the names of the severities. |
| `GroupingProperties.FixedByName` | lunatrace/bsl/common/src/group-vulnerabilities-by-package.ts:69-71 | A package is fixed if and only if a finding of its purl says "fixed"; an empty state becomes none. |
| `GroupingProperties.ListedById` | lunatrace/bsl/common/src/group-vulnerabilities-by-package.ts:55-90 | A package lists a guide if and only if one of its findings does, and lists each vulnerability of its findings, told by their ids. |
| `MatchDedupe.DedupedKeepsFirst` | lunatrace/bsl/backend/src/analysis/scan.ts:165-173 | Reducing keeps, for every slug, the first finding with it and no other. |
| `MatchDedupe.FindingOfMatch` | lunatrace/bsl/backend/src/analysis/scan.ts:126-159 | Where each field of an inserted finding comes from, with the values that stand in for missing ones. |
| `MatchDedupe.EachSlugOnce` | lunatrace/bsl/backend/src/analysis/scan.ts:162-187 | The inserted findings have pairwise different slugs, every match's slug is present, and each is what the first match with its slug becomes. |
| `MatchDedupe.LocationOrderIrrelevant` | lunatrace/bsl/backend/src/analysis/scan.ts:154 | Reordering a match's locations does not change its slug. |
| `MatchDedupe.VulnerabilitiesShareSlugIff` | lunatrace/bsl/backend/src/analysis/scan.ts:136-154 | Matches of different vulnerabilities share a slug if and only if one id is the other one, a colon, and the beginning of what follows that id. |
| `MatchDedupe.PlainIdsKeepApart` | lunatrace/bsl/backend/src/analysis/scan.ts:136-154 | Without a colon in the ids they never do. |
| `MatchDedupe.PackagesShareSlugIff` | lunatrace/bsl/backend/src/analysis/scan.ts:136-154 | Matches of one vulnerability and namespace share a slug if and only if package name and sorted locations, run together, are the same text. |
| `MatchDedupe.NamespacesShareSlugIff` | lunatrace/bsl/backend/src/analysis/scan.ts:136-154 | Matches of one vulnerability in different namespaces share a slug if and only if one namespace is the other one, a colon, and the beginning of the package text that follows it. |
| `MatchDedupe.NameRunsIntoLocation` | lunatrace/bsl/backend/src/analysis/scan.ts:154 | Two packages of which only the first is inserted. |
| `ArrayLiteral.CleanElement` | lunatrace/bsl/backend/src/analysis/scan.ts:118-120 | A quoted element without backslashes reads back as itself. |
| `ArrayLiteral.DirtyElement` | lunatrace/bsl/backend/src/analysis/scan.ts:118-120 | A quoted element with a backslash never reads back as itself, whatever follows it. |
| `ArrayLiteral.LiteralReadsBackIff` | lunatrace/bsl/backend/src/analysis/scan.ts:122-124 | The literal reads back as the list if and only if no element contains a backslash. |
| `ArrayLiteral.OneBackslashIsRefused` | lunatrace/bsl/backend/src/analysis/scan.ts:118-124 | The literal of the list of one backslash is not a literal at all: the closing quote is escaped. |
| `VersionHashes.LoadVersionHashes` | lunatrace/cli/pkg/scan/loadversions.go:57-105 | The loop computes the table, and stops on the first conflict of CVEs. |
| `VersionHashes.LoadsIffOneCve` | lunatrace/cli/pkg/scan/loadversions.go:64-74 | Loading succeeds if and only if no hash carries two CVEs; the table then has exactly the hashes supplied, each with its CVE. |
| `VersionHashes.FirstSeenSet` | lunatrace/cli/pkg/scan/loadversions.go:38-45 | The list of versions in first-seen order has the same elements, without repetition. |
| `VersionHashes.StoredIsJoined` | lunatrace/cli/pkg/scan/loadversions.go:76-81 | The stored string is that list joined, as long as no version contains the separator. |
| `VersionHashes.StoredVersionsReadBackIff` | lunatrace/cli/pkg/scan/scanfile.go:108-109 | Splitting the stored string gives exactly the list if and only if no version contains the separator. |
| `VersionHashes.VersionWithSeparatorSplits` | lunatrace/cli/pkg/scan/loadversions.go:38-45 | One library with version "1, 2" reads back as two versions. |
| `VersionHashes.EntryNamesLast` | lunatrace/cli/pkg/scan/loadversions.go:86-94 | The entry of a hash is named after the path and file name of the last library with it. |
| `LibraryVersion.ArchiveNameToSemverVersion` | lunatrace/cli/pkg/analyze/libraryversion.go:56-93 | The last part that starts with 1 or 2 and has a dot, adjusted and followed by the tag of the parts to its right, or the empty string if there is none. |
| `LibraryVersion.VersionKeepsRestIff` | lunatrace/cli/pkg/analyze/libraryversion.go:56-93 | The version returned is the version part followed by the rest of the file name as written if and only if the version part is the last part or the last part is not empty. |
| `LibraryVersion.LastHyphenLost` | lunatrace/cli/pkg/analyze/libraryversion.go:56-93 | A file name whose last hyphen is missing in the version returned. |
| `LibraryVersion.LettersTakenOut` | lunatrace/cli/pkg/analyze/libraryversion.go:67-75 | Pulling out the letters removes the first run of them where it stands. |
| `LibraryVersion.VersionPartIff` | lunatrace/cli/pkg/analyze/libraryversion.go:63-65 | A part is taken for the version if and only if it begins with 1 or 2 and has a dot. |
| `LibraryVersion.NumberReadsBack` | lunatrace/cli/pkg/analyze/libraryversion.go:56-93 | A jar named with a hyphen and a number of digits and dots reads back as that number, with a patch number when it has none. |
| `LibraryVersion.LettersGoBehind` | lunatrace/cli/pkg/analyze/libraryversion.go:67-87 | In a part such as 2.0beta9 the letters go behind a hyphen after the number. |
| `LibraryVersion.BranchesUnreachable` | lunatrace/cli/pkg/analyze/libraryversion.go:43-77 | For every part of every file name the adjustment only ever appends a missing patch number; the branches for "2.0-" and "1.0-" are never taken. |
| `Tokenizer.HexRoundTrip` | lunadefend/go/service/tokenizer.go:98 | Decoding undoes hexadecimal encoding. |
| `Tokenizer.GenerateSaltsAndKey` | lunadefend/go/util/crypto.go:88-112 | Three draws in sequence from the seeded generator: a function of token and secret, so every call gives the same salts and key. |
| `Tokenizer.DecryptUndoesEncrypt` | lunadefend/go/util/crypto.go:40-69 | Splitting off the nonce that encryption put in front and opening with it returns the text. |
| `Tokenizer.KtIsAKey` | lunadefend/go/util/crypto.go:129-143 | The key drawn for a token is one that the cipher takes. |
| `Tokenizer.KeysFromDraws` | lunadefend/go/service/tokenizer.go:86-97 | The object is named with the first 32 bytes drawn, the kept key looked up with the next 32, and the last 32 encrypt it. |
| `Tokenizer.KeptIsSealed` | lunadefend/go/service/tokenizer.go:91-98 | What is kept is the hexadecimal of the nonce and of the key sealed with the last 32 bytes drawn. |
| `Tokenizer.HexIsLowerCase` | lunadefend/go/util/crypto.go:89-97 | Hexadecimal is written in lower case. |
| `Tokenizer.SeedIsInt64` | lunadefend/go/util/crypto.go:100-104 | The seed is the int64 that the eight bytes spell, the most significant first. |
| `Tokenizer.SameSeedIff` | lunadefend/go/util/crypto.go:99-112 | Two tokens seed the generator alike if and only if eight bytes, the first of token and secret and the hash of both, are the same; they then have the same salts and key. |
| `Tokenizer.GeneratedTokensShareSalts` | lunadefend/go/util/crypto.go:84-112 | Any two tokens that begin with the eight characters of the prefix have the same salts and key, even under different secrets. |
| `Tokenizer.TokenizerService.TokenizerSet` | lunadefend/go/service/tokenizer.go:77-110 | On success the encrypted key is kept under the token's lookup hash and the grant names object and key; exactly one counter is bumped. |
| `Tokenizer.TokenizerService.TokenizerGet` | lunadefend/go/service/tokenizer.go:113-152 | The grant is what a lookup in the store finds, the store is unchanged, and exactly one counter is bumped. |
| `Tokenizer.KeptSinceMinted` | lunadefend/go/service/tokenizer.go:100-102 | What was kept for a token stays in the store through all later calls. |
| `Tokenizer.MintedTokenYieldsItsKey` | lunadefend/go/service/tokenizer.go:77-152 | After any sequence of calls, a minted token whose lookup hash is its own yields the same object key and the same encryption key. |
| `Tokenizer.UnknownTokenYieldsNothing` | lunadefend/go/service/tokenizer.go:128-130 | A token under whose lookup hash nothing was kept yields nothing. |
| `Grants.GrantService.GetGrantDuration` | lunadefend/go/service/grants.go:94-112 | The default duration or the requested one, if it parses and is at most the maximum, added to now and cut to the second. |
| `Grants.GrantService.SetTokenGrantForSession` | lunadefend/go/service/grants.go:114-146 | Writes the expiry under the key on success and nothing otherwise; both counters as the code counts them. |
| `Grants.GrantService.ValidTokenGrantExistsForSession` | lunadefend/go/service/grants.go:148-186 | True exactly when an expiry is stored and not passed. |
| `Grants.LatestDecides` | lunadefend/go/service/grants.go:114-146 | Over any run the store holds for a key the expiry of its latest grant. |
| `Grants.StoredIffGranted` | lunadefend/go/service/grants.go:114-146 | A key is in the store if and only if something was granted under it. |
| `Grants.ValidExactly` | lunadefend/go/service/grants.go:148-186 | Verification answers true if and only if the key was granted and now is at most the end of its latest grant, rounded down to the second. |
| `Grants.GrantTiming` | lunadefend/go/service/grants.go:94-186 | A grant never outlives its duration and loses less than a second of it; a requested duration never exceeds the maximum. |
| `Grants.ExpiredStaysExpired` | lunadefend/go/service/grants.go:178-183 | With a clock that does not run backwards, an expired grant stays expired until it is granted again. |
| `Grants.SharedKeyIff` | lunadefend/go/service/grants.go:90-92 | Given no collision, two pairs of session and token share a grant if and only if one session is the other one continued by what the other token begins with. |
| `Grants.SessionRunsIntoToken` | lunadefend/go/service/grants.go:90-92 | Two such pairs. |
| `Grants.TokensOfOneLength` | lunadefend/go/service/grants.go:90-92 | With tokens of one length a grant belongs to one session and one token. |
| `Grants.ValidExactlyForSession` | lunadefend/go/service/grants.go:114-186 | Verification then answers true if and only if this session was granted this token and now is at most the end of the latest such grant, rounded down to the second. |
| `Metrics.CloudwatchGateway.Metric` | lunadefend/go/gateway/metrics/cloudwatch.go:78-85 | Adds to the cached amount of one name in int64 arithmetic; every other name stays. |
| `Metrics.CloudwatchGateway.CloneMetricsCache` | lunadefend/go/gateway/metrics/cloudwatch.go:87-100 | Hands out the cache and leaves an empty one. |
| `Metrics.CloudwatchGateway.PushMetrics` | lunadefend/go/gateway/metrics/cloudwatch.go:120-162 | Every cached name goes out in exactly one batch with its amount; all batches but the last hold 20, the last fewer; an empty cache pushes nothing. |
| `Metrics.TotalOfListed` | lunadefend/go/gateway/metrics/cloudwatch.go:137-156 | Batches that list a cache carry its amount under each name. |
| `Metrics.StepAccounts` | lunadefend/go/gateway/metrics/cloudwatch.go:78-162 | Only recording changes what is accounted for under a name, and only under its own. |
| `Metrics.CachedIsWrapped` | lunadefend/go/gateway/metrics/cloudwatch.go:78-100 | In every interleaving the cached amount is the sum recorded since the last clone, wrapped once to int64. |
| `Metrics.WrapEnds` | lunadefend/go/gateway/metrics/cloudwatch.go:82 | int64 keeps exactly the numbers in its range, and the two ends meet. |
| `Metrics.Conservation` | lunadefend/go/gateway/metrics/cloudwatch.go:78-162 | Under any interleaving of recordings, length checks, clones and pushes: recorded is delivered plus in flight plus cached, plus 2^64 for each carry of a sum recorded between two clones. |
| `Metrics.ConservedIff` | lunadefend/go/gateway/metrics/cloudwatch.go:78-162 | Nothing is lost or counted twice if and only if the carries of the sums recorded between two clones add up to nothing. |
| `Metrics.SumsInRangeCarryNothing` | lunadefend/go/gateway/metrics/cloudwatch.go:82 | They do if each of these sums is an int64, whatever the sums on the way to it are. |
| `Metrics.TwoRecordingsWrap` | lunadefend/go/gateway/metrics/cloudwatch.go:82 | A run of two recordings after which the cached amount is negative. |

## Left out

- The database: package and release ids, labels, `isTopLevel` and `mirroredBlobUrl` in the node insert, row order of the nodes (their sort compares objects), and deadlocks. Node rows hold name, version and range.
- Labels never reach the hash in this caller and are not part of it here; whether `hasDevDependencies` or names in the manifests are right is not modelled.
- A transaction of the snapshot protocol is one step: races between statements of two open transactions are not modelled, only the reads outside them.
- The zip byte format: an archive is what a reader makes of it. Member names are taken to be not empty (on an empty one the patcher recurses into the same archive), directories to be empty with names that end in "/", and the names under which the reader lists members to be distinct and none of them a directory of another: which of several it opens differs between versions of Go.
- Member and file names are taken not to contain "::" or to end so that one arises at a join; symbolic links and directory walking are left out, and so are jars with a leading shell script. Paths are those of Unix, the file to scan is named from the root, and the working directory is always known.
- ForcedPatch.ForcedLoopPatchesAll: says nothing of findings whose joined path is not clean, because the cleaned path may name any other file or archive; the results of ForcedRescan that build on it neither.
- ForcedPatch.LoopPatchesAllowed: the same, with AnsweredYesIsPatched and AnsweredNoStays.
- JsonUnions.UnionComesBackIff: covers closed object types whose properties are unrestricted, because for other types what comes back depends on which values the property types share and not on names alone; JsonRoundTrip.RoundTripOfJson covers reversible types of every kind in one direction.
- JsonRoundTrip.ComesBackIffDistinct: covers object types whose properties are unrestricted, because a property type that no value has makes any names harmless.
- The scan of archives over 1 GiB through a temporary directory, whose paths are not nested paths, and the mode that scans archives only.
- The table of known file hashes inside each known class, which only decides a warning and whose first and later entries use different keys.
- Temporary files, copying errors and failing deletes of the patch command; a patch succeeds or leaves every file as it was.
- Object keys named `__proto__`, the key order of result objects, the memoised tables on type objects and the texts of errors in the JSON transformer; Date values in its round trip (a Date comes back as a Date, not as the string it was made from).
- References that lead back to themselves through references and unions alone: the transformer never finishes on them.
- In grouping, purls that are integers (their packages come first) or names of `Object.prototype` properties, and the identity of finding objects that share all their fields.
- A match without details, the process that runs the scanner, and the conflict clause of the insert. In array literals, unquoted elements, nested arrays and white space other than spaces.
- Strings are sequences of characters: byte lengths and surrogate pairs are not told apart.
- Real hashes, ciphers, random numbers, semantic versions, durations and dates; clocks that overflow; the kind of presigned URL that the tokenizer returns; rounding of metric values to float64.
- Session state tokens, cloud plumbing, queues, the frontend and the command line: no deep property.
