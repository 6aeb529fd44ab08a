# A verified model of kutu's hardest parts

This Dafny 4.11 project models five components of kutu, a Go server for
package registries and configuration, and proves what they promise:

| component | modules |
|---|---|
| the local APT repository: pool, indexes, generated trees, and the deb822 text under them | `Deb822`, `AptControl`, `AptEntries`, `AptUploads`, `AptRelease`, `AptRepo`, `AptTree`, `AptPublished`, `AptLocal`, `AptClient` |
| the content-addressed blob store and its upload sessions | `Digests`, `BlobModel`, `BlobRefinement`, `BlobStores` |
| authorisation: token scopes, permission bundles, path capabilities | `Glob`, `TokenScopes`, `Capabilities`, `Permissions` |
| TOTP replay guard, recovery codes, step-up sessions | `Totp` |
| the Cargo index and JSON Pointer selectors | `Versions`, `CargoPaths`, `Cargo`, `JsonPointer` |

`Strings` and `Sorting` hold what the code takes from Go's `strings`, `strconv`
and `sort` packages. `dafny verify dfyconfig.toml` checks everything.

## How it is built

Code that computes is modelled by functions. Code that changes state is modelled
by classes and methods with loops (`AptLocal.Local`, `BlobStores.LocalSession`,
`Totp.TotpService`, `Cargo.Store`, ...); each method is proved equal to a
function of the old state, and the theorems are about these functions, over
single calls, over runs of any length, and over interleavings of sessions.
What such a function decides - which rows are listed, deleted or flagged, when a
commit or a login succeeds, how versions compare - is stated a second time
without it, by a lemma that characterises it on all inputs.

Hashes, compression, signatures, bcrypt, the per-segment glob match and the TOTP
library are uninterpreted functions handed in as parameters. Clock readings and
random draws are parameters too; where the code reads the clock twice, the model
has two readings. Strings and byte slices are sequences of characters, one a
byte; case folding and white space are ASCII.

The state of an APT repository is one map from paths to bytes and one map from
(distribution, component) to rows. `AptRepo` proves the consistency of the
layers for any order of rows, any description of bytes and any generated tree
that satisfy `Layout.Good`; `AptPublished.RealLayoutGood` shows that the real
ones do, and `AptLocal` shows that the step-by-step code computes exactly what
`AptRepo` reasons about.

## What the code does differently from what is written about it

The model follows the code. For each difference there is an exact condition.

- Deleting a Cargo version cleans the paths it builds from the name it is given
  (internal/registry/cargo/cargo.go:112-119 and 329-361), and the routes that
  delete ask only that the name is not empty
  (internal/server/api/registry.go:1336-1362 and 1492). A name such as `serde/`
  leads to the index file of `serde` but to another crate file: the row goes, the
  crate stays. `Cargo.DeletionExact` gives the condition for every name and
  version, `Cargo.AgreementOverRuns` for every run, `Cargo.TrailingSlashDeletion`
  the family, `Cargo.SerdeSlash` the run; `Cargo.PlainRunsAgree` and
  `Cargo.CheckedRunsAgree` show that names without "/" and ".", valid names among
  them, never do this.
- A token scope `"*"` is documented to match exactly one segment
  (internal/service/token.go:295-299); as a whole pattern it is accepted for
  every path (token.go:301). `TokenScopes.LoneStarOverreaches`: the answer is the
  documented one for everything except a lone `"*"` on a path of several segments,
  as in `TokenScopes.LoneStarExample`.
- Merging bundles is documented to collect the patterns of the bundles that
  grant a key (internal/service/permission.go:366-378); the code also takes those
  of bundles that carry patterns for a key they do not grant
  (permission.go:405-426). `Permissions.MergeIsDisjunctionExact` gives the
  condition path by path, `Permissions.StrayPatternsExact` for the patterns,
  `Permissions.UngrantedPatternsWiden` the family of inputs that get access no
  bundle grants, `Permissions.StrayPatternExample` one of them.
- A TOTP code can be accepted twice: validation and the replay guard read the
  clock separately (internal/service/totp.go:411 and 461), so a second attempt
  that is validated just before the window closes and marked just after it finds
  the entry expired. `Totp.SecondUseExact` and `Totp.SecondUseStraddlesWindow`
  give the condition, `Totp.CodeAcceptedTwice` a run, and `Totp.SingleUse` shows
  that one reading a login rules it out.
- At the exact moment of expiry the sweep drops a step-up session that
  `ConsumePending` would still accept (totp.go:502 and 608):
  `Totp.PendingSweepExact`.
- A commit with an unknown algorithm returns before the seek pointer is restored
  (internal/registry/blobstore/localblob.go:261-267):
  `BlobRefinement.UnknownAlgorithmExact`, `BlobRefinement.WriteAfterUnknownAlgorithm`.
- A control line of the greatest length the scanner takes, without a space behind
  its colon, prints one character too long to be read back
  (internal/registry/apt/deb.go:67-85): `Deb822.LongestLineLost`, and
  `Deb822.RoundTripExact` for all inputs.
- A version such as `1:` is valid but leaves a pool file name that does not parse
  (deb.go:254-285): `AptControl.PoolPathParses`, `AptControl.EpochOnlyVersion`.
- Array elements are also reached by selectors such as `+1` and `01`, which
  section 4 of RFC 6901 excludes (internal/secretref/secretref.go:118-124):
  `JsonPointer.ArrayIndexExact`, `JsonPointer.LiberalIndices`.
- A component name has no greatest length (internal/registry/apt/deb.go:28), so the
  file names of its packages can be longer than a line the reader takes
  (deb.go:81-85): `AptPublished.PackagesPublished` holds the exact condition.

## Model

| member | source | states |
|---|---|---|
| `AptLocal.Local.Upload` | internal/registry/apt/apt.go:819-842 | whatever control file is uploaded: a bad target or control changes nothing, and otherwise files and indexes become exactly what the upload's specification says, all layers consistent |
| `AptLocal.Local.AddDeb` | internal/registry/apt/apt.go:625-670 | from a consistent repository the step-by-step upload reaches exactly `AddState` and stays consistent |
| `AptLocal.Local.Record` | internal/registry/apt/apt.go:633-668 | the loop over all indexes finds exactly the affected distributions, and leaves exactly the specified rows in every index |
| `AptLocal.ReplaceInPlace` | internal/registry/apt/apt.go:643-655 | rows of the file are overwritten where they are, the publishing time kept in every index but the target; the flag says whether any was |
| `AptLocal.Local.RemoveWhere` | internal/registry/apt/apt.go:674-709 | the step-by-step removal reaches exactly `RemoveState`, stays consistent, and returns exactly the stored rows that match |
| `AptLocal.Local.Drop` | internal/registry/apt/apt.go:681-707 | matching rows leave every index, pool files without a row go, and the affected distributions are exactly those of indexes that lost rows |
| `Sorting.KeepInPlace` | internal/registry/apt/apt.go:684-693 | filtering into the front of the array being read loses nothing: the kept rows in order, the matching rows in order, and what the kept rows refer to; used for the Cargo index too |
| `AptLocal.Local.DeleteVersion` | internal/registry/apt/apt.go:572-584 | of every index exactly the rows go whose package is the name and whose version is the one asked for or that one behind an epoch, the others stay in order; found exactly when there was such a row; no pool file that stays changes |
| `AptLocal.IsVersionExact` | internal/registry/apt/apt.go:573-575 | the rows a deletion matches, without naming how the epoch is cut off |
| `AptLocal.VersionDeleted` | internal/registry/apt/apt.go:572-584 | the same of the states themselves |
| `AptLocal.Local.Regenerate` | internal/registry/apt/apt.go:277-355 | writing, signing and the final walk leave exactly the generated tree below the distribution and every other file as it was |
| `AptLocal.Local.Generate` | internal/registry/apt/apt.go:310-331 | from the components with rows alone come all generated files, and the Release that lists them |
| `AptLocal.Local.Sweep` | internal/registry/apt/apt.go:350-355 | the walk deletes exactly the files below the distribution that are not kept |
| `AptLocal.SweptExact` | internal/registry/apt/apt.go:321-355 | what the walk keeps is exactly what was just written |
| `AptLocal.Local.RegenerateAll` | internal/registry/apt/apt.go:711-719 | regenerating a list of distributions |
| `AptLocal.Local.AllIndexes` | internal/registry/apt/apt.go:185-205 | every index is loaded, and nothing else |
| `AptLocal.Local.SaveIndex` | internal/registry/apt/apt.go:148-167 | rows are stored in stable order; an index without rows is deleted |
| `AptLocal.Components` | internal/registry/apt/apt.go:171-183 | the components of a distribution in the order of their file names |
| `AptLocal.Gather` | internal/registry/apt/apt.go:283-308 | the components with rows in listing order, and all architectures to publish |
| `AptLocal.Local.constructor` | internal/registry/apt/apt.go:436-450 | an empty repository is consistent |
| `AptRepo.AddRowExact` | internal/registry/apt/apt.go:640-668 | after an upload an index has one row of the new file, with its size and digests, where there was one or the upload was meant to go, and every other row as before, sorted and without repeated file names |
| `AptRepo.AddKeepsTimes` | internal/registry/apt/apt.go:643-655 | in an index the upload was not meant for, a replaced row keeps its publishing time |
| `AptRepo.AddedPool` | internal/registry/apt/apt.go:625-670 | after an upload its pool file holds the body and every other pool file is as it was |
| `AptRepo.AddKeepsPool` | internal/registry/apt/apt.go:625-668 | an upload keeps pool and indexes in agreement although several distributions share a pool file and re-upload overwrites it |
| `AptRepo.AddUnaffected` | internal/registry/apt/apt.go:638-670 | a distribution outside the affected set keeps all its indexes |
| `AptRepo.AddKeepsConsistent` | internal/registry/apt/apt.go:625-670 | an upload keeps all three layers consistent, regenerating only affected distributions |
| `AptRepo.RemovedRowsExact` | internal/registry/apt/apt.go:683-699 | removal drops exactly the matching rows from every index and keeps the others in order |
| `AptRepo.RemovedFilesExact` | internal/registry/apt/apt.go:701-707 | a file goes if and only if it is a pool file that lost its last row across all distributions |
| `AptRepo.RemovedPool` | internal/registry/apt/apt.go:674-709 | after a removal the pool has exactly the files some row is left for, unchanged |
| `AptRepo.RemoveKeepsConsistent` | internal/registry/apt/apt.go:674-709 | a removal keeps all three layers consistent |
| `AptRepo.RegeneratedExact` | internal/registry/apt/apt.go:711-719 | the listed distributions get their generated trees, every other file stays |
| `AptRepo.RunsStayConsistent` | internal/registry/apt/apt.go:625-709 | in every state a run of uploads and removals reaches, pool, indexes and trees agree |
| `AptRepo.IncrementalIsFullRebuild` | internal/registry/apt/apt.go:277-355 | rebuilding every distribution gives each the tree it has, but for the time |
| `AptPublished.RebuildChangesNothing` | internal/registry/apt/apt.go:277-355 | after any run from the empty repository a full rebuild leaves the same files with the same bytes below every distribution; Release is in both the document of the same heading and the same files but for the date in it, and its signatures are those of that text |
| `AptPublished.TreeTimeOnly` | internal/registry/apt/apt.go:320-349 | two generations from the same rows differ in Release and its signatures alone, and their headings in the date alone |
| `AptPublished.RealLayoutGood` | internal/registry/apt/apt.go:62-69 | the real row order, paths and trees meet what the core assumes: trees of different distributions and the pool never overlap |
| `AptPublished.PackagesPublished` | internal/registry/apt/apt.go:310-319 | in every consistent state each Packages file is there with its gzip beside it, and reads back as the stanzas of the rows at exactly those positions of the index whose architecture is the file's or "all", in order, exactly when their file names fit a line |
| `AptPublished.RowsRead` | internal/registry/apt/apt.go:311-317 | a stanza is read there exactly when it is that of a row of the architecture or of "all", and its Architecture says so |
| `AptPublished.RowReadExact` | internal/registry/apt/apt.go:311-317 | a row of the index is read in a Packages file exactly when its architecture is the file's or "all" |
| `AptPublished.StanzasTellTruth` | internal/registry/apt/apt.go:97-105 | every stanza a client reads names a pool file and gives its true size, MD5sum, SHA1 and SHA256 |
| `AptPublished.EveryRowPublished` | internal/registry/apt/apt.go:287-319 | no package is missing: every row belongs to some published architecture, and is read in exactly the files of its own, or in all |
| `AptPublished.ArchSetExact` | internal/registry/apt/apt.go:284-308 | the published architectures are amd64, arm64 and those of the rows |
| `AptPublished.ReleasePublished` | internal/registry/apt/apt.go:320-349 | Release, read back, lists in each of its three sections exactly the files below the distribution but itself and its signatures, each with the size and digest of the bytes there |
| `AptPublished.ReaderFindsTruth` | internal/registry/apt/deb.go:289-302 | the map read from a published Release has exactly the files below the distribution but Release and its signatures, each with the SHA256 of the bytes stored under it |
| `AptClient.UploadFound` | internal/registry/apt/apt.go:819-842 | whatever control file is accepted: a client reads, in the Packages file of its component and architecture, the control with the true size and digests of the body, under a file name that holds the body |
| `AptClient.UploadStored` | internal/registry/apt/apt.go:625-670 | the row of an upload is in its index and its pool file holds the body |
| `AptClient.DeletedNowhere` | internal/registry/apt/apt.go:572-584 | after deleting a version a client reads every stanza read before except those of the package in that version, with or without epoch |
| `AptClient.HeadingPublished` | internal/registry/apt/apt.go:230-238 | Release read back has the distribution twice, the repository, the date, exactly the published architectures in order and exactly the components with rows in the order of their index files, each under its own key |
| `AptClient.FilesPublished` | internal/registry/apt/apt.go:277-355 | what is below a distribution: nothing without rows, and else exactly Release, its signatures if there is a key, and a Packages file and its gzip for every component and architecture |
| `AptClient.PackagesAt` | internal/registry/apt/apt.go:253-265 | the path of a Packages file, written out |
| `AptUploads.UploadPrints` | internal/registry/apt/deb.go:190-252 | every control file that is accepted gives a row that is true of its bytes, and whose stanza reads back exactly when its file name fits a line, which it does for components of up to 4 MiB |
| `AptUploads.ReadControl` | internal/registry/apt/deb.go:221-234 | the first stanza of the first 4 MiB, validated, or a refusal |
| `AptUploads.ControlOfExact` | internal/registry/apt/deb.go:221-252 | the control is that of the first stanza of the first 4 MiB, unchanged but for the index's fields |
| `AptUploads.ParseSize` | internal/registry/apt/deb.go:81-114 | the parsed fields are together no longer than the input |
| `AptUploads.ThreeValuesSize` | internal/registry/apt/deb.go:43-50 | values of three different keys come from three different fields |
| `AptTree.AllFilesContents` | internal/registry/apt/apt.go:253-265 | the generated files hold the Packages text of every component and architecture and its gzip under their paths, and no others' |
| `AptTree.AllFilesOnce` | internal/registry/apt/apt.go:253-265 | no generated file overwrites another: under the path of each stands its own data |
| `AptTree.PackagesFiles` | internal/registry/apt/apt.go:253-265 | the nested loops render exactly these files |
| `AptTree.PackagesPathsDiffer` | internal/registry/apt/apt.go:259-261 | different components and architectures never share a path |
| `AptEntries.NewEntryDescribes` | internal/registry/apt/apt.go:107-121 | a new row keeps control and time and gives size and digests of the uploaded bytes and a pool path |
| `AptEntries.ControlPublished` | internal/registry/apt/apt.go:97-105 | a published stanza starts with the control, and no value of it is hidden by the index fields |
| `AptEntries.EntryOrder` | internal/registry/apt/apt.go:152-161 | the comparator of an index is a total preorder |
| `AptEntries.EntryOrderExact` | internal/registry/apt/apt.go:152-161 | lower names first, of one package lower versions first, of one version lower architectures first |
| `AptEntries.RenderPackages` | internal/registry/apt/apt.go:311-319 | the rendering loop prints the rows at exactly the positions whose architecture is the one asked for or "all" |
| `AptEntries.PackagesReadBack` | internal/registry/apt/apt.go:310-319 | a Packages file parses to the stanzas of the rows at exactly those positions, in order, if and only if each of these prints within the scanner's limit |
| `AptEntries.OneFieldEach` | internal/registry/apt/apt.go:97-105 | each stanza has Package, Filename, Size, MD5sum, SHA1 and SHA256 exactly once in any letter case, with the row's values |
| `AptRelease.BuildRelease` | internal/registry/apt/apt.go:230-250 | the writing loops produce the specified document |
| `AptRelease.ReleaseParses` | internal/registry/apt/apt.go:230-250 | the document parses to exactly the stanza it was printed from |
| `AptRelease.ReleaseListsFiles` | internal/registry/apt/apt.go:239-249 | each of the three digest sections lists every file in order with its true digest and size |
| `AptRelease.ReleaseHeader` | internal/registry/apt/apt.go:230-238 | every value of the heading is read back under its own key |
| `AptRelease.PadLeftExact` | internal/registry/apt/apt.go:239-249 | sizes are right-aligned in eight columns |
| `AptRelease.ReleaseFiles` | internal/registry/apt/deb.go:289-302 | the reader of the SHA256 section |
| `AptRelease.ReleaseFilesExact` | internal/registry/apt/deb.go:289-302 | that reader finds every listed file's digest and nothing else |
| `AptControl.Without` | internal/registry/apt/deb.go:53-65 | drops exactly the fields whose key is listed, in any letter case |
| `AptControl.GetFirst` | internal/registry/apt/deb.go:42-50 | the value read is that of the first field with the key, in any letter case |
| `AptControl.StrippedKeys` | internal/registry/apt/deb.go:237-252 | the keys an upload loses, in any letter case |
| `AptControl.AcceptedExact` | internal/registry/apt/deb.go:24-29 | which controls are accepted, character by character |
| `AptControl.SegmentExact` | internal/registry/apt/deb.go:28 | which distributions and components are |
| `AptControl.ValidateControl` | internal/registry/apt/deb.go:237-252 | accepts by name, version and architecture, and rebuilds the control |
| `AptControl.ValidControlShape` | internal/registry/apt/deb.go:237-252 | an accepted control has one Package field, its first, none of the index's fields, and every other value unchanged |
| `AptControl.PoolPathParses` | internal/registry/apt/deb.go:254-285 | the pool file name parses to name, epoch-free version and architecture exactly when the version is not only an epoch |
| `AptControl.StripEpochExact` | internal/registry/apt/deb.go:253-260 | what is left without the epoch: the version if it has no colon, and else what is behind the first |
| `AptControl.PoolHome` | internal/registry/apt/deb.go:262-272 | where a pool file is, epoch or not |
| `AptControl.EncodedEpochRead` | internal/registry/apt/deb.go:274-287 | an epoch whose colon is spelled "%3a" in a file name is read with the colon |
| `AptControl.EpochOnlyVersion` | internal/registry/apt/deb.go:254-285 | version "1:" is valid, and its pool file name does not parse |
| `AptControl.PoolPathInjective` | internal/registry/apt/deb.go:270-272 | two pool paths are equal exactly when component, name, epoch-free version and architecture are |
| `Deb822.ParseStanzas` | internal/registry/apt/deb.go:81-114 | the scan loop computes the specified stanzas, stopping at a line over the limit |
| `Deb822.RenderTo` | internal/registry/apt/deb.go:67-77 | the printer, field by field |
| `Deb822.ParseFromGood` | internal/registry/apt/deb.go:81-114 | whatever is parsed is well formed |
| `Deb822.LinesIgnored` | internal/registry/apt/deb.go:86-108 | comments, lines without a key and continuations of nothing are passed over |
| `Deb822.BlankLineEnds` | internal/registry/apt/deb.go:87-95 | a blank line ends the stanza read so far, if there is one |
| `Deb822.KeyAndValueRead` | internal/registry/apt/deb.go:104-108 | a key line adds the field before the first colon with the trimmed rest as its value |
| `Deb822.ContinuationRead` | internal/registry/apt/deb.go:98-103 | a continuation is appended to the last value behind a newline |
| `Deb822.CarriageReturns` | internal/registry/apt/deb.go:87 | carriage returns at a line's end make no difference |
| `Deb822.RoundTripExact` | internal/registry/apt/deb.go:67-114 | printing well-formed stanzas and parsing gives them back exactly when every printed line is within the scanner's limit |
| `Deb822.ReparseExact` | internal/registry/apt/deb.go:67-114 | for every input, printing what was parsed and parsing again gives the same stanzas exactly when the printed lines fit |
| `Deb822.ReparseSameStanzas` | internal/registry/apt/deb.go:67-114 | they do for every input with lines two short of the limit |
| `Deb822.LongestLineLost` | internal/registry/apt/deb.go:67-85 | the boundary case in which they do not |
| `BlobStores.LocalBlobStore.StartUpload` | internal/registry/blobstore/localblob.go:130-150 | performs the machine's start step and keeps table and files in agreement |
| `BlobStores.LocalBlobStore.ResumeUpload` | internal/registry/blobstore/localblob.go:156-167 | finds exactly the open sessions |
| `BlobStores.LocalBlobStore.GetBlob` | internal/registry/blobstore/localblob.go:85-100 | performs the read step |
| `BlobStores.LocalBlobStore.DeleteBlob` | internal/registry/blobstore/localblob.go:117-126 | performs the delete step |
| `BlobStores.LocalBlobStore.PruneAbandonedUploads` | internal/registry/blobstore/localblob.go:354-407 | performs the pruning step, dry or not |
| `BlobStores.LocalSession.WriteBytes` | internal/registry/blobstore/localblob.go:222-231 | writes at the seek pointer and counts what it wrote |
| `BlobStores.LocalSession.CommitUpload` | internal/registry/blobstore/localblob.go:244-314 | performs the commit step: mismatch, unknown algorithm, failing rename and success |
| `BlobStores.LocalSession.CancelUpload` | internal/registry/blobstore/localblob.go:316-324 | closes the session and drops its file; a second call does nothing |
| `BlobStores.MemSession.CommitUpload` | internal/registry/blobstore/memblob.go:178-221 | performs the memory store's commit step |
| `BlobStores.MemSession.WriteBytes` | internal/registry/blobstore/memblob.go:162-170 | appends to the buffer |
| `BlobStores.MemBlobStore.ResumeUpload` | internal/registry/blobstore/memblob.go:101-112 | finds exactly the registered sessions |
| `BlobStores.BlobEnvGood` | internal/registry/blobstore/localblob.go:70-77 | real paths and keys tell canonical digests apart |
| `BlobModel.StepKeepsInv` | internal/registry/blobstore/localblob.go:130-340 | an id is in the session table exactly while its session is open, whatever is done |
| `BlobModel.WriteAtExact` | internal/registry/blobstore/localblob.go:222-231 | a write at a seek pointer, byte by byte |
| `BlobModel.MemStepKeepsInv` | internal/registry/blobstore/memblob.go:84-236 | the same of the memory store: its table holds exactly the open sessions |
| `BlobModel.StepKeepsContentAddressed` | internal/registry/blobstore/localblob.go:244-314 | every operation keeps every blob hashing to its own key, failing renames included |
| `BlobModel.GetReturnsItsDigest` | internal/registry/blobstore/localblob.go:85-100 | what a digest reads back has that digest |
| `BlobRefinement.ContentAddressedOverRuns` | internal/registry/blobstore/localblob.go:130-340 | both hold over all runs and interleavings of sessions |
| `BlobRefinement.StepRelated` | internal/registry/blobstore/memblob.go:84-236 | one step of the local store answers as the memory store does and keeps the relation between them |
| `BlobRefinement.LocalRefinesMemory` | internal/registry/blobstore/memblob.go:44-236 | on every run from the empty stores both give the same answers, and end in related states with both tables exact |
| `BlobRefinement.MemTableOverRuns` | internal/registry/blobstore/memblob.go:84-236 | over all runs, an id is in the memory store's table exactly while its session is open |
| `BlobRefinement.StartHolds` | internal/registry/blobstore/localblob.go:130-150 | a new upload is an open session on an empty file of this moment |
| `BlobRefinement.UploadHoldsWrites` | internal/registry/blobstore/localblob.go:222-285 | after any writes, digest mismatches and other sessions' work the tmp file is the concatenation of the writes, with pointer and count at its end |
| `BlobRefinement.CommitPublishes` | internal/registry/blobstore/localblob.go:244-314 | a commit succeeds exactly when nothing is expected or the expected hash is, but for letter case, that of the bytes under the expected algorithm; then it publishes just the session's bytes under their digest and closes it, and else it changes nothing |
| `BlobRefinement.MemCommitPublishes` | internal/registry/blobstore/memblob.go:178-221 | the same of the memory store |
| `BlobRefinement.CanonicalAccepted` | internal/registry/blobstore/digest.go:54-59 | of a digest as it is parsed: exactly when it is that of the bytes |
| `BlobRefinement.RenameFails` | internal/registry/blobstore/localblob.go:286-306 | a rename that fails publishes nothing; with the blob there already the commit succeeds, else the session stays without its file and takes no more writes |
| `BlobRefinement.MemUnknownAlgorithm` | internal/registry/blobstore/memblob.go:178-200 | the memory store refuses an unknown algorithm and keeps the session as it was |
| `BlobRefinement.StartRefused` | internal/registry/blobstore/localblob.go:130-150 | an id that is taken is refused and nothing changes |
| `BlobRefinement.MemWrites` | internal/registry/blobstore/memblob.go:162-176 | a write to the memory store appends, and the offset is the length so far |
| `BlobRefinement.LocalOffset` | internal/registry/blobstore/localblob.go:222-242 | the offset of a local session is the length so far, and a write stamps its file and no other |
| `BlobRefinement.LocalLookups` | internal/registry/blobstore/localblob.go:85-126 | Stat gives the length of what Get reads, and Delete takes just that blob |
| `BlobRefinement.MemLookups` | internal/registry/blobstore/memblob.go:44-82 | the same of the memory store |
| `BlobRefinement.LocalResumes` | internal/registry/blobstore/localblob.go:156-167 | resuming finds a session exactly when one with the id is open |
| `BlobRefinement.MemResumes` | internal/registry/blobstore/memblob.go:101-112 | the same of the memory store |
| `BlobRefinement.LocalCancels` | internal/registry/blobstore/localblob.go:316-340 | cancelling publishes nothing, drops the file and closes the session for good |
| `BlobRefinement.MemCancels` | internal/registry/blobstore/memblob.go:223-236 | the same of the memory store |
| `BlobRefinement.UploadRoundTrip` | internal/registry/blobstore/localblob.go:130-314 | from start to commit: it succeeds exactly when the concatenation of all writes is accepted, and then Get returns it |
| `BlobRefinement.OnlyCommitsPublish` | internal/registry/blobstore/localblob.go:244-314 | a blob appears or changes only by a commit, whose whole file it then is |
| `BlobRefinement.UnknownAlgorithmExact` | internal/registry/blobstore/localblob.go:255-270 | after an unknown algorithm the session still holds its content exactly when it was empty |
| `BlobRefinement.WriteAfterUnknownAlgorithm` | internal/registry/blobstore/localblob.go:222-270 | otherwise the next write goes over the front of the file |
| `BlobRefinement.PruneExact` | internal/registry/blobstore/localblob.go:354-407 | the dry run reports what the pass frees, bytes are conserved, no blob or live session is touched, a second pass finds nothing |
| `BlobRefinement.PruneTakes` | internal/registry/blobstore/localblob.go:354-407 | the pass takes exactly the files of no open session that are not newer than the threshold, and counts them |
| `Digests.ParseDigestCanonical` | internal/registry/blobstore/digest.go:63-86 | parsing gives exactly the canonical digests, and printing one gives its text back |
| `Digests.ParseDigestExact` | internal/registry/blobstore/digest.go:63-86 | which texts are parsed, and to what |
| `Digests.ColonNeeded` | internal/registry/blobstore/digest.go:63-68 | a text without a colon is none |
| `Digests.BlobHome` | internal/registry/blobstore/localblob.go:70-77 | where a blob is kept |
| `Digests.BlobPathInjective` | internal/registry/blobstore/localblob.go:70-77 | canonical digests have different files |
| `Glob.MatchesIffDivides` | internal/service/token.go:288-299 | the recursive relation holds exactly when the path can be cut into pieces the pattern segments take |
| `Glob.DoubledStarStar` | internal/service/token.go:311-353 | doubling a "**" never changes an answer |
| `Glob.CommonPatterns` | internal/service/token.go:288-299 | literal patterns match themselves, with "**" behind them everything below, with one wildcard one level below |
| `TokenScopes.MatchPathParts` | internal/service/token.go:311-353 | the backtracking matcher terminates and decides the relation |
| `TokenScopes.MatchPath` | internal/service/token.go:300-309 | the relation on trimmed segments, or a lone "*" |
| `TokenScopes.ScopePatterns` | internal/service/token.go:288-299 | the same of scopes, whose one wildcard is "*" |
| `TokenScopes.SegmentsExact` | internal/service/token.go:304-309 | the segments joined again are the path without its outer slashes |
| `TokenScopes.LoneStarOverreaches` | internal/service/token.go:288-309 | the documented answer is given except for a lone "*" on several segments |
| `TokenScopes.LoneStarExample` | internal/service/token.go:288-309 | "*" on "a/b" is such an exception |
| `TokenScopes.ContainsOperation` | internal/service/token.go:355-362 | the operation or "*" is listed |
| `TokenScopes.TokenScopesAllow` | internal/service/token.go:270-280 | allowed exactly when one scope grants both path and operation |
| `TokenScopes.OperationsAllowed` | internal/service/token.go:270-280 | a scope for every path allows exactly its operations, or all with "*" |
| `Permissions.CapabilitiesFromBundles` | internal/service/permission.go:379-432 | the two passes compute the keys in order of first appearance and the merged patterns |
| `Permissions.KeysInOrder` | internal/service/permission.go:379-403 | the keys are each granted one once, in order of first appearance |
| `Permissions.PatternsInOrder` | internal/service/permission.go:405-426 | and so the patterns of a key |
| `Permissions.ResolveUserCapabilityPatterns` | internal/service/permission.go:321-364 | the two passes without the filter on granted keys |
| `Permissions.MergeMeaning` | internal/service/permission.go:379-432 | a granted key is allowed on a path exactly when some bundle grants it without patterns or some bundle's patterns match |
| `Permissions.ScopedKeysKept` | internal/service/permission.go:405-426 | a granted key is missing from the map exactly when some bundle grants it without patterns |
| `Permissions.MergeOrderIrrelevant` | internal/service/permission.go:379-432 | order and repetition of bundles do not matter |
| `Permissions.AddingBundleMonotone` | internal/service/permission.go:366-378 | adding a bundle never removes access |
| `Permissions.ResolversAgree` | internal/service/permission.go:321-432 | the two merges agree on granted keys |
| `Permissions.ResolversDiffer` | internal/service/permission.go:321-364 | on a key no bundle grants the second merge has exactly the patterns that scope it, the first nothing |
| `Permissions.MergeIsDisjunction` | internal/service/permission.go:366-432 | when no bundle scopes a key it does not grant, access is exactly what some single bundle grants |
| `Permissions.MergeIsDisjunctionExact` | internal/service/permission.go:366-432 | for every path: access is what some single bundle grants, unless the key is granted, no bundle grants the path and a bundle that only scopes the key covers it |
| `Permissions.StrayPatternsExact` | internal/service/permission.go:366-426 | the merged patterns are those of the granting bundles exactly when no stray pattern is new |
| `Permissions.UngrantedPatternsWiden` | internal/service/permission.go:405-426 | a bundle that grants nothing opens the paths its pattern matches |
| `Permissions.StrayPatternExample` | internal/service/permission.go:405-426 | a concrete pair of bundles |
| `Capabilities.Allows` | internal/service/capabilities.go:84-104 | the search decides the permission relation |
| `Capabilities.Unlimited` | internal/service/capabilities.go:84-104 | no patterns and the empty path allow, and else one pattern must on its own |
| `Capabilities.DirectoryPatterns` | internal/service/capabilities.go:84-104 | a directory pattern permits just the directory, with "**" below it also everything there |
| `Capabilities.AllowsAncestor` | internal/service/capabilities.go:108-123 | the search decides the ancestor relation |
| `Capabilities.IsAncestorOfPattern` | internal/service/capabilities.go:132-150 | the loop decides the ancestor predicate |
| `Capabilities.AncestorComplete` | internal/service/capabilities.go:108-150 | no directory that leads to a permitted path is hidden |
| `Capabilities.AncestorSound` | internal/service/capabilities.go:132-150 | an accepted directory does lead somewhere when the segments can be met |
| `Capabilities.AncestorExact` | internal/service/capabilities.go:108-150 | for a whole permission map, both directions |
| `Capabilities.ParentOfPermitted` | internal/service/capabilities.go:106-123 | every parent directory of a permitted path is accepted |
| `Totp.TotpService.VerifyForLogin` | internal/service/totp.go:387-448 | a login attempt, with codes, replay guard and recovery codes |
| `Totp.LoginOutcome` | internal/service/totp.go:387-448 | exactly which logins succeed, and why the others fail: none without an enabled row |
| `Totp.LoginFrame` | internal/service/totp.go:387-448 | a refused login changes nothing; any other leaves secret, enabled and every other row alone and stamps the time |
| `Totp.LoginEffect` | internal/service/totp.go:405-445 | a code is burned for the window and costs no recovery code; a recovery code costs the first hash that accepts it |
| `Totp.EnrolmentKept` | internal/service/totp.go:387-448 | over any run of logins a user's secret and whether the second factor is on stay as they are |
| `Totp.TotpService.UseRecoveryCode` | internal/service/totp.go:428-445 | the first hash that accepts is dropped, the others stay in order |
| `Totp.TotpService.MarkReplay` | internal/service/totp.go:458-470 | fresh exactly when no unexpired entry exists; then burned for the whole window |
| `Totp.TotpService.Gc` | internal/service/totp.go:597-612 | drops exactly the expired entries |
| `Totp.TotpService.SavePending` | internal/service/totp.go:480-492 | stores a step-up session with its expiry |
| `Totp.TotpService.ConsumePending` | internal/service/totp.go:494-506 | a session is removed by reading it, and returned unless expired |
| `Totp.TotpService.RegenerateRecoveryCodes` | internal/service/totp.go:343-385 | the stored hashes are those of the new codes, the old ones gone |
| `Totp.NewRecoveryCodes` | internal/service/totp.go:633-660 | codes and hashes pairwise |
| `Totp.GroupedShape` | internal/service/totp.go:633-660 | a code is the draw in three groups of four |
| `Totp.ReplayKeyInjective` | internal/service/totp.go:459-460 | users' burned codes are kept apart |
| `Totp.AcceptedAgainOnlyAfterTtl` | internal/service/totp.go:387-470 | over all runs, sweeps included, a code is accepted again only after its entry expires |
| `Totp.SecondUseStraddlesWindow` | internal/service/totp.go:387-470 | a second acceptance was checked inside the window and marked after it closed |
| `Totp.SingleUse` | internal/service/totp.go:387-470 | with one clock reading a login no run accepts a code for one time step twice |
| `Totp.SecondUseExact` | internal/service/totp.go:405-470 | a second use succeeds exactly when the guard is asked at or after expiry |
| `Totp.CodeAcceptedTwice` | internal/service/totp.go:405-470 | a run with a double acceptance |
| `Totp.GcUnobservable` | internal/service/totp.go:597-612 | sweeping at any time changes no login's answer |
| `Totp.RecoveryConservation` | internal/service/totp.go:428-445 | recovery logins since the last issue plus remaining hashes equal the number issued |
| `Totp.RecoveryCodeUses` | internal/service/totp.go:428-445 | a code is used at most as often as stored hashes accept it |
| `Totp.IssuedCodeAccepted` | internal/service/totp.go:428-445 | an issued code is accepted, however typed |
| `Totp.RedeemedOnce` | internal/service/totp.go:494-506 | a step-up session is redeemed at most once |
| `Totp.SavedRedeemed` | internal/service/totp.go:480-506 | a saved session gives its identity up to its expiry and leaves the others alone |
| `Totp.PendingSweepExact` | internal/service/totp.go:494-612 | when a sweep can take a session that could still be redeemed |
| `Cargo.Store.Put` | internal/registry/cargo/cargo.go:261-289 | writes crate, metadata and index row to their cleaned paths |
| `Cargo.Store.SetYanked` | internal/registry/cargo/cargo.go:308-326 | sets the flag of a version or reports it missing |
| `Cargo.Store.DeleteVersion` | internal/registry/cargo/cargo.go:329-361 | whatever name and version it is given, deletes the files their cleaned paths lead to and drops the row, or reports why not |
| `Cargo.FindEntry` | internal/registry/cargo/cargo.go:214-222 | finds a row of the version exactly when there is one |
| `Cargo.RemoveVersion` | internal/registry/cargo/cargo.go:339-349 | the in-place filter keeps every other row in order |
| `Cargo.PutKeepsAgreement` | internal/registry/cargo/cargo.go:261-289 | publishing keeps indexes and crates in agreement |
| `Cargo.PutExact` | internal/registry/cargo/cargo.go:261-289 | crate and metadata are stored, the index has the row in the place of any of its version and the other rows, sorted, and no other file changes |
| `Cargo.PublishedInOrder` | internal/registry/cargo/cargo.go:192-196 | in the stored index lower versions stand first |
| `Cargo.SetYankedExact` | internal/registry/cargo/cargo.go:308-326 | as many rows as before in the same order, name, version, checksum and the rest untouched, the flag as asked where the version is the one named and as it was elsewhere; no other file changes |
| `Cargo.SetYankedKeepsAgreement` | internal/registry/cargo/cargo.go:308-326 | yanking keeps indexes and crates in agreement |
| `Cargo.DeleteExact` | internal/registry/cargo/cargo.go:329-361 | by a valid name, the rows of other versions stay in order, crate and metadata go, with the last row the index file and the owners, and no other file changes |
| `Cargo.DeletionExact` | internal/registry/cargo/cargo.go:112-119 | for every name and version: a deletion keeps indexes and crates in agreement if and only if it deletes nothing or its cleaned crate path is that of the row it drops (for a name that leads out of the index: it takes no stored crate) |
| `Cargo.TrailingSlashDeletion` | internal/registry/cargo/cargo.go:329-361 | deleting a stored version by its crate's name with "/" behind it succeeds and breaks the agreement |
| `Cargo.SerdeSlash` | internal/registry/cargo/cargo.go:329-361 | the concrete run: publish serde 1.0.0, delete "serde/" 1.0.0 |
| `Cargo.AgreementOverRuns` | internal/registry/cargo/cargo.go:244-361 | for every run of publishing, yanking and deletions by any name from the empty registry: each index is sorted with one row a version, and a row exists exactly when its crate does and carries its checksum, all the way if and only if every deletion finds nothing or takes the crate of its own row |
| `Cargo.PlainRunsAgree` | internal/registry/cargo/cargo.go:244-361 | in particular when deletions are by names without "/" and "." |
| `Cargo.CheckedRunsAgree` | internal/registry/cargo/cargo.go:244-361 | and when the name is checked before a deletion as it is before publishing and yanking |
| `Cargo.CargoLayoutGood` | internal/registry/cargo/cargo.go:72-127 | the real paths keep crates apart |
| `CargoPaths.IndexPathInverse` | internal/registry/cargo/cargo.go:90-110 | parsing an index path finds a name exactly when the path is that name's |
| `CargoPaths.IndexPathServed` | internal/registry/cargo/cargo.go:90-110 | every valid name is served under its own index path |
| `CargoPaths.StoredCrateInjective` | internal/registry/cargo/cargo.go:112-115 | cleaned crate files coincide exactly when names (up to case) and versions do |
| `CargoPaths.CleanEnds` | internal/registry/cargo/cargo.go:112-119 | cleaning a path keeps its last segment, whatever stands before it |
| `CargoPaths.CleanDrops` | internal/registry/cargo/cargo.go:112-119 | how cleaning works: empty segments and "." count for nothing, ".." takes the segment before it, at the root nothing |
| `CargoPaths.CleanTwice` | internal/registry/cargo/cargo.go:112-119 | a cleaned path is clean |
| `CargoPaths.IndexHome` | internal/registry/cargo/cargo.go:72-97 | where the index file of a valid name is |
| `CargoPaths.CrateHome` | internal/registry/cargo/cargo.go:112-115 | where its crates are |
| `CargoPaths.MetaHome` | internal/registry/cargo/cargo.go:118-119 | where metadata and owners are |
| `CargoPaths.NormExact` | internal/registry/cargo/cargo.go:70 | white space around a name and letter case do not matter |
| `CargoPaths.ValidNameExact` | internal/registry/cargo/cargo.go:121-126 | which names can be published |
| `CargoPaths.ValidVersionExact` | internal/registry/cargo/cargo.go:121-127 | the scan accepts exactly three dotted numbers with an optional pre-release and an optional build |
| `CargoPaths.SuffixExact` | internal/registry/cargo/cargo.go:123 | what a pre-release and a build may hold |
| `CargoPaths.FilesApart` | internal/registry/cargo/cargo.go:112-119 | whatever the name and version, the cleaned crate and metadata paths are never a valid crate's index file, nor the metadata path a crate file |
| `CargoPaths.IndexFilePlain` | internal/registry/cargo/cargo.go:72-88 | cleaning leaves the index path of a valid name alone |
| `Versions.VersionOrder` | internal/registry/pkgbase/version.go:15-42 | the version comparison is a total preorder |
| `Versions.ReleasesByNumber` | internal/registry/pkgbase/version.go:56-127 | dotted numbers are ordered number by number, of two that agree the shorter first |
| `Versions.SuffixOrder` | internal/registry/pkgbase/version.go:15-48 | a pre-release is below its release, a build and a leading "v" count for nothing |
| `Versions.PrefixOrder` | internal/registry/pkgbase/version.go:19-48 | so does a "V", and a dash in front |
| `Versions.WordToken` | internal/registry/pkgbase/version.go:56-91 | a run of letters is one word, in any case |
| `Versions.FirstDifference` | internal/registry/pkgbase/version.go:93-127 | where two versions first differ a number is above the end, the end above a word, and words are ordered as strings |
| `Versions.BigNumbersTie` | internal/registry/pkgbase/version.go:65-67 | numbers past an int64 are all the same |
| `Sorting.SortSorts` | internal/registry/apt/apt.go:152-161 | the stable sort sorts |
| `Sorting.SortStable` | internal/registry/cargo/cargo.go:192-196 | rows the order does not tell apart keep their order |
| `Sorting.FilterSelects` | internal/registry/cargo/cargo.go:339-349 | a filter keeps exactly the elements at the positions where its condition holds, in order |
| `Strings.TrimSpaceCut` | internal/registry/cargo/cargo.go:70 | trimming takes away white space at the ends and nothing else |
| `JsonPointer.ValidateSelector` | internal/secretref/secretref.go:37-55 | accepts exactly the pointers with well-formed escapes |
| `JsonPointer.PointerSegments` | internal/secretref/secretref.go:96-107 | splits and unescapes token by token |
| `JsonPointer.TwoPassesAreOne` | internal/secretref/secretref.go:96-107 | on accepted tokens the two replacing passes equal one left-to-right unescape |
| `JsonPointer.KeysRoundTrip` | internal/secretref/secretref.go:96-107 | escaping and joining any non-empty list of keys is accepted and split back into the same keys |
| `JsonPointer.StandardEscapes` | internal/secretref/secretref.go:96-107 | the two escapes are those of the standard, and a pointer grows by a slash and a key |
| `JsonPointer.SelectorRoundTrip` | internal/secretref/secretref.go:96-107 | and every accepted selector is the pointer of its segments |
| `JsonPointer.LookupSegments` | internal/secretref/secretref.go:109-129 | the walking loop descends segment by segment |
| `JsonPointer.EveryNodeSelectable` | internal/secretref/secretref.go:92-129 | every node of a document is reached by the selector of its path |
| `JsonPointer.DescentEndsAtNode` | internal/secretref/secretref.go:109-129 | what is reached is a node of the document |
| `JsonPointer.ArrayIndexExact` | internal/secretref/secretref.go:116-126 | array steps are the standard's exactly for indices in standard form |
| `JsonPointer.LiberalIndices` | internal/secretref/secretref.go:116-126 | "+1" and "01" reach the second element, the standard's step does not |

## Left out

- HTTP handlers, multipart bodies, JSON and SQL encoding, storage backends and the web interface. In particular JSON replaces invalid UTF-8 in stored controls; the model stores rows as they are.
- Real cryptography and compression, and reading ar and tar archives: a control file is handed in unpacked.
- Unicode: case folding and white space are ASCII, strings are bytes.
- Locks and concurrent requests: the methods of one component are called one after the other; only upload sessions interleave. The window in which a tmp file exists before its session is in the table is not modelled.
- I/O faults, except a failing rename, an unknown algorithm and a taken upload id.
- PromoteVersion: it reads a stored file and calls `AddDeb` on another repository; that its copied control still prints is not proved.
- Deleting a pool file that no row refers to (internal/registry/apt/apt.go:870-877): in consistent states there is none.
- Remote and virtual registries, listings, search, statistics and package details.
- The order of the walk over a distribution's files: the walk visits the same files in the order of whole paths.
- Directories of the Cargo store: a cleaned path that names a directory reads as a missing file. The JSON lines of an index file are a pair of functions that read back what they wrote.
- Globs with a slash inside braces, such as `{a/b,c}/x`: `Capabilities.PatternMatches` cuts a pattern at every "/", so the ancestor theorems are about patterns whose globs stay within one segment. For this one the code hides directory `a`, which leads to a match.
- A component named `Release`, `InRelease` or `Release.gpg`: on a file-system backend its directory and the file of that name cannot both exist, and regenerating fails after pool and index are stored. The flat map from paths to bytes has both.
- Enrolling for TOTP: an enrolment is an event that replaces a user's row. A stored secret that does not decode is not modelled, and the time of last use is stamped with the replay guard's clock reading.
- AptPublished.ReleasePublished: assumes that the repository name and the printed date are single lines without white space at their ends, and that the document's lines are within the scanner's limit.
- AptClient.HeadingPublished: assumes the same.
- AptClient.UploadFound: assumes digests and a body as AptUploads.UploadPrints does, and file names of the index that fit a line.
- AptUploads.UploadPrints: assumes digests that are single words of at most 128 characters, and a body size that fits an int64.
- BlobRefinement.LocalRefinesMemory: leaves out what the two stores answer on a taken random id, an unknown algorithm, digests ParseDigest does not return, the offset after a cancel, a rename that fails on new content, and pruning.
- Totp.SingleUse: assumes a clock that does not go backwards.
