# Release-integrity model

The `xtask` release pipeline decides whether a Windows bundle may ship. It seals an unsigned
distribution tree, lets an external signer work on the first-party images, checks that nothing but
signing happened, and zips exactly what was sealed. This project models that pipeline and proves what
its checks amount to, for every byte string, every tree, every signer and every interrupted run.
Nothing was executed: every statement below is a theorem about the model.

`dafny verify dfyconfig.toml` checks the whole project.

## How it is organised

- `PeLayout`, `PeSigning` — the PE parser of the seal, in closed form and as the loops that decide it,
  and the Authenticode-stable identity: what an unchanged normalised hash pins down.
- `PeLoad`, `LoadPolicy`, `SignedPolicy` — the second PE parser (RVA mapping, DependentLoadFlags) and the
  theorems that cross both: exactly when signing keeps the load policy.
- `PeFormat`, `PeImages` — the structures of the PE format as byte strings, field after field, and both
  parsers proved against them: acceptance and load flags in terms of the fields, with no offset shared.
- `BundlePath`, `BundleTree`, `BundleWalk`, `BundleFiles`, `Manifest`, `BundleSeal` — path policy, the
  recursive walk with its mutable collision map, the one-pass manifest validator, the list comparisons.
- `ShippedNames`, `SealPolicy` — accepted names, trees, manifests, verification, transition and seals spelled
  out without the code's own predicates and constants, each proved equivalent to what the code decides.
- `SealTheorems`, `SignedTransition` — what `verify` and `verify-signed` mean for the bytes of a tree.
- `FileSystem`, `AtomicWrite`, `TreeOps`, `Docs`, `Signing`, `SigningRun` — a mutable file system that
  records every state it passes through, and the commands that write to it. Any step may fail for reasons
  of its own (`faulty`; `removable`: at least removing files works), and, where a check looks again at what
  it wrote, others may have written in between unless the file system is `quiet`.
- `ShownTree`, `SealFiles`, `Release`, `FirstParty` — where the file system meets the trees of the seal:
  the sealing commands with their manifest files, the whole release run from the unsigned seal to the
  archive, and the shipped list of first-party images.
- `Semver`, `BuildInfo`, `Package`, `Checksum` — version triples, the BUILDINFO round trip, labels,
  archives, hex digests and checksum lists. `Bytes`, `Text`, `Wrappers` hold what all of them share.

Numbers are unbounded in the logic but bounded in the types: `byte`, `u16`, `u32` and `usize` are subset
types, so each unchecked addition of the source is an obligation, and `Parsed.Overflow` is kept apart from
every other rejection so that contracts can rule it out. A parser's contract never calls the parser: it
refers to a closed form (`PeLayout.Accepted`, `PeLoad.LoadsWith`) stated field by field.

SHA-256 is an arbitrary function to 32 bytes. Where a theorem needs two different inputs to have two
different digests it says so, for the inputs of exactly the two trees concerned
(`SealTheorems.NoCollisions`).

## What the code does that its description does not say

- Verification is documented as a byte-for-byte comparison of the tree with its manifest. It does compare
  exactly the two maps from path to bytes, but it also rejects a tree whose map is the sealed one when a
  directory *without files* has a reserved or colliding name. `SealTheorems.VerifyIsExact` has the exact condition,
  `SealTheorems.EmptyDirectoryCanFail` a tree that fails for every seal, and
  `SealTheorems.VerifyIsMapEquality` the plain statement for trees in which every directory holds a file.
- Signing keeps the load policy whenever a section maps the load configuration. It need not when the
  configuration lies in the headers: `LoadPolicy.SigningCanBreakHeaderPolicy` has a 512-byte image that
  carries the System32-only policy before signing and not after. `SignedPolicy.PolicyKeptExactly` has the
  exact condition on the image's bytes: the structure is long enough even under a checksum of zero, neither
  flag byte lies in the checksum field or in the size of the certificate table, and a flag byte that lies in
  the table's offset meets a zero byte of the image's length. Lying in the headers and overlapping those
  fields is not by itself enough to lose the policy. The other way round, signing can give a policy to an
  image that had no readable one, exactly when `SignedPolicy.PolicyCanAppear` holds
  (`SignedPolicy.PolicyAppearsExactly`).
- `assemble` builds in a directory named after the site with the extension `candidate`. A site whose own
  name already has that extension is its own candidate (`Docs.OwnCandidate`), so it can never be assembled
  (`Docs.Assemble`: success implies that the two names differ). The program only ever passes `build/site`.
- Collecting accepts an image that comes back from the signer as it went. One whose length is no multiple of
  eight, or is 4 GiB or more, has no signed form, so the transition check rejects the tree later
  (`Release.SignRelease`: accepted exactly when every image could be signed).
- The transition check that each target's hash did change can never fire on its own: an unsigned and a
  signed image always differ (`SignedTransition.SignedDiffers`).
- The check that follows the copies of `collect` reports drift only if someone else wrote to the bundle in
  between (`Signing.CollectPreservingImages`: `Drifted` implies that the file system was not quiet and that
  an identity did change; without the check, success would not imply that the identities are kept).

## Model

| member | source | states |
|---|---|---|
| PeLayout.ValidateCertificateTable | xtask/src/bundle_seal.rs:734-793 | the entry loop accepts exactly a region of one entry: a little-endian length above 8, the bytes 0, 2, 2, 0, and, rounded up to eight, that length fills the region, with zeros behind it; the loop ends because each turn consumes at least sixteen bytes, and never overflows |
| PeLayout.ParseHeaders | xtask/src/bundle_seal.rs:596-669 | on every byte string: accepts exactly the header layouts in closed form, reports their field positions, never reads outside the image or overflows |
| PeLayout.ParseSections | xtask/src/bundle_seal.rs:671-691 | accepts iff every non-empty section lies behind the headers and inside the file; the running maximum is the end of headers and sections |
| PeLayout.ImageEndIsLeast | xtask/src/bundle_seal.rs:671-714 | comparing a certificate offset with that maximum is the same as comparing it with every section and the headers |
| PeLayout.ParsePe | xtask/src/bundle_seal.rs:596-732 | accepts exactly the closed form and reports where checksum, security directory and certificate are; a certificate lies behind the headers and all section data and ends at the end of the file; never overflows |
| PeImages.CertificatesAreEntries | xtask/src/bundle_seal.rs:734-793 | a table is accepted iff it is one WIN_CERTIFICATE structure of revision 2.0 and type PKCS#7 around a non-empty blob, padded with zeros |
| PeImages.AcceptedByFields | xtask/src/bundle_seal.rs:596-732 | for bytes that begin with the headers of an image, written field after field: accepted iff those fields are sound, every section's raw data lies behind the headers and in the file, and the security directory names such a table at the end, behind all of it; and where the checksum and that directory are |
| PeImages.AcceptedImages | xtask/src/bundle_seal.rs:596-732 | the accepted byte strings are exactly those that begin with such headers |
| PeSigning.NormalizedPayload | xtask/src/bundle_seal.rs:562-594 | succeeds iff the image is accepted and its signedness is the asserted one; the hash covers the image up to the certificate with the two fields, byte for byte, read as zero |
| PeSigning.MaskStability | xtask/src/bundle_seal.rs:562-732 | equal masked streams force equal mask positions and lengths, and agreement on every byte outside the mask, although the positions are computed from the image itself |
| PeSigning.SameStreamIsSigningOnly | xtask/src/bundle_seal.rs:562-594 | an unsigned and a signed image have the same masked stream iff the certificate starts where the unsigned image ended and both agree on all bytes before it outside the two fields; the unsigned length is then a multiple of eight |
| PeSigning.SignIsAccepted | xtask/src/bundle_seal.rs:562-793 | signing completeness: any checksum and any non-empty blob that fit the 32-bit fields give an accepted signed image with the same masked stream, whose certificate carries the bytes 0, 2, 2, 0 behind its length |
| PeSigning.RecoverSigning | xtask/src/bundle_seal.rs:562-793 | from a signed image with the identity of an unsigned one, the signer's checksum and blob can be read back and reproduce it |
| PeSigning.SignedImagesAreSignings | xtask/src/bundle_seal.rs:562-793 | the accepted signed images with the stream of an unsigned image are exactly the results of signing it |
| PeLoad.RvaToFileOffset | xtask/src/pe_load.rs:159-231 | succeeds iff the whole range lies in the file-backed headers, or exactly one section maps it and backs it inside the file, and returns that place; overflow only for ranges beyond 64 bits or a section table outside the file |
| PeLoad.ReorderedSections | xtask/src/pe_load.rs:179-230 | permuting the section headers changes neither whether a range maps nor where |
| PeLoad.FindLoadConfig | xtask/src/pe_load.rs:38-141 | accepts exactly the headers with a usable load-configuration entry and reports it; never overflows |
| PeLoad.DependentLoadFlags | xtask/src/pe_load.rs:38-157 | returns flags iff the image has them in the closed form, returns those, and never overflows on any byte string |
| PeImages.LoadsByFields | xtask/src/pe_load.rs:38-231 | for bytes that begin with the headers of an image: the flags are those of the load-configuration structure found at its address in the headers, or at raw pointer plus address minus virtual address of the only section whose virtual fields map it, if its raw data holds it |
| LoadPolicy.PolicySurvivesSigning | xtask/src/pe_load.rs:38-157 | for any accepted image and any image, signed or not, that extends it outside the two masked fields: if a section maps the configuration or its two policy fields miss the mask, each load policy holds of one iff it holds of the other |
| LoadPolicy.SigningCanBreakHeaderPolicy | xtask/src/pe_load.rs:23-36 | a concrete accepted image that meets the System32-only gate unsigned and fails it after an accepted signing |
| SignedPolicy.PolicyKeptExactly | xtask/src/pe_load.rs:38-157 | for an unsigned image that can be signed and has a load policy: every signing, with any checksum and any certificate, keeps it iff a condition on the image's own bytes holds |
| SignedPolicy.ReachedIsBroken | xtask/src/pe_load.rs:38-157 | where that condition fails, a checksum and a certificate with which the signed image no longer has the policy, be it through the flags or through the length of the structure |
| SignedPolicy.PolicyAppearsExactly | xtask/src/pe_load.rs:38-157 | for such an image without a readable policy: some signing gives it one iff the structure lies in the headers and can be made long enough there |
| SignedPolicy.SigningKeepsPolicyExactly | xtask/src/pe_load.rs:38-157 | both together: no signing changes which load policies hold of an image, in either direction, iff the condition for its case holds |
| Checksum.Sha256Hex | xtask/src/checksum.rs:13-20 | the digest's hex form: 64 lower-case characters that the manifest validator accepts |
| Checksum.HexInjective | xtask/src/checksum.rs:13-20 | equal hex strings come from equal digests |
| Checksum.EqualIdentities | xtask/src/checksum.rs:13-20 | where inputs do not collide, equal hex identities mean equal bytes |
| Checksum.HexDecodes | xtask/src/checksum.rs:13-20 | reading a hex text pair by pair, high digit first, gives the digest back |
| Checksum.HashTexts | xtask/src/bundle_seal.rs:540-549 | the validator of hashes accepts exactly the hex forms of 32 bytes |
| Checksum.Sha256SumsBody | xtask/src/checksum.rs:25-31 | the loop's text is one line of hash, two spaces and name for each entry, in order |
| Checksum.SumsInjective | xtask/src/checksum.rs:25-31 | the text determines the list of hashes and names |
| Checksum.SumsLines | xtask/src/checksum.rs:25-31 | line by line: each is the hash, two spaces and the name, with a line end behind the last |
| Text.LessAtFirstDifference | xtask/src/bundle_seal.rs:250-257 | the order of paths is decided by the first position at which they differ, where an ended text comes first |
| Text.CaseFolds | xtask/src/bundle_seal.rs:534-538 | two texts fold to the same one iff they have the same length and each pair of characters is equal or one is the ASCII capital of the other |
| BundlePath.PathInjective | xtask/src/bundle_seal.rs:455-475 | splitting the joined path gives the position back: no two tree positions share a path |
| BundlePath.JoinedPathValid | xtask/src/bundle_seal.rs:455-525 | a path joined from valid names passes the whole-path check that manifests undergo |
| BundlePath.FoldedPrefixIsAncestor | xtask/src/bundle_seal.rs:534-538 | a folded path that is a component prefix of another is the folded path of one of its ancestors |
| ShippedNames.ShippableNames | xtask/src/bundle_seal.rs:489-532 | the accepted names, in words: no separator, drive or wildcard character, no control character, no trailing dot or space, ASCII only, and no device name in front of the first dot, in any case |
| ShippedNames.ShippablePaths | xtask/src/bundle_seal.rs:477-487 | the accepted paths are exactly such names joined by slashes |
| ShippedNames.TreesInOrder | xtask/src/bundle_seal.rs:362-429 | a tree passes the walk iff all names below it are such, nothing in it is a link or special, and no two entries have paths equal up to ASCII case |
| BundleTree.EntriesAreLookups | xtask/src/bundle_seal.rs:362-429 | the entries the recursion meets are exactly the positions at which the tree has a node, at any depth |
| BundleTree.FilesAt | xtask/src/bundle_seal.rs:330-360 | the map from path to bytes holds at a joined path exactly the file at that position |
| BundleWalk.BundleWalk.Visit | xtask/src/bundle_seal.rs:362-429 | the mutating walk succeeds iff every entry below passes the policy and no two folded paths collide with each other or with earlier ones; it then has added exactly those entries and identities, for every enumeration order |
| BundleWalk.BundleWalk.VisitEntry | xtask/src/bundle_seal.rs:370-426 | one entry: the same statement for it and everything below it |
| BundleWalk.AddChildWalk | xtask/src/bundle_seal.rs:370-426 | walking a child after its elder siblings establishes the condition for both together |
| BundleFiles.SigningTargets | xtask/src/bundle_seal.rs:431-453 | succeeds iff the first-party list is non-empty with valid, distinct paths and names, and returns its paths |
| BundleFiles.CollectBundleFiles | xtask/src/bundle_seal.rs:330-360 | succeeds iff the tree is in order, non-empty and holds every target in the asserted state; returns exactly its files, strictly by path, for every enumeration order |
| BundleFiles.ListingUnique | xtask/src/bundle_seal.rs:330-360 | a bundle has only one such listing, so collection is deterministic |
| BundleFiles.ListingDescribes | xtask/src/bundle_seal.rs:416-426 | each entry records the file's length, its hash, whether it begins like an executable, and for a target the hash of its masked stream; every file has an entry, in strict order by path |
| SealPolicy.BundlesInWords | xtask/src/bundle_seal.rs:330-360 | collection accepts exactly the trees of shippable names that hold, for each entry of a sound first-party list, an image with or without a certificate as the state says |
| BundleFiles.CaseSafe | xtask/src/bundle_seal.rs:376-393 | after a successful walk no file's path equals another's, or a directory prefix of it, up to the case of ASCII letters, character by character |
| Manifest.ValidateFiles | xtask/src/bundle_seal.rs:244-277 | the pass that remembers only the last path and the folded ones decides the order of all pairs, all collisions and all per-file checks; it returns the targets met |
| Manifest.ValidateManifest | xtask/src/bundle_seal.rs:229-288 | accepts exactly the manifests with a valid schema and commit, files in order, and every signing target |
| SealPolicy.ManifestsInWords | xtask/src/bundle_seal.rs:229-288 | the accepted manifests spelled out: schema 2, a commit of twenty bytes in hex, shippable paths in strict order and apart up to case, hashes of 32 bytes, payload hashes for exactly the first-party paths, all of which occur |
| Manifest.CompareExact | xtask/src/bundle_seal.rs:290-325 | accepts iff the lists agree entry by entry in path, size, hash and payload hash |
| Manifest.DecodedKeeps | xtask/src/bundle_seal.rs:36-67 | dropping `is_pe` in the stored form changes neither validity nor any comparison |
| BundleSeal.ReadSourceCommit | xtask/src/bundle_seal.rs:221-227 | the commit comes from the bytes of the root's file named exactly BUILDINFO.txt and from nothing else |
| BundleSeal.ListingPasses | xtask/src/bundle_seal.rs:118-131 | what collection returns always passes the manifest validator |
| BundleSeal.ZipIsByPath | xtask/src/bundle_seal.rs:290-325 | comparing two sorted lists in step is comparing, path by path, the maps they stand for |
| BundleSeal.SealTo | xtask/src/bundle_seal.rs:120-126 | the manifest: one is made exactly for the bundles that are in order and name a valid commit in a file named exactly BUILDINFO.txt, and it holds their listing |
| BundleSeal.VerifyAt | xtask/src/bundle_seal.rs:135-149 | the comparison with a manifest that was read: accepts iff it is valid, its state is the expected one, its commit is that of the file named exactly BUILDINFO.txt, the tree is in order and each recorded file matches the tree's file of that path |
| BundleSeal.VerifySignedTransition | xtask/src/bundle_seal.rs:154-209 | the same for the transition from an unsigned manifest that was read: targets changed but kept their payload hash, all else is unchanged |
| BundleSeal.CompareTransition | xtask/src/bundle_seal.rs:171-207 | the loop decides the per-file transition rule for all positions, and unequal lengths fail |
| SealPolicy.VerificationInWords | xtask/src/bundle_seal.rs:133-150 | verification of any tree against any manifest, spelled out: state, commit, paths, and for each record length, hash and hash of the masked stream of the file |
| SealPolicy.TransitionsInWords | xtask/src/bundle_seal.rs:152-210 | the same for the transition: an image has another hash and the recorded masked stream, any other file its recorded length and hash |
| SealPolicy.SealsInWords | xtask/src/bundle_seal.rs:118-131 | a manifest is what sealing a tree gives iff the tree verifies against it and its marks of executables are right |
| SealTheorems.VerifyIsExact | xtask/src/bundle_seal.rs:118-150 | without collisions: a tree verifies against the seal of another iff its own entries are in order and both are the same map from path to bytes |
| SealTheorems.DirectoriesFollow | xtask/src/bundle_seal.rs:362-429 | where every directory holds a file, equal maps carry order of the entries over from one tree to the other |
| SealTheorems.VerifyIsMapEquality | xtask/src/bundle_seal.rs:118-150 | for such trees verification is equality of the two maps |
| SealTheorems.EmptyDirectoryCanFail | xtask/src/bundle_seal.rs:489-525 | for every seal there is a tree with the same files that does not verify: an empty directory with a reserved name |
| SignedTransition.TransitionIsSigningOnly | xtask/src/bundle_seal.rs:152-210 | without collisions: the check accepts iff the tree is a valid signed bundle of the same commit and paths, every non-target is identical and every target is a signing-only extension |
| SignedTransition.TransitionAcceptsSignedForms | xtask/src/bundle_seal.rs:152-210 | equivalently: the tree is in order and is the sealed map with each first-party image replaced by the result of some signing of it |
| SignedTransition.CommitFollows | xtask/src/bundle_seal.rs:160-166 | the commit comparison is implied, because BUILDINFO.txt is no signing target |
| SignedTransition.SignedDiffers | xtask/src/bundle_seal.rs:183-189 | the check that a target did change is implied by the two states |
| SignedTransition.TransitionKeepsLoadPolicy | xtask/src/bundle_seal.rs:152-210 | after an accepted transition each first-party image of the signed tree has exactly the load policies of the sealed one, provided the sealed image meets the exact condition for signing to keep them |
| SealFiles.SealFile | xtask/src/bundle_seal.rs:118-131 | refuses a manifest inside the bundle; succeeds only for a bundle in order, and then the manifest file holds a seal of it and no other file differs; failing leaves the manifest file as it was; succeed or fail, the bundle is not disturbed |
| SealFiles.VerifyFile | xtask/src/bundle_seal.rs:133-150 | accepts iff the manifest lies outside the bundle, can be read and verifies the tree |
| SealFiles.VerifyTransitionFile | xtask/src/bundle_seal.rs:152-210 | accepts iff the unsigned manifest lies outside the bundle, can be read and the tree is a transition from it |
| SealFiles.SealedVerifies | xtask/src/bundle_seal.rs:118-150 | sealing a tree and then verifying the same tree against the file succeeds, without any assumption about the hash |
| SealFiles.RunSeal | xtask/src/bundle_seal.rs:69-83 | a signed manifest is only written for a tree that passes the transition check against the unsigned one; it is written whenever the bundle is in order, the manifest lies outside it and can be written and, for the signed state, that check passes |
| SealFiles.SignedSealStandsFor | xtask/src/bundle_seal.rs:69-83 | without collisions: where the unsigned manifest file is the seal of a tree, that check passes iff the present tree is in order and a signed form of it |
| AtomicWrite.WriteFileAtomic | xtask/src/fsx.rs:17-64 | in every state of every run the destination holds its complete old or the complete new bytes and no other file that was there changes; success leaves the old files with just the destination replaced; failure leaves the old files, or at most one more temporary when removing that is itself what fails; it succeeds when nothing is in the way and one of 64 temporary names is free, and never for a path that ends in `..` |
| AtomicWrite.Promote | xtask/src/fsx.rs:44-64 | the same from the open temporary on, including the clean-up after a failed write, flush or replacement |
| TreeOps.CopyDirAll | xtask/src/fsx.rs:115-128 | on success the destination is its old contents overlaid by the source, at any depth; nothing outside it changes, succeed or fail; it succeeds when no file meets a directory |
| TreeOps.RemoveRecursive | xtask/src/fsx.rs:142-157 | on success nothing at or below the path is left; nothing else is ever removed or changed |
| TreeOps.ForceRemoveDirAll | xtask/src/fsx.rs:132-140 | the same with the fallback; a missing path is success |
| Docs.Built | xtask/src/docs.rs:33-50 | clearing, copying the landing page and then the book leaves exactly the landing tree with the book over it below `book/` |
| Docs.Assemble | xtask/src/docs.rs:22-66 | it answers that an input is missing iff one of the four pages is missing or empty, and then has changed nothing at all; on success the site is exactly landing page and book, whatever old site or stale candidate there was; a failure before the old site's removal leaves it unchanged; a failed promotion leaves the complete candidate, a failed copy none; whatever the outcome nothing else changes |
| Docs.OwnCandidate | xtask/src/docs.rs:32-35 | a site is its own candidate iff its name already has the extension, or is no name |
| Signing.ValidateFirstPartyPeMap | xtask/src/signing.rs:22-41 | the two hash sets decide that sources and stage names are non-empty and pairwise distinct |
| Signing.Stage | xtask/src/signing.rs:45-56 | on success every staged name holds its source's bytes and nothing outside the stage directory changed |
| Signing.Collect | xtask/src/signing.rs:61-69 | after the preflight, every intermediate state keeps each image's identity; on success each source holds its signed file and nothing else changed |
| Signing.CollectPreservingImages | xtask/src/signing.rs:78-126 | refuses, with the bundle untouched, iff the map is invalid or some identity is missing or differs; success means that every identity is kept, whatever others wrote after the copies, and drift is reported only where one is not; if no one else writes, every state of every run keeps all identities, success delivers the signed files, and only a faulty device makes it fail |
| Signing.KeptAfterCopy | xtask/src/signing.rs:61-69 | overwriting a source by a signed image of its identity keeps all identities on both sides, even where the two lists share paths |
| SigningRun.RunStage | xtask/src/signing.rs:131-153 | on success the stage directory holds the images of the bundle as it was and nothing else, and the signer's directory nothing at all, whatever was in them before; succeed or fail, nothing outside the two changes |
| SigningRun.StageSignCollect | xtask/src/signing.rs:131-181 | for every signer that preserves identities: success means that every image has the identity it began with, whatever others wrote after the copies; if no one else writes, the two commands leave the signed form at every source and touch nothing else outside the working directories, and succeed when the images are readable and no file blocks the directories |
| Release.SignRelease | xtask/src/signing.rs:131-181 | on a file system that no one else writes to, from the unsigned seal through stage, any signer that signs what can be signed and returns the rest as it is, and collect: the file system then shows a tree, every such tree is the sealed one with each image signed, and without collisions the transition check accepts it iff every image could be signed |
| Release.SignedTreePasses | xtask/src/bundle_seal.rs:152-210 | the logical core of that: a tree that differs from the sealed one by the signer's output alone passes iff every image could be signed |
| Release.ArchiveHoldsSignedForms | xtask/src/package.rs:40-253 | without collisions the archive of the signed tree is made iff every read finds the file as the signer left it, and then holds exactly the sealed paths, each image in its signed form and all else as it was sealed |
| Release.PackageBundle | xtask/src/package.rs:26-52 | packaging succeeds iff the bundle is in order in the state that the tag implies, its version can be read, that version and the tag give a label and every file, when it is archived, still has the length and hash that collecting found; it then names the archive by that label and archives exactly what was collected |
| Release.StampedCommitSealed | xtask/src/bundle_seal.rs:221-227 | a bundle in order whose BUILDINFO.txt publishing stamped with a full object name can be sealed, and its seal carries that name |
| FirstParty.ShippedList | xtask/src/publish.rs:68-74 | the shipped list passes the checks of sealing and of signing and does not name BUILDINFO.txt, which discharges that hypothesis of the transition theorems |
| Semver.ParsePrint | xtask/src/semver.rs:10-25 | parsing the printed form of three naturals gives them back |
| Semver.PrintParse | xtask/src/semver.rs:10-25 | printing what was parsed gives the version back: no second spelling |
| Semver.ValidateIsPrinted | xtask/src/semver.rs:10-25 | the validator accepts exactly the decimal triples |
| BuildInfo.FieldIsUnambiguous | xtask/src/package.rs:161-175 | a field is read iff exactly one line carries it, and then it is that line's trimmed value |
| BuildInfo.LinesOfBody | xtask/src/package.rs:161-168 | splitting a text written with Windows line ends gives its lines back, whatever carriage returns they hold |
| BuildInfo.VersionInWords | xtask/src/package.rs:161-175 | packaging reads a version iff, past one byte-order mark, exactly one line begins with `version:` and the rest of it, trimmed, is a safe label, which it then returns |
| BuildInfo.CommitInWords | xtask/src/version.rs:368-382 | the seal reads a commit iff exactly one line, past byte-order marks, begins with `commit:` and the rest of it, trimmed, is the hex form of twenty bytes |
| BuildInfo.VersionRoundTrip | xtask/src/package.rs:161-175 | packaging reads back the version that publishing stamped iff it is at most 128 ASCII letters, digits, dots, hyphens and plus signs, a digit first and no sign last; past byte-order mark, line ends and padding |
| BuildInfo.CommitRoundTrip | xtask/src/version.rs:368-420 | the seal reads back the stamped commit if that is the hex form of twenty bytes; an abbreviation or a missing line gives none |
| BuildInfo.StampedRelease | xtask/src/package.rs:180-195 | a stable build packaged under its own tag, with or without `v`, is labelled `v` and that version |
| Package.ReleaseLabel | xtask/src/package.rs:180-218 | a tagged label exists iff the version is a canonical triple of at most 128 characters and the tag is that, or that behind `v` or `V`; it is then `v` and the version |
| Package.UntaggedLabel | xtask/src/package.rs:180-218 | without a tag the label is the version itself, iff that is a safe one |
| Package.LabelsDiffer | xtask/src/package.rs:180-195 | an untagged package never takes a release's label |
| Package.WriteZip | xtask/src/package.rs:233-253 | for any changes of the tree between reads: succeeds iff each file, when read, has its sealed size and hash, and writes what was read, in sealed order; what an undisturbed read gives is `Package.ArchiveSucceedsExactly` |
| Package.ArchiveSucceedsExactly | xtask/src/package.rs:233-253 | where every read finds what was sealed, no check of the archive fails; without collisions those are the only such reads |
| Package.ZipIsSealed | xtask/src/package.rs:40-253 | without collisions the archive holds exactly the sealed files with the bytes that were hashed, strictly by path |

## Left out

- SHA-256, JSON and zip compression: a digest function is a parameter, the stored manifest is lossless apart from `is_pe`, an archive is the list of its entries.
- BundleSeal.SealTo: takes the BUILDINFO parser as an arbitrary function of the file's bytes, which makes the seal theorems hold for every parser; `BuildInfo` models the real one on text, without UTF-8 decoding.
- BuildInfo.VersionRoundTrip: channel and date are parameters; `parse_identity`, which derives them from the version, would only add easy members.
- BundleWalk.BundleWalk.Visit: links, reparse points and other kinds of entries are one kind, `Special`; a name that is not Unicode is represented by one that is not ASCII, and both are rejected; a file is read in one step, so the comparison of its size before and after reading cannot fail.
- BundleSeal.ReadSourceCommit: looks the name up exactly, where Windows would ignore case; SealTo, VerifyAt and VerifySignedTransition take the commit from it.
- Signing.Stage: a map entry is split at `/`, so entries with `.` or `..` components are not normalised.
- TreeOps.CopyDirAll: requires that neither directory contains the other; the program copies between separate ones, copying a directory into itself does not end in the source either, and copying one over its own parent would read files that it has just written.
- Signing.Collect: that others write to the bundle is considered where the program looks again, between the last copy and the check of the copies; all other steps have the file system to themselves.
- FileSystem: copying and replacing a file are single steps, all or nothing; file writes are not, and can stop after any byte. Read-only attributes and permissions do not exist: clearing an attribute and trying again is trying again.
- TreeOps.ForceRemoveDirAll: the standard library's recursive removal is the same recursion as the fallback.
- Docs.Assemble: requires that landing page and book lie apart from the site and its candidate, as `site`, `build/docs-book` and `build/site` do. The default directories of `run` and its messages are not modelled.
- PE digests through the Win32 API (`pe_digest.rs`): the digest is the function parameter that `collect_preserving_images_with` takes.
- `verify_release_boundary`, `verify_shipping_readme`, the package directory's listing and its default paths: checks of fixed text and file names.
- Error messages: a rejection carries no text.
- The C# application and the other `xtask` modules (doctor, locale, prune, notices, clean, paths): they would only add easy members or call code outside the repository.
