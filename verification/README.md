# Backup Sync: a verified model

Backup Sync keeps versions of watched folders in content-addressed stores, replicates a store to
secondary destinations, restores whole versions or single files, and runs as a daemon. This project
models the parts that must not lose data and proves what they promise, in Dafny 4.11. Check it with

    dafny verify dfyconfig.toml

| file | part of the system |
|---|---|
| `Common.dfy`, `Model.dfy`, `RelPaths.dfy`, `Trees.dfy` | options and bytes; version indexes and manifests; relative paths; directory trees |
| `Blobs.dfy` | the stored form of a blob: magic, header, length frames, chunks; round trip and self-delimitation |
| `BlobFormat.dfy` | its byte layout; frames out of their place are refused |
| `BlobStreams.dfy` | the encoder and both decoders as loops over streams that may return short reads or fail |
| `Replication.dfy` | replication of a store as atomic file operations; crash safety |
| `Restore.dfy`, `RestoreShape.dfy` | restoring a version by staging and swapping; which manifests can be restored |
| `RestoreFiles.dfy` | restoring selected files in place |
| `EndToEnd.dfy` | replicated versions restore alike |
| `Cycle.dfy`, `Daemon.dfy` | the daemon's shared state under cycles, verification and requests; the scan decision |
| `Leases.dfy` | multi-store leases taken by any number of operations |
| `Scrub.dfy` | coprime-stride sampling |
| `Browse.dfy` | the readable view of a source |
| `Relocation.dfy` | moving a destination's store, or promoting a secondary |
| `Scheduler.dfy` | the job scheduler's capacity accounting |
| `LogTail.dfy`, `LogText.dfy` | the backward log-tail reader; what it shows of a log written as lines |

Conventions. zstd (RFC 8878), the authenticated cipher (section 2.8 of RFC 8439), SHA-256 and the
JSON parsers are function-valued fields; where a law about them is needed (decompression and
opening undo compression and sealing, a sealed chunk opens only at its own position and last-frame
mark, SHA-256 has no collisions) it is a precondition. An I/O
error, a timeout or a crash is a nondeterministic choice: methods may fail at any such point, and
classes keep a ghost trace or log of every state they went through, over which the safety
properties are stated, and note whether an error occurred, so that contracts can say that nothing
else makes them fail. A manifest's entries are a sequence; where a path is looked up, its keys are
taken as unique, as in the map it is parsed into. Concurrent tasks are events of a state machine; the theorems are about every
run, and methods that interleave with arbitrary steps of other tasks are shown to perform such runs.

Where a property does not hold of the code as it stands, the code is modelled as it is, an example
is given, and the exact condition is proved:

- A replica that holds a different manifest for a listed version id has it overwritten before the
  blobs arrive (`Replication.UnreadyReplicaBreaks`); complete versions survive every run exactly
  when each version a run can overwrite has the blobs of its new manifest by then, from the replica
  or from a version copied before it (`Replication.SurvivalIff`).
- Manifest keys such as `a/b` and `a//b` name one path (`RelPaths.KeysCollide`), and a valid version
  with both can be restored wrongly (`RestoreShape.CollidingKeysRestoredWrong`); a restore is exact
  if and only if such entries agree (`Restore.RestoreExactIff`).
- A manifest that names a file and something below it, or a file by a path that ends in a slash or
  dot, cannot be restored at all; the exact condition is in `RestoreShape.BuildTreeSomeIff`.
- A file entry without a hash is replicated and published but refused by every restore
  (`EndToEnd.UnhashedNotRestored`); a published version restores if and only if all file entries
  have hashes and the files can be placed (`EndToEnd.PublishedRestoresIff`).
- A zstd chunk above the decompression limit is written but not read back
  (`Blobs.EncodeDecode`); the configured chunk bounds exclude it (`BlobStreams.WriteBlob`).
- A version whose own files contain a version marker shows it while it is staged
  (`Browse.ForeignMarkerExample`, `Browse.ForeignMarkerDuplicates`); over a whole run versions stay
  unique exactly when no such marker names a version managed then (`Browse.SyncView`).
- A managed tree that is already there is taken for its version whatever it holds
  (`Browse.TruncatedStageShown`); a synchronised view is right exactly when the trees it reused were
  right (`Browse.SyncedShowsIff`, `Browse.SyncView`). Trees of the newest version other than
  `Latest` are not reused: they are removed and built again.
- A destination nested in the folder that is moved away is deleted with it
  (`Relocation.NestedDestinationLost`); the exact condition is in `Relocation.SparedIff` and
  `Relocation.Relocate`.
- A safe-mode cycle can forget an owed start or recovery scan (`Cycle.SafeModeForgetsScan`,
  `Cycle.OwedIff`), and a cycle's new warning is dropped if the old one was cleared meanwhile
  (`Cycle.NewWarningLost`, `Cycle.NewWarningKeptIff`).

## Model

| member | source | states |
|---|---|---|
| `Blobs.FrameRoundTrip` | `crates/core/src/encryption/blobs.rs:871-904` | a length frame with its last-frame bit parses back to its payload, flag and the bytes after it |
| `Blobs.ZstdPayloadRoundTrip` | `crates/core/src/encryption/blobs.rs:716-758` | a chunk payload decompresses to the chunk exactly when the chunk is within the 8 MiB limit, otherwise it is refused |
| `Blobs.EncodeDecode` | `crates/core/src/encryption/blobs.rs:344-497` | for every cutting of the plaintext into chunks, in all three framed modes, the encoded blob decodes to the plaintext with nothing left over exactly when every zstd chunk fits |
| `Blobs.PlainRoundTrip` | `crates/core/src/encryption/blobs.rs:499-549` | a plain copy decodes to itself unless it begins with a magic; an encryption magic without a key and any framed blob too short for a frame are refused |
| `Blobs.TrailingBytesIgnored` | `crates/core/src/encryption/blobs.rs:196-255` | bytes appended to a framed blob that decodes never change the plaintext |
| `Blobs.PrefixDecodes` | `crates/core/src/encryption/blobs.rs:623-714` | a prefix of a complete framed blob decodes if and only if it is the whole blob or shorter than a magic |
| `Blobs.EncodedPrefixDecodes` | `crates/core/src/encryption/blobs.rs:760-780` | the same for every blob the encoders produce |
| `BlobFormat.FrameLayout` | `crates/core/src/encryption/blobs.rs:871-904` | a frame is four big-endian length bytes, with the top bit of the first for the last frame, and the payload; it exists if and only if the payload is below 2^31 bytes |
| `BlobFormat.ChunkLayout` | `crates/core/src/encryption/blobs.rs:344-497` | a chunk is sealed under its own position and last-frame mark, compressed before it is sealed, with its length in front of the compressed bytes |
| `BlobFormat.HeaderLayout` | `crates/core/src/encryption/blobs.rs:623-677` | the header spells the magic, version, mode and nonce |
| `BlobFormat.BodyInOrder` | `crates/core/src/encryption/blobs.rs:344-497` | the body is the frames of the chunks, each at its position |
| `BlobFormat.OnlyInOrder` | `crates/core/src/encryption/blobs.rs:196-255` | for a cipher that binds position and last-frame mark, any selection of a blob's frames, reordered, repeated or shortened in any way, decodes if and only if it begins with the right frames in order up to the last |
| `BlobStreams.ReadExact` | `crates/core/src/encryption/blobs.rs:846-869` | for every pattern of short reads the buffer holds exactly the next bytes; failure means an I/O error or too few bytes |
| `BlobStreams.ReadChunk` | `crates/core/src/encryption/blobs.rs:829-844` | what was read and what is left make up what was there |
| `BlobStreams.ReadFramedChunk` | `crates/core/src/encryption/blobs.rs:889-904` | the frame read is the frame the stream starts with, and fails only on an I/O error or a bad frame |
| `BlobStreams.ProbeMagicPrefix` | `crates/core/src/encryption/blobs.rs:679-714` | the magic is recognised if and only if it is there, and no byte of a plain blob is lost |
| `BlobStreams.DecryptStreamToWriter` | `crates/core/src/encryption/blobs.rs:196-255` | the loop writes exactly the plaintext of the frames and fails exactly when they are malformed, I/O errors aside |
| `BlobStreams.DecompressStreamToWriter` | `crates/core/src/encryption/blobs.rs:760-780` | the same for compressed frames |
| `BlobStreams.CopyPlainStream` | `crates/core/src/encryption/blobs.rs:801-827` | every byte is copied and counted with saturation |
| `BlobStreams.CopyBlobPlaintext` | `crates/core/src/encryption/blobs.rs:499-549` | the copy path writes exactly what the blob decodes to, for every byte string |
| `BlobStreams.DecryptStreamToHasher` | `crates/core/src/encryption/blobs.rs:257-303` | the hashing loop feeds exactly the plaintext of the frames and fails exactly when they are malformed |
| `BlobStreams.DecompressStreamToHasher` | `crates/core/src/encryption/blobs.rs:782-799` | the same for compressed frames |
| `BlobStreams.Sha256PlaintextBlob` | `crates/core/src/encryption/blobs.rs:551-621` | the hash path returns the hash of what the blob decodes to and fails exactly when it does not decode |
| `BlobStreams.CompareDecoders` | `crates/core/src/encryption/blobs.rs:499-621` | on every stored byte string the two decoders fail together, and otherwise the hash is the hash of the bytes copied |
| `BlobStreams.WriteFramedChunk` | `crates/core/src/encryption/blobs.rs:871-887` | a chunk that fits is written as one frame, a longer one is refused |
| `BlobStreams.EncryptFileToWriter` | `crates/core/src/encryption/blobs.rs:344-437` | the two-buffer look-ahead loop writes the encoding of the file cut into chunks, the last one marked, for every chunk size and pattern of short reads; it fails only on an I/O error or a chunk the cipher or the frame format refuses |
| `BlobStreams.CompressFileToWriter` | `crates/core/src/encryption/blobs.rs:454-497` | the same for the compressed form |
| `BlobStreams.WriteBlob` | `crates/core/src/encryption/blobs.rs:53-80` | what is written is the form the configuration asks for: encrypted if and only if a key is configured, compressed if and only if compression is on, in chunks of the configured size; it decodes to the file (a plain one if it does not begin with a magic), and it fails only on an I/O error or a refused chunk |
| `BlobStreams.EncryptedIffCipher` | `crates/core/src/encryption/blobs.rs:53-80` | a blob carries the encryption magic if and only if a key is configured (a plain file if it does not itself begin with it) |
| `BlobStreams.RoundTrip` | `crates/core/src/encryption/blobs.rs:53-97` | encoding then decoding returns the plaintext, for every plaintext, chunk size from 1 to 8 MiB and pattern of short reads |
| `Replication.BlobsGrow` | `crates/core/src/backup/versioned/replication.rs:279-310` | no operation of replication makes a good blob bad |
| `Replication.TrimJsonOfManifestName` | `crates/core/src/backup/versioned/replication.rs:669-675` | stripping the suffix from the file name of a valid version id gives the id back, so a listed manifest is never taken for another |
| `Replication.LegalStepSafeIff` | `crates/core/src/backup/versioned/replication.rs:256-350` | one operation keeps good blobs, listed manifests and complete versions if and only if it does not overwrite a complete listed version with a manifest whose blobs are not there |
| `Replication.SurvivalIff` | `crates/core/src/backup/versioned/replication.rs:191-350` | the versions that were listed and complete survive every run, to whatever operation it gets, if and only if, wherever a run can get to a complete version and overwrite it, each blob of the new manifest is good on the replica or comes with a version listed before it |
| `Replication.OverwriteRun` | `crates/core/src/backup/versioned/replication.rs:256-310` | where that fails there is a run that copies the versions before it in index order, overwrites the version and stops with it incomplete |
| `Replication.StaysReady` | `crates/core/src/backup/versioned/replication.rs:256-350` | wherever a run stops it leaves the replica ready, so the next run is safe too |
| `Replication.SameManifestsReady` | `crates/core/src/backup/versioned/replication.rs:256-275` | a replica is ready when a version id names the same manifest wherever it is present |
| `Replication.CrashSafety` | `crates/core/src/backup/versioned/replication.rs:256-350` | at every prefix of a run from a ready replica: listed complete versions stay complete, good blobs stay good, each index is the old one or a published one |
| `Replication.LegalRunsAreCrashSafe` | `crates/core/src/backup/versioned/replication.rs:256-350` | the same for all prefixes of a run at once |
| `Replication.UnreadyReplicaBreaks` | `crates/core/src/backup/versioned/replication.rs:257-275` | a concrete run in which a differing replica manifest is overwritten before its blobs arrive and a complete version stops being complete |
| `Replication.FilesIdentical` | `crates/core/src/backup/versioned/replication.rs:563-599` | equal is only reported for equal contents; a difference only for different ones, unless the two readers returned different amounts at a time; files of different length never pass |
| `Replication.PlanBlobs` | `crates/core/src/backup/versioned/replication.rs:369-431` | the plan lists exactly the blobs the manifest names, once each, all verified at the source, and fails only if one is not |
| `Replication.BuildPlans` | `crates/core/src/backup/versioned/replication.rs:369-431` | one plan per indexed version, in order; it fails only if some version is not complete at the source |
| `Replication.ValidateArtifacts` | `crates/core/src/backup/versioned/replication.rs:467-505` | it accepts a version if and only if the version is complete, I/O errors aside |
| `Model.ValidHashIff` | `crates/core/src/backup/versioned/replication.rs:507-517` | a blob name is accepted if and only if it is the lower-case hexadecimal form of 32 bytes |
| `Replication.ValidatePlans` | `crates/core/src/backup/versioned/replication.rs:433-465` | what it accepts is complete and identical on both sides; it refuses only if some version is not, I/O errors and uneven reads aside |
| `Replication.Replica.Perform` | `crates/core/src/backup/versioned/replication.rs:692-727` | a file operation happens as a whole or not at all, and only the listed operations occur |
| `Replication.CopyManifest` | `crates/core/src/backup/versioned/replication.rs:257-275` | afterwards the replica has the source manifest |
| `Replication.CopyBlobs` | `crates/core/src/backup/versioned/replication.rs:279-310` | afterwards every planned blob is good on the replica and no manifest or index has changed; it fails only on an I/O error or where something other than a regular file is in the way of a blob |
| `Replication.CopyPlan` | `crates/core/src/backup/versioned/replication.rs:256-311` | afterwards the version is mirrored: complete and identical on both sides; it fails only on an I/O error or an obstacle |
| `Replication.MirrorDeletions` | `crates/core/src/backup/versioned/replication.rs:639-689` | whether it succeeds or fails, at most the allowed number of manifests is deleted, none that the published index lists and none of another source; on success all others are gone if the limit is not reached |
| `Replication.PublishSource` | `crates/core/src/backup/versioned/replication.rs:324-350` | the index is published only over mirrored versions; manifests are deleted only with mirroring on and up to the configured limit, and below it only the listed ones are left |
| `Replication.PublishedMeans` | `crates/core/src/backup/versioned/replication.rs:324-350` | a published source has the source's index byte for byte, every listed manifest byte for byte, and under the hash of each of its file entries a blob whose plaintext has that hash |
| `Replication.TallyCounts` | `crates/core/src/backup/versioned/replication.rs:256-350` | the counters are the number of manifest copies, blob copies and deletions in the log, and the saturated sum of the bytes copied |
| `Replication.ReplicateSource` | `crates/core/src/backup/versioned/replication.rs:191-350` | whatever fails, only legal operations for this source were performed, deletions only with mirroring on and up to the limit; success publishes the source; it fails only on an I/O error, an incomplete source or an obstacle on the replica |
| `Replication.ReplicateOnePair` | `crates/core/src/backup/versioned/replication.rs:144-367` | an unavailable destination fails before any operation; every prefix of a run from a ready replica is crash safe, and complete versions survive it under the exact condition; without mirroring no manifest is deleted, with it at most the limit per source, below the limit exactly the listed ones remain; success publishes every source and the counters are what the run did; failure has a cause the caller could have seen, I/O errors aside |
| `RelPaths.ValidPathStaysInside` | `crates/core/src/backup/versioned/restore.rs:73-102` | a path that passes validation resolves to a nonempty path that cannot leave the directory it is joined to |
| `RelPaths.SplitJoin` | `crates/core/src/backup/versioned/restore.rs:84-95` | splitting a path into components loses no character: joined with slashes they give it back |
| `RelPaths.WrittenPathResolves` | `crates/core/src/backup/versioned/restore.rs:73-102` | a path written from names resolves to exactly those names, and is valid unless it begins like a drive letter |
| `RelPaths.KeysCollide` | `crates/core/src/backup/versioned/restore.rs:118-135` | two different valid manifest keys can resolve to one path |
| `Trees.MkdirAllAdds` | `crates/core/src/backup/versioned/restore.rs:405-412` | creating a directory path adds exactly its missing ancestors |
| `Trees.PutFileAdds` | `crates/core/src/backup/versioned/restore.rs:415-435` | putting a file adds it and its missing parents and changes nothing else |
| `Restore.PreflightRestore` | `crates/core/src/backup/versioned/restore.rs:307-353` | the plan is the file entries of the manifest, each once, in order, with path, hash and time as recorded; it is refused only if an entry has no hash or no blob or space is short |
| `Restore.WriteFileFromBlob` | `crates/core/src/backup/versioned/restore.rs:1069-1129` | content is given out only if it decodes to the expected hash, and refused only if it does not, I/O errors aside |
| `Restore.ContentNeverWrong` | `crates/core/src/backup/versioned/restore.rs:1069-1129` | whatever bytes a store holds under the hash of a plaintext, a restore gets that plaintext or nothing, and gets it exactly when the blob is good |
| `Restore.BuildReproduces` | `crates/core/src/backup/versioned/restore.rs:385-438` | a tree that gets built reproduces the manifest, entry by entry: each file entry's path holds a file with the hash and time of the last entry for that path, each directory entry's path is a directory, and nothing is there but these and the directories above them |
| `RestoreShape.MkdirAllSomeIff` | `crates/core/src/backup/versioned/restore.rs:405-412` | a directory path can be created if and only if nothing on it is a file or link |
| `RestoreShape.AddFileSomeIff` | `crates/core/src/backup/versioned/restore.rs:415-435` | a file can be added if and only if its content is there, its path ends in a name, and no directory or other file lies at, above or below it |
| `RestoreShape.BuildTreeSomeIff` | `crates/core/src/backup/versioned/restore.rs:385-438` | the tree gets built if and only if every content is there, every file path ends in a name, and none is a directory's or lies above or below another file's |
| `RestoreShape.CollidingKeysRestoredWrong` | `crates/core/src/backup/versioned/restore.rs:118-135` | a concrete store with a valid, complete version whose restore succeeds although one file does not have its recorded hash |
| `Restore.RestoreExactIff` | `crates/core/src/backup/versioned/restore.rs:385-438` | a tree that reproduces a manifest has every file with the hash its entry records if and only if entries that resolve to one path record one hash |
| `Restore.RestoredExactly` | `crates/core/src/backup/versioned/restore.rs:385-438` | the tree restored from a store reproduces the manifest, with every file as recorded if and only if entries for one path agree |
| `Restore.RestoredStaysInside` | `crates/core/src/backup/versioned/restore.rs:73-102` | of a valid manifest no restored path has a component that leaves the target |
| `Restore.BuildRestoreTree` | `crates/core/src/backup/versioned/restore.rs:385-438` | while it runs only the staging directory changes; success leaves the restored tree there; it fails only on an I/O error or if there is no such tree |
| `Restore.SwapStagedTree` | `crates/core/src/backup/versioned/restore.rs:470-515` | at every step the original is at the target or at the prev path unless the complete staged tree is in place; a failure leaves the original |
| `Restore.RestoreVersion` | `crates/core/src/backup/versioned/restore.rs:970-1067` | whatever fails, in every state the complete restored tree is at the target or the original is at the target or the prev path; nothing beside them changes; success means a tree that reproduces the manifest stored for the version, inside the target, with the previous tree kept or, in place, removed; failure means an I/O error, no such tree, short space or something in the way |
| `EndToEnd.CompletePreflight` | `crates/core/src/backup/versioned/restore.rs:307-353` | a complete version passes preflight if and only if every file entry records a hash, and all its contents can be read |
| `EndToEnd.CompleteRestoresIff` | `crates/core/src/backup/versioned/restore.rs:307-438` | a request for a complete version with a loadable manifest passes preflight and builds its tree if and only if every file entry records a hash and the files can be placed |
| `EndToEnd.BuildTreeAgrees` | `crates/core/src/backup/versioned/restore.rs:385-438` | a restored tree depends on the store only through the contents its manifest names |
| `EndToEnd.MirroredRestoresAlike` | `crates/core/src/backup/versioned/replication.rs:433-505` | a mirrored version loads, preflights and restores on the replica as on the source |
| `EndToEnd.PublishedRestoresAlike` | `crates/core/src/backup/versioned/replication.rs:324-350` | after a successful replication every listed version loads, passes preflight and restores from the replica as from the source |
| `EndToEnd.PublishedRestoresIff` | `crates/core/src/backup/versioned/replication.rs:324-350` | and that succeeds if and only if every file entry records a hash and the files can be placed |
| `EndToEnd.UnhashedNotRestored` | `crates/core/src/backup/versioned/replication.rs:388-397` | a concrete published version with a file entry without a hash: replication accepts it, its tree could be built, and preflight refuses it |
| `EndToEnd.CrashedReplicaRestores` | `crates/core/src/backup/versioned/replication.rs:256-350` | where a version id names one manifest, at whatever operation a run stops, every listed version that was complete loads, passes preflight and restores to the very tree it restored to before, and every version of a changed index as from the source |
| `RestoreFiles.SelectLoop` | `crates/core/src/backup/versioned/restore.rs:609-657` | the requested paths are planned once each; it fails if and only if one is invalid or cannot be provided |
| `RestoreFiles.SelectFiles` | `crates/core/src/backup/versioned/restore.rs:609-657` | it succeeds if and only if every requested path is valid and names a file entry with a hash whose blob is there, and plans exactly that entry |
| `RestoreFiles.PlanIsEntry` | `crates/core/src/backup/versioned/restore.rs:618-655` | a path is planned if and only if the manifest provides it, with the hash and time of its entry |
| `RestoreFiles.ValidateTargetPath` | `crates/core/src/backup/versioned/restore.rs:772-821` | it accepts only targets without a link or file on the way and without a link or directory at the end, and refuses only others, although it stops at the first missing directory |
| `RestoreFiles.CreateSafeTargetParents` | `crates/core/src/backup/versioned/restore.rs:823-863` | only missing directories on the way are added |
| `RestoreFiles.ReplaceFileFromStaged` | `crates/core/src/backup/versioned/restore.rs:922-967` | the file is replaced as a whole, from a finished temporary file, and nothing else changes |
| `RestoreFiles.StageSelected` | `crates/core/src/backup/versioned/restore.rs:680-697` | the staging directory is the verified contents at their paths; it fails only on an I/O error or if they cannot be placed |
| `RestoreFiles.StagedContents` | `crates/core/src/backup/versioned/restore.rs:680-697` | the staging directory holds, for each selected path, the verified content of the last entry that resolves to it |
| `RestoreFiles.CommitAll` | `crates/core/src/backup/versioned/restore.rs:707-714` | after the last replacement every selected file holds its staged content and nothing temporary is left |
| `RestoreFiles.RestoreSelected` | `crates/core/src/backup/versioned/restore.rs:579-716` | up to the end of target validation the root is unchanged; from then on in every state each selected file is wholly old or wholly verified new content and every other file is unchanged; success leaves each requested path with the content its manifest entry records, inside the root; a refusal before that has a cause the caller could have seen, I/O errors aside |
| `Cycle.ExamineHealthy` | `crates/daemon/src/runtime/cycle.rs:200-232` | a cycle takes the destinations as present if and only if every probe was good |
| `Cycle.ExamineAway` | `crates/daemon/src/runtime/cycle.rs:200-232` | otherwise exactly the destinations that failed are reported, in order |
| `Cycle.ForcedScanComesDue` | `crates/daemon/src/runtime/cycle.rs:381-428` | the number reported with a skip is exactly how many further clean cycles may pass before a full scan is forced |
| `Cycle.CommitsRight` | `crates/daemon/src/runtime/cycle.rs:233-372` | in every run a committed cycle did what its dirty paths, probes, safe mode and counters call for: it scans if paths changed, a scan is owed or forced, skips otherwise, pauses if a destination is away, and reports and counts accordingly |
| `Cycle.SkipsNothingDirty` | `crates/daemon/src/runtime/cycle.rs:381-428` | in every run a cycle that skips its scan had no changed path and all destinations present |
| `Cycle.InvHolds` | `crates/daemon/src/runtime/cycle.rs:65-115` | in every interleaving only the lock holder has an unsaved snapshot, the newest one, and a working cycle's copy agrees with the shared state on the cycle's own fields |
| `Cycle.NoLostUpdates` | `crates/daemon/src/runtime/cycle.rs:65-115` | in every interleaving safe mode is the last requested value and the verify fields are those of the last verify commit |
| `Cycle.ClearedNotBroughtBack` | `crates/daemon/src/runtime/cycle.rs:47-75` | a warning cleared while a cycle runs does not come back with its commit; what is there afterwards was newly raised by its engine |
| `Cycle.NewWarningKeptIff` | `crates/daemon/src/runtime/cycle.rs:47-75` | in every run, the warning a cycle raises is the shared one after its commit if and only if there was none when it began or none was cleared while it ran |
| `Cycle.NewWarningLost` | `crates/daemon/src/runtime/cycle.rs:47-75` | a concrete run in which a request clears the old warning and the cycle's new one is lost |
| `Cycle.DiskInCommitOrder` | `crates/daemon/src/runtime/cycle.rs:100-115` | snapshots reach the disk in the order they were committed |
| `Cycle.CounterStep` | `crates/daemon/src/runtime/cycle.rs:241-300` | every committed cycle without a full scan raises the counter, a success resets it, and a skip is only taken below the interval |
| `Cycle.BoundedSkipping` | `crates/daemon/src/runtime/cycle.rs:381-428` | between two successful engine runs there are at most interval-1 clean skips, whatever lies between |
| `Cycle.OwedScanAttempted` | `crates/daemon/src/runtime/cycle.rs:241-320` | with safe mode off a healthy cycle that owes a start or recovery scan attempts it, and commits nothing if the engine fails |
| `Cycle.OwedIff` | `crates/daemon/src/runtime/cycle.rs:148-320` | until an engine run succeeds, an owed scan stays owed if and only if every safe-mode cycle in between found a destination away or read a clock before the daemon start |
| `Cycle.OwedUntilSuccess` | `crates/daemon/src/runtime/cycle.rs:148-320` | under that condition no clean skip happens until an engine run succeeds |
| `Cycle.SafeModeOffKeeps` | `crates/daemon/src/runtime/cycle.rs:527-558` | with safe mode off and never requested no safe-mode cycle happens, so the condition holds |
| `Cycle.PauseOwesScan` | `crates/daemon/src/runtime/cycle.rs:233-256` | a paused cycle leaves a scan owed |
| `Cycle.SafeModeForgetsScan` | `crates/daemon/src/runtime/cycle.rs:527-558` | a concrete run in which a safe-mode cycle finds the destinations back and a later cycle skips although the recovery scan never ran |
| `Daemon.Daemon.SetSafeModeRequest` | `crates/daemon/src/runtime/ipc.rs:862-866` | the request is one atomic write of the shared state |
| `Daemon.Daemon.ClearWarningRequest` | `crates/daemon/src/runtime/ipc.rs:908-913` | the request is one atomic write of the shared state |
| `Daemon.Daemon.CommitVerifyUpdate` | `crates/daemon/src/runtime/cycle.rs:572-694` | the verify fields and their snapshot are changed under the commit lock |
| `Daemon.Daemon.MergeCycleState` | `crates/daemon/src/runtime/cycle.rs:65-75` | the merged state keeps the requests' and verification's fields |
| `Daemon.Daemon.CommitCycleState` | `crates/daemon/src/runtime/cycle.rs:100-115` | with other tasks at work in between, exactly one commit of this cycle happens and the lock is free afterwards |
| `Daemon.Daemon.RunCycle` | `crates/daemon/src/runtime/cycle.rs:189-372` | with other tasks at work at every step, a cycle performs exactly the commit that the state it started from, the changed paths, the probes and the safe mode it saw call for, once, and none if the engine fails; a changed path is never skipped |
| `Leases.Insert` | `crates/core/src/backup/versioned/operation_lock.rs:57-60` | the ordered set stays strictly ordered and gains exactly the element |
| `Leases.NormalizeDestinations` | `crates/core/src/backup/versioned/operation_lock.rs:53-60` | the list is the canonical destinations, strictly ordered, each once; one invalid destination refuses them all before any lock |
| `Leases.Exclusion` | `crates/core/src/backup/versioned/operation_lock.rs:62-67` | in every reachable state a store has at most one holder, and what is locked is held |
| `Leases.NoSelfWait` | `crates/core/src/backup/versioned/operation_lock.rs:62-67` | no operation waits for a lease it holds, even with aliased or repeated destinations |
| `Leases.NoWaitCycle` | `crates/core/src/backup/versioned/operation_lock.rs:53-67` | no chain of waiting operations of any length is a cycle |
| `Leases.Progress` | `crates/core/src/backup/versioned/operation_lock.rs:70-115` | while any operation is under way, some operation can go on without a timeout |
| `Leases.AllFinish` | `crates/core/src/backup/versioned/operation_lock.rs:53-115` | from every reachable state all operations can finish without one giving up, in a bounded number of steps |
| `Leases.LockTable.AcquireNext` | `crates/core/src/backup/versioned/operation_lock.rs:70-115` | polling takes the next lock only when it is free |
| `Leases.LockTable.ReleaseAll` | `crates/core/src/backup/versioned/operation_lock.rs:22-32` | dropping the leases frees them all |
| `Leases.LockTable.AcquireStoreLeases` | `crates/core/src/backup/versioned/operation_lock.rs:53-67` | while others run, either every destination's store is held exclusively or none is |
| `Scrub.Bezout` | `crates/core/src/backup/versioned/scrub.rs:221-226` | the greatest common divisor is a combination of its arguments |
| `Scrub.GcdDivides` | `crates/core/src/backup/versioned/scrub.rs:221-226` | it divides both arguments |
| `Scrub.GcdGreatest` | `crates/core/src/backup/versioned/scrub.rs:221-226` | every common divisor divides it |
| `Scrub.GreatestCommonDivisor` | `crates/core/src/backup/versioned/scrub.rs:221-226` | the loop computes it |
| `Scrub.CoprimeStep` | `crates/core/src/backup/versioned/scrub.rs:203-212` | the search ends, at the first stride from 97 on (modulo the number of blobs) that is coprime to that number |
| `Scrub.PositionReached` | `crates/core/src/backup/versioned/scrub.rs:213-218` | some stride reaches any given position |
| `Scrub.StrideVisitsAll` | `crates/core/src/backup/versioned/scrub.rs:213-218` | n strides visit every position exactly once |
| `Scrub.SelectHashes` | `crates/core/src/backup/versioned/scrub.rs:188-219` | a sample has exactly min(sample, n) entries at pairwise distinct positions, the first at the seed, each further one stride on; a sample of all is the whole list |
| `Browse.Materialize` | `crates/core/src/backup/versioned/browse.rs:329-378` | success adds exactly the version's marked tree; no step touches anything unowned; it fails only on an I/O error or if a name is taken |
| `Browse.ForeignMarkerDuplicates` | `crates/core/src/backup/versioned/browse.rs:359-366` | while a version is staged, versions stay unique if and only if its own files carry no marker of a version that is managed |
| `Browse.ForeignMarkerExample` | `crates/core/src/backup/versioned/browse.rs:359-366` | a concrete view in which they do not |
| `Browse.ScanPrevious` | `crates/core/src/backup/versioned/browse.rs:380-399` | the map finds every managed tree; it fails only on an unreadable marker or a duplicate |
| `Browse.ArchiveLatest` | `crates/core/src/backup/versioned/browse.rs:110-143` | the old Latest is archived, removed or kept; an unowned one is refused; it fails only on an I/O error or where the view holds something it may not touch |
| `Browse.SyncOne` | `crates/core/src/backup/versioned/browse.rs:146-163` | a previous version gets its tree, renamed or materialised, under its preferred or alternate name; it fails only on an I/O error or if both names or the stage are taken |
| `Browse.RemoveStale` | `crates/core/src/backup/versioned/browse.rs:165-169` | exactly the managed trees of versions no longer listed are removed |
| `Browse.ViewIsDetermined` | `crates/core/src/backup/versioned/browse.rs:96-173` | any two views of the same versions, in particular an incremental and a fresh one, hold the same trees |
| `Browse.SyncedShowsIff` | `crates/core/src/backup/versioned/browse.rs:96-173` | a synchronised view is the one a build from scratch would leave if and only if the trees it went on using held their versions before |
| `Browse.TruncatedStageShown` | `crates/core/src/backup/versioned/browse.rs:370-378` | a concrete view, left by a failed removal of a stage, whose truncated tree is then shown as the version |
| `Browse.SyncView` | `crates/core/src/backup/versioned/browse.rs:96-173` | from any view: nothing unowned is touched in any state; each version has at most one managed tree in every state if and only if it had at the start and no version staged in the run carried a marker of a version managed then; success leaves Latest and one tree per other version, with the right contents if and only if the reused trees were right before; failure means an I/O error or something in the view a sync may not touch |
| `Relocation.WalkReaches` | `crates/gui/src/commands/destination.rs:264-287` | when no directory is pending, every directory and file below the root has been seen |
| `Relocation.ListFiles` | `crates/gui/src/commands/destination.rs:264-287` | the worklist finds exactly the regular files of the tree, once each, and refuses exactly trees with a link |
| `Relocation.CopyAndVerify` | `crates/gui/src/commands/destination.rs:230-330` | success means every regular file of the old store is in the new one with the same content and nothing else is; the old store is intact in any case; it fails only on an I/O error, short space, or a folder that is not there, overlaps, is not empty or contains a link |
| `Relocation.SwapExchangesPaths` | `crates/gui/src/commands/destination.rs:109-124` | ids, watched sources and other destinations are unchanged, two paths are exchanged, and swapping again undoes it |
| `Relocation.NewestIsLatest` | `crates/gui/src/commands/destination.rs:172-200` | the newest time stamp occurs and none is later |
| `Relocation.VerifySecondary` | `crates/gui/src/commands/destination.rs:139-227` | a secondary is accepted if and only if both folders are there and differ, it is as recent for every watched source, and the new configuration is valid and scrubs clean |
| `Relocation.CanPromoteIff` | `crates/gui/src/commands/destination.rs:139-227` | in terms of the folders and indexes: for every enabled watched source of the main destination neither index is broken and the main one has no version newer than the secondary's newest |
| `Relocation.RemoveOld` | `crates/gui/src/commands/destination.rs:555-572` | the saved and running configuration, the new store and every file outside the old folder are unaffected by removing it; success leaves nothing of it |
| `Relocation.MoveStore` | `crates/gui/src/commands/destination.rs:485-582` | copy, save, restart, remove: whichever step fails, every state is safe, also for files outside the two folders; success saves and runs the configuration with the new path in the moved destination and nothing else changed; it fails only on an I/O error, short space or a folder that cannot be moved |
| `Relocation.PromoteSecondary` | `crates/gui/src/commands/destination.rs:405-483` | the promotion is saved only after verification, and no file is touched; it fails only on an error or if verification does |
| `Relocation.Relocate` | `crates/gui/src/commands/destination.rs:338-582` | in every state of every run the path in the saved configuration leads to the old store, intact, or to a copy with all its files, or to the secondary at the requested path that passed verification, with the two paths exchanged; the saved configuration is the original or differs only in that path; the old store is incomplete only after the new path is saved and the daemon runs with it; a request is refused if and only if its id or target is, and failure has a cause; no file outside the old folder is lost in any state, and after the removal a destination has kept all its files if and only if none lay inside |
| `Relocation.SparedIff` | `crates/gui/src/commands/destination.rs:555-561` | once the old folder is gone, a folder has kept all its files if and only if none of them lay inside it |
| `Relocation.NestedDestinationLost` | `crates/gui/src/commands/destination.rs:555-561` | a concrete configuration with a second destination inside the moved one: the move is safe for the moved store and the second one is lost |
| `Scheduler.CapacityKept` | `tools/desktopctl/grid_orchestrator.py:606-651` | in every interleaving the active count of a class is its dispatched, not released jobs, it is within capacity although the check is outside the lock, and no job is dispatched twice |
| `Scheduler.DispatchCounts` | `tools/desktopctl/grid_orchestrator.py:643-648` | a dispatch adds one job to its class |
| `Scheduler.ReleaseCounts` | `tools/desktopctl/grid_orchestrator.py:767-770` | a release takes exactly one away, so the lower bound of zero never applies |
| `Scheduler.RoundServes` | `tools/desktopctl/grid_orchestrator.py:606-651` | in every run, between a snapshot of the queue and the end of its round each job that was queued has been dispatched or was looked at when its class was at capacity |
| `Scheduler.Orchestrator.Start` | `tools/desktopctl/grid_orchestrator.py:643-651` | the round goes on with the rest of the queue, or the scheduler has died of an error |
| `Scheduler.Orchestrator.Lease` | `tools/desktopctl/grid_orchestrator.py:643-648` | the job is dispatched if and only if it is still queued under the lock, and has been dispatched by then in any case |
| `Scheduler.Orchestrator.Round` | `tools/desktopctl/grid_orchestrator.py:606-617` | in one round among other threads every queued job gets dispatched or was passed over when its class was full |
| `LogTail.LossySplits` | `crates/gui/src/api/logs_api.rs:251-252` | lossy decoding splits at newlines, whatever bytes surround them |
| `LogTail.LinesSplit` | `crates/gui/src/api/logs_api.rs:171-178` | the lines of a text are those up to a newline and those after it |
| `LogText.LossyOfUtf8` | `crates/gui/src/api/logs_api.rs:251-252` | lossy decoding of a text's UTF-8 bytes gives the text back |
| `LogText.LinesOfWritten` | `crates/gui/src/api/logs_api.rs:171-178` | a text written as lines with either line ending is split into exactly those lines |
| `LogText.TailOfWritten` | `crates/gui/src/api/logs_api.rs:171-178` | the tail of a log written as lines is its last lines, as many as asked for, in order |
| `LogTail.EnoughNewlines` | `crates/gui/src/api/logs_api.rs:171-178` | an end of the file with more newlines than lines asked for has the tail of the whole file |
| `LogTail.ReadBack` | `crates/gui/src/api/logs_api.rs:221-243` | the chunks are the end of the file; the loop stops at its start, with enough newlines, or at the cap |
| `LogTail.ReadTail` | `crates/gui/src/api/logs_api.rs:187-255` | the result is the tail of the whole file whenever fewer bytes than the cap were read, and for certain if the cap covers the file or enough newlines |

## Left out

- Replication.FilesIdentical: promises nothing for a difference reported after reads of unequal length, because the source then reports one for equal files too.
- Replication.ValidatePlans: says nothing about a refusal after such a comparison or an I/O error.
- Replication.ReplicateOnePair: leaves out the readable view sync at the end of a pair, which is modelled on its own in `Browse.dfy`.
- Blobs.PlainRoundTrip: says nothing of a plain file of 14 bytes or more that begins with a magic, because what it decodes to depends on the bytes that follow; a restore of it is refused unless that is the file itself (`Restore.ContentNeverWrong`).
- RestoreFiles.RestoreSelected: takes temporary file names as given and distinct from the names in selected paths; the folders above the restore root are not modelled.
- Browse.SyncView: starts from an existing source folder and takes the names of staging directories as different from readable names; finding or creating it and removing the view of an encrypted store are not modelled.
- Relocation.Relocate: takes destination paths as canonical and the daemon as not writing once it is paused.
- Leases.NormalizeDestinations: takes the canonical path of a destination from a function, and two canonical paths as two stores.
- Cycle.NoLostUpdates: covers one daemon process up to its shutdown, where the state is saved once more outside the commit lock.
- The loop over all configured pairs and its summary: it repeats one pair and adds up counters.
- Reporting counters of a restore (directories created, extraneous files) and modification times beyond their recorded value.
- Free space, timeouts, throttling, fsync and directory sync: a failure at most.
- Which manifests and blobs a scrub looks up, beyond the sampling of hashes.
- Writing a new version to a store: its source is not part of this model.
- Ciphers, compression, hashing, JSON and TOML: taken as functions.
- The request transport, service management, desktop interface, worker sessions and log filtering: interfaces and external tools.
