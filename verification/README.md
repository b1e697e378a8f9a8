# Efes, verified

Efes is a small distributed file store: a tracker keeps its metadata in SQL, storage
servers keep files on their disks, and clients upload in chunks that may be resumed. This
project models its four layers in Dafny and proves them on top of each other.

1. **Checksums.** The table-driven and the slicing-by-8 CRC-32 against division by a
   polynomial one bit at a time (the appendix in section 8 of RFC 1952), and the
   streaming SHA-1 with its circular schedule of sixteen words against RFC 3174, sections
   4, 5 and 6.1. Both may be cut anywhere, written to text, read back and continued.
   The well-known digest of "abc" and the check value of the nine digits come out.
   `Words`, `Codec`, `Crc32Spec`, `Crc32Tables`, `Crc32`, `Crc32Laws`, `Sha1Spec`,
   `Sha1Laws`, `Sha1Block`, `Sha1State`, `Sha1`, `Marshal`.
2. **Resumable upload.** The client's retry loop and chunk loop, the hashing file it reads
   from, and the storage server's file receiver, over a network that cuts bodies and loses
   requests and responses, and disks that fail to open, seek, write, sync or save. Success
   means that the server stores exactly the source. `FileInfo`, `Receiver`, `Sha1File`,
   `Protocol`, `Upload`.
3. **The cluster.** Three tables, disks, delete queues and drains as a state machine of
   twenty kinds of steps that interleave freely. Live data is never lost, the whole
   behaves like a map from keys to contents, and late delete tasks do no harm; where this
   rests on an assumption, the exact condition and a run that loses data without it are
   proved too. The same steps are then carried out statement by statement by methods on
   shared state. `Cluster`, `ClusterEffects`, `ClusterRun`, `ClusterLimits`, `Duplicates`,
   `DuplicateDrains`, `DuplicateLosses`, `Database`, `Tracker`, `Cleaners`, `Drain`.
4. **Names, sizes and placement.** `Text`, `Naming`, `ChunkSize`, `Placement`.

Objects that the program updates in place are classes whose methods are proved against
functions on values (`Value()`, `State()` or `Contents()` gives the value); the laws are
lemmas about those functions. `dafny verify dfyconfig.toml` checks everything.

## Where the code does not keep what one would expect

In each case the model follows the code; a lemma says exactly when the expected property
holds, and where the failing input is not obvious another one gives it.

- Reading back a partial CRC always selects the IEEE table, so a digest over another
  polynomial does not survive (`Marshal.DecodeEncodeCrc`).
- Finishing a SHA-1 panics for some states that can be read back from a text, since the
  text may name any buffer position (`Sha1State.FinishEmpties`, `Marshal.DecodedTexts`).
- After a forward seek that is refused, the reader has moved and the hashing file has not
  noticed; reading on hashes the wrong bytes (`Sha1File.SeekInSync`,
  `Sha1File.ForwardSeekCorrupts`).
- The checksums handed out at the end of an upload cover the bytes up to the announced
  length. After a failed sync the stored file can be longer, and a client that then sends
  something else completes a file with a tail the checksums do not cover
  (`Receiver.PatchSums`, `Receiver.StaleTail`). A client that sends one unchanging source
  is safe (`Upload.Client.SendFile`).
- The receiver drops the error of a write that is refused, for example by a full disk, and
  answers 200 without checksums (`Protocol.RefusedWriteAnswers`). If that PATCH was the one
  that reaches a known size, the client takes it for the end; only its comparison of
  hashes then fails, and it does not try again. For an unknown size, and before the end,
  the next request meets the wrong offset and the retry recovers
  (`Upload.Client.SendFile`).
- If the refused write has stored some of its bytes, the offset counts them and the digests
  have not seen them: offset and checksums stay in step exactly unless such a torn write is
  saved (`Receiver.SaveInv`). The upload can still be completed, the file is right and the
  checksums are not (`Protocol.TornUpload`). Again the client's comparison is what
  protects it: success means that file and SHA-1 are those of the source even then
  (`Upload.Client.SendFile`).
- A seekable source cannot always be resumed: if the server still has an offset file from
  an earlier upload, as a drain may leave one on its destination, and the first request
  does not reach it, the client has read less than the server then reports, and a seek
  forward is refused on every retry (`Upload.StrandsIff`, `Upload.Client.SendFile`).
- A drain must update the row while its copy is younger than the disk cleaner's limit
  (`ClusterLimits.UpdateInTimeIff`, `ClusterLimits.LateUpdateLosesData`).
- The disk cleaner asks two questions of the database, and an upload that is closed
  between them is missed by both (`ClusterLimits.VisitRaceIff`,
  `ClusterLimits.VisitRaceLosesData`, and for fids that drains move
  `ClusterLimits.VisitDrainIff`).
- Cleaning up duplicate rows is safe on its own (`Duplicates.CleanupKeepsFile`), but a
  drain that moves a row to a device with a waiting delete task loses the file
  (`DuplicateLosses.UnguardedDrainLosesData`), and so do two drains that copy a file to one
  device (`DuplicateLosses.TwoDrainsLoseData`). A drain may write to a device, whatever
  follows, exactly if the device has no row of the fid and no row is about to follow a copy
  there (`DuplicateDrains.WriteIff`), and it may go on with its copy exactly if its row
  cannot follow, or the same holds and no delete task is waiting
  (`DuplicateDrains.CopiedIff`). Under these two guards no run of cleaners, delete queues
  and drains loses the file (`DuplicateDrains.GuardedCleanupKeepsFile`).
- The disk cleaner's parser cannot read the name of fid 0, which the database never hands
  out (`Naming.CleanerReadsBackIff`).
- A chunk size whose product with its unit does not fit 64 bits wraps around
  (`ChunkSize.ParseExactIff`), and so does an announced file size of 2^63 bytes or more,
  which then qualifies every device (`Placement.RoomIff`).

## Assumptions

- Requests on one path are handled one after another. Creating a file with its offset
  file, and rewriting the offset file, each happen completely or not at all.
- A successful response is only seen by a client whose whole body was sent, or whose body
  the server has stopped reading because a write was refused: a connection that broke
  while sending cannot carry the answer.
- The source does not change during an upload, and the chunk size is positive.
- A SQL transaction is one step, and so is a visit of the disk cleaner with its age check,
  its queries and its removal. Fids come from a counter that is never set back.
- A client closes an upload only after it has succeeded, and does not send to a fid after
  that. The step Finish only records that the device has exactly the client's bytes, which
  is what the success of `Upload.Client.SendFile` says; the bytes themselves arrive by any
  number of writes before it. The same holds for the copy of a drain. Requests that were
  under way when an upload expired may still land.
- A device drains one file at a time, to a device that is not draining, and updates the
  row within the disk cleaner's limit. The tracker's own choice of a destination satisfies
  this unless the operator lists devices by hand (`Placement.DrainAvoidsSource`).
- Delete tasks may be lost, and may be delivered late or again.

## Model

| member | source | states |
|---|---|---|
| Crc32Spec.AdvanceXor | crc32.go:106-118 | the shift register is linear: dividing a sum is summing the divisions, for every polynomial and number of bits |
| Crc32Spec.ByteStepsIsDivide | crc32.go:122-128 | dividing eight bits at a time is dividing the message bit by bit |
| Crc32Spec.CrcConcat | crc32.go:76-86 | the register after two writes is that after their concatenation |
| Crc32Tables.TableStep | crc32.go:122-128 | one lookup and one shift divide one byte |
| Crc32Tables.NextEntry | crc32.go:138-149 | the step from table j to j+1 advances every entry by one zero byte |
| Crc32Tables.ByteStepsSuperpose | crc32.go:153-169 | start value and message contribute independently |
| Crc32Tables.SliceStep | crc32.go:153-169 | the eight lookups of slicing-by-8 divide eight bytes |
| Crc32.SimplePopulateTable | crc32.go:106-118 | the nested loops fill table 0 with the register after each byte, for any polynomial |
| Crc32.SimpleMakeTable | crc32.go:98-102 | a new table holds table 0 |
| Crc32.SimpleUpdate | crc32.go:122-128 | the byte-table loop computes bit-by-bit division, for every start value and input |
| Crc32.FillColumn | crc32.go:141-147 | the inner loop fills one column of the tables 1 to 7 and touches nothing else |
| Crc32.SlicingMakeTable | crc32.go:138-149 | table j is table 0 advanced by j zero bytes, for all eight |
| Crc32.SlicingUpdate | crc32.go:153-169 | slicing-by-8 with its cutoff and tail computes bit-by-bit division, for every start value and input |
| Crc32.Crc32Digest.Write | crc32.go:76-86 | whichever path the table selects, the register becomes that of the longer message |
| Crc32.Crc32Digest.Sum | crc32.go:90-93 | appends the register, most significant byte first |
| Crc32Laws.CheckValue | crc32.go:25 | over the IEEE polynomial the nine digits have the check value 0xCBF43926 |
| Sha1Laws.ChooseBits | sha1.go:148 | the function of the first twenty rounds takes each bit from c where b has a one and from d where it has a zero |
| Sha1Laws.MajorityBits | sha1.go:176 | where two of the words agree, the function of rounds 40 to 59 agrees with them |
| Sha1Laws.ParityBits | sha1.go:167 | the function of the other rounds is d where b and c agree and the opposite elsewhere |
| Sha1Laws.Rotation1 | sha1.go:156 | the rotation by one doubles the number modulo 2^32 and brings the top bit around |
| Sha1Laws.Rotation5 | sha1.go:149 | the rotation by five multiplies by 32 and brings the top five bits around |
| Sha1Laws.Rotation30 | sha1.go:150 | the rotation by thirty is undone by two rotations by one |
| Sha1Laws.ConstantsAreRoots | sha1.go:122-127 | the constants are the square roots of 2, 3, 5 and 10, cut off after 30 binary places |
| Sha1Laws.InitialPattern | sha1.go:21-25 | the byte pattern of the initial registers |
| Sha1Laws.DigestOfAbc | sha1.go:82-203 | the digest of "abc" is the one in section 7.3 of RFC 3174 |
| Sha1Block.CircularStep | sha1.go:155-156 | in the circular array of sixteen words, slot i mod 16 becomes word i of the 80-word schedule |
| Sha1Block.MajorityFastIsMajority | sha1.go:173-176 | the cheaper majority form is the one of RFC 3174 |
| Sha1Block.BlockRounds | sha1.go:129-203 | the four round loops over the circular schedule leave the registers that 80 rounds over the 80-word schedule leave |
| Sha1.Sha1Digest.Block | sha1.go:129-203 | any number of blocks is compressed as RFC 3174 section 6.1 says |
| Sha1Spec.PaddingFills | sha1.go:89-104 | marker, zeros and length bring every message to a whole number of blocks |
| Sha1State.UpdateAbsorbs | sha1.go:58-79 | writing p to a state that has absorbed m gives one that has absorbed m + p, whatever the buffer held |
| Sha1State.UpdatePosition | sha1.go:58-79 | where a write moves the buffer position, from any state it does not panic on |
| Sha1State.SumIsSha1 | sha1.go:82-120 | the digest of a state is the RFC 3174 hash of all it absorbed, its bit length taken modulo 2^64 |
| Sha1State.FinishEmpties | sha1.go:58-112 | for every state that a text can hold, with any buffer position: finishing it slices within the buffer and leaves it empty, so does not panic, exactly if the position agrees with the length, or lies outside the buffer but not beyond it while the length is a number of whole blocks |
| Sha1.Sha1Digest.Reset | sha1.go:36-44 | the initial registers and an empty buffer |
| Sha1.Sha1Digest.Write | sha1.go:58-79 | updates the fields in place as Update does on values |
| Sha1.Sha1Digest.Sum | sha1.go:82-87 | gives the digest and leaves the object as it was |
| Sha1.Sha1Digest.CheckSum | sha1.go:89-120 | pads and finishes the object; the digest is that of its former value |
| Marshal.DecodeEncode | sha1_efes.go:25-64 | reading what was written restores every field of a partial SHA-1 |
| Marshal.EncodeDecode | sha1_efes.go:40-64 | a text is accepted exactly if it is 200 hexadecimal digits, and then it is what writing gives, up to case |
| Marshal.TextLayout | sha1_efes.go:25-38 | which bytes of the text each field occupies, and how: two digits a byte, words and numbers with the highest byte first, the position in two's complement |
| Codec.DigitsRead | sha1_efes.go:44-48 | hexadecimal digits of both cases are read, and nothing else |
| Marshal.DecodedFinishIff | sha1_efes.go:40-64 | whether a text that is accepted can be finished |
| Marshal.DecodedTexts | sha1_efes.go:40-64 | texts on both sides: of the positions a fresh state could be read back with, those up to 0 and 64 finish, all others panic |
| Marshal.MarshalSha1 | sha1_efes.go:25-38 | appending the fields one by one gives the text of the object's value, whatever its buffer position |
| Marshal.UnmarshalSha1 | sha1_efes.go:40-64 | all fields are replaced by those of the text, or none if the text is refused |
| Marshal.DecodeEncodeCrc | crc32_efes.go:18-40 | the register always survives; the whole digest does exactly over the IEEE polynomial |
| Marshal.MarshalCrc | crc32_efes.go:18-24 | the text reads back as the register |
| Marshal.UnmarshalCrc | crc32_efes.go:26-40 | register and table are replaced, the table by the IEEE one; a refused text changes nothing |
| Marshal.SuspendAndResume | sha1_efes.go:25-64 | however a message is cut and suspended, both checksums are those of one uninterrupted pass |
| FileInfo.ExtendIsDigest | filereceiver.go:208-209 | both partial checksums stay those of exactly the bytes stored |
| FileInfo.SumsAreChecksums | filereceiver.go:98-101 | the headers sent at the end are the checksums of the message absorbed |
| FileInfo.KnownTexts | filereceiver.go:98-101 | the texts of the SHA-1 of "abc" and of the CRC-32 of the nine digits |
| FileInfo.ParsedWritten | fileinfo.go:29-58 | an offset file is read back as it was saved |
| Receiver.SaveUsable | filereceiver.go:171-227 | every outcome of a PATCH leaves an offset file that can be gone on with: it lies within the data file, and both digests have absorbed one message |
| Receiver.SaveInv | filereceiver.go:171-227 | and a truthful one, whose checksums are in step with the data file, exactly unless the PATCH saves an offset that counts the bytes of a torn write |
| Receiver.ServeInv | filereceiver.go:42-127 | every request without a torn write keeps offset and checksums in step with the data file |
| Receiver.RunUsable | filereceiver.go:42-127 | any sequence of requests with cut bodies, failing system calls and removals from outside leaves a usable offset file |
| Receiver.RunInv | filereceiver.go:42-127 | and without torn writes a truthful one, in step with the data file |
| Receiver.DeleteAndPost | filereceiver.go:42-127 | a DELETE succeeds exactly on an unfinished upload whose two files can be removed, and clears it, and otherwise leaves the data; a POST starts from nothing |
| Receiver.ConflictKeepsBytes | filereceiver.go:171-194 | when exactly a conflict is reported, and that it leaves the data file alone |
| Receiver.ConflictNamesOffset | filereceiver.go:54-92 | a HEAD answers with the offset to go on from; a conflict names that offset, or zero if only the data file is missing |
| Receiver.SaveEnds | filereceiver.go:171-227 | how every PATCH ends: which of success, conflict and failure, by what it finds and which call fails |
| Receiver.SaveLeaves | filereceiver.go:171-227 | what every PATCH leaves on the disk, whether it is turned away, breaks off or succeeds |
| Receiver.SuccessNamesOffset | filereceiver.go:84-103 | a success names the offset it has got to, which the offset file then holds until the upload is complete; a failure says nothing |
| Receiver.WriteAtBytes | filereceiver.go:204-209 | every byte of the data file after a write |
| Receiver.PanicAnswers | server.go:82-89 | when the digest in the offset file cannot be written to, the data is stored and the answer is an empty success |
| Receiver.PatchStores | filereceiver.go:204-227 | what a successful PATCH has stored, and that its checksums are those of all that has been hashed, with refused and torn writes |
| Receiver.PatchSums | filereceiver.go:204-227 | without torn writes they are those of the bytes stored, and cover the whole file exactly if the old one was not longer |
| Receiver.StaleTail | filereceiver.go:204-227 | a run in which they do not cover it |
| Receiver.FileReceiver.CreateFile | filereceiver.go:148-165 | an empty file with a fresh offset file, or no change |
| Receiver.FileReceiver.SaveFile | filereceiver.go:171-227 | changes files and reports exactly as Save says, for every failing call |
| Receiver.FileReceiver.ServeHTTP | filereceiver.go:42-127 | dispatches and answers exactly as Serve says; a panic is recovered and answered by an empty 200 |
| Sha1File.ReadKeepsInSync | sha1file.go:23-37 | a read hashes each byte once and never meets missing data |
| Sha1File.SeekInSync | sha1file.go:39-49 | a seek leaves the wrapper in step exactly if the reader refused it or it does not go forward |
| Sha1File.RunOpsInSync | sha1file.go:23-53 | any mix of reads and successful seeks: the digest is the hash up to the high-water mark |
| Sha1File.ForwardSeekCorrupts | sha1file.go:39-49 | going on after a refused forward seek hashes the wrong bytes |
| Sha1File.Source.Seek | noseek.go:25-30 | a plain stream accepts only a seek to where it is |
| Sha1File.Sha1File.Read | sha1file.go:23-37 | updates position, high-water mark and digest in place as ReadStep does |
| Sha1File.Sha1File.Seek | sha1file.go:39-49 | updates reader and position in place as SeekStep does, with the same verdict |
| Protocol.PatchAgrees | filereceiver.go:171-227 | a PATCH with part of the source keeps the stored file a prefix of the source, whatever fails and however much is stored |
| Protocol.ServeUpload | filereceiver.go:42-127 | a successful response means: closed with checksums, the right ones if no write was torn, or waiting without checksums at the end of what has been stored |
| Protocol.RefusedWriteAnswers | filereceiver.go:208-227 | a PATCH of the whole source of which a write is refused is answered 200 without checksums; the server waits where the write ended |
| Protocol.TornUpload | filereceiver.go:208-227 | the rest then completes the upload: the file is the source, and the checksums are those of the source without the bytes of the torn write |
| Protocol.ServeRestart | filereceiver.go:42-127 | a PATCH that starts over leaves the server at most where its body ends, or is turned away and changes nothing |
| Protocol.ServeOrphaned | filereceiver.go:190-194 | a PATCH that meets an offset file without its data is refused and clears it |
| Protocol.RequestCount | write.go:120-144 | the number of PATCHes for every size and chunk size, known or unknown |
| Protocol.RequestsCover | write.go:120-144 | their ranges cover the source consecutively and only the last announces the end |
| Upload.Client.Patch | write.go:154-172 | one PATCH advances client and server together, however much arrives; what an answer seen by the client means, also if a write was refused |
| Upload.Client.GetOffset | write.go:174-185 | reports the offset the server will accept |
| Upload.Client.FinishFile | write.go:188-195 | closes an upload of unknown size: without an error the server has stored all of it |
| Upload.Client.SendChunk | write.go:125-142 | one chunk and the three ways in which it can be the last |
| Upload.Client.Send | write.go:120-144 | without an error the source is stored and closed, or its size is known, the client has read it all, and the server has refused to store the last part and sent no checksums; without failures exactly the predicted requests are made |
| Upload.Client.Attempt | write.go:80-107 | one try of the retry loop: the first asks from the start and every later one from the offset that the server has; on a quiet network it then makes exactly the requests that are left; the client is never behind the server once the first request has not left it there, and failures are used up |
| Upload.Client.Retry | write.go:76-111 | the loop ends with the first try that reports no error, at the first status 404, or after as many errors as it has patience for; with patience to outlast the failures and no expired fid, the first of these exactly if the first request did not leave the client behind the server |
| Upload.StrandsIff | write.go:80-100 | a first request can leave the client behind the server exactly on a path that does not start from nothing |
| Upload.Client.SendFile | write.go:68-117 | end to end: success stores exactly the source, returns its SHA-1 and leaves no offset file, on every disk and network; the hash comparison fails exactly if the last answer has another SHA-1, and if no write is torn exactly if the size is known and the server refused to store the last part; for a seekable source and every script of failures that ends, with retries to outlast it and no expired fid, the upload ends in success or in that comparison exactly if the first request did not leave the client behind the server, and otherwise every seek is refused until it gives up; a status 404 ends it at once, and is its result exactly if it occurs |
| Cluster.CreateOpenInv | tracker.go:300-309 | opening an upload keeps the cluster's invariant |
| Cluster.FinishInv | write.go:188-195 | so does a client learning that the device has all of its upload |
| Cluster.UploadInv | filereceiver.go:204-213 | so do writes of unfinished and of expired uploads |
| Cluster.CloseInv | tracker.go:496-563 | so does create-close, with or without an old file; the REPLACE never displaces a row, and the request fails only for a missing key or upload |
| Cluster.DropFidInv | tracker.go:617-631 | so does deleting a fid and queueing its tasks |
| Cluster.DropFidPublishes | tracker.go:617-658 | the fid is gone from both tables, and exactly the devices that had it get a task |
| Cluster.ExpireInv | tempfile.go:35-85 | so does expiring uploads and queueing their tasks |
| Cluster.ConsumeInv | server.go:347-382 | so does carrying out a task, acknowledged or not |
| Cluster.LoseInv | tracker.go:633-658 | so does losing one |
| Cluster.VisitInv | cleandisk.go:58-136 | so does a visit of the disk cleaner |
| Cluster.CheckFidIdle | cleandevice.go:93-157 | in every reachable state the device cleaner finds nothing to correct |
| Cluster.DrainWriteInv | drain.go:125-128 | the invariant also survives whatever a drain has sent so far |
| Cluster.DrainCopyInv | drain.go:105-128 | and a drain learning that its copy is complete |
| Cluster.DrainSkipInv | drain.go:91-101 | and its going on with the next file |
| Cluster.DrainUpdateInv | drain.go:129-132 | and updating the row, if the copy is complete |
| Cluster.DrainRemoveInv | drain.go:133 | and removing the source |
| Cluster.DeadNotReliedOn | server.go:369-382 | nothing the cluster relies on belongs to a fid that is gone |
| ClusterEffects.CreateOpenEffect | tracker.go:300-309 | opening an upload uses a fid nobody has used |
| ClusterEffects.WriteEffect | filereceiver.go:204-213 | a write replaces the file and is as old as the moment |
| ClusterEffects.CloseReplies | tracker.go:481-563 | which request gets which reply |
| ClusterEffects.CloseEffect | tracker.go:481-573 | entry by entry: after Ok the key names the fid, which is on one device; what the key named is gone, and exactly the devices that had it get one task each; after any other reply nothing has changed |
| ClusterEffects.CloseOtherKeys | tracker.go:539 | no other key changes, unless it named the old or the new fid |
| ClusterEffects.DropFidEffect | tracker.go:617-658 | deleting a fid, entry by entry, with one task for each of its devices |
| ClusterEffects.DeleteKeyEffect | tracker.go:575-615 | deleting a key deletes its fid |
| ClusterEffects.ExpireEffect | tempfile.go:35-85 | exactly the uploads beyond the limit go, with one task each |
| ClusterEffects.VisitEffect | cleandisk.go:58-136 | exactly when a visit removes the file |
| ClusterEffects.CheckEffect | cleandevice.go:93-157 | which rows the device cleaner strikes off, and which devices get a task |
| ClusterEffects.ConsumeEffect | server.go:347-382 | the file is gone, and the task if acknowledged |
| ClusterEffects.StartDrainEffect | drain.go:71-86 | a drain starts with the fids of the device's rows |
| ClusterEffects.DrainUpdateEffect | drain.go:129 | the row moves if there is one |
| ClusterEffects.DrainRemoveEffect | drain.go:133 | the source is gone and nothing else |
| ClusterEffects.AlwaysEnabled | tracker.go:481-631 | requests to the tracker and the work of the cleaners and queues may happen in any state |
| ClusterRun.StepInv | tracker.go:481-631 | every step of the cluster keeps the invariant |
| ClusterRun.RunInv | tracker.go:481-631 | so does every interleaving of steps |
| ClusterRun.LiveDataIsNeverLost | tracker.go:481-631 | from the empty cluster, after any interleaving: every row of file_on has the complete upload on its device, every key has exactly one row, and no task names a stored or uploading fid |
| ClusterRun.PathLeadsToContents | tracker.go:193-223 | any row that get-path may answer with leads to the contents of the key |
| ClusterRun.ServedIsContents | tracker.go:193-223 | every key is served its contents and nothing else |
| ClusterRun.StepRefines | tracker.go:481-631 | create-close is a map update, delete a map removal, and every other step leaves the map from keys to contents alone |
| ClusterRun.UntouchedKey | tracker.go:481-631 | a key keeps its file and contents through any run that neither closes an upload under it nor deletes it |
| ClusterRun.StoredStaysServed | tracker.go:481-573 | durability: after create-close the key is served exactly the uploaded bytes, through any run that neither closes an upload under it nor deletes it |
| ClusterRun.DeletedStaysGone | tracker.go:575-615 | a deleted key is served nothing until an upload is closed under it |
| ClusterRun.OpenUploadLasts | tempfile.go:56-85 | an open upload keeps its fid and device for as long as the limit allows, whatever else goes on |
| ClusterRun.DeadForever | tracker.go:603-614 | a fid that is gone never comes back |
| ClusterRun.LateTask | server.go:311-382 | a pending task may be carried out after any further run, once more or late, without any key noticing |
| ClusterLimits.RemovalIff | cleandisk.go:58-136 | a file may go exactly if no row, finished upload or young copy relies on it |
| ClusterLimits.UpdateRowIff | drain.go:129-132 | a drain may update the row exactly if the file is gone or its copy complete |
| ClusterLimits.UpdateInTimeIff | drain.go:125-132 | a drain may wait with the update of the row, whatever else goes on meanwhile, exactly as long as its copy is younger than the disk cleaner's limit |
| ClusterLimits.VisitRaceIff | cleandisk.go:58-136 | the disk cleaner as it is, with any run between its two queries and before its removal: for a fid that no drain moves, the removal is safe exactly unless the fid was being uploaded to the device at the first query and is a live file at the removal |
| ClusterLimits.VisitDrainIff | cleandisk.go:58-136 | for every fid, drains included: after the second query and any run, the removal is safe exactly if at that moment no row lists the device and no drain has a young copy of the live file there |
| ClusterLimits.LiveWasClosed | tracker.go:481-573 | which takes a create-close of that fid in between |
| ClusterLimits.LateUpdateLosesData | drain.go:105-134 | a drain that is slower than the disk cleaner's limit loses the file |
| ClusterLimits.VisitRaceLosesData | cleandisk.go:119-136 | so does a create-close between the disk cleaner's two queries |
| Duplicates.CheckLeavesOne | cleandevice.go:93-145 | on a device that has the file, exactly its row is left |
| Duplicates.CleanupKeepsFile | cleandevice.go:93-177 | from any rows: if a listed device holds the file, one still does, after any work of the cleaners in any order |
| Duplicates.CleanupConverges | cleandevice.go:61-123 | once every listed device has run, exactly one is listed, and it holds the file |
| Duplicates.OneCopyRemains | cleandevice.go:125-145 | and if all tasks are carried out, exactly one copy is left |
| DuplicateDrains.UpkeepSafe | cleandevice.go:93-177 | what every step of the cleaners, the delete queues and the drains keeps under the guards for writing and for going on with a copy |
| DuplicateDrains.GuardedCleanupKeepsFile | cleandevice.go:93-177 | under the guards, from any rows and over any run of all of them: some listed device still has the whole file |
| DuplicateDrains.WriteIff | drain.go:125-128 | a drain may write anything to a device, so that the file is kept whatever follows under the guards, exactly if the device is not listed and no row is about to follow a copy there |
| DuplicateDrains.CopiedIff | drain.go:125-132 | it may go on with its copy exactly if its row cannot follow, or the destination may be written to and has no delete task waiting |
| DuplicateLosses.TwiceSafe | cleandevice.go:93-157 | tables the schema allows, with two rows of one file, in which the file is safe |
| DuplicateLosses.UnguardedDrainLosesData | cleandevice.go:125-145 | a run from those tables, allowed in each step but not guarded: a waiting task removes the last copy |
| DuplicateLosses.TwoDrainsLoseData | drain.go:105-134 | and one in which two drains copy the file to one device |
| Database.Store.ReplaceFile | tracker.go:539 | REPLACE makes room for the new row, or fails if file_on refers to what is in the way |
| Database.ReplaceFailsIff | tracker.go:539 | with the foreign key in force, REPLACE fails exactly if a row of file_on would be left without its file |
| Database.Store.DeleteFileRow | tracker.go:626-629 | a row of file that file_on refers to cannot go |
| Tracker.DeleteFidOnDB | tracker.go:617-631 | deletes rows in an order the foreign key allows, and returns the devices that had the fid |
| Tracker.PublishDeleteTask | tracker.go:633-658 | one task for each device |
| Tracker.CreateOpen | tracker.go:274-317 | for a size that parses, a fresh fid on a device that is well chosen for it, and its address there, from which the server reads that fid back; or no change |
| Tracker.GetPath | tracker.go:193-223 | the address of the key's file on a readable device, and none only if there is none |
| Tracker.CreateClose | tracker.go:481-573 | the transaction, statement by statement with rollback, has the reply of CloseReplies and the effect of CloseEffect |
| Tracker.DeleteFile | tracker.go:575-615 | by fid if given, else by key; rows and tasks as DropFid says, or no change |
| Tracker.RemoveOldTempfilesFromDB | tempfile.go:56-85 | exactly the uploads that are too old are deleted and returned with their devices |
| Tracker.RemoveOldTempfiles | tempfile.go:35-54 | and each gets a task: the effect of ExpireAll |
| Cleaners.DeleteFidOnDisk | server.go:369-382 | a missing file is no error; one that cannot be removed is |
| Cleaners.ProcessDeleteTask | server.go:342-366 | for each way to fail, exactly whether the file is gone, whether the task is off the queue, and whether the consumer goes on |
| Cleaners.DeliveryOutcome | server.go:347-366 | the same of the step a delivery amounts to |
| Cleaners.DeliveryInv | server.go:347-366 | however a delivery goes, the invariant is kept |
| Cleaners.ProcessDeleteTasks | server.go:311-367 | the consumer keeps the invariant, removes nothing without a task, takes one task off with each delivery, has removed the file of each if all can be removed, and leaves no task while the connection is up and it is not told to stop |
| Cleaners.VisitFile | cleandisk.go:58-109 | the effect of Visit: age first, then both tables, then removal |
| Cleaners.FidExistsOnDatabase | cleandisk.go:119-136 | found exactly if a row or an upload names the fid on this device |
| Cleaners.CleanDisk | cleandisk.go:58-117 | a whole walk removes exactly the garbage of the device |
| Cleaners.CleanDiskInv | cleandisk.go:58-136 | and nothing the cluster relies on |
| Cleaners.InList | cleandevice.go:159-168 | the search loop finds a value exactly if it is there |
| Cleaners.RemovedElements | cleandevice.go:170-177 | removing a value leaves exactly the others, in order |
| Cleaners.RemoveItem | cleandevice.go:170-177 | shifts the rest over the value in place and says how much of the array still counts; the slot beyond keeps its value |
| Cleaners.CheckFid | cleandevice.go:93-157 | lookup, stat and both deleting branches have the effect of Check |
| Cleaners.WalkOnDeviceFiles | cleandevice.go:61-73 | afterwards every row of the device has its file and is the only row of its fid, and no row went without reason |
| Drain.MoveFile | drain.go:105-134 | copy, row update and removal, as far as the outcome allows |
| Drain.MoveFidSafe | drain.go:105-134 | however far it gets, the invariant and every key's contents are kept |
| Drain.MovedAway | drain.go:125-133 | a move that gets all the way leaves row and data at the destination and neither at the source |
| Drain.MoveListed | drain.go:105-134 | a listed file is there to be moved, and its row follows exactly if it gets as far as the update |
| Drain.MoveFidDisks | drain.go:125-133 | what is on the disks afterwards, for each way to end |
| Drain.RunDrain | drain.go:64-103 | a run loses nothing and changes no contents; it stops early exactly at a shutdown before one of its files or at a file that fails, if told to; of the files it has been at exactly the rows of those that got as far as the update have moved, and those that got all the way are gone from the device |
| Text.ParseFormatted | server.go:338-344 | every 64-bit integer is read back from its decimal text, padded or not |
| Text.ParseSigns | tracker.go:285 | which signs and ranges are read, for signed and for unsigned numbers |
| Naming.ReceiverReadsBack | filereceiver.go:129-136 | the receiver finds every fid in its path, under any directory and extension and with any number of digits |
| Naming.SlashesAtEnd | filereceiver.go:129-136 | slashes at the end of a path change nothing |
| Naming.VivifyInjective | server.go:384-391 | no two fids share a path |
| Naming.KnownPath | server.go:388-391 | the path of one fid |
| Naming.URLReadsBack | tracker.go:331-333 | the server that is asked for an address finds the fid it was made for |
| Naming.AddressReadsBack | tracker.go:331-333 | scheme, host, port, device and path are all read back from an address |
| Naming.SharedDirectoryIff | server.go:388-391 | two fids of at most ten digits share a directory exactly if they differ in the last three digits only |
| Naming.CleanerReadsBackIff | cleandisk.go:89-94 | the disk cleaner's parser finds every fid but 0 |
| ChunkSize.ParsePrinted | chunksize.go:21-78 | every 64-bit size is read back as it was printed |
| ChunkSize.PrintUsesLargestUnit | chunksize.go:60-78 | the text is a number of the largest unit that divides the size |
| ChunkSize.ParseExactIff | chunksize.go:21-58 | the value is number times unit exactly if that fits 64 bits |
| ChunkSize.KnownSizes | chunksize.go:21-58 | what some settings mean |
| ChunkSize.Flag.Set | chunksize.go:21-58 | sets the size to what the text says, or leaves it alone |
| ChunkSize.Flag.String | chunksize.go:60-78 | the case split over local variables prints what Print gives |
| Placement.SelectElements | tracker.go:418-454 | a filter keeps exactly the devices that meet its criterion |
| Placement.SelectDescending | tracker.go:418-454 | and their order by free space |
| Placement.FilterSameHost | tracker.go:446-454 | the loop computes the filter |
| Placement.FilterSameRack | tracker.go:418-426 | the loop computes the filter |
| Placement.FilterSameZone | tracker.go:428-436 | the loop computes the filter |
| Placement.GetRackID | tracker.go:404-416 | the rack and zone of the first subnet with the client in it |
| Placement.NearestDevices | tracker.go:373-392 | the devices of the nearest of host, rack, zone and anywhere that has any |
| Placement.TierIsNearest | tracker.go:373-392 | the host goes before the rack and the rack before the zone |
| Placement.FindAliveDevice | tracker.go:335-402 | a device that is as near as any, with at least as much free space as half of those that are as near, rounded up; none only if no device qualifies |
| Placement.ChosenWorks | tracker.go:335-358 | the device chosen is alive, has reported within a minute, has room, and is one of those listed, if any are |
| Placement.RoomIff | tracker.go:280-290 | the devices found are known to have room exactly if the size is below 2^63 |

## Left out

- HTTP, SQL, AMQP, JSON, TOML, Sentry, metrics, logging, timers, start and shutdown: only
  their effects are modelled, as atomic steps, lost messages and cut bodies.
- Status, sorting, progress, command line, FUSE mount and dry runs: thin wrappers.
- Parsing of subnets and the random choice: a predicate and any value in range.
- io.Copy's buffer: the receiver writes and hashes a body in one go; by
  `Sha1State.UpdateAbsorbs` and `Crc32Spec.CrcConcat` pieces would give the same.
- The pauses between retries: how many failures end the upload is a parameter, where the
  client's back-off measures time and starts over after every chunk.
- ReadCounter (readcounter.go): its count is a local variable of `Upload.Client.Send`.
- Crc32.SlicingUpdate: the pointer to table 0 that it passes on is the first of eight
  separate arrays.
- Sha1Block.BlockRounds: the four statements that replace a schedule word are one method,
  `NextWord`, called by four loops.
- Receiver.FileReceiver.SaveFile: digests are values here; `Sha1` and `Crc32` prove the
  objects equal to them. When the handler panics over a digest that cannot be written to,
  the whole body has reached the data file; in the program it is only the first piece that
  io.Copy has read.
- Upload.Client.Send: the body of its loop is a method of its own, `SendChunk`.
- Upload.Client.SendFile: if the source cannot be read, the error is not modelled.
- Tracker.CreateClose: the query for the host's address cannot fail, since foreign keys
  lead to it.
- Tracker.PublishDeleteTask: publishing never fails here; a task that is not published is
  one that is lost, the step Lose.
- Tracker.GetPath: the creation time in the answer.
- Cleaners.CleanDisk: as Cleaners.VisitFile.
- Cleaners.VisitFile: files with other extensions, which are removed whatever they are,
  and offset files are not on the modelled disks; links and directories are skipped.
- Drain.RunDrain: runs by itself; that its parts may interleave with anything is the
  business of `ClusterRun`.
