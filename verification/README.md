# Verified model of a Lustre HSM to S3 copytool

The copytool archives Lustre files as S3 objects and restores them. This project
models four parts of it in Dafny and proves what they are for.

* **The log ring** (`LogRing`, `LogProtocol`, `LogAttempts`, `LogSleep`, `Tinylog`,
  `LogTurns`, `LogWorker`, from `src/tlog.c`). Producers append lines to a byte
  ring under a lock; one worker copies the indices under the lock, writes without
  it, and then frees the space. `Tinylog` has the critical sections as methods on a
  class with a real byte array, each proved equal to a step of `LogRing`.
  `LogProtocol` interleaves those steps freely and proves that the ring is a FIFO;
  `LogAttempts` follows every single attempt to log through them, and `LogSleep` the
  producers that wait for space. `LogWorker` is the round robin that empties all logs on exit. `Retention` is the removal of old
  log files.
* **Archive and restore** (`Chunks`, `S3`, `Multipart`, `CommitDoc`, `CutDoc`,
  `Committing`, `BigFiles`, `RangedGet`, `CopyTool`, from `src/lhsmtool_s3.c` and
  `src/s3_callback.c`). The server is an adversary: it pulls a body with buffers of
  any size, may fail any request after any prefix, keeps a body only if it has the
  declared length, and may keep one without saying so. It never confirms what it
  does not keep.
* **The growing buffer** (`GrowBuffer`, from `src/growbuffer.c`): a circular doubly
  linked list of 64 KiB blocks, proved on the heap.
* **Two monitors over any number of threads** (`MemQuota` and `QuotaRuns` from
  `src/mem_quota.c`, `Admission` from `src/ct_common.c`), as interleaved steps with
  invariants, and beside them the code that takes those steps.

What comes from outside is an argument or nondeterministic: the server's answers,
short reads and writes, failing mallocs, the order of a directory listing, who runs
next. What decides the result of an archive or a restore has a name, so that the result
can be stated exactly: `CopyTool.SmallOutside` and `BigFiles.Outside` have what happens
in every attempt to send an object, a part or the commit document, whether the stripes
can be saved, which mallocs fail, and which numbers of bytes left are retryable
statuses; a restore has the reply to each of its requests. Integers are unbounded; where
the C types matter their ranges are proved or the arithmetic of the machine is modelled
(`Chunks.LoopEndsIff`, `Chunks.AcceptedChunk`, `Committing.BuildDocument`,
`LogRing.Inv`).

## Results

* In every interleaving in which lines are shorter than `max_line_size`, bytes
  delivered, bytes being written and bytes waiting are together the accepted lines in
  order (`LogProtocol.RingIsFifo`). Root messages always are that short
  (`Tinylog.LogRootMessage`). Every attempt to log is stored whole once, or counted
  once, or still on its way (`LogAttempts.EveryAttemptCountsOnce`), those bytes are
  the lines of the stored attempts (`LogAttempts.ShortAttemptsAreFifo`), and each line is
  what was formatted (`LogAttempts.LinesAreFormatted`). A line is refused only if all of
  the buffer but at most two lines is in use (`LogProtocol.RefusedOnlyWhenFull`).
* A restore that succeeds gives what the server has under the name of the file. If the
  archive succeeded before it, that is the archived file, for every size up to 5 TiB and
  whatever fails on the way, if and only if the archive stored it (or the server had the
  same object already): always by a single PUT, and by an upload if the server took the
  commit document whole and accepted it, and no append to it failed. Without an older
  object under that name every successful restore gives the file, if and only if no
  entry of the commit document was lost (`CopyTool.ArchiveThenRestore`).
* Whether each of them succeeds is stated as an equivalence. A restore succeeds if and
  only if the fine replies it needs come with at most five broken ones among them, all
  retryable (`RangedGet.GetObject`); an upload comes to its commit if and only if one of
  six attempts begins it and every part is put (`BigFiles.ArchiveDataBig`).
* Nobody is ever left asleep waiting for quota, in any run with requests of at most m
  bytes, if and only if m is 0, or m is within the total and malloc does not fail
  (`QuotaRuns.QuotaServesIff`). Every run with finitely many calls ends, and it ends
  with all threads outside and the whole quota back (`QuotaRuns.EveryRunEnds`).

Some expectations one may have are false of the code. Each has the exact condition
and a concrete run or input:

* A line of exactly `max_line_size` bytes, which the clamp in `_tlog_vprintf` lets
  through, can fill a wrapped ring so that `end` meets `start` away from 0; the next
  snapshot leaves out its lower half and those bytes are lost. The ring is a FIFO if
  and only if no snapshot is taken in that state (`LogProtocol.RingIsFifoIff`); three
  lines of 8192 bytes in a ring of 16384 bring it about
  (`LogProtocol.LongLinesLoseBytes`).
* A retry of a part, or of a single PUT, goes on with the length that the failed
  attempt left over, although for a part the file position is set back. So sending
  succeeds if and only if the first attempt that takes any byte takes all of them and
  is kept and confirmed, within six attempts (`Multipart.PutPart`,
  `CopyTool.PutObject`). One byte lost in the first attempt makes all others fail
  (`Multipart.OneByteLostLosesPart`, `CopyTool.OneByteLostLosesObject`).
* When `growbuffer_append` fails in the commit document, nobody notices. What it got
  into the tail block stays there and is not counted, so the text handed over is cut
  off at its end. The server can read it if and only if both tags got in and every
  failed append got nothing in (`CutDoc.ReadText`), and then it commits the file
  without the parts concerned (`BigFiles.ObjectIff`). An append gets nothing in if and
  only if the bytes before it fill their blocks (`BigFiles.DonesAt`); 753 entries of
  87 bytes do (`BigFiles.AlignedEtagsCanLosePart`).
  Some failing malloc can lose a part if and only if an entry begins where a block does
  (`BigFiles.LossPossibleIff`), which none does if all ETags have 34 characters, as an
  MD5 in quotes has (`BigFiles.Md5EtagsLoseNothing`).
* Success of a multipart upload says only that the requests together took the document.
  Both it and the storing of the object have a condition on the script
  (`Committing.Commit`): the object is stored if and only if an attempt takes the whole
  document, those before it took nothing, and the server accepts. A server that takes
  all of it and refuses leaves a success without an object
  (`Committing.RefusedDocumentSucceeds`); so does a document split over two attempts
  (`Committing.SplitDocumentSucceeds`). The restore then fails, or, if the file was
  archived before, gives the older object with a second success
  (`CopyTool.ArchiveThenRestore`).
* The copy in `growbuffer_append` goes to `data[size]`; it appends if and only if no
  byte of that block has been read (`GrowBuffer.AppendsIffUnread`). Its comment says
  that it returns nonzero on success; for empty data it returns 0.
* A quota grant given back after a failed malloc wakes nobody, so a thread can sleep
  with all the quota free, for requests of any size
  (`QuotaRuns.FailedMallocsForgetSleeper`).
* A signal that catches the dispatcher with a permit in hand leaves the handler
  waiting for ever (`Admission.PermitInHandNeverExits`). Without one in hand, and only
  then, the exit stays in reach: it comes when the workers have ended
  (`Admission.ExitReachableIff`).
* A producer that waits for space in the log can miss the wake-up, because it gives up
  one lock before it takes the other, and does not look again before it sleeps. A run
  leaves a producer asleep beside a ring with room, with no wake-up to come, if and only
  if one goes to sleep when the ring has room and no wake-up is to come
  (`LogSleep.NeverForgottenIff`). For every buffer there is such a run, after which only
  new messages or a chance wake-up can help (`LogSleep.ProducerIsLeftAsleep`), and every
  refusal can end so (`LogSleep.EveryRefusalCanBeForgotten`). No state is beyond help:
  a run leads on from it that stores the line (`LogSleep.EveryLineCanBeStored`).
* `ct_get_chunksize` does not return for sizes above 10000 times 5 GiB, up to those so
  near 2^64 that its sum wraps (`Chunks.LoopEndsIff`); the caller's limit of 5 TiB
  keeps it away from them.
* The scan for the oldest log file takes the time 0 for "none yet", so a file from
  1970-01-01 00:00:00 can be passed over (`Retention.OldestInEveryOrderIff`,
  `Retention.NewestKeptIff`).

## Model

| member | source | states |
|---|---|---|
| LogProtocol.RingIsFifo | src/tlog.c:555-620 | In every interleaving of producers and worker with lines shorter than max_line_size, accepted == delivered ++ in flight ++ rest of the ring, and nothing is lost |
| LogProtocol.RingIsFifoIff | src/tlog.c:1713-1736 | For lines up to max_line_size: the ring is a FIFO at the end of a run if and only if the run takes no snapshot while ext_end > 0 and end == start > 0 |
| LogProtocol.LongLinesLoseBytes | src/tlog.c:543-567 | A concrete run with three full-size lines loses 8192 accepted bytes |
| LogProtocol.StepRefinesQueue | src/tlog.c:519-623 | Every step is a step of a byte queue: an accepted line enters whole at one end, a write takes the next bytes from the other, no other step changes the queue |
| LogProtocol.StepKeepsInv | src/tlog.c:1649-1742 | Each step keeps the ring and snapshot invariants, the FIFO equation and the counters, and loses bytes exactly if it is a snapshot with ext_end > 0 and end == start > 0 |
| LogProtocol.AppendKeepsSnapshot | src/tlog.c:606-615 | While the worker writes without the lock, an append, also one that wraps, changes no byte of either snapshot region and stays inside the buffer |
| LogProtocol.AppendExtends | src/tlog.c:606-615 | After an append the unread bytes from any index on are what they were, followed by the line |
| LogProtocol.ShortLinesNeverFill | src/tlog.c:611-615 | With lines shorter than max_line_size no reachable ring has ext_end > 0 and end == start > 0 |
| LogAttempts.EveryAttemptCountsOnce | src/tlog.c:519-623 | In every interleaving of attempts and worker each attempt begun is stored, dropped, without a line, or still on its way; the accepted bytes are the lines of the stored ones, one after the other, and no attempt is in that order twice; the dropped ones are the drops the worker has taken over plus the counter, and none with blocking |
| LogAttempts.DecidedForGood | src/tlog.c:539-581 | An attempt that was stored or counted is never stored or counted again |
| LogAttempts.LinesAreFormatted | src/tlog.c:543-608 | In every interleaving the line of an attempt, waiting or stored, is exactly one that was formatted for it, and it has none only if nothing was formatted |
| LogAttempts.RefusedOnlyWhenFull | src/tlog.c:570-581 | An attempt is dropped or sent to wait only if all of the buffer but at most two lines is in use, and dropped exactly if the log does not block |
| LogAttempts.RunIsLogRun | src/tlog.c:519-623 | Every run of attempts is a run of the log's steps, with lines shorter than m if its own are, so the theorems about those hold of it |
| LogAttempts.ShortAttemptsAreFifo | src/tlog.c:519-623 | In every interleaving of attempts with lines shorter than max_line_size the lines of the stored ones, in the order of their appends, are delivered ++ in flight ++ rest of the ring |
| LogSleep.NeverForgottenIff | src/tlog.c:583-594 | No state of a run has a producer asleep, room in the ring and no wake-up to come, if and only if no producer goes to sleep in a state with room and no wake-up to come |
| LogSleep.StepForgetsIff | src/tlog.c:1499-1507 | The only step that leaves a producer so is its own going to sleep too late; every release is followed by a wake-up of all who wait |
| LogSleep.ProducerIsLeftAsleep | src/tlog.c:583-587 | For every buffer and max_line_size a run from the start ends with a producer asleep beside an empty ring, the worker idle, and nothing more to happen without a new attempt or a chance wake-up |
| LogSleep.EveryRefusalCanBeForgotten | src/tlog.c:583-587 | From every state with a producer between its refusal and the wait, a run leads to it asleep beside an empty ring with no wake-up to come |
| LogSleep.EveryLineCanBeStored | src/tlog.c:555-616 | From every state with a log that blocks, a run stores any open attempt whole, with any line the callback may give it: nothing that happened makes that impossible |
| LogSleep.ComesBack | src/tlog.c:583-594 | A producer that waits, or is about to, can come back to its loop, and the decrement of the waiters never goes below 0 |
| LogSleep.RunIsAttemptRun | src/tlog.c:555-596 | Every run with sleeping and waking is a run of the attempts, so their theorems hold of it |
| LogProtocol.TwoReleasesMakeRoom | src/tlog.c:1730-1736 | After a refusal at most two releases, without an append between them, leave a free run of max_line_size |
| LogProtocol.RefusedOnlyWhenFull | src/tlog.c:611-615 | In every run an append finds no room only if more than the buffer less two lines is accepted and not released |
| LogRing.SnapshotCoversIffNotFull | src/tlog.c:1713-1722 | The two regions of a snapshot are all unread bytes if and only if not ext_end > 0 and end == start > 0; which bytes are missing otherwise; its release empties the ring |
| LogRing.PutFrame | src/tlog.c:606-608 | The copy of a line changes its own range of the buffer and no other |
| Tinylog.TlogLog.NeedDrop | src/tlog.c:489-517 | Refuses and counts one drop exactly if the log does not block and has no room for a full line |
| Tinylog.TlogLog.TryAppend | src/tlog.c:555-616 | Appends the line inside the buffer if there is room for a full one, and otherwise counts a drop or makes the producer wait; changes nothing else. LogProtocol.RefusedOnlyWhenFull says when there can be no room |
| Tinylog.TlogLog.CopyIndices | src/tlog.c:1713-1725 | The worker's first critical section takes the snapshot of LogRing and clears the drop counter |
| Tinylog.TlogLog.WriteBuffLog | src/tlog.c:1548-1555 | Hands over the two regions of the snapshot in order |
| Tinylog.TlogLog.FreeSpace | src/tlog.c:1730-1736 | The second critical section releases exactly the snapshot |
| Tinylog.TlogLog.HasUnread | src/tlog.c:1340-1347 | True exactly if the ring has data |
| Tinylog.RootLogBuffer | src/tlog.c:438-466 | Whatever the format callback returns, the line has at most max_line_size - 2 bytes; it is the formatted text with one line end, or its beginning with "..." |
| Tinylog.ClampLine | src/tlog.c:543-553 | A reported length beyond the buffer becomes max_line_size, with the last five bytes overwritten, and a smaller one changes nothing |
| Tinylog.LogRootMessage | src/tlog.c:519-623 | With anything other threads may do between the check and the loop: a stored root message is whole, at most max_line_size - 2 bytes, and cannot make the ring full; one refused by the check or by the loop is counted exactly once, and nothing else is |
| LogWorker.WorkUntilEmpty | src/tlog.c:1665-1738 | The round robin over any number of logs ends once run is cleared, and then no log has data |
| LogWorker.FlushOnExit | src/tlog.c:1665-1738 | Every log is then empty and has handed over what one drain hands over |
| LogWorker.FlushCompletesDelivery | src/tlog.c:1665-1738 | For lines shorter than max_line_size that drain completes the delivery: delivered equals accepted |
| LogTurns.DrainedIsPendingIff | src/tlog.c:1713-1736 | One drain hands over all that is pending if and only if not ext_end > 0 and end == start > 0 |
| LogTurns.Turn | src/tlog.c:1682-1736 | A turn empties one more log, or brings the cursor nearer to one with data and changes nothing |
| LogTurns.AnyHasData | src/tlog.c:1349-1372 | True exactly if some log has data |
| LogTurns.RoundVisitsEachLogOnce | src/tlog.c:1454-1461 | From wherever the worker is, its next count + 1 calls come to every log of the list exactly once |
| Retention.OldestInEveryOrderIff | src/tlog.c:866-898 | A scan finds an oldest file in every order of the listing if and only if there are not both a zero and a positive time with no negative one |
| Retention.NewestKeptIff | src/tlog.c:923-942 | Any number of passes, in whatever listing orders, keeps the newest files if and only if no pass has to choose in such a directory with files left over |
| Retention.LeftCount | src/tlog.c:923-942 | Every pass over a directory with log files removes exactly one of them |
| Retention.GetOldest | src/tlog.c:866-898 | The listing loop returns an oldest of the log's files, in whatever order they are listed, unless times zero and positive are mixed with none negative |
| Retention.RemoveOldLogs | src/tlog.c:923-942 | Exactly min(count, logcount) of the log's files are left, none older than a removed one where NewestKeptIff allows it; a file whose name does not begin with the log's name and "-", or in which the suffix stands nowhere, stays with its time |
| Retention.LogFileIff | src/tlog.c:875-884 | A log file is a name made of the log's name, "-" and any rest, with the suffix anywhere in it |
| Retention.ArchivesAreLogFiles | src/tlog.c:875-884 | Whatever its time stamp, an archive of the log is counted as a log file |
| CopyTool.ArchiveThenRestore | src/lhsmtool_s3.c:981-1006 | With or without an older object of that name: the restore succeeds exactly if there is an object and its replies are good enough, and gives what the server has; if the archive succeeded too, that is the file byte for byte if and only if the archive stored it (unless the older object is the same), and an upload the server did not take leaves the older object; without an older one, if and only if no entry of the commit document was lost; what is enough for the archive to store the file; if only the commit document is refused, the archive succeeds and leaves what was there |
| CopyTool.Archive | src/lhsmtool_s3.c:981-1006 | A single PUT ends as SmallResult says and leaves what was stored or stores what was to be archived; a multipart upload that comes to its commit, and exactly when one does, ends as BigFiles.Ends says; over 5 TiB nothing is sent; all quota taken is given back |
| CopyTool.ArchiveData | src/lhsmtool_s3.c:496-602 | rc is 0 if and only if the stripes are saved, malloc works, the read is whole and the script of the PUT succeeds, and each failure has its code; it waits only if less quota is left than the file needs; every path that returns has given back exactly the quota it took, while other threads take and return theirs; success means that the extent is stored, and nothing else ever is |
| CopyTool.PutObject | src/lhsmtool_s3.c:563-583 | Succeeds if and only if some attempt of the six takes the whole, is kept and confirmed, and those before it took nothing and were retried; nothing but the whole is ever stored |
| CopyTool.OneByteLostLosesObject | src/lhsmtool_s3.c:563-583 | If the first attempt loses one byte, five perfect ones after it fail; had it taken none, the next would have succeeded |
| CopyTool.PutBuffer.PutObjectData | src/s3_callback.c:12-32 | Each call gives the next min(bufferSize, contentLength) bytes of the buffer |
| CopyTool.QuotaAlloc | src/mem_quota.c:43-67 | Whatever other threads do to the quota meanwhile, this thread has exactly its grant, or nothing if malloc fails, or is counted as one that waits, and then less is left than it needs |
| CopyTool.QuotaServesArchives | src/lhsmtool_s3.c:1207 | With the quota of the program and a malloc that works no archiving thread sleeps without another one to rouse it |
| CopyTool.Restore | src/lhsmtool_s3.c:883-897 | Succeeds if and only if there is an object and its replies are good enough, and then agrees with the stored object over its whole length |
| BigFiles.ArchiveDataBig | src/lhsmtool_s3.c:626-850 | The upload comes to its commit if and only if the stripes are saved, it can be begun and every part is put; if not, it fails with the code of that step and leaves the object alone; otherwise rc is 0 exactly if the script of the commit makes it succeed, and the object changes exactly if the script makes it stored and the text can be read |
| BigFiles.EndsMeans | src/lhsmtool_s3.c:814-828 | The object is neither the old one nor the file only if entries were lost, and it is so if the script stores such a text; without failing mallocs the server comes to hold the file if and only if the script stores it |
| BigFiles.FirstRequestDecides | src/lhsmtool_s3.c:814-828 | If the first commit request takes the whole document, rc is 0; refused, the object is what it was; accepted, and without failing mallocs, it is the file |
| BigFiles.ObjectIff | src/lhsmtool_s3.c:795-811 | The server can commit the file if and only if no append fails, and anything else if and only if the tags get in, every failed append gets nothing in, and there is one |
| BigFiles.KeptBytesAreFile | src/lhsmtool_s3.c:715-736 | The slices whose entries are in the document are the file if none is missing, and fewer bytes if one is |
| Multipart.PutParts | src/lhsmtool_s3.c:713-793 | Comes to its end if and only if every part succeeds on its script; then next_etags_pos is total_seq, no byte is left to send, and every part is kept as its slice of the file under the ETag in its slot |
| Multipart.PutPart | src/lhsmtool_s3.c:720-786 | Succeeds if and only if the first attempt that takes any byte takes the whole slice and is kept and confirmed; at most six attempts, the body of each a prefix of the slice, and too short once one was not empty; a part that counts as put is kept whole; other parts and slots are untouched |
| Multipart.TouchedFails | src/lhsmtool_s3.c:729-781 | The first attempt that takes a byte decides: the part succeeds if and only if that one does |
| Multipart.OneByteLostLosesPart | src/lhsmtool_s3.c:720-786 | If the first attempt loses one byte, five perfect ones after it fail; had it taken none, the next would have succeeded |
| Multipart.UploadPart | src/s3_callback.c:116-127 | A part is kept only with the declared length; an acknowledged one has its ETag in slot seq - 1, and next_etags_pos is seq |
| Multipart.PartUpload.PutObjectData | src/s3_callback.c:130-169 | Gives the next bytes of the file and takes them off contentLength, or nothing after a short read |
| Committing.BuildDocument | src/lhsmtool_s3.c:795-811 | For mallocs failing in any of the appends: the buffer holds of each piece what got in, remaining is the length of the whole ones, and it fits an int |
| BigFiles.HandedIsDocument | src/lhsmtool_s3.c:795-811 | If no append fails, the text handed over is exactly the document of all entries |
| BigFiles.DonesAt | src/growbuffer.c:10-38 | Of a piece whose append fails as much gets in as the last block has room for after the bytes before it |
| Committing.CommitPull | src/s3_callback.c:171-182 | Gives the next bytes of the document, as many as the buffer, remaining and the head block allow, keeps remaining equal to what is left, and gives 0 only at the end |
| Committing.Commit | src/lhsmtool_s3.c:813-828 | Succeeds if and only if some attempt that is made leaves no byte; the object changes if and only if an attempt that is made takes all, those before it took nothing, the server accepts, and the text can be read; the bodies of the at most six requests join to a prefix of the text, on success to the text |
| Committing.RefusedDocumentSucceeds | src/lhsmtool_s3.c:814-828 | If the first attempt takes the whole text and is refused, the commit succeeds and stores nothing |
| Committing.SplitDocumentSucceeds | src/lhsmtool_s3.c:814-828 | If the first attempt takes a part, the number left is retryable, and the second takes the rest, the commit succeeds and stores nothing, whatever the server says |
| Committing.OthersCarryNothing | src/lhsmtool_s3.c:814-821 | If one request carried the whole text, all others carried nothing |
| BigFiles.Initiate | src/lhsmtool_s3.c:685-700 | Succeeds if and only if one of six attempts does, and then there is an upload without parts |
| BigFiles.CalmReaches | src/lhsmtool_s3.c:685-793 | With the stripes saved, an upload begun and no failing attempt for any part, the upload comes to its commit |
| BigFiles.LostEntryLosesPart | src/lhsmtool_s3.c:800-806 | If malloc fails for one entry, and the document before it fills its blocks, the object is the file without that part |
| BigFiles.AlignedEtagsCanLosePart | src/lhsmtool_s3.c:800-806 | With ETags that make the first 753 entries 87 bytes long, a failing malloc for the next one loses part 754 |
| BigFiles.LossPossibleIff | src/lhsmtool_s3.c:795-811 | Some failing mallocs lose parts if and only if an entry of the document begins at a multiple of 64 KiB |
| BigFiles.Md5EtagsLoseNothing | src/lhsmtool_s3.c:795-811 | With ETags of 34 characters and up to 10000 parts no failing mallocs lose a part |
| CommitDoc.ReadBack | src/lhsmtool_s3.c:795-809 | A reference reader gets back exactly the entries of the document in order |
| CommitDoc.DocumentShape | src/lhsmtool_s3.c:797-809 | The tags, whose letters TagLetters gives, the number in decimal and the ETag stand in the document in the order of the format strings |
| CutDoc.ReadText | src/lhsmtool_s3.c:795-811 | A text whose appends got in any prefixes of their pieces is read as a document if and only if both tags are whole and each entry is whole or missing, and then as the entries that are there |
| CutDoc.SuffixIsNoDocument | src/lhsmtool_s3.c:814-821 | What a further commit attempt sends, a proper suffix of the text, is not a document |
| Chunks.GetChunkSize | src/lhsmtool_s3.c:606-624 | The first chunk of the doubling sequence with at most 10000 parts, and (parts - 1) * chunk < size <= parts * chunk |
| Chunks.LoopEndsIff | src/lhsmtool_s3.c:610-620 | In size_t arithmetic the loop ends if and only if the size is at most 10000 * 5 GiB or within 5 GiB of 2^64; below 2^63, the first of these |
| Chunks.AcceptedChunk | src/lhsmtool_s3.c:709-736 | Up to 5 TiB the chunk is the least 16 MiB * 2^k that fits, at most 1 GiB, so a part length fits an int and no product passes 64 bits |
| RangedGet.GetObject | src/lhsmtool_s3.c:153-189 | Succeeds if and only if the first size / 16 MiB + 1 fine replies come with at most five broken ones among them, all retryable; makes at most those requests and five; however it ends the file agrees with the object up to totalLength, which on success is the object's size |
| RangedGet.FiveTimeoutsAreRetried | src/lhsmtool_s3.c:153-180 | Up to five timeouts and then fine replies: the restore succeeds, for every size |
| RangedGet.SixTimeoutsFail | src/lhsmtool_s3.c:153-180 | Six timeouts at the start: it fails, however the later replies would be |
| RangedGet.FetchRange | src/lhsmtool_s3.c:157-168 | One request keeps the agreement, an acknowledged one extends it by exactly the range, and an invalid range means the end of the object |
| RangedGet.ReceiveBody | src/s3_callback.c:75-98 | The file is overwritten from start with a prefix of the range; all of it if no callback failed |
| RangedGet.RestoredIff | src/lhsmtool_s3.c:153-189 | After success the file is the object followed by the end of a longer old file, so it is the object if and only if the old file was not longer |
| GrowBuffer.Buffer.Append | src/growbuffer.c:7-42 | If malloc works k times and then fails: what fits into the tail block and k new ones gets in, the result is the length if that is all and else 0; the ring stays linked, no block is empty |
| GrowBuffer.Buffer.Link | src/growbuffer.c:19-28 | A new block is linked in before the head, and next and prev stay inverse around one ring |
| GrowBuffer.Buffer.FillTail | src/growbuffer.c:31-38 | The copy appends a non-empty prefix of the data to the contents |
| GrowBuffer.Buffer.Read | src/growbuffer.c:44-73 | Takes exactly min(asked, bytes in the head block) off the front of the contents; the ring stays linked, no block is empty |
| GrowBuffer.Buffer.Unlink | src/growbuffer.c:61-69 | Taking out the head leaves the other blocks linked in one ring in the same order |
| GrowBuffer.Buffer.Destroy | src/growbuffer.c:75-83 | Frees every block of the ring once |
| GrowBuffer.AppendsIffUnread | src/growbuffer.c:31-38 | The copy to data[size] appends, for all bytes, if and only if start is 0 |
| GrowBuffer.ConcatLast | src/growbuffer.c:31-38 | Bytes added to the last block come at the end of the contents |
| MemQuota.QuotaIsConserved | src/mem_quota.c:30-67 | In every interleaving quota left plus all grants is the total, and quota_waiters is the number of threads in the wait |
| MemQuota.StepConserves | src/mem_quota.c:30-67 | Every step keeps both equations, and quota_left never passes the total |
| MemQuota.WokenIsCounted | src/mem_quota.c:62-64 | The decrement after a wait never wraps |
| QuotaRuns.QuotaServesIff | src/mem_quota.c:30-67 | In all runs with requests of at most m bytes a sleeper always has a thread to rouse it, if and only if m is 0, or within the total with a malloc that does not fail |
| QuotaRuns.EveryRunEnds | src/mem_quota.c:30-67 | With a malloc that works and requests within the total a run has at most so many steps for each thread, call and spontaneous wake-up; nothing more can happen if and only if all threads are outside, and then the whole quota is back |
| QuotaRuns.EveryCallIsAnswered | src/mem_quota.c:30-67 | In every run each call is answered with memory, or with NULL, or is still on its way, and memory is held until it is given back; with all threads outside all calls are answered and all memory is back |
| MemQuota.NoSleeperIsForgotten | src/mem_quota.c:30-67 | In a run with requests within the total, in which no failed malloc leaves a sleeper alone, a sleeper always has a thread with a grant, a pending signal or a retry; if all others are outside nobody sleeps and the whole quota is back |
| MemQuota.HarmlessIfMallocWorks | src/mem_quota.c:53-59 | With requests within the total and a malloc that works every run is harmless |
| MemQuota.AwakeCanStep | src/mem_quota.c:38-66 | A thread inside that does not sleep always has a step of its own |
| QuotaRuns.FailedMallocsForgetSleeper | src/mem_quota.c:54-59 | For every request size from 1 to the total, a run with requests of that size after which a thread sleeps with the whole quota free and nobody to rouse it |
| MemQuota.OversizeIsNeverGranted | src/mem_quota.c:48-66 | A request over the total always goes back to sleep |
| MemQuota.Quota.Ask | src/mem_quota.c:47-62 | Grants exactly if the size fits in what is left, and counts a waiter otherwise |
| MemQuota.Quota.Free | src/mem_quota.c:33-40 | Returns the size and signals exactly if there are waiters |
| Admission.PermitsAddUp | src/ct_common.c:371-463 | In every run semaphore value plus busy workers plus the dispatcher's permit is max_requests, and at exit no worker is busy |
| Admission.PollExitsIff | src/ct_common.c:210-226 | The handler's look at the semaphore exits if and only if all workers are gone and the dispatcher held no permit |
| Admission.PermitInHandNeverExits | src/ct_common.c:201-227 | A signal right after the first item got its permit: this run exists for every max_requests > 0, and no run that begins with it ever exits |
| Admission.ExitReachableIff | src/ct_common.c:201-227 | Once the handler runs, the exit can still be reached if and only if the dispatcher held no permit |
| Admission.StepKeepsInv | src/ct_common.c:421-463 | Every step keeps the permit equation |
| Admission.Daemon.DispatchItem | src/ct_common.c:561-567 | An item is dispatched exactly if it got its permit and the thread can be created, and then there is one thread more; either way all permits are in the semaphore or with busy workers, and the state is one a run of the protocol comes to |
| Admission.Daemon.Handler | src/ct_common.c:201-227 | It exits only with all permits back, no busy worker and no permit in the dispatcher's hand, and at its first look if that is so from the start |

## Left out

- Segment mode of the log: the entry header adds bytes beyond the check against max_line_size; the program opens its log without it.
- Changing max_line_size while running, closing logs, fork handlers, and the wait for data with its timeout.
- The text of the "Total Dropped" message; the counters behind it are modelled.
- LogSleep.NeverForgottenIff: is about a single log; that the worker itself waits for work and is signalled by producers is left out, so its steps are always possible when there is data.
- Failures of the log's output function.
- Log rotation and compression; of retention, failing stat, unlink and opendir, and names cut off by fixed buffers.
- Tinylog.TlogLog.TryAppend: is one round of the producer's loop; the wait between two rounds is left to the interleaving in LogProtocol.
- Admission.Daemon.RequestCtl: ends after a given number of rounds, because the loop of the code may go on for ever; so does Handler.
- Admission.PermitsAddUp: takes the signal handler to run on the main thread. On a worker's thread, and once dispatch goes on without a permit after stop_it, the equation does not hold.
- BigFiles.ArchiveDataBig: takes ETags shorter than 200 bytes and without '<', so that an entry fits its 256 bytes. The code does not look at the server's answer to the commit.
- QuotaRuns.EveryRunEnds: starvation with infinitely many calls is not covered; a large request may then be overtaken for ever.
- LogAttempts.EveryAttemptCountsOnce: takes pthread_cond_wait not to fail.
- GrowBuffer.Buffer.Append: requires that nothing was read from the tail block, which the program keeps by appending first and reading after.
- GrowBuffer.Buffer.Destroy: returns the list of the blocks it frees; free itself is not modelled, nor is that of the block taken out by a read.
- CopyTool.Archive: takes an extent that starts at offset 0 and a file that does not change. The checks before it and paths outside of path_prefix, for which the code reports success without sending anything, are left out.
- CopyTool.Restore: leaves out the length that is reported afterwards, which is the last range's and not the object's, and paths outside of path_prefix.
- CopyTool.QuotaAlloc: ends after a given number of rounds of waiting, because the loop of the code may go on for ever; the result then says that it still waits.
- The server keeps one object and one upload at a time; object names, upload ids, MD5 and properties are left out.
- Progress counters and reports, stripe attributes, file descriptors, clocks and sleeps.
- libs3, curl and the Lustre API are not part of this model.
- Directory operations, symbolic links, option and configuration parsing, printing.
