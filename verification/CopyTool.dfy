/**
 Archiving and restoring a file (src/lhsmtool_s3.c): the single PUT of small
 files, the choice between it and the multipart upload, the restore, and both
 together.
 */
module CopyTool {
  import opened Common
  import opened S3
  import opened Chunks
  import opened BigFiles
  import MemQuota
  import RangedGet

  const CT_MEM_QUOTA_SIZE: nat := 8 * 1024 * 1024 * 1024

  // ---- small files ---------------------------------------------------------

  /** put_object_callback_data of a single PUT. */
  class PutBuffer {
    const buffer: string
    var bufferOffset: nat
    var contentLength: nat

    constructor (buffer: string)
      ensures this.buffer == buffer && bufferOffset == 0 && contentLength == |buffer|
    {
      this.buffer, bufferOffset, contentLength := buffer, 0, |buffer|;
    }

    /** put_objectdata_callback */
    method PutObjectData(bufferSize: nat) returns (bytes: string)
      requires bufferSize > 0 && bufferOffset + contentLength == |buffer|
      modifies this
      ensures bufferOffset + contentLength == |buffer| && |bytes| == Least(bufferSize, old(contentLength))
      ensures bufferOffset == old(bufferOffset) + |bytes| && bytes == buffer[old(bufferOffset)..bufferOffset]
      ensures bytes == "" <==> old(contentLength) == 0
    {
      bytes := "";
      if contentLength > 0 {
        var size := if contentLength > bufferSize then bufferSize else contentLength;
        bytes := buffer[bufferOffset..bufferOffset + size];
        bufferOffset := bufferOffset + size;
      }
      contentLength := contentLength - |bytes|;
    }

    /** One request body as the server pulls it, with buffers of any size, until
        `takes` bytes are across; then it stops, or comes to the end. */
    method SendBody(takes: nat) returns (body: string)
      requires bufferOffset + contentLength == |buffer|
      modifies this
      ensures bufferOffset + contentLength == |buffer| && bufferOffset == old(bufferOffset) + |body|
      ensures |body| == Least(takes, old(contentLength)) && body == buffer[old(bufferOffset)..bufferOffset]
    {
      body := "";
      while |body| < takes && contentLength > 0
        invariant bufferOffset + contentLength == |buffer| && bufferOffset == old(bufferOffset) + |body|
        invariant |body| <= takes && body == buffer[old(bufferOffset)..bufferOffset]
        decreases contentLength
      {
        var bufferSize: nat :| 0 < bufferSize <= takes - |body|;
        var bytes := PutObjectData(bufferSize);
        body := body + bytes;
      }
      var asksMore: bool := *;
      if asksMore && contentLength == 0 {
        var bufferSize: nat :| bufferSize > 0;
        var nothing := PutObjectData(bufferSize);
      }
    }
  }

  /** The attempts before number k took nothing and ended with errors that are
      retried. */
  ghost predicate Reaches(script: seq<Attempt>, n: nat, k: nat)
    requires k <= |script|
  {
    forall i :: 0 <= i < k ==> Least(script[i].takes, n) == 0 && IsRetryable(script[i].error)
  }

  predicate Succeeds(a: Attempt, n: nat) {
    a.takes >= n && Good(a)
  }

  /** Some attempt takes all n bytes, the server keeps them and says so, and
      all before it took nothing and were retried. */
  ghost predicate PutSucceeds(script: seq<Attempt>, n: nat) {
    exists j :: 0 <= j < |script| && j <= RETRYCOUNT && Reaches(script, n, j) && Succeeds(script[j], n)
  }

  /** What attempt number k decides, when none before it has succeeded. */
  lemma PutDecided(script: seq<Attempt>, n: nat, k: nat)
    requires k < |script| && k <= RETRYCOUNT && Reaches(script, n, k)
    requires forall i :: 0 <= i < k ==> !Succeeds(script[i], n)
    ensures Succeeds(script[k], n) ==> PutSucceeds(script, n)
    ensures !Succeeds(script[k], n) && (Least(script[k].takes, n) > 0 || !IsRetryable(script[k].error)) ==>
              !PutSucceeds(script, n)
    ensures !Succeeds(script[k], n) && k == RETRYCOUNT ==> !PutSucceeds(script, n)
  {
  }

  /** So a single byte lost in the first attempt makes all of them fail, however
      well the others go. */
  lemma OneByteLostLosesObject(script: seq<Attempt>, n: nat)
    requires n > 1 && |script| == RETRYCOUNT + 1 && script[0].takes == 1 && IsRetryable(script[0].error)
    requires forall i :: 0 < i < |script| ==> script[i] == CalmScript(n)[i]
    ensures !PutSucceeds(script, n)
    ensures PutSucceeds(script[0 := script[0].(takes := 0)], n)
  {
    PutDecided(script, n, 0);
    var untouched := script[0 := script[0].(takes := 0)];
    assert Reaches(untouched, n, 1) && untouched[1] == CalmScript(n)[1];
  }

  /** The PUT with its retries. A retry goes on where the buffer was left, so
      once an attempt has taken a byte, all later bodies are too short and are
      refused; but nothing else than the whole is ever stored. */
  method PutObject(data: PutBuffer, server: Server, script: seq<Attempt>) returns (status: Status)
    requires data.bufferOffset == 0 && data.contentLength == |data.buffer| && |script| == RETRYCOUNT + 1
    modifies data, server`stored
    ensures status.Ok? <==> PutSucceeds(script, |data.buffer|)
    ensures server.stored == old(server.stored) || server.stored == Some(data.buffer)
    ensures status.Ok? ==> server.stored == Some(data.buffer)
  {
    var n := |data.buffer|;
    var retries := new Retries();
    status := RequestTimeout;
    var k := 0;
    var again := true;
    while again
      invariant data.bufferOffset + data.contentLength == |data.buffer|
      invariant k <= RETRYCOUNT + 1 && (again ==> retries.left + k == RETRYCOUNT && retries.left >= 0)
      invariant again && data.contentLength == n ==>
          Reaches(script, n, k) && forall i :: 0 <= i < k ==> !Succeeds(script[i], n)
      invariant again && data.contentLength < n ==> !PutSucceeds(script, n)
      invariant !again ==> (status.Ok? <==> PutSucceeds(script, n))
      invariant server.stored == old(server.stored) || server.stored == Some(data.buffer)
      invariant status.Ok? ==> !again && server.stored == Some(data.buffer)
      decreases if again then retries.left + 1 else 0
    {
      var a := script[k];
      if data.contentLength == n {
        PutDecided(script, n, k);
      }
      var body := data.SendBody(a.takes);
      status := a.error;
      if |body| == n && a.keeps {
        assert body == data.buffer;
        server.stored := Some(body);
        if Good(a) {
          status := Ok;
        }
      }
      k := k + 1;
      again := retries.RetryOn(status);
    }
  }

  // ---- the memory quota ----------------------------------------------------

  /** What the other threads have: bytes granted, and how many of them wait. */
  datatype Others = Others(held: nat, waiting: nat)

  /** The quota is what is left, what this thread has and what the others have;
      `waits` is 1 while this thread waits. */
  ghost predicate Shares(quota: MemQuota.Quota, others: Others, own: nat, waits: nat)
    reads quota
  {
    quota.left + others.held + own == quota.total && quota.waiters == others.waiting + waits
  }

  /** The others take and return quota, and go to wait and come back. */
  method OthersRun(quota: MemQuota.Quota, others: Others, own: nat, waits: nat) returns (others': Others)
    requires Shares(quota, others, own, waits)
    modifies quota
    ensures quota.total == old(quota.total) && Shares(quota, others', own, waits)
  {
    assert 0 + own <= quota.total;
    var left: nat :| left + own <= quota.total;
    var waiting: nat :| waiting >= 0;
    quota.left, quota.waiters := left, waiting + waits;
    others' := Others(quota.total - left - own, waiting);
  }

  /** How quota_mem_alloc ends: with the memory, with NULL, or not yet. */
  datatype Alloc = Got | Null | Waits

  /** quota_mem_alloc, for at most so many rounds of waiting; `memory` says
      whether malloc works. If it fails the grant goes back. Whoever still waits
      has just asked and been refused. */
  method QuotaAlloc(quota: MemQuota.Quota, size: nat, others: Others, rounds: nat, memory: bool)
    returns (r: Alloc, others': Others)
    requires Shares(quota, others, 0, 0)
    modifies quota
    ensures quota.total == old(quota.total)
    ensures Shares(quota, others', if r.Got? then size else 0, if r.Waits? then 1 else 0)
    ensures !r.Waits? ==> r == if memory then Got else Null
    ensures r.Waits? ==> quota.left < size
    ensures size <= old(quota.left) ==> !r.Waits?
    ensures size > quota.total ==> r.Waits?
  {
    others' := others;
    var granted := quota.Ask(size);
    var round := 0;
    while !granted && round < rounds
      invariant quota.total == old(quota.total)
      invariant Shares(quota, others', if granted then size else 0, if granted then 0 else 1)
      invariant size <= old(quota.left) ==> granted
      invariant !granted ==> quota.left < size
      decreases rounds - round
    {
      others' := OthersRun(quota, others', 0, 1);
      quota.StopWaiting();
      others' := OthersRun(quota, others', 0, 0);
      granted := quota.Ask(size);
      round := round + 1;
    }
    if !granted {
      return Waits, others';
    }
    others' := OthersRun(quota, others', size, 0);
    if memory {
      r := Got;
    } else {
      quota.GiveBack(size);
      r := Null;
    }
  }

  /** What comes from outside while a small file is archived: whether the stripes
      can be saved, whether malloc works, how many bytes the read gives, and the
      attempts of the PUT. */
  datatype SmallOutside = SmallOutside(stripe: bool, memory: bool, gives: nat, script: Script)

  /** What ct_archive_data returns. */
  ghost function SmallResult(length: nat, o: SmallOutside): int {
    if !o.stripe then -1
    else if !o.memory then -ENOMEM
    else if o.gives >= length && PutSucceeds(o.script, length) then 0
    else -EIO
  }

  /** ct_archive_data for the extent [0, extent); None says that it still waits
      for quota. Every path that returns gives back the quota it took. */
  method ArchiveData(file: SourceFile, extent: nat, server: Server, quota: MemQuota.Quota, others: Others,
                     rounds: nat, o: SmallOutside)
    returns (rc: Option<int>, others': Others)
    requires |file.data| < MAX_OBJ_SIZE_LEVEL && file.pos == 0 && Shares(quota, others, 0, 0)
    modifies file, server`stored, quota
    ensures quota.total == old(quota.total) && Shares(quota, others', 0, if rc.None? then 1 else 0)
    ensures rc.Some? ==> rc.value == SmallResult(Least(extent, |file.data|), o)
    ensures rc.None? ==> o.stripe && quota.left < |file.data| && server.stored == old(server.stored)
    ensures |file.data| <= old(quota.left) ==> rc.Some?
    ensures server.stored == old(server.stored) || server.stored == Some(file.data[..Least(extent, |file.data|)])
    ensures rc == Some(0) ==> server.stored == Some(file.data[..Least(extent, |file.data|)])
  {
    if !o.stripe {
      return Some(-1), others;
    }
    var length := if extent > |file.data| then |file.data| else extent;
    var r;
    r, others' := QuotaAlloc(quota, |file.data|, others, rounds, o.memory);
    match r
    case Waits => return None, others';
    case Null => return Some(-ENOMEM), others';
    case Got =>
    var put := ReadAndPut(file, length, server, o);
    others' := OthersRun(quota, others', |file.data|, 0);
    var notify := quota.Free(|file.data|);
    rc := Some(put);
  }

  /** ct_archive_data, with the memory in hand. */
  method ReadAndPut(file: SourceFile, length: nat, server: Server, o: SmallOutside) returns (rc: int)
    requires length <= |file.data| && file.pos == 0
    modifies file, server`stored
    ensures rc == if o.gives >= length && PutSucceeds(o.script, length) then 0 else -EIO
    ensures server.stored == old(server.stored) || server.stored == Some(file.data[..length])
    ensures rc == 0 ==> server.stored == Some(file.data[..length])
  {
    var dbuf := file.Read(length, o.gives);
    if |dbuf| != length {
      return -EIO;
    }
    assert dbuf == file.data[..length];
    var data := new PutBuffer(dbuf);
    var status := PutObject(data, server, o.script);
    rc := if status.Ok? then 0 else -EIO;
  }

  /** The quota of the program serves its archives: if malloc does not fail, no
      thread is left asleep without another one there to rouse it. */
  lemma QuotaServesArchives(es: seq<MemQuota.Event>)
    requires MemQuota.Possible(MemQuota.Init(CT_MEM_QUOTA_SIZE), es)
    requires forall i :: 0 <= i < |es| ==> !es[i].MallocNull? && (es[i].Call? ==> es[i].size < MAX_OBJ_SIZE_LEVEL)
    ensures var s := MemQuota.After(MemQuota.Init(CT_MEM_QUOTA_SIZE), es);
            MemQuota.SomeSleeper(s) ==> MemQuota.SomeRouser(s)
  {
    MemQuota.HarmlessIfMallocWorks(MemQuota.Init(CT_MEM_QUOTA_SIZE), es);
    MemQuota.NoSleeperIsForgotten(CT_MEM_QUOTA_SIZE, es);
  }

  // ---- archive, restore, and back ------------------------------------------

  /** What the archive of a file with this extent is meant to store: a multipart
      upload takes the whole file, a single PUT the extent. */
  function Archived(file: string, extent: nat): string {
    if |file| >= MAX_OBJ_SIZE_LEVEL || extent > |file| then file else file[..extent]
  }

  /** The choice in ct_archive by file size; None says that it still waits for
      quota. A single PUT ends as SmallResult says, and stores what was to be
      archived or nothing. A multipart upload ends as ArchiveDataBig says. */
  method Archive(file: SourceFile, extent: nat, server: Server, quota: MemQuota.Quota, others: Others, rounds: nat,
                 small: SmallOutside, big: Outside)
    returns (rc: Option<int>, others': Others, ghost upload: Option<Upload>)
    requires file.pos == 0 && Shares(quota, others, 0, 0) && Proper(big)
    modifies file, server, quota
    ensures quota.total == old(quota.total) && Shares(quota, others', 0, if rc.None? then 1 else 0)
    ensures |file.data| > MAX_FILE_SIZE ==> rc == Some(-EIO) && server.stored == old(server.stored)
    ensures upload.Some? <==> MAX_OBJ_SIZE_LEVEL <= |file.data| <= MAX_FILE_SIZE && ReachesCommit(big, |file.data|)
    ensures MAX_OBJ_SIZE_LEVEL <= |file.data| <= MAX_FILE_SIZE && upload.None? ==>
              rc == Some(if big.stripe then -EIO else -1) && server.stored == old(server.stored)
    ensures upload.Some? ==>
              && Archived(file.data, extent) == file.data && rc.Some?
              && Ends(upload.value, rc.value, old(server.stored), server.stored, server.parts, file.data, big)
    ensures |file.data| < MAX_OBJ_SIZE_LEVEL && rc.Some? ==>
              rc.value == SmallResult(Least(extent, |file.data|), small)
    ensures rc.None? ==> |file.data| < MAX_OBJ_SIZE_LEVEL && quota.left < |file.data|
    ensures |file.data| <= old(quota.left) ==> rc.Some?
    ensures upload.None? ==> server.stored == old(server.stored) || server.stored == Some(Archived(file.data, extent))
    ensures upload.None? && rc == Some(0) ==> server.stored == Some(Archived(file.data, extent))
  {
    upload, others' := None, others;
    if |file.data| > MAX_FILE_SIZE {
      rc := Some(-EIO);
    } else if |file.data| >= MAX_OBJ_SIZE_LEVEL {
      var result;
      result, upload := ArchiveDataBig(file, server, big);
      rc := Some(result);
    } else {
      rc, others' := ArchiveData(file, extent, server, quota, others, rounds, small);
      assert file.data[..|file.data|] == file.data;
    }
  }

  /** ct_restore_data of a whole file. */
  method Restore(server: Server, target: RangedGet.TargetFile, replies: nat -> RangedGet.Reply) returns (rc: int)
    modifies target
    ensures rc == if RestoreSucceeds(server.stored, replies) then 0 else -EIO
    ensures rc == 0 ==> RangedGet.Agrees(server.stored.value, old(target.data), target.data, |server.stored.value|)
  {
    if server.stored.None? {
      return -EIO;
    }
    var data := new RangedGet.GetData(target);
    ghost var requests;
    rc, requests := RangedGet.GetObject(server.stored.value, data, replies);
  }

  /** There is an object, and enough replies are fine. */
  ghost predicate RestoreSucceeds(stored: Option<string>, replies: nat -> RangedGet.Reply) {
    stored.Some? && RangedGet.GetSucceeds(replies, RangedGet.Needed(|stored.value|))
  }

  /** The upload lost entries of its document. */
  ghost predicate LostParts(upload: Option<Upload>, failing: set<nat>) {
    upload.Some? && LosesParts(upload.value.es, failing)
  }

  /** The archive put the file itself under its name: by the single PUT, or by an
      upload whose document the server took and that lost nothing. */
  ghost predicate FileStored(upload: Option<Upload>, o: Outside)
    requires Proper(o)
  {
    upload.None? || (UploadStores(upload.value, o) && LosesNothing(upload.value.es, o.failing))
  }

  /** Archive, then restore into an empty file, with or without an older object
      under the name of the file. The restore succeeds exactly as its replies
      say, and then gives what the server has, whatever the chunks, the buffers
      and the failures on the way. If both succeed, that is the archived file,
      byte for byte, exactly if the archive stored it (or the older object is the
      same). An upload that the server did not take leaves the older object to
      be restored. Without an older one every restore that succeeds gives the
      file, unless entries of the commit document were lost. If nothing fails in
      the archive, it stores the file. If nothing fails in it but that the server
      refuses the commit document, the archive of a large file succeeds and
      leaves what was there: the older object, or nothing to restore. */
  method ArchiveThenRestore(file: SourceFile, extent: nat, server: Server, quota: MemQuota.Quota, others: Others,
                            rounds: nat, target: RangedGet.TargetFile, small: SmallOutside, big: Outside,
                            replies: nat -> RangedGet.Reply)
    returns (archived: Option<int>, restored: Option<int>, others': Others, ghost upload: Option<Upload>)
    requires file.pos == 0 && extent >= |file.data| && Shares(quota, others, 0, 0) && Proper(big)
    requires target.data == ""
    modifies file, server, quota, target
    ensures archived.None? <==> restored.None?
    ensures restored.Some? ==> restored.value == if RestoreSucceeds(server.stored, replies) then 0 else -EIO
    ensures restored == Some(0) ==> server.stored == Some(target.data)
    ensures archived == Some(0) && restored == Some(0) && old(server.stored) != Some(file.data) ==>
              (target.data == file.data <==> FileStored(upload, big))
    ensures archived == Some(0) && restored == Some(0) && FileStored(upload, big) ==> target.data == file.data
    ensures upload.Some? && !UploadStores(upload.value, big) ==> server.stored == old(server.stored)
    ensures old(server.stored) == None && restored == Some(0) ==>
              (target.data == file.data <==> !LostParts(upload, big.failing))
    ensures LostParts(upload, big.failing) ==> big.failing != {}
    ensures |file.data| < MAX_OBJ_SIZE_LEVEL && |file.data| <= old(quota.left) &&
              SmallResult(|file.data|, small) == 0 ==>
              archived == Some(0) && server.stored == Some(file.data)
    ensures MAX_OBJ_SIZE_LEVEL <= |file.data| <= MAX_FILE_SIZE && ReachesCommit(big, |file.data|) &&
              CalmOutside(big) ==>
              archived == Some(0) && server.stored == Some(file.data)
    ensures MAX_OBJ_SIZE_LEVEL <= |file.data| <= MAX_FILE_SIZE && ReachesCommit(big, |file.data|) && Refused(big) ==>
              archived == Some(0) && server.stored == old(server.stored)
    ensures Shares(quota, others', 0, if archived.None? then 1 else 0)
  {
    archived, others', upload := Archive(file, extent, server, quota, others, rounds, small, big);
    assert file.data[..|file.data|] == file.data;
    if archived.None? {
      return archived, None, others', upload;
    }
    if upload.Some? {
      UploadDecides(upload.value, archived.value, old(server.stored), server.stored, server.parts, file.data, big);
    }
    var rc := Restore(server, target, replies);
    restored := Some(rc);
    if rc == 0 {
      RangedGet.RestoredIff(server.stored.value, "", target.data);
    }
  }

  lemma {:induction false} UploadDecides(u: Upload, rc: int, was: Option<string>, now: Option<string>,
                                         parts: map<nat, Part>, file: string, o: Outside)
    requires Proper(o) && Ends(u, rc, was, now, parts, file, o)
    ensures was != Some(file) ==>
              (now == Some(file) <==> UploadStores(u, o) && LosesNothing(u.es, o.failing))
    ensures UploadStores(u, o) && LosesNothing(u.es, o.failing) ==> now == Some(file)
    ensures !UploadStores(u, o) ==> now == was
    ensures was == None && now.Some? ==> (now == Some(file) <==> !LosesParts(u.es, o.failing))
    ensures LosesParts(u.es, o.failing) ==> o.failing != {}
    ensures CalmOutside(o) ==> rc == 0 && now == Some(file)
    ensures Refused(o) ==> rc == 0 && now == was
  {
    EndsMeans(u, rc, was, now, parts, file, o);
    ObjectIff(parts, file, u.chunk, u.es, o.failing);
    NothingFails(u.es);
    if CalmOutside(o) || Refused(o) {
      FirstRequestDecides(u, rc, was, now, parts, file, o);
    }
  }
}
