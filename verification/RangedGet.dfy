/**
 Restoring an object by ranges: get_s3_object (src/lhsmtool_s3.c, the range
 version) with its callbacks (src/s3_callback.c). The server honours ranges as
 section 14 of RFC 9110 describes and answers a range outside of the object with
 InvalidRange (section 15.5.17); apart from that it may fail any request after
 any prefix of what it was to send.
 */
module RangedGet {
  import opened Common
  import opened S3
  import opened Chunks

  /** The file being restored. */
  class TargetFile {
    var data: string
    var pos: nat

    constructor (data: string)
      ensures this.data == data && pos == 0
    {
      this.data, pos := data, 0;
    }

    method Seek(offset: nat)
      modifies this`pos
      ensures pos == offset
    {
      pos := offset;
    }

    /** write(2) at the file position: it may write less than it is given. */
    method Write(bytes: string, calm: bool) returns (wrote: nat)
      requires pos <= |data|
      modifies this
      ensures calm ==> wrote == |bytes|
      ensures wrote <= |bytes| && pos == old(pos) + wrote
      ensures data == Overwrite(old(data), old(pos), bytes[..wrote])
    {
      wrote :| 0 <= wrote <= |bytes|;
      if calm {
        wrote := |bytes|;
      }
      data := Overwrite(data, pos, bytes[..wrote]);
      pos := pos + wrote;
    }
  }

  function Overwrite(data: string, at: nat, bytes: string): (d: string)
    requires at <= |data|
    ensures |d| == if at + |bytes| > |data| then at + |bytes| else |data|
  {
    data[..at] + bytes + if at + |bytes| <= |data| then data[at + |bytes|..] else ""
  }

  /** Two writes, one after the other. */
  lemma OverwriteJoin(data: string, at: nat, b: string, c: string)
    requires at <= |data|
    ensures Overwrite(Overwrite(data, at, b), at + |b|, c) == Overwrite(data, at, b + c)
  {
  }

  /** get_object_callback_data */
  class GetData {
    const fd: TargetFile
    var totalLength: nat
    var contentLength: nat

    constructor (fd: TargetFile)
      ensures this.fd == fd && totalLength == contentLength == 0
    {
      this.fd, totalLength, contentLength := fd, 0, 0;
    }
  }

  function RangeLength(size: nat, start: nat, count: nat): nat
    requires start <= size
  {
    if size - start > count then count else size - start
  }

  lemma OverwriteMore(file: string, obj: string, a: nat, b: nat, c: nat, n: nat)
    requires a <= b <= c <= |obj| && n <= c - b && a <= |file|
    ensures Overwrite(Overwrite(file, a, obj[a..b]), b, obj[b..c][..n]) == Overwrite(file, a, obj[a..b + n])
  {
    OverwriteJoin(file, a, obj[a..b], obj[b..c][..n]);
    assert obj[a..b] + obj[b..c][..n] == obj[a..b + n];
  }

  /** get_objectdata_callback: the next piece of the response goes to the file
      position. n bytes from `start` on were there already. */
  method ObjectData(obj: string, start: nat, n: nat, size: nat, data: GetData, ghost was: string, calm: bool)
    returns (wrote: nat)
    requires start + n + size <= |obj| && data.fd.pos == start + n && start <= |was|
    requires data.fd.data == Overwrite(was, start, obj[start..start + n])
    modifies data.fd
    ensures wrote <= size && (calm ==> wrote == size) && data.fd.pos == start + n + wrote
    ensures data.fd.data == Overwrite(was, start, obj[start..start + n + wrote])
  {
    OverwriteMoreThan(was, obj, start, start + n, start + n + size);
    wrote := data.fd.Write(obj[start + n..start + n + size], calm);
  }

  lemma OverwriteMoreThan(file: string, obj: string, a: nat, b: nat, c: nat)
    requires a <= b <= c <= |obj| && a <= |file|
    ensures b <= |Overwrite(file, a, obj[a..b])|
    ensures forall n :: 0 <= n <= c - b ==>
              Overwrite(Overwrite(file, a, obj[a..b]), b, obj[b..c][..n]) == Overwrite(file, a, obj[a..b + n])
  {
    forall n | 0 <= n <= c - b
      ensures Overwrite(Overwrite(file, a, obj[a..b]), b, obj[b..c][..n]) == Overwrite(file, a, obj[a..b + n])
    {
      OverwriteMore(file, obj, a, b, c, n);
    }
  }

  /** The data callbacks of one response: the server sends pieces of its own
      choice, and they are written until a write falls short. `n` bytes arrive
      in the file. */
  method ReceiveBody(obj: string, start: nat, length: nat, data: GetData, calm: bool)
    returns (complete: bool, ghost n: nat)
    requires start + length <= |obj| && data.fd.pos == start <= |data.fd.data|
    modifies data.fd
    ensures n <= length && (complete ==> n == length) && (calm ==> complete)
    ensures data.fd.data == Overwrite(old(data.fd.data), start, obj[start..start + n])
  {
    var sent: nat := 0;
    ghost var was := data.fd.data;
    n := 0;
    complete := true;
    while sent < length && complete
      invariant n <= sent <= length && (complete ==> n == sent && data.fd.pos == start + n)
      invariant data.fd.data == Overwrite(was, start, obj[start..start + n])
      invariant calm ==> complete
      decreases length - sent, complete
    {
      var stop: bool := *;
      if stop && !calm {
        complete := false;
      } else {
        var size: nat :| 0 < size <= length - sent;
        var wrote := ObjectData(obj, start, sent, size, data, was, calm);
        n := n + wrote;
        sent := sent + size;
        complete := wrote == size;
      }
    }
  }

  type Failure = s: Status | s.RequestTimeout? || s.Other? witness RequestTimeout

  /** How a request fares: nothing fails, or something does on the way, and this
      is what the caller is told. */
  datatype Reply = Fine | Broken(error: Failure)

  /** S3_get_object for one range. */
  method GetRange(obj: string, start: nat, count: nat, data: GetData, reply: Reply)
    returns (status: Status, ghost n: nat)
    requires data.fd.pos == start <= |data.fd.data| && start <= |obj| && count > 0
    modifies data`contentLength, data.fd
    ensures n <= RangeLength(|obj|, start, count)
    ensures data.fd.data == Overwrite(old(data.fd.data), start, obj[start..start + n])
    ensures status.Ok? ==> n == RangeLength(|obj|, start, count) == data.contentLength
    ensures status == if reply.Broken? then reply.error else if start >= |obj| then InvalidRange else Ok
  {
    n := 0;
    status := if reply.Broken? then reply.error else Ok;
    var early: bool := *;
    if early && reply.Broken? {
      return;
    }
    if start >= |obj| {
      status := if reply.Broken? then reply.error else InvalidRange;
      return;
    }
    // s3_response_get_object_properties_callback
    data.contentLength := RangeLength(|obj|, start, count);
    var complete;
    complete, n := ReceiveBody(obj, start, data.contentLength, data, reply.Fine?);
  }

  /** The restored file so far: right up to `start`, and beyond it every byte is
      either the object's at that place or what the file had there before. */
  ghost predicate Agrees(obj: string, prior: string, file: string, start: nat) {
    && start <= |obj| && start <= |file| && |prior| <= |file|
    && (|file| <= |obj| || |file| == |prior|)
    && file[..start] == obj[..start]
    && forall i :: start <= i < |file| ==>
         (i < |obj| && file[i] == obj[i]) || (i < |prior| && file[i] == prior[i])
  }

  lemma OverwriteAgrees(obj: string, prior: string, file: string, start: nat, n: nat)
    requires Agrees(obj, prior, file, start) && start + n <= |obj|
    ensures Agrees(obj, prior, Overwrite(file, start, obj[start..start + n]), start)
    ensures Agrees(obj, prior, Overwrite(file, start, obj[start..start + n]), start + n)
  {
    var file' := Overwrite(file, start, obj[start..start + n]);
    assert forall i :: start + n <= i < |file'| ==> file'[i] == file[i];
    assert forall i :: start <= i < start + n ==> file'[i] == obj[i];
    assert file'[..start] == file[..start];
    assert file'[..start + n] == file[..start] + obj[start..start + n];
  }

  /** One request of get_s3_object. */
  method FetchRange(obj: string, start: nat, byteCount: nat, data: GetData, ghost prior: string, reply: Reply)
    returns (status: Status)
    requires Agrees(obj, prior, data.fd.data, start) && byteCount > 0
    modifies data`contentLength, data.fd
    ensures Agrees(obj, prior, data.fd.data, start)
    ensures status == if reply.Broken? then reply.error else if start == |obj| then InvalidRange else Ok
    ensures status.Ok? ==> data.contentLength == RangeLength(|obj|, start, byteCount)
    ensures status.Ok? ==> Agrees(obj, prior, data.fd.data, start + data.contentLength)
  {
    data.fd.Seek(start);
    ghost var was := data.fd.data;
    ghost var n;
    status, n := GetRange(obj, start, byteCount, data, reply);
    OverwriteAgrees(obj, prior, was, start, n);
  }

  // ---- what the replies decide ---------------------------------------------

  /** How many of the first m replies are fine. */
  function Goods(replies: nat -> Reply, m: nat): (goods: nat)
    ensures goods <= m
  {
    if m == 0 then 0 else Goods(replies, m - 1) + if replies(m - 1).Fine? then 1 else 0
  }

  ghost predicate AllRetryable(replies: nat -> Reply, m: nat) {
    forall i :: 0 <= i < m && replies(i).Broken? ==> IsRetryable(replies(i).error)
  }

  /** The first `need` fine replies come with at most RETRYCOUNT broken ones
      among them, and these are retryable. */
  ghost predicate GetSucceeds(replies: nat -> Reply, need: nat) {
    exists m :: m >= 0 && Goods(replies, m) == need && m - need <= RETRYCOUNT && AllRetryable(replies, m)
  }

  /** An object takes a request for every whole chunk, and one more that is short
      or finds the end. */
  function Needed(size: nat): nat {
    size / CHUNK_SIZE + 1
  }

  lemma {:induction false} GoodsGrow(replies: nat -> Reply, k: nat, m: nat)
    requires k <= m
    ensures Goods(replies, k) <= Goods(replies, m) && k - Goods(replies, k) <= m - Goods(replies, m)
  {
    if k < m {
      GoodsGrow(replies, k, m - 1);
    }
  }

  /** With the budget used up or an error that is not retried before enough fine
      replies, the others do not help. */
  lemma {:induction false} TooManyBroken(replies: nat -> Reply, k: nat, need: nat)
    requires Goods(replies, k) < need
    requires !AllRetryable(replies, k) || k - Goods(replies, k) > RETRYCOUNT
    ensures !GetSucceeds(replies, need)
  {
    forall m: nat | Goods(replies, m) == need
      ensures m - need > RETRYCOUNT || !AllRetryable(replies, m)
    {
      if m >= k {
        GoodsGrow(replies, k, m);
      } else {
        GoodsGrow(replies, m, k);
      }
    }
  }

  lemma {:induction false} AllFine(replies: nat -> Reply, m: nat)
    requires forall i :: 0 <= i < m ==> replies(i).Fine?
    ensures Goods(replies, m) == m && AllRetryable(replies, m)
  {
    if m > 0 {
      AllFine(replies, m - 1);
    }
  }

  lemma {:induction false} FineFromOn(replies: nat -> Reply, k: nat, m: nat)
    requires k <= m && forall i :: k <= i < m ==> replies(i).Fine?
    ensures Goods(replies, m) == Goods(replies, k) + m - k
  {
    if k < m {
      FineFromOn(replies, k, m - 1);
    }
  }

  lemma {:induction false} NoneFine(replies: nat -> Reply, m: nat)
    requires forall i :: 0 <= i < m ==> replies(i).Broken?
    ensures Goods(replies, m) == 0
  {
    if m > 0 {
      NoneFine(replies, m - 1);
    }
  }

  /** Up to five timeouts and then only fine replies: the restore succeeds. */
  lemma {:induction false} FiveTimeoutsAreRetried(replies: nat -> Reply, k: nat, size: nat)
    requires k <= 5 && forall i :: 0 <= i < k ==> replies(i) == Broken(RequestTimeout)
    requires forall i :: k <= i ==> replies(i).Fine?
    ensures GetSucceeds(replies, Needed(size))
  {
    var m := Needed(size) + k;
    NoneFine(replies, k);
    FineFromOn(replies, k, m);
    assert AllRetryable(replies, m);
  }

  /** Six timeouts at the start: it fails. */
  lemma {:induction false} SixTimeoutsFail(replies: nat -> Reply, size: nat)
    requires forall i :: 0 <= i < 6 ==> replies(i) == Broken(RequestTimeout)
    ensures !GetSucceeds(replies, Needed(size))
  {
    NoneFine(replies, 6);
    TooManyBroken(replies, 6, Needed(size));
  }

  // ---- the loop ------------------------------------------------------------

  /** One round of the loop of get_s3_object, up to the question of a retry. */
  method GetRound(obj: string, start: nat, data: GetData, ghost prior: string, reply: Reply, ghost ranges: nat)
    returns (status: Status, more: bool)
    requires Agrees(obj, prior, data.fd.data, start) && data.totalLength == start == ranges * CHUNK_SIZE
    modifies data, data.fd
    ensures Agrees(obj, prior, data.fd.data, data.totalLength)
    ensures reply.Broken? ==> status == reply.error && !more && data.totalLength == start
    ensures reply.Fine? ==> status.Ok?
    ensures more ==> reply.Fine? && data.totalLength == start + CHUNK_SIZE
    ensures reply.Fine? && !more ==> data.totalLength == |obj| && ranges + 1 == Needed(|obj|)
  {
    var byteCount := CHUNK_SIZE;
    more := false;
    status := FetchRange(obj, start, byteCount, data, prior, reply);
    if status.Ok? {
      data.totalLength := data.totalLength + data.contentLength;
      more := byteCount == data.contentLength;
    } else if status.InvalidRange? {
      status := Ok;
    }
    if reply.Fine? && !more {
      LastRange(|obj|, start, ranges);
    }
  }

  /** get_s3_object. It succeeds exactly as GetSucceeds says. However it ends, the
      file agrees with the object up to totalLength, and all it wrote beyond came
      from the same place of the object. On success the file has the object's
      bytes, followed by whatever a longer file had behind them, so that it
      equals the object exactly if the file was not longer before. The retry
      budget is shared by all ranges, which bounds the requests. */
  method GetObject(obj: string, data: GetData, replies: nat -> Reply) returns (rc: int, ghost requests: nat)
    requires data.totalLength == 0
    modifies data, data.fd
    ensures rc == if GetSucceeds(replies, Needed(|obj|)) then 0 else -EIO
    ensures Agrees(obj, old(data.fd.data), data.fd.data, data.totalLength)
    ensures rc == 0 ==> data.totalLength == |obj|
    ensures requests <= Needed(|obj|) + RETRYCOUNT
  {
    ghost var prior := data.fd.data;
    ghost var ranges: nat := 0;
    var retries := new Retries();
    var start: nat, k: nat := 0, 0;
    var status: Status := Ok;
    var again := true;
    while again
      invariant Agrees(obj, prior, data.fd.data, data.totalLength)
      invariant again ==> start == data.totalLength == ranges * CHUNK_SIZE && retries.left >= 0
      invariant again ==> ranges == Goods(replies, k) && k == ranges + (RETRYCOUNT - retries.left)
      invariant again ==> AllRetryable(replies, k) && ranges < Needed(|obj|)
      invariant k <= Needed(|obj|) + RETRYCOUNT
      invariant !again ==> (status.Ok? <==> GetSucceeds(replies, Needed(|obj|)))
      invariant !again && status.Ok? ==> data.totalLength == |obj|
      decreases again, |obj| - start, retries.left
    {
      status, again := GetRound(obj, start, data, prior, replies(k), ranges);
      k := k + 1;
      if again {
        start, ranges := start + CHUNK_SIZE, ranges + 1;
      } else if status.Ok? {
        Enough(replies, k, Needed(|obj|));
      } else {
        again := retries.RetryOn(status);
        if !again {
          TooManyBroken(replies, k, Needed(|obj|));
        }
      }
    }
    requests := k;
    rc := if status.Ok? then 0 else -EIO;
  }

  lemma {:induction false} LastRange(size: nat, start: nat, ranges: nat)
    requires start == ranges * CHUNK_SIZE && start <= size < start + CHUNK_SIZE
    ensures ranges + 1 == Needed(size)
  {
  }

  lemma {:induction false} Enough(replies: nat -> Reply, m: nat, need: nat)
    requires Goods(replies, m) == need && m - need <= RETRYCOUNT && AllRetryable(replies, m)
    ensures GetSucceeds(replies, need)
  {
  }

  /** What a successful restore leaves in the file: the object, and behind it
      the end of a file that was longer before. So the file equals the object
      exactly if it was not longer. */
  lemma RestoredIff(obj: string, prior: string, file: string)
    requires Agrees(obj, prior, file, |obj|)
    ensures file == obj + if |prior| > |obj| then prior[|obj|..] else ""
    ensures file == obj <==> |prior| <= |obj|
  {
    assert file == file[..|obj|] + file[|obj|..];
    if |prior| > |obj| {
      assert file[|obj|..] == prior[|obj|..];
    }
  }
}
