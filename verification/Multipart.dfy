/**
 The parts of a multipart upload: the loop of ct_archive_data_big over them
 (src/lhsmtool_s3.c) with its callbacks (src/s3_callback.c).
 */
module Multipart {
  import opened Common
  import opened S3
  import opened Chunks
  import GrowBuffer

  /** put_object_callback_data of one part. */
  class PartUpload {
    const file: SourceFile
    var contentLength: nat

    constructor (file: SourceFile)
      ensures this.file == file && contentLength == 0
    {
      this.file, contentLength := file, 0;
    }

    /** multipart_put_objectdata_callback: a read that falls short gives
        nothing, whatever it has read. */
    method PutObjectData(bufferSize: nat, gives: nat) returns (bytes: string)
      requires bufferSize > 0 && file.pos + contentLength <= |file.data|
      modifies this, file
      ensures contentLength == old(contentLength) - |bytes| && file.pos <= |file.data|
      ensures |bytes| == if gives < Least(bufferSize, old(contentLength)) then 0
                else Least(bufferSize, old(contentLength))
      ensures bytes != "" ==> file.pos == old(file.pos) + |bytes| && bytes == file.data[old(file.pos)..file.pos]
    {
      bytes := "";
      if contentLength > 0 {
        var toRead := if contentLength > bufferSize then bufferSize else contentLength;
        bytes := file.Read(toRead, gives);
        if |bytes| != toRead {
          bytes := "";
        }
      }
      if bytes != "" {
        contentLength := contentLength - |bytes|;
      }
    }

    /** One request body as the server pulls it, with buffers of any size, until
        `takes` bytes are across. Then the server stops, or a pull gives
        nothing: at the end, or after a read that fell short. */
    method SendBody(takes: nat) returns (body: string)
      requires file.pos + contentLength <= |file.data|
      modifies this, file
      ensures |body| == Least(takes, old(contentLength)) && contentLength == old(contentLength) - |body|
      ensures body == file.data[old(file.pos)..old(file.pos) + |body|]
    {
      body := "";
      ghost var base := file.pos;
      while |body| < takes && contentLength > 0
        invariant |body| + contentLength == old(contentLength) && |body| <= takes
        invariant file.pos == base + |body| && body == file.data[base..base + |body|]
      {
        var bufferSize: nat :| 0 < bufferSize <= takes - |body|;
        var bytes := PutObjectData(bufferSize, bufferSize);
        body := body + bytes;
      }
      var asksMore: bool := *;
      if asksMore {
        var bufferSize: nat :| bufferSize > 0;
        var gives: nat :| contentLength > 0 ==> gives < Least(bufferSize, contentLength);
        var nothing := PutObjectData(bufferSize, gives);
      }
    }
  }

  /** UploadManager */
  class UploadManager {
    const etags: array<Option<string>>
    const gb: GrowBuffer.Buffer
    var nextEtagsPos: nat
    var remaining: nat

    constructor (parts: nat)
      ensures fresh(etags) && etags.Length == parts && nextEtagsPos == 0 && remaining == 0
      ensures fresh(gb) && gb.Valid() && gb.blocks == [] && gb.Contents() == []
    {
      etags := new Option<string>[parts](_ => None);
      gb := new GrowBuffer.Buffer();
      nextEtagsPos, remaining := 0, 0;
    }
  }

  /** S3_upload_part with the callbacks it makes: the body is pulled, the server
      may keep it, and may say so. */
  method UploadPart(up: PartUpload, manager: UploadManager, server: Server, number: nat, declared: nat, a: Attempt)
    returns (body: string, status: Status)
    requires 0 < number <= manager.etags.Length && up.file.pos + up.contentLength <= |up.file.data|
    modifies up, up.file, manager`nextEtagsPos, manager.etags, server`parts
    ensures |body| == Least(a.takes, old(up.contentLength)) && up.contentLength == old(up.contentLength) - |body|
    ensures body == up.file.data[old(up.file.pos)..old(up.file.pos) + |body|]
    ensures var kept := |body| == declared && a.keeps;
            && (kept ==> number in server.parts && WellFormedEtag(server.parts[number].etag))
            && server.parts == (if kept then old(server.parts)[number := Part(body, server.parts[number].etag)]
                                else old(server.parts))
            && manager.nextEtagsPos == (if kept && a.acks then number else old(manager.nextEtagsPos))
            && manager.etags[..] == (if kept && a.acks
                                     then old(manager.etags[..])[number - 1 := Some(server.parts[number].etag)]
                                     else old(manager.etags[..]))
            && status == if kept && Good(a) then Ok else a.error
  {
    body := up.SendBody(a.takes);
    status := a.error;
    if |body| == declared && a.keeps {
      assert WellFormedEtag("");
      var etag: string :| WellFormedEtag(etag);
      server.parts := server.parts[number := Part(body, etag)];
      if a.acks {
        // multipart_put_part_response_properies_callback
        manager.etags[number - 1] := Some(etag);
        manager.nextEtagsPos := number;
        status := if a.completes then Ok else a.error;
      }
    }
  }

  /** The server keeps the right bytes for the part, under the ETag in its
      slot. */
  ghost predicate PartKept(manager: UploadManager, server: Server, number: nat, slice: string)
    requires 0 < number <= manager.etags.Length
    reads manager.etags, server
  {
    && number in server.parts && server.parts[number].body == slice
    && WellFormedEtag(server.parts[number].etag)
    && manager.etags[number - 1] == Some(server.parts[number].etag)
  }

  /** The first attempt that takes any byte takes all n, and the server keeps
      them and says so. */
  ghost predicate PartSucceeds(script: seq<Attempt>, n: nat) {
    exists j :: 0 <= j < |script| && j <= RETRYCOUNT && UntouchedBefore(script, j) && script[j].takes >= n &&
        Good(script[j])
  }

  ghost predicate UntouchedBefore(script: seq<Attempt>, j: nat)
    requires j <= |script|
  {
    forall i :: 0 <= i < j ==> script[i].takes == 0
  }

  /** Once an attempt has taken a byte and did not succeed, the part cannot. */
  lemma TouchedFails(script: seq<Attempt>, k: nat, n: nat)
    requires k < |script| && n > 0 && UntouchedBefore(script, k) && script[k].takes > 0
    ensures PartSucceeds(script, n) <==> k <= RETRYCOUNT && script[k].takes >= n && Good(script[k])
  {
    if PartSucceeds(script, n) {
      var j :| 0 <= j < |script| && j <= RETRYCOUNT && UntouchedBefore(script, j) && script[j].takes >= n &&
          Good(script[j]);
    }
  }

  /** What attempt number k decides, with `was` bytes left before it, of which
      it takes m. */
  lemma AttemptDecides(script: seq<Attempt>, k: nat, n: nat, was: nat, m: nat)
    requires k < |script| == RETRYCOUNT + 1 && n > 0 && was <= n && m == Least(script[k].takes, was)
    requires was == n ==> UntouchedBefore(script, k)
    requires was < n ==> !PartSucceeds(script, n)
    ensures was - m == n ==> UntouchedBefore(script, k + 1)
    ensures was - m < n ==> (PartSucceeds(script, n) <==> m == n && Good(script[k]))
    ensures was - m == n && k == RETRYCOUNT ==> !PartSucceeds(script, n)
  {
    if was == n && m > 0 {
      TouchedFails(script, k, n);
    }
  }

  /** So a single byte lost in the first attempt makes all of them fail, however
      well the others go. */
  lemma OneByteLostLosesPart(script: seq<Attempt>, n: nat)
    requires n > 1 && |script| == RETRYCOUNT + 1 && script[0].takes == 1
    requires forall i :: 0 < i < |script| ==> script[i] == CalmScript(n)[i]
    ensures !PartSucceeds(script, n)
    ensures PartSucceeds(script[0 := script[0].(takes := 0)], n)
  {
    TouchedFails(script, 0, n);
    var untouched := script[0 := script[0].(takes := 0)];
    assert UntouchedBefore(untouched, 1) && untouched[1] == CalmScript(n)[1];
  }

  /** No body follows a body that is not empty, unless it is too short. */
  ghost predicate LaterAreShort(bodies: seq<string>, declared: nat) {
    forall i, k :: 0 <= i < k < |bodies| && bodies[i] != "" ==> |bodies[k]| < declared
  }

  /** The bodies sent so far, with `left` bytes of the slice still to take. */
  ghost predicate SentSoFar(script: seq<Attempt>, bodies: seq<string>, slice: string, left: nat) {
    && |bodies| <= |script| && left <= |slice|
    && (forall b :: b in bodies ==> b <= slice)
    && (left == |slice| ==> UntouchedBefore(script, |bodies|) && forall b :: b in bodies ==> b == "")
    && LaterAreShort(bodies, |slice|)
  }

  lemma {:induction false} SentOn(script: seq<Attempt>, bodies: seq<string>, slice: string, left: nat, body: string)
    requires SentSoFar(script, bodies, slice, left) && |bodies| < |script| == RETRYCOUNT + 1 && slice != ""
    requires body <= slice && |body| == Least(script[|bodies|].takes, left)
    requires left < |slice| ==> !PartSucceeds(script, |slice|)
    ensures SentSoFar(script, bodies + [body], slice, left - |body|)
    ensures left - |body| < |slice| ==> (PartSucceeds(script, |slice|) <==> body == slice && Good(script[|bodies|]))
    ensures left - |body| == |slice| && |bodies| == RETRYCOUNT ==> !PartSucceeds(script, |slice|)
  {
    AttemptDecides(script, |bodies|, |slice|, left, |body|);
    assert forall i :: 0 <= i < |bodies| ==> (bodies + [body])[i] == bodies[i] && bodies[i] in bodies;
  }

  /** One attempt at a part. */
  method TryPart(up: PartUpload, manager: UploadManager, server: Server, number: nat, chunk: nat, declared: nat,
                 a: Attempt)
    returns (body: string, status: Status)
    requires 0 < number <= manager.etags.Length && (number - 1) * chunk < |up.file.data| && chunk > 0
    requires up.contentLength <= declared == |PartOf(up.file.data, chunk, number)|
    modifies up, up.file, manager`nextEtagsPos, manager.etags, server`parts
    ensures body == PartOf(up.file.data, chunk, number)[..Least(a.takes, old(up.contentLength))]
    ensures up.contentLength == old(up.contentLength) - |body|
    ensures |body| < declared || !a.keeps ==>
              manager.nextEtagsPos == old(manager.nextEtagsPos) && server.parts == old(server.parts)
              && manager.etags[..] == old(manager.etags[..])
    ensures manager.nextEtagsPos == if |body| == declared && a.keeps && a.acks then number
              else old(manager.nextEtagsPos)
    ensures |body| == declared && a.keeps && a.acks ==>
              PartKept(manager, server, number, PartOf(up.file.data, chunk, number))
    ensures status == if |body| == declared && Good(a) then Ok
                      else if manager.nextEtagsPos != number then RequestTimeout else a.error
    ensures forall i :: 0 <= i < manager.etags.Length && i != number - 1 ==> manager.etags[i] == old(manager.etags[i])
    ensures forall n :: n in old(server.parts) && n != number ==>
              n in server.parts && server.parts[n] == old(server.parts[n])
  {
    ghost var before := manager.etags[..];
    up.file.Seek((number - 1) * chunk);
    body, status := UploadPart(up, manager, server, number, declared, a);
    assert forall i :: 0 <= i < manager.etags.Length ==>
        manager.etags[i] == manager.etags[..][i] && before[i] == old(manager.etags[i]);
    if manager.nextEtagsPos != number {
      status := RequestTimeout;
    }
  }

  /** The retry loop for one part. `up.contentLength` is set before it and not
      again for a retry, so once an attempt has taken a byte, all later bodies
      are too short and are refused. */
  method PutPart(up: PartUpload, manager: UploadManager, server: Server, number: nat, chunk: nat, script: Script)
    returns (ok: bool, ghost bodies: seq<string>)
    requires 0 < number <= manager.etags.Length && (number - 1) * chunk < |up.file.data| && chunk > 0
    requires up.contentLength == |PartOf(up.file.data, chunk, number)| && manager.nextEtagsPos == number - 1
    modifies up, up.file, manager`nextEtagsPos, manager.etags, server`parts
    ensures ok <==> PartSucceeds(script, |PartOf(up.file.data, chunk, number)|)
    ensures |bodies| <= RETRYCOUNT + 1 && forall b :: b in bodies ==> b <= PartOf(up.file.data, chunk, number)
    ensures LaterAreShort(bodies, |PartOf(up.file.data, chunk, number)|)
    ensures ok ==> manager.nextEtagsPos == number && up.contentLength == 0
    ensures ok ==> PartKept(manager, server, number, PartOf(up.file.data, chunk, number))
    ensures forall i :: 0 <= i < manager.etags.Length && i != number - 1 ==> manager.etags[i] == old(manager.etags[i])
    ensures forall n :: n in old(server.parts) && n != number ==>
              n in server.parts && server.parts[n] == old(server.parts[n])
  {
    ghost var slice := PartOf(up.file.data, chunk, number);
    var declared := up.contentLength;
    var retries := new Retries();
    var status := Ok;
    var k := 0;
    bodies := [];
    var again := true;
    while again
      invariant |bodies| == k && SentSoFar(script, bodies, slice, up.contentLength)
      invariant again ==> retries.left + k == RETRYCOUNT && retries.left >= 0
      invariant manager.nextEtagsPos == number - 1 || manager.nextEtagsPos == number
      invariant manager.nextEtagsPos == number ==> PartKept(manager, server, number, slice) && up.contentLength == 0
      invariant again && up.contentLength < declared ==> !PartSucceeds(script, declared)
      invariant !again ==> (status == Ok <==> PartSucceeds(script, declared))
      invariant !again && status == Ok ==> manager.nextEtagsPos == number
      invariant forall i :: 0 <= i < manager.etags.Length && i != number - 1 ==>
          manager.etags[i] == old(manager.etags[i])
      invariant forall n :: n in old(server.parts) && n != number ==>
          n in server.parts && server.parts[n] == old(server.parts[n])
      decreases if again then retries.left + 1 else 0
    {
      var body;
      ghost var was := up.contentLength;
      body, status := TryPart(up, manager, server, number, chunk, declared, script[k]);
      SentOn(script, bodies, slice, was, body);
      bodies := bodies + [body];
      k := k + 1;
      again := retries.RetryOn(status);
    }
    ok := status == Ok;
  }

  /** PartKept for the part's own slice of the file. */
  ghost predicate SliceKept(manager: UploadManager, server: Server, file: string, chunk: nat, number: nat)
    requires 0 < number <= manager.etags.Length
    reads manager.etags, server
  {
    (number - 1) * chunk <= |file| && PartKept(manager, server, number, PartOf(file, chunk, number))
  }

  /** One part: its length, then its retry loop. Those before it stay kept. */
  method PutNext(up: PartUpload, manager: UploadManager, server: Server, number: nat, chunk: nat, left: nat,
                 script: Script)
    returns (ok: bool, length: nat)
    requires 0 < number <= manager.etags.Length && (number - 1) * chunk < |up.file.data| && chunk > 0
    requires left == |up.file.data| - (number - 1) * chunk && manager.nextEtagsPos == number - 1
    requires forall n :: 0 < n < number ==> SliceKept(manager, server, up.file.data, chunk, n)
    modifies up, up.file, manager`nextEtagsPos, manager.etags, server`parts
    ensures ok <==> PartSucceeds(script, PartLength(|up.file.data|, chunk, number))
    ensures length == PartLength(|up.file.data|, chunk, number)
    ensures ok ==> manager.nextEtagsPos == number && up.contentLength == 0
    ensures ok ==> forall n :: 0 < n <= number ==> SliceKept(manager, server, up.file.data, chunk, n)
  {
    length := if left > chunk then chunk else left;
    assert number * chunk == (number - 1) * chunk + chunk;
    up.contentLength := length;
    ghost var bodies;
    ok, bodies := PutPart(up, manager, server, number, chunk, script);
    forall n | 0 < n < number
      ensures SliceKept(manager, server, up.file.data, chunk, n)
    {
      assert old(SliceKept(manager, server, up.file.data, chunk, n));
      assert manager.etags[n - 1] == old(manager.etags[n - 1]);
    }
  }

  /** Every part succeeds with its script. */
  ghost predicate PartsSucceed(scripts: nat -> Script, size: nat, chunk: nat, total: nat) {
    forall n :: 0 < n <= total ==> PartSucceeds(scripts(n), PartLength(size, chunk, n))
  }

  /** The loop over the parts. It comes to its end exactly if every part
      succeeds, and then every part is kept whole under the ETag in its slot, and
      no byte is left to send. */
  method PutParts(up: PartUpload, manager: UploadManager, server: Server, chunk: nat, total: nat,
                  scripts: nat -> Script)
    returns (ok: bool)
    requires chunk > 0 && total > 0 && manager.etags.Length == total && manager.nextEtagsPos == 0
    requires (total - 1) * chunk < |up.file.data| <= total * chunk
    modifies up, up.file, manager`nextEtagsPos, manager.etags, server`parts
    ensures ok <==> PartsSucceed(scripts, |up.file.data|, chunk, total)
    ensures ok ==> manager.nextEtagsPos == total && up.contentLength == 0
    ensures ok ==> forall n :: 0 < n <= total ==> SliceKept(manager, server, up.file.data, chunk, n)
  {
    ghost var file := up.file.data;
    var contentLength := |up.file.data|;
    up.contentLength := 0;
    for number := manager.nextEtagsPos + 1 to total + 1
      invariant manager.nextEtagsPos == number - 1 && up.contentLength == 0
      invariant contentLength == if (number - 1) * chunk <= |file| then |file| - (number - 1) * chunk else 0
      invariant PartsSucceed(scripts, |file|, chunk, number - 1)
      invariant forall n :: 0 < n < number ==> SliceKept(manager, server, file, chunk, n)
    {
      Before(number, total, chunk);
      var put, partLength := PutNext(up, manager, server, number, chunk, contentLength, scripts(number));
      if !put {
        return false;
      }
      contentLength := contentLength - partLength;
      assert number * chunk == (number - 1) * chunk + chunk;
    }
    ok := true;
  }

  lemma Before(number: nat, total: nat, chunk: nat)
    requires 0 < number <= total
    ensures (number - 1) * chunk <= (total - 1) * chunk
  {
  }
}
