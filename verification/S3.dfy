/**
 What stands around the copytool: the retry budget (src/ct_common.c), a source
 file, and an S3 server that may do what it likes short of inventing bytes. It
 pulls a body with any buffer sizes, may stop or fail after any prefix, keeps a
 body only if it has exactly the declared length, and may keep a body without
 saying so. It never says that it keeps one it does not.
 */
module S3 {
  import opened Common
  import CommitDoc

  const RETRYCOUNT: int := 5

  datatype Status = Ok | InvalidRange | RequestTimeout | Other(retryable: bool)

  type Error = s: Status | !s.Ok? witness RequestTimeout

  /** What comes from outside in one attempt to send a body: after how many
      bytes the server stops or a read fails, whether the server keeps a body of
      the declared length, whether its answer begins to arrive, whether it
      arrives whole, and the error reported otherwise. */
  datatype Attempt = Attempt(takes: nat, keeps: bool, acks: bool, completes: bool, error: Error)

  predicate Good(a: Attempt) {
    a.keeps && a.acks && a.completes
  }

  /** Attempts in which nothing fails, for a body of n bytes. */
  function CalmScript(n: nat): (script: seq<Attempt>)
    ensures |script| == RETRYCOUNT + 1
    ensures forall i :: 0 <= i < |script| ==> script[i].takes == n && Good(script[i])
  {
    seq(RETRYCOUNT + 1, _ => Attempt(n, true, true, true, RequestTimeout))
  }

  type Script = s: seq<Attempt> | |s| == RETRYCOUNT + 1 witness CalmScript(0)

  predicate IsRetryable(s: Status) {
    s.RequestTimeout? || (s.Other? && s.retryable)
  }

  /** The `int retry_count` a caller passes by address. */
  class Retries {
    var left: int

    constructor ()
      ensures left == RETRYCOUNT
    {
      left := RETRYCOUNT;
    }

    /** should_retry */
    method ShouldRetry() returns (again: bool)
      modifies this
      ensures again <==> old(left) != 0
      ensures left == old(left) - 1
    {
      again := left != 0;
      left := left - 1;
    }

    /** S3_status_is_retryable and should_retry. */
    method RetryOn(status: Status) returns (again: bool)
      modifies this
      ensures again <==> IsRetryable(status) && old(left) != 0
      ensures again ==> left == old(left) - 1
    {
      again := false;
      if IsRetryable(status) {
        again := ShouldRetry();
      }
    }
  }

  /** A file open for reading, which does not change. */
  class SourceFile {
    const data: string
    var pos: nat

    constructor (data: string)
      ensures this.data == data && pos == 0
    {
      this.data, pos := data, 0;
    }

    method Seek(offset: nat)
      modifies this
      ensures pos == offset
    {
      pos := offset;
    }

    /** read(2): no more than it is asked for and there is, and no more than
        `gives`, because it may fall short. */
    method Read(want: nat, gives: nat) returns (bytes: string)
      requires pos <= |data|
      modifies this
      ensures |bytes| == Least(Least(want, gives), |data| - old(pos))
      ensures pos == old(pos) + |bytes| <= |data| && bytes == data[old(pos)..pos]
    {
      var n := Least(Least(want, gives), |data| - pos);
      bytes := data[pos..pos + n];
      pos := pos + n;
    }
  }

  datatype Part = Part(body: string, etag: string)

  /** Short enough for the 256-byte buffer of a commit entry. */
  predicate WellFormedEtag(etag: string) {
    |etag| < 200 && '<' !in etag
  }

  class Server {
    var parts: map<nat, Part>
    var stored: Option<string>

    constructor ()
      ensures parts == map[] && stored == None
    {
      parts, stored := map[], None;
    }
  }

  predicate Listed(parts: map<nat, Part>, e: CommitDoc.Entry) {
    e.number in parts && parts[e.number].etag == e.etag
  }

  /** The object a commit document describes, if every entry names a part the
      server keeps under that ETag. */
  function Assemble(parts: map<nat, Part>, es: seq<CommitDoc.Entry>): Option<string> {
    if es == [] then Some("")
    else if !Listed(parts, es[0]) then None
    else match Assemble(parts, es[1..])
         case None => None
         case Some(rest) => Some(parts[es[0].number].body + rest)
  }
}
