/**
 The end of a multipart upload: building the commit document in a growbuffer and
 handing it over (ct_archive_data_big in src/lhsmtool_s3.c with the callback in
 src/s3_callback.c). Malloc may fail in any of the appends; `failing` has the
 numbers of those in which it does, 0 being the opening tag.
 */
module Committing {
  import opened Common
  import opened S3
  import opened Chunks
  import opened Multipart
  import opened CutDoc
  import CommitDoc
  import GrowBuffer

  // ---- what gets into the buffer -------------------------------------------

  /** How much of the piece number `at` gets in behind n bytes. A piece is
      smaller than a block, so it needs at most one malloc. */
  function Done(length: nat, at: nat, n: nat, failing: set<nat>): (d: nat)
    ensures d <= length
  {
    if at in failing then Least(length, GrowBuffer.RoomAfter(n)) else length
  }

  ghost function Dones(ps: seq<string>, at: nat, n: nat, failing: set<nat>): (ds: seq<nat>)
    ensures Cuts(ps, ds)
  {
    if ps == [] then []
    else
      var d := Done(|ps[0]|, at, n, failing);
      [d] + Dones(ps[1..], at + 1, n + d, failing)
  }

  /** What the buffer holds in the end, and what of it is counted. */
  ghost function Written(ps: seq<string>, at: nat, n: nat, failing: set<nat>): string {
    Put(ps, Dones(ps, at, n, failing))
  }

  ghost function CountedOf(ps: seq<string>, at: nat, n: nat, failing: set<nat>): nat {
    Counted(ps, Dones(ps, at, n, failing))
  }

  /** The text that is handed over to the server. */
  ghost function HandedText(es: seq<CommitDoc.Entry>, failing: set<nat>): string {
    Handed(AllPieces(es), Dones(AllPieces(es), 0, 0, failing))
  }

  lemma WrittenStep(ps: seq<string>, at: nat, n: nat, failing: set<nat>)
    requires ps != []
    ensures var d := Done(|ps[0]|, at, n, failing);
            && Written(ps, at, n, failing) == ps[0][..d] + Written(ps[1..], at + 1, n + d, failing)
            && CountedOf(ps, at, n, failing) ==
                 (if d == |ps[0]| then |ps[0]| else 0) + CountedOf(ps[1..], at + 1, n + d, failing)
  {
    var d := Done(|ps[0]|, at, n, failing);
    var ds := Dones(ps, at, n, failing);
    assert ds[0] == d && ds[1..] == Dones(ps[1..], at + 1, n + d, failing);
  }

  lemma {:induction false} DecimalLength(n: nat)
    requires n < 100000
    ensures |CommitDoc.Decimal(n)| == if n < 10 then 1 else if n < 100 then 2 else if n < 1000 then 3
              else if n < 10000 then 4 else 5
  {
    assert n >= 10 ==> |CommitDoc.Decimal(n)| == |CommitDoc.Decimal(n / 10)| + 1;
    assert n >= 100 ==> |CommitDoc.Decimal(n / 10)| == |CommitDoc.Decimal(n / 100)| + 1;
    assert n >= 1000 ==> |CommitDoc.Decimal(n / 100)| == |CommitDoc.Decimal(n / 1000)| + 1;
    assert n >= 10000 ==> |CommitDoc.Decimal(n / 1000)| == |CommitDoc.Decimal(n / 10000)| + 1;
  }

  /** An entry fits the 256-byte buffer it is printed into. */
  lemma EntryFits(e: CommitDoc.Entry)
    requires e.number <= MAX_PARTS && WellFormedEtag(e.etag)
    ensures |CommitDoc.EntryText(e)| < 256
  {
    DecimalLength(e.number);
  }

  /** The entries the document is to list: the slots in order, from number 1. */
  ghost predicate Lists(manager: UploadManager, es: seq<CommitDoc.Entry>)
    reads manager.etags
  {
    && |es| == manager.etags.Length
    && forall i :: 0 <= i < |es| ==>
         WellFormedEtag(es[i].etag) && manager.etags[i] == Some(es[i].etag) && es[i].number == i + 1
  }

  /** The buffer, while only appends are made to it. */
  ghost predicate Fillable(gb: GrowBuffer.Buffer)
    reads gb, gb.blocks
  {
    gb.Valid() && gb.TailUnread() && gb.Packed()
  }

  lemma RoomIsKnown(gb: GrowBuffer.Buffer)
    requires Fillable(gb)
    ensures gb.TailRoom() == GrowBuffer.RoomAfter(|gb.Contents()|)
  {
    if gb.texts != [] {
      assert gb.blocks[|gb.blocks| - 1].Fits();
      GrowBuffer.PackedRoom(gb.texts);
    }
  }

  /** One of the calls of growbuffer_append; `size` sums up their results. */
  method AppendPiece(gb: GrowBuffer.Buffer, text: string, at: nat, size: nat, failing: set<nat>) returns (size': nat)
    requires Fillable(gb) && |text| <= GrowBuffer.BLOCK_SIZE
    modifies gb, gb.blocks
    ensures Fillable(gb)
    ensures var d := Done(|text|, at, |old(gb.Contents())|, failing);
            && gb.Contents() == old(gb.Contents()) + text[..d]
            && size' == size + (if d == |text| then |text| else 0)
    ensures forall i :: 0 <= i < |gb.blocks| ==> gb.blocks[i] in old(gb.blocks) || fresh(gb.blocks[i])
  {
    RoomIsKnown(gb);
    var r, done := gb.Append(text, if at in failing then 0 else 1);
    size' := size + r;
  }

  /** What is in the buffer and what the pieces `rest` will add come to `text`,
      and likewise for the bytes counted. */
  ghost predicate Building(gb: GrowBuffer.Buffer, size: nat, rest: seq<string>, at: nat, failing: set<nat>,
                           text: string, count: nat)
    reads gb, gb.blocks
  {
    && Fillable(gb)
    && text == gb.Contents() + Written(rest, at, |gb.Contents()|, failing)
    && count == size + CountedOf(rest, at, |gb.Contents()|, failing)
  }

  lemma WrittenNext(was: string, rest: seq<string>, at: nat, failing: set<nat>)
    requires rest != []
    ensures var d := Done(|rest[0]|, at, |was|, failing);
            var now := was + rest[0][..d];
            && was + Written(rest, at, |was|, failing) == now + Written(rest[1..], at + 1, |now|, failing)
            && CountedOf(rest, at, |was|, failing) ==
                 (if d == |rest[0]| then |rest[0]| else 0) + CountedOf(rest[1..], at + 1, |now|, failing)
  {
    var d := Done(|rest[0]|, at, |was|, failing);
    WrittenStep(rest, at, |was|, failing);
    CommitDoc.Join(was, rest[0][..d], Written(rest[1..], at + 1, |was| + d, failing));
  }

  method AppendNext(gb: GrowBuffer.Buffer, piece: string, at: nat, size: nat, failing: set<nat>,
                    ghost rest: seq<string>, ghost text: string, ghost count: nat)
    returns (size': nat)
    requires rest != [] && piece == rest[0] && |piece| <= GrowBuffer.BLOCK_SIZE
    requires Building(gb, size, rest, at, failing, text, count)
    modifies gb, gb.blocks
    ensures Building(gb, size', rest[1..], at + 1, failing, text, count) && size' <= size + |piece|
    ensures forall i :: 0 <= i < |gb.blocks| ==> gb.blocks[i] in old(gb.blocks) || fresh(gb.blocks[i])
  {
    WrittenNext(gb.Contents(), rest, at, failing);
    size' := AppendPiece(gb, piece, at, size, failing);
  }

  lemma {:induction false} NextPiece(es: seq<CommitDoc.Entry>, i: nat)
    requires i < |es| && es[i].number <= MAX_PARTS && WellFormedEtag(es[i].etag)
    ensures Pieces(es[i..])[0] == CommitDoc.EntryText(es[i]) && Pieces(es[i..])[1..] == Pieces(es[i + 1..])
    ensures |CommitDoc.EntryText(es[i])| <= 256 <= GrowBuffer.BLOCK_SIZE
  {
    PiecesFrom(es, i);
    EntryFits(es[i]);
  }

  lemma {:induction false} PiecesFrom(es: seq<CommitDoc.Entry>, i: nat)
    requires i < |es|
    ensures Pieces(es[i..])[0] == CommitDoc.EntryText(es[i]) && Pieces(es[i..])[1..] == Pieces(es[i + 1..])
  {
    assert es[i..][0] == es[i] && es[i..][1..] == es[i + 1..];
    assert Pieces(es[i..])[1..] == Pieces(es[i + 1..]);
  }

  /** One round of the loop over the slots. */
  method AppendEntry(gb: GrowBuffer.Buffer, number: nat, etag: string, size: nat, failing: set<nat>,
                     ghost es: seq<CommitDoc.Entry>,
                     ghost text: string, ghost count: nat)
    returns (size': nat)
    requires 0 < number <= |es| <= MAX_PARTS && es[number - 1] == CommitDoc.Entry(number, etag) && WellFormedEtag(etag)
    requires Building(gb, size, Pieces(es[number - 1..]), number, failing, text, count)
    modifies gb, gb.blocks
    ensures Building(gb, size', Pieces(es[number..]), number + 1, failing, text, count) && size' <= size + 256
    ensures forall k :: 0 <= k < |gb.blocks| ==> gb.blocks[k] in old(gb.blocks) || fresh(gb.blocks[k])
  {
    NextPiece(es, number - 1);
    size' := AppendNext(gb, CommitDoc.EntryText(CommitDoc.Entry(number, etag)), number, size, failing,
        Pieces(es[number - 1..]), text, count);
  }

  lemma StartBuilding(gb: GrowBuffer.Buffer, ps: seq<string>, failing: set<nat>)
    requires gb.Valid() && gb.Contents() == "" && gb.blocks == []
    ensures Building(gb, 0, ps, 0, failing, Written(ps, 0, 0, failing), CountedOf(ps, 0, 0, failing))
  {
    assert gb.texts == [];
    assert "" + Written(ps, 0, 0, failing) == Written(ps, 0, 0, failing);
  }

  lemma {:induction false} OpeningPiece(es: seq<CommitDoc.Entry>)
    ensures AllPieces(es) != [] && AllPieces(es)[0] == CommitDoc.OPEN && AllPieces(es)[1..] == Pieces(es)
    ensures |CommitDoc.OPEN| == 25 <= GrowBuffer.BLOCK_SIZE
  {
  }

  method AppendOpening(manager: UploadManager, failing: set<nat>, ghost es: seq<CommitDoc.Entry>, ghost text: string,
                       ghost count: nat)
    returns (size: nat)
    requires Building(manager.gb, 0, AllPieces(es), 0, failing, text, count)
    modifies manager.gb, manager.gb.blocks
    ensures Building(manager.gb, size, Pieces(es), 1, failing, text, count) && size <= 25
    ensures forall i :: 0 <= i < |manager.gb.blocks| ==>
              manager.gb.blocks[i] in old(manager.gb.blocks) || fresh(manager.gb.blocks[i])
  {
    OpeningPiece(es);
    size := AppendNext(manager.gb, CommitDoc.OPEN, 0, 0, failing, AllPieces(es), text, count);
  }

  /** All entries, behind the opening tag. */
  method AppendEntries(manager: UploadManager, first: nat, failing: set<nat>, ghost es: seq<CommitDoc.Entry>,
                       ghost text: string, ghost count: nat)
    returns (size: nat)
    requires Building(manager.gb, first, Pieces(es), 1, failing, text, count)
    requires Lists(manager, es) && |es| <= MAX_PARTS
    modifies manager.gb, manager.gb.blocks
    ensures Building(manager.gb, size, Pieces([]), |es| + 1, failing, text, count) && size <= first + 256 * |es|
    ensures forall i :: 0 <= i < |manager.gb.blocks| ==>
              manager.gb.blocks[i] in old(manager.gb.blocks) || fresh(manager.gb.blocks[i])
  {
    size := first;
    assert es[0..] == es;
    for i := 0 to manager.etags.Length
      invariant Building(manager.gb, size, Pieces(es[i..]), i + 1, failing, text, count) && size <= first + 256 * i
      invariant forall k :: 0 <= k < |manager.gb.blocks| ==>
          manager.gb.blocks[k] in old(manager.gb.blocks) || fresh(manager.gb.blocks[k])
    {
      size := AppendEntry(manager.gb, i + 1, manager.etags[i].value, size, failing, es, text, count);
    }
    assert es[|es|..] == [];
  }

  /** The closing tag completes the text. */
  method AppendClosing(manager: UploadManager, at: nat, before: nat, failing: set<nat>, ghost text: string,
                       ghost count: nat)
    returns (size: nat)
    requires Building(manager.gb, before, Pieces([]), at, failing, text, count)
    modifies manager.gb, manager.gb.blocks
    ensures manager.gb.Valid() && manager.gb.Contents() == text && size == count && size <= before + 26
    ensures forall i :: 0 <= i < |manager.gb.blocks| ==>
              manager.gb.blocks[i] in old(manager.gb.blocks) || fresh(manager.gb.blocks[i])
  {
    assert Pieces([]) == [CommitDoc.CLOSE];
    size := AppendNext(manager.gb, CommitDoc.CLOSE, at, before, failing, Pieces([]), text, count);
    assert Pieces([])[1..] == [] && Written([], at + 1, |manager.gb.Contents()|, failing) == "";
    assert manager.gb.Contents() + "" == manager.gb.Contents();
  }

  method AppendBody(manager: UploadManager, failing: set<nat>, ghost es: seq<CommitDoc.Entry>, ghost text: string,
                    ghost count: nat)
    returns (size: nat)
    requires Building(manager.gb, 0, AllPieces(es), 0, failing, text, count) && manager.gb.blocks == []
    requires Lists(manager, es) && |es| <= MAX_PARTS
    modifies manager.gb
    ensures Building(manager.gb, size, Pieces([]), |es| + 1, failing, text, count) && size <= 25 + 256 * |es|
    ensures forall i :: 0 <= i < |manager.gb.blocks| ==> fresh(manager.gb.blocks[i])
  {
    size := AppendOpening(manager, failing, es, text, count);
    size := AppendEntries(manager, size, failing, es, text, count);
  }

  /** All of the document. */
  method AppendAll(manager: UploadManager, failing: set<nat>, ghost es: seq<CommitDoc.Entry>, ghost text: string,
                   ghost count: nat)
    returns (size: nat)
    requires Building(manager.gb, 0, AllPieces(es), 0, failing, text, count) && manager.gb.blocks == []
    requires Lists(manager, es) && |es| <= MAX_PARTS
    modifies manager.gb
    ensures manager.gb.Valid() && manager.gb.Contents() == text && size == count && size <= 51 + 256 * |es|
    ensures forall i :: 0 <= i < |manager.gb.blocks| ==> fresh(manager.gb.blocks[i])
  {
    size := AppendBody(manager, failing, es, text, count);
    size := AppendClosing(manager, manager.etags.Length + 1, size, failing, text, count);
  }

  /** Builds the document and sets `remaining` to the sum of what the appends
      returned. Nobody notices that an append returned 0: the buffer then has
      what the pieces left in it, and `remaining` only the length of the whole
      ones. */
  method BuildDocument(manager: UploadManager, ghost es: seq<CommitDoc.Entry>, failing: set<nat>)
    requires manager.gb.Valid() && manager.gb.Contents() == "" && manager.gb.blocks == []
    requires Lists(manager, es) && |es| <= MAX_PARTS
    modifies manager`remaining, manager.gb
    ensures manager.gb.Valid() && manager.gb.Contents() == Written(AllPieces(es), 0, 0, failing)
    ensures manager.remaining == CountedOf(AllPieces(es), 0, 0, failing) < 0x8000_0000
    ensures forall i :: 0 <= i < |manager.gb.blocks| ==> fresh(manager.gb.blocks[i])
  {
    ghost var text, count := Written(AllPieces(es), 0, 0, failing), CountedOf(AllPieces(es), 0, 0, failing);
    StartBuilding(manager.gb, AllPieces(es), failing);
    var size: nat := AppendAll(manager, failing, es, text, count);
    manager.remaining := size;
  }

  // ---- committing ----------------------------------------------------------

  /** multipart_commit_response_callback */
  method CommitPull(manager: UploadManager, bufferSize: nat) returns (bytes: string)
    requires manager.gb.Valid() && manager.remaining <= |manager.gb.Contents()| && bufferSize > 0
    modifies manager`remaining, manager.gb, manager.gb.blocks
    ensures manager.gb.Valid() && old(manager.gb.Contents()) == bytes + manager.gb.Contents()
    ensures manager.remaining == old(manager.remaining) - |bytes|
    ensures |bytes| == Least(Least(bufferSize, old(manager.remaining)), old(manager.gb.HeadLength()))
    ensures bytes == "" <==> old(manager.remaining) == 0
    ensures forall i :: 0 <= i < |manager.gb.blocks| ==> manager.gb.blocks[i] in old(manager.gb.blocks)
  {
    bytes := "";
    if manager.remaining > 0 {
      var toRead := if manager.remaining > bufferSize then bufferSize else manager.remaining;
      bytes := manager.gb.Read(toRead);
    }
    manager.remaining := manager.remaining - |bytes|;
  }

  /** One commit request as the server pulls it, with buffers of any size, until
      `takes` bytes are across; then it stops, or comes to the end. */
  method SendDocument(manager: UploadManager, takes: nat) returns (body: string)
    requires manager.gb.Valid() && manager.remaining <= |manager.gb.Contents()|
    modifies manager`remaining, manager.gb, manager.gb.blocks
    ensures manager.gb.Valid() && old(manager.gb.Contents()) == body + manager.gb.Contents()
    ensures |body| == Least(takes, old(manager.remaining)) && manager.remaining == old(manager.remaining) - |body|
    ensures forall i :: 0 <= i < |manager.gb.blocks| ==> manager.gb.blocks[i] in old(manager.gb.blocks)
  {
    body := "";
    while |body| < takes && manager.remaining > 0
      invariant manager.gb.Valid() && old(manager.gb.Contents()) == body + manager.gb.Contents()
      invariant manager.remaining == old(manager.remaining) - |body| && manager.remaining <= |manager.gb.Contents()|
      invariant |body| <= takes
      invariant forall i :: 0 <= i < |manager.gb.blocks| ==> manager.gb.blocks[i] in old(manager.gb.blocks)
      decreases manager.remaining
    {
      var bufferSize: nat :| 0 < bufferSize <= takes - |body|;
      var bytes := CommitPull(manager, bufferSize);
      CommitDoc.Join(body, bytes, manager.gb.Contents());
      body := body + bytes;
    }
    if manager.remaining == 0 {
      AskAtEnd(manager);
    }
  }

  /** At the end of the document a pull, if there is one more, gives nothing. */
  method AskAtEnd(manager: UploadManager)
    requires manager.gb.Valid() && manager.remaining == 0
    modifies manager`remaining, manager.gb, manager.gb.blocks
    ensures manager.gb.Valid() && manager.remaining == 0 && manager.gb.Contents() == old(manager.gb.Contents())
    ensures forall i :: 0 <= i < |manager.gb.blocks| ==> manager.gb.blocks[i] in old(manager.gb.blocks)
  {
    var asksMore: bool := *;
    if asksMore {
      var bufferSize: nat :| bufferSize > 0;
      var nothing := CommitPull(manager, bufferSize);
      assert nothing + manager.gb.Contents() == manager.gb.Contents();
    }
  }

  /** What a server that reads the document makes of it. */
  function Committed(parts: map<nat, Part>, body: string): Option<string> {
    match CommitDoc.Read(body)
    case None => None
    case Some(es) => Assemble(parts, es)
  }

  /** No proper suffix of the document is itself a document. */
  ghost predicate OnlyWhole(doc: string) {
    forall k :: 0 < k <= |doc| ==> CommitDoc.Read(doc[k..]) == None
  }

  /** What one request carried, and whether the server commits a complete
      document in it. */
  datatype Request = Request(body: string, accepted: bool)

  function Joined(requests: seq<Request>): string {
    if requests == [] then "" else Joined(requests[..|requests| - 1]) + requests[|requests| - 1].body
  }

  /** An accepted request carried the whole text. */
  ghost predicate CarriedWhole(requests: seq<Request>, doc: string) {
    exists j :: 0 <= j < |requests| && requests[j].accepted && requests[j].body == doc
  }

  /** What the server has stored after these requests. */
  ghost function StoredAfter(was: Option<string>, requests: seq<Request>, doc: string,
                             parts: map<nat, Part>): Option<string> {
    if CarriedWhole(requests, doc) && Committed(parts, doc).Some? then Committed(parts, doc) else was
  }

  /** The text left to hand over. */
  ghost function Left(manager: UploadManager): string
    requires manager.remaining <= |manager.gb.Contents()|
    reads manager, manager.gb
  {
    manager.gb.Contents()[..manager.remaining]
  }

  lemma LeftAfter(contents: string, body: string, rest: string, remaining: nat)
    requires contents == body + rest && |body| <= remaining <= |contents|
    ensures contents[..remaining] == body + rest[..remaining - |body|]
  {
  }

  /** S3_complete_multipart_upload: the server may commit what a complete
      request describes. After `sent`, which earlier requests took, that can
      only be the whole text. */
  method CommitOnce(manager: UploadManager, server: Server, ghost doc: string, ghost sent: string, pull: Pull)
    returns (request: Request)
    requires manager.gb.Valid() && manager.remaining <= |manager.gb.Contents()|
    requires doc == sent + Left(manager) && OnlyWhole(doc)
    modifies manager`remaining, manager.gb, manager.gb.blocks, server`stored
    ensures manager.gb.Valid() &&
              manager.remaining == old(manager.remaining) - |request.body| <= |manager.gb.Contents()|
    ensures |request.body| == Least(pull.takes, old(manager.remaining)) && request.accepted == pull.accepted
    ensures doc == sent + request.body + Left(manager)
    ensures forall i :: 0 <= i < |manager.gb.blocks| ==> manager.gb.blocks[i] in old(manager.gb.blocks)
    ensures server.stored == StoredAfter(old(server.stored), [request], doc, server.parts)
  {
    var declared := manager.remaining;
    var body := SendDocument(manager, pull.takes);
    LeftAfter(old(manager.gb.Contents()), body, manager.gb.Contents(), declared);
    CommitDoc.Join(sent, body, Left(manager));
    request := Request(body, pull.accepted);
    OneRequest(request, sent, Left(manager), doc);
    if pull.accepted && |body| == declared && Committed(server.parts, body).Some? {
      server.stored := Committed(server.parts, body);
    }
  }

  lemma OneRequest(request: Request, sent: string, left: string, doc: string)
    requires doc == sent + request.body + left && OnlyWhole(doc)
    ensures CarriedWhole([request], doc) <==> request.accepted && request.body == doc
    ensures request.body == doc ==> left == ""
    ensures left == "" && CommitDoc.Read(request.body) != None ==> request.body == doc
  {
    assert [request][0] == request;
    if left == "" {
      assert request.body == doc[|sent|..];
    }
  }

  /** S3_status_is_retryable on the bytes left, and should_retry. */
  method RetryAfter(remaining: nat, retries: Retries, retryable: set<nat>) returns (again: bool)
    modifies retries
    ensures again <==> remaining in retryable && old(retries.left) != 0
    ensures again ==> retries.left == old(retries.left) - 1
  {
    again := false;
    if remaining in retryable {
      again := retries.ShouldRetry();
    }
  }

  lemma OneMoreRequest(was: Option<string>, requests: seq<Request>, request: Request, doc: string,
                       parts: map<nat, Part>)
    ensures Joined(requests + [request]) == Joined(requests) + request.body
    ensures StoredAfter(was, requests + [request], doc, parts) ==
            StoredAfter(StoredAfter(was, requests, doc, parts), [request], doc, parts)
  {
    var all := requests + [request];
    assert all[..|requests|] == requests && [request][0] == request;
    assert forall j :: 0 <= j < |requests| ==> all[j] == requests[j];
    assert all[|requests|] == request;
    if CarriedWhole(requests, doc) {
      var j :| 0 <= j < |requests| && requests[j].accepted && requests[j].body == doc;
      assert all[j].accepted;
    }
  }

  // ---- what the script decides ---------------------------------------------

  /** What comes from outside in one commit request: after how many bytes the
      server stops, and whether it commits a complete document. */
  datatype Pull = Pull(takes: nat, accepted: bool)

  /** Bytes of n left before attempt number k. */
  function LeftBefore(pulls: seq<Pull>, n: nat, k: nat): (left: nat)
    requires k <= |pulls|
    ensures left <= n
  {
    if k == 0 then n
    else
      var left := LeftBefore(pulls, n, k - 1);
      left - Least(pulls[k - 1].takes, left)
  }

  /** Attempt number k is made: each one before it left a number of bytes that is
      a retryable status. */
  ghost predicate Made(pulls: seq<Pull>, n: nat, retryable: set<nat>, k: nat)
    requires |pulls| == RETRYCOUNT + 1
  {
    k <= RETRYCOUNT && forall j :: 0 < j <= k ==> LeftBefore(pulls, n, j) in retryable
  }

  /** Some attempt that is made leaves nothing. */
  ghost predicate CommitSucceeds(pulls: seq<Pull>, n: nat, retryable: set<nat>)
    requires |pulls| == RETRYCOUNT + 1
  {
    exists k :: 0 <= k <= RETRYCOUNT && Made(pulls, n, retryable, k) && LeftBefore(pulls, n, k + 1) == 0
  }

  /** Some attempt that is made takes all, those before it took nothing, and the
      server accepts it. */
  ghost predicate CommitStores(pulls: seq<Pull>, n: nat, retryable: set<nat>)
    requires |pulls| == RETRYCOUNT + 1
  {
    exists k :: 0 <= k <= RETRYCOUNT && Made(pulls, n, retryable, k) && TakesAll(pulls, n, k)
  }

  predicate TakesAll(pulls: seq<Pull>, n: nat, k: nat)
    requires k < |pulls|
  {
    LeftBefore(pulls, n, k) == n && pulls[k].takes >= n && pulls[k].accepted
  }

  lemma {:induction false} MadeBefore(pulls: seq<Pull>, n: nat, retryable: set<nat>, i: nat, k: nat)
    requires |pulls| == RETRYCOUNT + 1 && i <= k && Made(pulls, n, retryable, k)
    ensures Made(pulls, n, retryable, i)
  {
  }

  lemma {:induction false} MadeNext(pulls: seq<Pull>, n: nat, retryable: set<nat>, k: nat)
    requires |pulls| == RETRYCOUNT + 1 && Made(pulls, n, retryable, k)
    ensures Made(pulls, n, retryable, k + 1) <==> k < RETRYCOUNT && LeftBefore(pulls, n, k + 1) in retryable
  {
  }

  lemma {:induction false} LeftShrinks(pulls: seq<Pull>, n: nat, i: nat, k: nat)
    requires i <= k <= |pulls|
    ensures LeftBefore(pulls, n, k) <= LeftBefore(pulls, n, i)
  {
    if i < k {
      LeftShrinks(pulls, n, i, k - 1);
    }
  }

  /** After k attempts and no more, these decide. */
  lemma EndDecides(pulls: seq<Pull>, n: nat, retryable: set<nat>, k: nat)
    requires |pulls| == RETRYCOUNT + 1 && 0 !in retryable && 0 < k <= RETRYCOUNT + 1
    requires Made(pulls, n, retryable, k - 1) && !Made(pulls, n, retryable, k)
    ensures CommitSucceeds(pulls, n, retryable) <==> LeftBefore(pulls, n, k) == 0
    ensures CommitStores(pulls, n, retryable) <==> exists i :: 0 <= i < k && TakesAll(pulls, n, i)
  {
    forall i | 0 <= i <= RETRYCOUNT && Made(pulls, n, retryable, i)
      ensures i < k
    {
      if i >= k {
        MadeBefore(pulls, n, retryable, k, i);
      }
    }
    forall i | 0 <= i < k
      ensures Made(pulls, n, retryable, i)
    {
      MadeBefore(pulls, n, retryable, i, k - 1);
    }
    if CommitSucceeds(pulls, n, retryable) {
      var i :| 0 <= i <= RETRYCOUNT && Made(pulls, n, retryable, i) && LeftBefore(pulls, n, i + 1) == 0;
      LeftShrinks(pulls, n, i + 1, k);
    }
    if LeftBefore(pulls, n, k) == 0 {
      assert LeftBefore(pulls, n, (k - 1) + 1) == 0;
    }
  }

  /** The server takes the whole document at once and accepts it. */
  lemma AcceptedDocumentIsStored(pulls: seq<Pull>, n: nat, retryable: set<nat>)
    requires |pulls| == RETRYCOUNT + 1 && 0 !in retryable && pulls[0].takes >= n && pulls[0].accepted
    ensures CommitSucceeds(pulls, n, retryable) && CommitStores(pulls, n, retryable)
  {
    assert LeftBefore(pulls, n, 1) == LeftBefore(pulls, n, 0) - Least(pulls[0].takes, n) == 0;
    assert Made(pulls, n, retryable, 0) && LeftBefore(pulls, n, 0 + 1) == 0 && TakesAll(pulls, n, 0);
  }

  /** Success without the object: the server takes the whole document and
      refuses it. Nothing is left, so the code asks no further. */
  lemma RefusedDocumentSucceeds(pulls: seq<Pull>, n: nat, retryable: set<nat>)
    requires |pulls| == RETRYCOUNT + 1 && 0 !in retryable && pulls[0].takes >= n && !pulls[0].accepted
    ensures CommitSucceeds(pulls, n, retryable) && !CommitStores(pulls, n, retryable)
  {
    assert LeftBefore(pulls, n, 1) == LeftBefore(pulls, n, 0) - Least(pulls[0].takes, n) == 0;
    assert !Made(pulls, n, retryable, 1);
    EndDecides(pulls, n, retryable, 1);
  }

  /** Success without the object also where the first attempt takes t bytes, the
      number left is a retryable status, and the second takes the rest, whatever
      the server says. */
  lemma SplitDocumentSucceeds(pulls: seq<Pull>, n: nat, retryable: set<nat>)
    requires |pulls| == RETRYCOUNT + 1 && 0 !in retryable
    requires 0 < pulls[0].takes < n && n - pulls[0].takes in retryable && pulls[1].takes >= n - pulls[0].takes
    ensures CommitSucceeds(pulls, n, retryable) && !CommitStores(pulls, n, retryable)
  {
    var t := pulls[0].takes;
    assert LeftBefore(pulls, n, 0) == n;
    assert LeftBefore(pulls, n, 1) == n - t;
    assert LeftBefore(pulls, n, 2) == 0;
    assert !Made(pulls, n, retryable, 2);
    EndDecides(pulls, n, retryable, 2);
  }

  // ---- the loop ------------------------------------------------------------

  /** The requests are what the script says. */
  ghost predicate Follows(requests: seq<Request>, pulls: seq<Pull>, doc: string) {
    && |requests| <= |pulls|
    && (forall i :: 0 <= i < |requests| ==>
          && requests[i].accepted == pulls[i].accepted
          && |requests[i].body| == Least(pulls[i].takes, LeftBefore(pulls, |doc|, i)))
    && |Joined(requests)| == |doc| - LeftBefore(pulls, |doc|, |requests|)
    && Joined(requests) <= doc
  }

  lemma {:induction false} FollowsOn(requests: seq<Request>, pulls: seq<Pull>, doc: string, r: Request)
    requires Follows(requests, pulls, doc) && |requests| < |pulls|
    requires |r.body| == Least(pulls[|requests|].takes, LeftBefore(pulls, |doc|, |requests|))
    requires r.accepted == pulls[|requests|].accepted && Joined(requests + [r]) <= doc
    ensures Follows(requests + [r], pulls, doc)
  {
    var all := requests + [r];
    assert all[..|requests|] == requests && all[|requests|] == r;
    assert Joined(all) == Joined(requests) + r.body;
    forall i | 0 <= i < |all|
      ensures all[i].accepted == pulls[i].accepted
      ensures |all[i].body| == Least(pulls[i].takes, LeftBefore(pulls, |doc|, i))
    {
      if i < |requests| {
        assert all[i] == requests[i];
      } else {
        assert i == |requests| && all[i] == r;
      }
    }
  }

  /** One attempt: number |requests| of the script. */
  method CommitAttempt(manager: UploadManager, server: Server, pull: Pull, ghost doc: string,
                       ghost requests: seq<Request>,
                       ghost pulls: seq<Pull>)
    returns (ghost requests': seq<Request>)
    requires manager.gb.Valid() && manager.remaining <= |manager.gb.Contents()|
    requires doc == Joined(requests) + Left(manager) && OnlyWhole(doc)
    requires Follows(requests, pulls, doc) && |requests| < |pulls| && pull == pulls[|requests|]
    requires manager.remaining == LeftBefore(pulls, |doc|, |requests|)
    modifies manager`remaining, manager.gb, manager.gb.blocks, server`stored
    ensures manager.gb.Valid() && manager.remaining <= |manager.gb.Contents()|
    ensures doc == Joined(requests') + Left(manager)
    ensures |requests'| == |requests| + 1 && Follows(requests', pulls, doc)
    ensures manager.remaining == LeftBefore(pulls, |doc|, |requests'|)
    ensures forall i :: 0 <= i < |manager.gb.blocks| ==> manager.gb.blocks[i] in old(manager.gb.blocks)
    ensures forall was :: old(server.stored) == StoredAfter(was, requests, doc, server.parts) ==>
              server.stored == StoredAfter(was, requests', doc, server.parts)
  {
    var request := CommitOnce(manager, server, doc, Joined(requests), pull);
    requests' := requests + [request];
    OneMoreRequest(None, requests, request, doc, server.parts);
    FollowsOn(requests, pulls, doc, request);
    forall was | old(server.stored) == StoredAfter(was, requests, doc, server.parts)
      ensures server.stored == StoredAfter(was, requests', doc, server.parts)
    {
      OneMoreRequest(was, requests, request, doc, server.parts);
    }
  }

  /** One round of the commit loop. */
  method CommitRound(manager: UploadManager, server: Server, retries: Retries, k: nat, pulls: seq<Pull>,
                     retryable: set<nat>,
                     ghost doc: string, ghost requests: seq<Request>, ghost was: Option<string>)
    returns (again: bool, ghost requests': seq<Request>)
    requires manager.gb.Valid() && manager.remaining <= |manager.gb.Contents()|
    requires doc == Joined(requests) + Left(manager) && OnlyWhole(doc)
    requires k == |requests| < |pulls| == RETRYCOUNT + 1 && Follows(requests, pulls, doc)
    requires manager.remaining == LeftBefore(pulls, |doc|, k)
    requires k + retries.left == RETRYCOUNT && Made(pulls, |doc|, retryable, k)
    requires server.stored == StoredAfter(was, requests, doc, server.parts)
    modifies manager`remaining, manager.gb, manager.gb.blocks, server`stored, retries
    ensures manager.gb.Valid() && manager.remaining <= |manager.gb.Contents()|
    ensures doc == Joined(requests') + Left(manager)
    ensures |requests'| == k + 1 && Follows(requests', pulls, doc)
    ensures manager.remaining == LeftBefore(pulls, |doc|, k + 1)
    ensures forall i :: 0 <= i < |manager.gb.blocks| ==> manager.gb.blocks[i] in old(manager.gb.blocks)
    ensures server.stored == StoredAfter(was, requests', doc, server.parts)
    ensures again <==> Made(pulls, |doc|, retryable, k + 1)
    ensures again ==> k + 1 + retries.left == RETRYCOUNT && retries.left == old(retries.left) - 1
  {
    requests' := CommitAttempt(manager, server, pulls[k], doc, requests, pulls);
    MadeNext(pulls, |doc|, retryable, k);
    again := RetryAfter(manager.remaining, retries, retryable);
  }

  lemma {:induction false} JoinedPrefix(requests: seq<Request>, doc: string, i: nat)
    requires Joined(requests) <= doc && i <= |requests|
    ensures Joined(requests[..i]) <= Joined(requests)
    decreases |requests|
  {
    if i < |requests| {
      JoinedPrefix(requests[..|requests| - 1], doc, i);
      assert requests[..|requests| - 1][..i] == requests[..i];
    } else {
      assert requests[..i] == requests;
    }
  }

  /** A request carried the whole text exactly where the script has an attempt
      that takes all. */
  lemma CarriedWholeIff(requests: seq<Request>, pulls: seq<Pull>, doc: string)
    requires Follows(requests, pulls, doc) && doc != ""
    ensures CarriedWhole(requests, doc) <==> exists i :: 0 <= i < |requests| && TakesAll(pulls, |doc|, i)
  {
    if CarriedWhole(requests, doc) {
      var j :| 0 <= j < |requests| && requests[j].accepted && requests[j].body == doc;
      assert TakesAll(pulls, |doc|, j);
    }
    if exists i :: 0 <= i < |requests| && TakesAll(pulls, |doc|, i) {
      var i :| 0 <= i < |requests| && TakesAll(pulls, |doc|, i);
      WholeBody(requests, doc, i);
    }
  }

  lemma WholeBody(requests: seq<Request>, doc: string, i: nat)
    requires Joined(requests) <= doc && i < |requests| && |requests[i].body| == |doc|
    ensures requests[i].body == doc
  {
    var upTo := requests[..i + 1];
    JoinedPrefix(requests, doc, i + 1);
    assert upTo[..i] == requests[..i] && upTo[i] == requests[i];
    assert |Joined(upTo)| == |Joined(requests[..i])| + |doc| <= |doc|;
    assert "" + requests[i].body == requests[i].body;
  }

  lemma NothingIsNoDocument()
    ensures CommitDoc.Read("") == None
  {
  }

  /** What the requests of a loop that has ended come to. */
  lemma Outcome(requests: seq<Request>, pulls: seq<Pull>, doc: string, retryable: set<nat>, was: Option<string>,
                parts: map<nat, Part>)
    requires |pulls| == RETRYCOUNT + 1 && 0 !in retryable && Follows(requests, pulls, doc) && |requests| > 0
    requires Made(pulls, |doc|, retryable, |requests| - 1) && !Made(pulls, |doc|, retryable, |requests|)
    ensures CommitSucceeds(pulls, |doc|, retryable) <==> Joined(requests) == doc
    ensures CommitSucceeds(pulls, |doc|, retryable) <==> LeftBefore(pulls, |doc|, |requests|) == 0
    ensures StoredAfter(was, requests, doc, parts) ==
            if CommitStores(pulls, |doc|, retryable) && Committed(parts, doc).Some? then Committed(parts, doc) else was
  {
    EndDecides(pulls, |doc|, retryable, |requests|);
    if doc != "" {
      CarriedWholeIff(requests, pulls, doc);
    } else {
      NothingIsNoDocument();
    }
  }

  /** The commit loop. `remaining` is taken for a status, so a request that the
      server did not read to its end may be followed by one for the rest of the
      text; `retryable` has the statuses that are retried. Success says that the
      requests together carried the text; the server has the object exactly if
      one accepted request carried all of it. */
  method Commit(manager: UploadManager, server: Server, ghost doc: string, pulls: seq<Pull>, retryable: set<nat>)
    returns (ok: bool, ghost requests: seq<Request>)
    requires manager.gb.Valid() && manager.remaining <= |manager.gb.Contents()|
    requires doc == Left(manager) && OnlyWhole(doc)
    requires |pulls| == RETRYCOUNT + 1 && 0 !in retryable
    modifies manager`remaining, manager.gb, manager.gb.blocks, server`stored
    ensures ok <==> CommitSucceeds(pulls, |doc|, retryable)
    ensures server.stored == if CommitStores(pulls, |doc|, retryable) && Committed(server.parts, doc).Some?
                             then Committed(server.parts, doc) else old(server.stored)
    ensures ok <==> Joined(requests) == doc
    ensures |requests| > 0 && Follows(requests, pulls, doc)
  {
    var retries := new Retries();
    requests := [];
    ghost var was, n := server.stored, |doc|;
    assert "" + Left(manager) == Left(manager);
    var k := 0;
    var again := true;
    while again
      invariant manager.gb.Valid() && manager.remaining <= |manager.gb.Contents()| &&
          doc == Joined(requests) + Left(manager)
      invariant forall i :: 0 <= i < |manager.gb.blocks| ==> manager.gb.blocks[i] in old(manager.gb.blocks)
      invariant |requests| == k <= RETRYCOUNT + 1 && Follows(requests, pulls, doc)
      invariant manager.remaining == LeftBefore(pulls, n, k)
      invariant again ==> retries.left >= 0 && k + retries.left == RETRYCOUNT
      invariant k > 0 ==> Made(pulls, n, retryable, k - 1)
      invariant again <==> Made(pulls, n, retryable, k)
      invariant again || k > 0
      invariant server.stored == StoredAfter(was, requests, doc, server.parts)
      decreases if again then retries.left + 1 else 0
    {
      again, requests := CommitRound(manager, server, retries, k, pulls, retryable, doc, requests, was);
      k := k + 1;
    }
    ok := manager.remaining == 0;
    Outcome(requests, pulls, doc, retryable, was, server.parts);
  }

  /** If the requests together carried the text and one of them all of it, then
      the others carried nothing. */
  lemma {:induction false} OthersCarryNothing(requests: seq<Request>, doc: string, j: nat)
    requires |Joined(requests)| <= |doc| && j < |requests| && requests[j].body == doc
    ensures forall i :: 0 <= i < |requests| && i != j ==> requests[i].body == ""
  {
    var n := |requests| - 1;
    var init := requests[..n];
    assert forall i :: 0 <= i < n ==> init[i] == requests[i];
    if j < n {
      OthersCarryNothing(init, doc, j);
      JoinedAtLeast(init, j);
    } else {
      forall i | 0 <= i < n
        ensures requests[i].body == ""
      {
        JoinedAtLeast(init, i);
      }
    }
  }

  lemma {:induction false} JoinedAtLeast(requests: seq<Request>, j: nat)
    requires j < |requests|
    ensures |Joined(requests)| >= |requests[j].body|
  {
    if j < |requests| - 1 {
      JoinedAtLeast(requests[..|requests| - 1], j);
    }
  }
}
