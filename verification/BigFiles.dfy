/**
 Archiving a file by multipart upload: ct_archive_data_big (src/lhsmtool_s3.c)
 as a whole, and what object it can leave on the server.
 */
module BigFiles {
  import opened Common
  import opened S3
  import opened Chunks
  import opened Multipart
  import opened CutDoc
  import opened Committing
  import CommitDoc
  import GrowBuffer

  // ---- the object the entries describe -------------------------------------

  /** The entries name kept parts, and these hold the slices of the file. */
  ghost predicate Covers(parts: map<nat, Part>, file: string, chunk: nat, es: seq<CommitDoc.Entry>) {
    && (|es| > 0 && (|es| - 1) * chunk < |file| <= |es| * chunk)
    && forall i :: 0 <= i < |es| ==>
         Listed(parts, es[i]) && WellFormedEtag(es[i].etag) && es[i].number == i + 1
         && i * chunk < |file| && parts[es[i].number].body == PartOf(file, chunk, i + 1)
  }

  /** The file from the part number k + 1 on. */
  function Rest(file: string, chunk: nat, k: nat): string {
    if k * chunk <= |file| then file[k * chunk..] else ""
  }

  /** The slice for the part number k + 1. */
  function Slice(file: string, chunk: nat, k: nat): string {
    if k * chunk <= |file| then PartOf(file, chunk, k + 1) else ""
  }

  lemma SliceThenRest(file: string, chunk: nat, k: nat)
    ensures Slice(file, chunk, k) + Rest(file, chunk, k + 1) == Rest(file, chunk, k)
    ensures |Slice(file, chunk, k)| + |Rest(file, chunk, k + 1)| == |Rest(file, chunk, k)|
    ensures chunk > 0 && k * chunk < |file| ==> |Slice(file, chunk, k)| > 0
  {
    assert (k + 1) * chunk == k * chunk + chunk;
  }

  /** Covers, for the entries from number k + 1 on. */
  ghost predicate CoversFrom(parts: map<nat, Part>, file: string, chunk: nat, es: seq<CommitDoc.Entry>, k: nat) {
    if es == [] then k * chunk >= |file|
    else
      && Listed(parts, es[0]) && parts[es[0].number].body == Slice(file, chunk, k) && k * chunk < |file|
      && CoversFrom(parts, file, chunk, es[1..], k + 1)
  }

  lemma {:induction false} CoversRest(parts: map<nat, Part>, file: string, chunk: nat, es: seq<CommitDoc.Entry>, k: nat)
    requires Covers(parts, file, chunk, es) && k <= |es|
    ensures CoversFrom(parts, file, chunk, es[k..], k)
    decreases |es| - k
  {
    if k < |es| {
      CoversRest(parts, file, chunk, es, k + 1);
      assert Listed(parts, es[k]) && es[k..][0] == es[k] && es[k..][1..] == es[k + 1..];
    }
  }

  /** The parts, from number k + 1 on, whose entries got into the document. */
  ghost function KeptBytes(file: string, chunk: nat, es: seq<CommitDoc.Entry>, ds: seq<nat>, k: nat): string
    requires |ds| >= |es|
  {
    if es == [] then ""
    else (if ds[0] == |CommitDoc.EntryText(es[0])| then Slice(file, chunk, k) else "")
         + KeptBytes(file, chunk, es[1..], ds[1..], k + 1)
  }

  lemma {:induction false} KeptDescribesKeptBytes(parts: map<nat, Part>, file: string, chunk: nat,
                                                  es: seq<CommitDoc.Entry>, ds: seq<nat>, k: nat)
    requires CoversFrom(parts, file, chunk, es, k) && |ds| >= |es|
    ensures Assemble(parts, Kept(es, ds)) == Some(KeptBytes(file, chunk, es, ds, k))
  {
    if es != [] {
      KeptDescribesKeptBytes(parts, file, chunk, es[1..], ds[1..], k + 1);
      KeptStep(es, ds);
      var rest := KeptBytes(file, chunk, es[1..], ds[1..], k + 1);
      assert "" + rest == rest;
      var kept := Kept(es, ds);
      assert ds[0] == |CommitDoc.EntryText(es[0])| ==> kept[0] == es[0] && kept[1..] == Kept(es[1..], ds[1..]);
    }
  }

  ghost predicate AllKept(es: seq<CommitDoc.Entry>, ds: seq<nat>)
    requires |ds| >= |es|
  {
    es != [] ==> ds[0] == |CommitDoc.EntryText(es[0])| && AllKept(es[1..], ds[1..])
  }

  lemma KeptBytesStep(file: string, chunk: nat, es: seq<CommitDoc.Entry>, ds: seq<nat>, k: nat)
    requires es != [] && |ds| >= |es|
    ensures var later := KeptBytes(file, chunk, es[1..], ds[1..], k + 1);
            KeptBytes(file, chunk, es, ds, k) ==
            if ds[0] == |CommitDoc.EntryText(es[0])| then Slice(file, chunk, k) + later else later
  {
    var later := KeptBytes(file, chunk, es[1..], ds[1..], k + 1);
    assert "" + later == later;
  }

  /** These are the whole file if no part is missing, and fewer bytes if one
      is. */
  lemma {:induction false} KeptBytesAreFile(parts: map<nat, Part>, file: string, chunk: nat, es: seq<CommitDoc.Entry>,
                                            ds: seq<nat>, k: nat)
    requires CoversFrom(parts, file, chunk, es, k) && chunk > 0 && |ds| >= |es|
    ensures AllKept(es, ds) ==> KeptBytes(file, chunk, es, ds, k) == Rest(file, chunk, k)
    ensures !AllKept(es, ds) ==> |KeptBytes(file, chunk, es, ds, k)| < |Rest(file, chunk, k)|
  {
    if es != [] {
      KeptBytesAreFile(parts, file, chunk, es[1..], ds[1..], k + 1);
      SliceThenRest(file, chunk, k);
      KeptBytesStep(file, chunk, es, ds, k);
    }
  }

  /** What the server makes of the text handed over to it. */
  ghost function ObjectOf(parts: map<nat, Part>, es: seq<CommitDoc.Entry>, failing: set<nat>): Option<string> {
    Committed(parts, HandedText(es, failing))
  }

  /** The tags get in, every append that fails gets nothing in, and there is
      one that fails. */
  ghost predicate LosesParts(es: seq<CommitDoc.Entry>, failing: set<nat>) {
    var ps := AllPieces(es);
    var ds := Dones(ps, 0, 0, failing);
    && ds[0] == |ps[0]| && ds[|es| + 1] == |ps[|es| + 1]|
    && (forall i :: 0 <= i < |ps| ==> ds[i] == 0 || ds[i] == |ps[i]|)
    && exists i :: 0 <= i < |ps| && ds[i] == 0
  }

  /** No append fails. */
  ghost predicate LosesNothing(es: seq<CommitDoc.Entry>, failing: set<nat>) {
    var ps := AllPieces(es);
    forall i :: 0 <= i < |ps| ==> Dones(ps, 0, 0, failing)[i] == |ps[i]|
  }

  /** An append fails exactly where malloc fails and the tail block has no room
      for the piece, and it gets nothing in exactly if the bytes before it end
      with a block. */
  lemma {:induction false} DonesAt(ps: seq<string>, at: nat, n: nat, failing: set<nat>, i: nat)
    requires i < |ps|
    ensures Dones(ps, at, n, failing)[i] == Done(|ps[i]|, at + i, n + |Written(ps[..i], at, n, failing)|, failing)
  {
    if i == 0 {
      assert Written(ps[..0], at, n, failing) == "";
    } else {
      var d := Done(|ps[0]|, at, n, failing);
      WrittenBefore(ps, at, n, failing, i);
      DonesAt(ps[1..], at + 1, n + d, failing, i - 1);
    }
  }

  lemma WrittenBefore(ps: seq<string>, at: nat, n: nat, failing: set<nat>, i: nat)
    requires 0 < i <= |ps|
    ensures var d := Done(|ps[0]|, at, n, failing);
            |Written(ps[..i], at, n, failing)| == d + |Written(ps[1..][..i - 1], at + 1, n + d, failing)|
  {
    assert ps[..i][1..] == ps[1..][..i - 1] && ps[..i][0] == ps[0];
    WrittenStep(ps[..i], at, n, failing);
  }

  lemma PiecesNotEmpty(es: seq<CommitDoc.Entry>)
    ensures forall i :: 0 <= i < |AllPieces(es)| ==> AllPieces(es)[i] != ""
    ensures forall i :: 0 <= i < |es| ==> AllPieces(es)[i + 1] == CommitDoc.EntryText(es[i])
    ensures AllPieces(es)[|es| + 1] == CommitDoc.CLOSE
  {
    PiecesAre(es);
    assert forall i :: 0 < i < |AllPieces(es)| ==> AllPieces(es)[i] == Pieces(es)[i - 1];
  }

  lemma {:induction false} PiecesAre(es: seq<CommitDoc.Entry>)
    ensures forall i :: 0 <= i < |es| ==> Pieces(es)[i] == CommitDoc.EntryText(es[i])
    ensures Pieces(es)[|es|] == CommitDoc.CLOSE
  {
    if es != [] {
      PiecesAre(es[1..]);
    }
  }

  /** If no append fails, the text is the document. */
  lemma HandedIsDocument(es: seq<CommitDoc.Entry>, failing: set<nat>)
    requires LosesNothing(es, failing)
    ensures HandedText(es, failing) == CommitDoc.Document(es)
  {
    WholeText(es, Dones(AllPieces(es), 0, 0, failing));
  }

  lemma ObjectIs(parts: map<nat, Part>, file: string, chunk: nat, es: seq<CommitDoc.Entry>, failing: set<nat>)
    requires Covers(parts, file, chunk, es)
    ensures var ds := Dones(AllPieces(es), 0, 0, failing);
            ObjectOf(parts, es, failing) ==
            if ds[0] == |CommitDoc.OPEN| && Unbroken(es, ds[1..])
            then Some(KeptBytes(file, chunk, es, ds[1..], 0)) else None
  {
    var ds := Dones(AllPieces(es), 0, 0, failing);
    assert CommitDoc.CleanEtags(es);
    ReadText(es, ds);
    assert es[0..] == es;
    CoversRest(parts, file, chunk, es, 0);
    KeptDescribesKeptBytes(parts, file, chunk, es, ds[1..], 0);
  }

  /** The server can commit the file exactly if no append fails, and something
      else exactly if some entries are lost without a trace. In all other cases
      it cannot read the text. */
  lemma {:induction false} ObjectIff(parts: map<nat, Part>, file: string, chunk: nat, es: seq<CommitDoc.Entry>,
                                     failing: set<nat>)
    requires Covers(parts, file, chunk, es) && chunk > 0
    ensures ObjectOf(parts, es, failing) == Some(file) <==> LosesNothing(es, failing)
    ensures ObjectOf(parts, es, failing) != Some(file) && ObjectOf(parts, es, failing) != None <==>
              LosesParts(es, failing)
  {
    var ps := AllPieces(es);
    var ds := Dones(ps, 0, 0, failing);
    ObjectIs(parts, file, chunk, es, failing);
    PiecesNotEmpty(es);
    assert es[0..] == es;
    CoversRest(parts, file, chunk, es, 0);
    KeptBytesAreFile(parts, file, chunk, es, ds[1..], 0);
    assert Rest(file, chunk, 0) == file;
    WholeOrLost(es, ds);
  }

  ghost predicate OpenedAndUnbroken(es: seq<CommitDoc.Entry>, ds: seq<nat>)
    requires |ds| == |es| + 2
  {
    ds[0] == |CommitDoc.OPEN| && Unbroken(es, ds[1..])
  }

  lemma {:induction false} UnbrokenMeans(es: seq<CommitDoc.Entry>, ds: seq<nat>)
    requires |ds| == |es| + 1
    ensures Unbroken(es, ds) <==>
            (forall i :: 0 <= i < |es| ==> ds[i] == 0 || ds[i] == |CommitDoc.EntryText(es[i])|) &&
                ds[|es|] == |CommitDoc.CLOSE|
    ensures AllKept(es, ds) <==> forall i :: 0 <= i < |es| ==> ds[i] == |CommitDoc.EntryText(es[i])|
  {
    if es != [] {
      UnbrokenMeans(es[1..], ds[1..]);
      assert forall i :: 0 < i < |es| ==> ds[i] == ds[1..][i - 1] && es[i] == es[1..][i - 1];
      assert forall i :: 0 <= i < |es| - 1 ==> ds[1..][i] == ds[i + 1] && es[1..][i] == es[i + 1];
    }
  }

  lemma {:induction false} WholeOrLost(es: seq<CommitDoc.Entry>, ds: seq<nat>)
    requires |ds| == |es| + 2
    ensures var ps := AllPieces(es);
            && (OpenedAndUnbroken(es, ds) && AllKept(es, ds[1..]) <==> forall i :: 0 <= i < |ps| ==> ds[i] == |ps[i]|)
            && (OpenedAndUnbroken(es, ds) <==>
                  && ds[0] == |ps[0]| && ds[|es| + 1] == |ps[|es| + 1]|
                  && forall i :: 0 <= i < |ps| ==> ds[i] == 0 || ds[i] == |ps[i]|)
            && (OpenedAndUnbroken(es, ds) && !AllKept(es, ds[1..]) ==> exists i :: 0 <= i < |ps| && ds[i] == 0)
            && (AllKept(es, ds[1..]) && OpenedAndUnbroken(es, ds) ==> !exists i :: 0 <= i < |ps| && ds[i] == 0)
  {
    var ps := AllPieces(es);
    PiecesNotEmpty(es);
    UnbrokenMeans(es, ds[1..]);
    assert forall i :: 0 < i < |ps| ==> ds[i] == ds[1..][i - 1];
    assert forall i :: 0 <= i < |ps| - 1 ==> ds[1..][i] == ds[i + 1];
    if OpenedAndUnbroken(es, ds) && !AllKept(es, ds[1..]) {
      var i :| 0 <= i < |es| && ds[1..][i] != |CommitDoc.EntryText(es[i])|;
      assert ds[i + 1] == 0;
    }
  }

  // ---- one lost entry ------------------------------------------------------

  /** Dones, by entries. */
  ghost function EntryDones(es: seq<CommitDoc.Entry>, at: nat, n: nat, failing: set<nat>): (ds: seq<nat>)
    ensures |ds| == |es| + 1
  {
    if es == [] then [Done(|CommitDoc.CLOSE|, at, n, failing)]
    else
      var d := Done(|CommitDoc.EntryText(es[0])|, at, n, failing);
      [d] + EntryDones(es[1..], at + 1, n + d, failing)
  }

  lemma PiecesTail(es: seq<CommitDoc.Entry>)
    requires es != []
    ensures Pieces(es)[0] == CommitDoc.EntryText(es[0]) && Pieces(es)[1..] == Pieces(es[1..])
  {
  }

  lemma {:induction false} DonesByEntries(es: seq<CommitDoc.Entry>, at: nat, n: nat, failing: set<nat>)
    ensures Dones(Pieces(es), at, n, failing) == EntryDones(es, at, n, failing)
  {
    if es == [] {
      assert Pieces(es) == [CommitDoc.CLOSE] && Pieces(es)[1..] == [];
    } else {
      PiecesTail(es);
      DonesByEntries(es[1..], at + 1, n + Done(|CommitDoc.EntryText(es[0])|, at, n, failing), failing);
    }
  }

  lemma TextDones(es: seq<CommitDoc.Entry>, failing: set<nat>) returns (ds: seq<nat>)
    requires 0 !in failing
    ensures ds == EntryDones(es, 1, |CommitDoc.OPEN|, failing)
    ensures Dones(AllPieces(es), 0, 0, failing) == [|CommitDoc.OPEN|] + ds
    ensures Dones(AllPieces(es), 0, 0, failing)[1..] == ds
  {
    ds := EntryDones(es, 1, |CommitDoc.OPEN|, failing);
    DonesByEntries(es, 1, |CommitDoc.OPEN|, failing);
    assert ([|CommitDoc.OPEN|] + ds)[1..] == ds;
  }

  lemma {:induction false} NoneFailing(es: seq<CommitDoc.Entry>, at: nat, n: nat, failing: set<nat>)
    requires forall i :: i in failing ==> i < at
    ensures Unbroken(es, EntryDones(es, at, n, failing)) && AllKept(es, EntryDones(es, at, n, failing))
  {
    if es != [] {
      NoneFailing(es[1..], at + 1, n + |CommitDoc.EntryText(es[0])|, failing);
    }
  }

  lemma NothingFails(es: seq<CommitDoc.Entry>)
    ensures LosesNothing(es, {})
  {
    var ds := TextDones(es, {});
    NoneFailing(es, 1, |CommitDoc.OPEN|, {});
    WholeOrLost(es, Dones(AllPieces(es), 0, 0, {}));
  }

  function Between(file: string, chunk: nat, j: nat, k: nat): string {
    if j * chunk <= k * chunk <= |file| then file[j * chunk..k * chunk] else ""
  }

  lemma SliceThenMore(file: string, chunk: nat, j: nat, k: nat, more: string)
    requires j < k && k * chunk <= |file|
    ensures Slice(file, chunk, j) + (Between(file, chunk, j + 1, k) + more) == Between(file, chunk, j, k) + more
  {
    assert (j + 1) * chunk == j * chunk + chunk;
    assert (j + 1) * chunk <= k * chunk;
    assert Slice(file, chunk, j) == file[j * chunk..(j + 1) * chunk];
    assert file[j * chunk..(j + 1) * chunk] + file[(j + 1) * chunk..k * chunk] == file[j * chunk..k * chunk];
    CommitDoc.Join(Slice(file, chunk, j), Between(file, chunk, j + 1, k), more);
  }

  lemma {:induction false} BeforeIsInFile(parts: map<nat, Part>, file: string, chunk: nat, es: seq<CommitDoc.Entry>,
                                          j: nat, k: nat)
    requires CoversFrom(parts, file, chunk, es, j) && j <= k < j + |es|
    ensures k * chunk < |file|
  {
    if j < k {
      BeforeIsInFile(parts, file, chunk, es[1..], j + 1, k);
    }
  }

  lemma EmptyFirst(s: string)
    ensures "" + s == s
  {
  }

  lemma BetweenSame(file: string, chunk: nat, k: nat)
    ensures Between(file, chunk, k, k) == ""
  {
  }

  /** The length of the first m entries. */
  function BytesBefore(es: seq<CommitDoc.Entry>, m: nat): nat
    requires m <= |es|
  {
    if m == 0 then 0 else |CommitDoc.EntryText(es[0])| + BytesBefore(es[1..], m - 1)
  }

  lemma {:induction false} BytesBeforeIs(es: seq<CommitDoc.Entry>, m: nat)
    requires m <= |es|
    ensures BytesBefore(es, m) == |CommitDoc.EntriesText(es[..m])|
  {
    if m > 0 {
      BytesBeforeIs(es[1..], m - 1);
      assert es[..m][0] == es[0] && es[..m][1..] == es[1..][..m - 1];
    }
  }

  /** Of the entries from number j + 1 on, only the one number k + 1 is
      missing. */
  ghost predicate OnlyMissing(file: string, chunk: nat, es: seq<CommitDoc.Entry>, ds: seq<nat>, j: nat, k: nat)
    requires |ds| == |es| + 1
  {
    && Unbroken(es, ds) && !AllKept(es, ds)
    && KeptBytes(file, chunk, es, ds, j) == Between(file, chunk, j, k) + Rest(file, chunk, k + 1)
  }

  lemma FirstMissingText(file: string, chunk: nat, es: seq<CommitDoc.Entry>, later: seq<nat>, k: nat)
    requires es != [] && |later| == |es| && Unbroken(es[1..], later)
    requires KeptBytes(file, chunk, es[1..], later, k + 1) == Rest(file, chunk, k + 1)
    ensures OnlyMissing(file, chunk, es, [0] + later, k, k)
  {
    var ds := [0] + later;
    assert ds[1..] == later;
    KeptBytesStep(file, chunk, es, ds, k);
    BetweenSame(file, chunk, k);
    EmptyFirst(Rest(file, chunk, k + 1));
  }

  lemma {:induction false} FirstDone(es: seq<CommitDoc.Entry>, n: nat, k: nat)
    requires es != [] && GrowBuffer.RoomAfter(n) == 0
    ensures EntryDones(es, k + 1, n, {k + 1}) == [0] + EntryDones(es[1..], k + 2, n, {k + 1})
  {
    assert Done(|CommitDoc.EntryText(es[0])|, k + 1, n, {k + 1}) == 0;
  }

  lemma {:induction false} FirstMissing(parts: map<nat, Part>, file: string, chunk: nat, es: seq<CommitDoc.Entry>,
                                        n: nat, k: nat)
    requires CoversFrom(parts, file, chunk, es, k) && chunk > 0 && es != [] && GrowBuffer.RoomAfter(n) == 0
    ensures OnlyMissing(file, chunk, es, EntryDones(es, k + 1, n, {k + 1}), k, k)
  {
    var later := EntryDones(es[1..], k + 2, n, {k + 1});
    NoneFailing(es[1..], k + 2, n, {k + 1});
    KeptBytesAreFile(parts, file, chunk, es[1..], later, k + 1);
    FirstDone(es, n, k);
    FirstMissingText(file, chunk, es, later, k);
  }

  lemma LaterMissing(file: string, chunk: nat, es: seq<CommitDoc.Entry>, later: seq<nat>, j: nat, k: nat)
    requires es != [] && |later| == |es| && j < k && k * chunk <= |file|
    requires OnlyMissing(file, chunk, es[1..], later, j + 1, k)
    ensures OnlyMissing(file, chunk, es, [|CommitDoc.EntryText(es[0])|] + later, j, k)
  {
    var ds := [|CommitDoc.EntryText(es[0])|] + later;
    assert ds[1..] == later;
    SliceThenMore(file, chunk, j, k, Rest(file, chunk, k + 1));
  }

  /** If malloc fails only for the entry number k + 1, and the bytes before it
      end with a block, then that entry alone is missing. */
  lemma {:induction false} OneMissing(parts: map<nat, Part>, file: string, chunk: nat, es: seq<CommitDoc.Entry>,
                                      j: nat, n: nat, k: nat)
    requires CoversFrom(parts, file, chunk, es, j) && chunk > 0 && j <= k < j + |es|
    requires GrowBuffer.RoomAfter(n + BytesBefore(es, k - j)) == 0
    ensures OnlyMissing(file, chunk, es, EntryDones(es, j + 1, n, {k + 1}), j, k)
    decreases k - j
  {
    if j == k {
      FirstMissing(parts, file, chunk, es, n, k);
    } else {
      var d := |CommitDoc.EntryText(es[0])|;
      OneMissing(parts, file, chunk, es[1..], j + 1, n + d, k);
      BeforeIsInFile(parts, file, chunk, es, j, k);
      LaterMissing(file, chunk, es, EntryDones(es[1..], j + 2, n + d, {k + 1}), j, k);
    }
  }

  lemma {:induction false} ObjectWithout(parts: map<nat, Part>, file: string, chunk: nat, es: seq<CommitDoc.Entry>,
                                         ds: seq<nat>, k: nat, failing: set<nat>)
    requires Covers(parts, file, chunk, es) && |ds| == |es| + 1 && OnlyMissing(file, chunk, es, ds, 0, k)
    requires Dones(AllPieces(es), 0, 0, failing) == [|CommitDoc.OPEN|] + ds
    ensures LosesParts(es, failing)
    ensures ObjectOf(parts, es, failing) == Some(Between(file, chunk, 0, k) + Rest(file, chunk, k + 1))
  {
    var all := Dones(AllPieces(es), 0, 0, failing);
    assert all[0] == |CommitDoc.OPEN| && all[1..] == ds;
    ObjectIs(parts, file, chunk, es, failing);
    WholeOrLost(es, all);
    assert OpenedAndUnbroken(es, all);
  }

  lemma CoversNumbers(parts: map<nat, Part>, file: string, chunk: nat, es: seq<CommitDoc.Entry>)
    requires Covers(parts, file, chunk, es)
    ensures forall i :: 0 <= i < |es| ==> es[i].number == i + 1
    ensures forall i :: 0 <= i < |es| ==> i * chunk < |file|
  {
    forall i | 0 <= i < |es|
      ensures es[i].number == i + 1 && i * chunk < |file|
    {
      assert Listed(parts, es[i]);
    }
  }

  lemma BetweenFirst(file: string, chunk: nat, k: nat)
    requires k * chunk <= |file|
    ensures Between(file, chunk, 0, k) == file[..k * chunk]
  {
    assert 0 * chunk == 0;
  }

  lemma {:induction false} LostEntryDones(parts: map<nat, Part>, file: string, chunk: nat, es: seq<CommitDoc.Entry>,
                                          k: nat)
    returns (ds: seq<nat>)
    requires Covers(parts, file, chunk, es) && chunk > 0 && k < |es|
    requires (|CommitDoc.OPEN| + |CommitDoc.EntriesText(es[..k])|) % GrowBuffer.BLOCK_SIZE == 0
    ensures |ds| == |es| + 1 && OnlyMissing(file, chunk, es, ds, 0, k)
    ensures Dones(AllPieces(es), 0, 0, {k + 1}) == [|CommitDoc.OPEN|] + ds
  {
    ds := TextDones(es, {k + 1});
    assert es[0..] == es;
    CoversRest(parts, file, chunk, es, 0);
    BytesBeforeIs(es, k);
    GrowBuffer.NoRoomIff(|CommitDoc.OPEN| + |CommitDoc.EntriesText(es[..k])|);
    OneMissing(parts, file, chunk, es, 0, |CommitDoc.OPEN|, k);
  }

  /** What an unnoticed failure can do: where the document before an entry ends
      with a block, and malloc fails for that entry, the object is the file
      without that part. */
  lemma LostEntryLosesPart(parts: map<nat, Part>, file: string, chunk: nat, es: seq<CommitDoc.Entry>, k: nat)
    requires Covers(parts, file, chunk, es) && chunk > 0 && k < |es|
    requires (|CommitDoc.OPEN| + |CommitDoc.EntriesText(es[..k])|) % GrowBuffer.BLOCK_SIZE == 0
    ensures LosesParts(es, {k + 1}) && k * chunk < |file|
    ensures ObjectOf(parts, es, {k + 1}) == Some(file[..k * chunk] + Rest(file, chunk, k + 1))
  {
    var ds := LostEntryDones(parts, file, chunk, es, k);
    ObjectWithout(parts, file, chunk, es, ds, k, {k + 1});
    CoversNumbers(parts, file, chunk, es);
    BetweenFirst(file, chunk, k);
  }

  lemma {:induction false} SameLength(es: seq<CommitDoc.Entry>)
    requires forall i :: 0 <= i < |es| ==> |CommitDoc.EntryText(es[i])| == 87
    ensures |CommitDoc.EntriesText(es)| == |es| * 87
  {
    if es != [] {
      SameLength(es[1..]);
    }
  }

  lemma FillsBlock(es: seq<CommitDoc.Entry>)
    requires |es| >= 753
    requires forall i :: 0 <= i < 753 ==> |CommitDoc.Decimal(es[i].number)| + |es[i].etag| == 36
    ensures (|CommitDoc.OPEN| + |CommitDoc.EntriesText(es[..753])|) % GrowBuffer.BLOCK_SIZE == 0
  {
    var first := es[..753];
    forall i | 0 <= i < |first|
      ensures |CommitDoc.EntryText(first[i])| == 87
    {
      assert first[i] == es[i];
    }
    SameLength(first);
    assert |CommitDoc.OPEN| + 753 * 87 == GrowBuffer.BLOCK_SIZE;
  }

  /** This can happen: with ETags that make the first 753 entries 87 bytes long,
      the document up to them is exactly one block, so if malloc fails for the
      next entry, its part is missing in the object. */
  lemma AlignedEtagsCanLosePart(parts: map<nat, Part>, file: string, chunk: nat, es: seq<CommitDoc.Entry>)
    requires Covers(parts, file, chunk, es) && chunk > 0 && |es| > 753
    requires forall i :: 0 <= i < 753 ==> |CommitDoc.Decimal(es[i].number)| + |es[i].etag| == 36
    ensures LosesParts(es, {754}) && 753 * chunk < |file|
    ensures ObjectOf(parts, es, {754}) == Some(file[..753 * chunk] + Rest(file, chunk, 754))
  {
    FillsBlock(es);
    LostEntryLosesPart(parts, file, chunk, es, 753);
  }

  // ---- when a part can be lost at all --------------------------------------

  /** Where the entry number k + 1 begins in the document. */
  function EntryAt(es: seq<CommitDoc.Entry>, k: nat): nat
    requires k <= |es|
  {
    |CommitDoc.OPEN| + |CommitDoc.EntriesText(es[..k])|
  }

  /** An entry begins where a block does. */
  ghost predicate SomeAligned(es: seq<CommitDoc.Entry>) {
    exists k :: 0 <= k < |es| && EntryAt(es, k) % GrowBuffer.BLOCK_SIZE == 0
  }

  /** The first entry that is missing begins at a full block. */
  lemma {:induction false} FirstLostIsAligned(es: seq<CommitDoc.Entry>, at: nat, n: nat, failing: set<nat>)
    returns (k: nat)
    requires Unbroken(es, EntryDones(es, at, n, failing)) && !AllKept(es, EntryDones(es, at, n, failing))
    ensures k < |es| && GrowBuffer.RoomAfter(n + BytesBefore(es, k)) == 0
  {
    var d := Done(|CommitDoc.EntryText(es[0])|, at, n, failing);
    var later := EntryDones(es[1..], at + 1, n + d, failing);
    assert EntryDones(es, at, n, failing) == [d] + later && ([d] + later)[1..] == later;
    if d == 0 {
      k := 0;
    } else {
      var j := FirstLostIsAligned(es[1..], at + 1, n + d, failing);
      k := j + 1;
    }
  }

  /** One failing malloc at a full block, and that entry is missing. */
  lemma {:induction false} AlignedIsLost(es: seq<CommitDoc.Entry>, at: nat, n: nat, k: nat)
    requires at <= k < at + |es| && GrowBuffer.RoomAfter(n + BytesBefore(es, k - at)) == 0
    ensures Unbroken(es, EntryDones(es, at, n, {k})) && !AllKept(es, EntryDones(es, at, n, {k}))
    decreases |es|
  {
    var d := Done(|CommitDoc.EntryText(es[0])|, at, n, {k});
    var later := EntryDones(es[1..], at + 1, n + d, {k});
    assert EntryDones(es, at, n, {k}) == [d] + later && ([d] + later)[1..] == later;
    if k == at {
      NoneFailing(es[1..], at + 1, n + d, {k});
    } else {
      AlignedIsLost(es[1..], at + 1, n + d, k);
    }
  }

  lemma {:induction false} LosesPartsIs(es: seq<CommitDoc.Entry>, failing: set<nat>)
    ensures LosesParts(es, failing) <==>
            0 !in failing && Unbroken(es, EntryDones(es, 1, |CommitDoc.OPEN|, failing))
            && !AllKept(es, EntryDones(es, 1, |CommitDoc.OPEN|, failing))
  {
    var all := Dones(AllPieces(es), 0, 0, failing);
    assert all[0] == if 0 in failing then 0 else |CommitDoc.OPEN|;
    if 0 !in failing {
      var ds := TextDones(es, failing);
      WholeOrLost(es, all);
    }
  }

  lemma {:induction false} AlignedLoses(es: seq<CommitDoc.Entry>, k: nat)
    requires k < |es| && EntryAt(es, k) % GrowBuffer.BLOCK_SIZE == 0
    ensures LosesParts(es, {k + 1})
  {
    BytesBeforeIs(es, k);
    GrowBuffer.NoRoomIff(EntryAt(es, k));
    AlignedIsLost(es, 1, |CommitDoc.OPEN|, k + 1);
    LosesPartsIs(es, {k + 1});
  }

  lemma {:induction false} LossIsAligned(es: seq<CommitDoc.Entry>, failing: set<nat>)
    requires LosesParts(es, failing)
    ensures SomeAligned(es)
  {
    LosesPartsIs(es, failing);
    var k := FirstLostIsAligned(es, 1, |CommitDoc.OPEN|, failing);
    BytesBeforeIs(es, k);
    GrowBuffer.NoRoomIff(EntryAt(es, k));
  }

  /** Some failing mallocs can lose parts exactly if some entry begins where a
      block does. */
  lemma {:induction false} LossPossibleIff(es: seq<CommitDoc.Entry>)
    ensures (exists failing :: LosesParts(es, failing)) <==> SomeAligned(es)
  {
    if SomeAligned(es) {
      var k :| 0 <= k < |es| && EntryAt(es, k) % GrowBuffer.BLOCK_SIZE == 0;
      AlignedLoses(es, k);
    }
    forall failing | LosesParts(es, failing)
      ensures SomeAligned(es)
    {
      LossIsAligned(es, failing);
    }
  }

  /** Where entries with ETags of 34 characters begin. */
  function Md5At(k: nat): nat {
    if k <= 9 then 25 + 86 * k
    else if k <= 99 then 799 + 87 * (k - 9)
    else if k <= 999 then 8629 + 88 * (k - 99)
    else 87829 + 89 * (k - 999)
  }

  ghost predicate Md5Etags(es: seq<CommitDoc.Entry>) {
    |es| <= MAX_PARTS && forall i :: 0 <= i < |es| ==> es[i].number == i + 1 && |es[i].etag| == 34
  }

  lemma {:induction false} Md5EntryAt(es: seq<CommitDoc.Entry>, k: nat)
    requires Md5Etags(es) && k < |es|
    ensures EntryAt(es, k) == Md5At(k)
  {
    if k == 0 {
      assert es[..0] == [];
    } else {
      Md5EntryAt(es, k - 1);
      assert es[..k] == es[..k - 1] + [es[k - 1]];
      CommitDoc.EntriesSnoc(es[..k - 1], es[k - 1]);
      DecimalLength(k);
      assert |CommitDoc.EntryText(es[k - 1])| == 51 + |CommitDoc.Decimal(k)| + 34;
    }
  }

  lemma {:induction false} Md5NeverAligned(k: nat)
    requires k < MAX_PARTS
    ensures Md5At(k) % GrowBuffer.BLOCK_SIZE != 0
  {
    var blocks := Md5At(k) / GrowBuffer.BLOCK_SIZE;
    assert Md5At(k) == blocks * 65536 + Md5At(k) % 65536;
    assert blocks <= 13;
  }

  /** With ETags of 34 characters, an MD5 in quotes, no part is ever lost. */
  lemma Md5EtagsLoseNothing(es: seq<CommitDoc.Entry>, failing: set<nat>)
    requires Md5Etags(es)
    ensures !LosesParts(es, failing)
  {
    LossPossibleIff(es);
    forall k | 0 <= k < |es|
      ensures EntryAt(es, k) % GrowBuffer.BLOCK_SIZE != 0
    {
      Md5EntryAt(es, k);
      Md5NeverAligned(k);
    }
    assert !SomeAligned(es);
  }

  // ---- the whole upload ----------------------------------------------------

  /** S3_initiate_multipart with its retries; `answers` says which attempts give
      an upload id. An upload starts without parts. */
  method Initiate(server: Server, answers: seq<bool>) returns (ok: bool)
    requires |answers| == RETRYCOUNT + 1
    modifies server`parts
    ensures ok <==> true in answers
    ensures server.parts == if ok then map[] else old(server.parts)
  {
    var retries := new Retries();
    var k := 0;
    ok := false;
    var again := true;
    while again
      invariant again ==> retries.left >= 0 && k + retries.left == RETRYCOUNT && !ok
      invariant k <= |answers| && (ok <==> true in answers[..k])
      invariant !again && !ok ==> k == |answers|
      invariant server.parts == if ok then map[] else old(server.parts)
      decreases if again then retries.left + 1 else 0
    {
      ok := answers[k];
      if ok {
        server.parts := map[];
      }
      k := k + 1;
      again := false;
      if !ok {
        again := retries.ShouldRetry();
      }
    }
  }

  /** The entries for the filled slots. */
  function EntriesOf(slots: seq<Option<string>>): (es: seq<CommitDoc.Entry>)
    requires forall i :: 0 <= i < |slots| ==> slots[i].Some?
    ensures |es| == |slots|
    ensures forall i :: 0 <= i < |es| ==> es[i] == CommitDoc.Entry(i + 1, slots[i].value)
  {
    seq(|slots|, i requires 0 <= i < |slots| => CommitDoc.Entry(i + 1, slots[i].value))
  }

  lemma SlotsCover(manager: UploadManager, server: Server, file: string, chunk: nat) returns (es: seq<CommitDoc.Entry>)
    requires manager.etags.Length > 0 && (manager.etags.Length - 1) * chunk < |file| <= manager.etags.Length * chunk
    requires forall n :: 0 < n <= manager.etags.Length ==> SliceKept(manager, server, file, chunk, n)
    ensures Lists(manager, es) && Covers(server.parts, file, chunk, es)
  {
    forall i | 0 <= i < manager.etags.Length
      ensures manager.etags[i].Some? && WellFormedEtag(manager.etags[i].value)
      ensures Listed(server.parts, CommitDoc.Entry(i + 1, manager.etags[i].value))
      ensures i * chunk < |file| && server.parts[i + 1].body == PartOf(file, chunk, i + 1)
    {
      assert SliceKept(manager, server, file, chunk, i + 1);
      Before(i + 1, manager.etags.Length, chunk);
    }
    es := EntriesOf(manager.etags[..]);
  }

  /** What comes from outside during a multipart upload: whether the stripes can
      be saved, which attempts to begin it succeed, the attempts for each part,
      the appends to the document in which malloc fails, what happens in each
      commit request, and which numbers of bytes left are statuses that are
      retried (0 is not). */
  datatype Outside = Outside(stripe: bool, initiates: seq<bool>, parts: nat -> Script,
                             failing: set<nat>, pulls: seq<Pull>, retryable: set<nat>)

  predicate Proper(o: Outside) {
    |o.initiates| == RETRYCOUNT + 1 && |o.pulls| == RETRYCOUNT + 1 && 0 !in o.retryable
  }

  /** The upload of a file of this size comes to its commit. */
  ghost predicate ReachesCommit(o: Outside, size: nat) {
    && o.stripe && true in o.initiates
    && PartsSucceed(o.parts, size, ChunkFor(size), Parts(size, ChunkFor(size)))
  }

  /** It does if every attempt for a part would carry it. */
  lemma {:induction false} CalmReaches(o: Outside, size: nat)
    requires o.stripe && true in o.initiates
    requires forall n :: o.parts(n) == CalmScript(PartLength(size, ChunkFor(size), n))
    ensures ReachesCommit(o, size)
  {
    var chunk := ChunkFor(size);
    forall n | 0 < n <= Parts(size, chunk)
      ensures PartSucceeds(o.parts(n), PartLength(size, chunk, n))
    {
      var script := CalmScript(PartLength(size, chunk, n));
      assert UntouchedBefore(script, 0) && Good(script[0]);
    }
  }

  /** Malloc works, and the first request takes any document and is accepted. */
  predicate CalmOutside(o: Outside) {
    Proper(o) && o.failing == {} && o.pulls[0].takes >= 0x8000_0000 && o.pulls[0].accepted
  }

  /** The first request takes any document, and the server refuses it. */
  predicate Refused(o: Outside) {
    Proper(o) && o.pulls[0].takes >= 0x8000_0000 && !o.pulls[0].accepted
  }

  /** An upload that came to the commit: what was to be in the document, and the
      chunk. */
  datatype Upload = Upload(es: seq<CommitDoc.Entry>, chunk: nat)

  ghost function TextLength(u: Upload, o: Outside): nat {
    |HandedText(u.es, o.failing)|
  }

  ghost predicate UploadSucceeds(u: Upload, o: Outside)
    requires Proper(o)
  {
    CommitSucceeds(o.pulls, TextLength(u, o), o.retryable)
  }

  ghost predicate UploadStores(u: Upload, o: Outside)
    requires Proper(o)
  {
    CommitStores(o.pulls, TextLength(u, o), o.retryable)
  }

  /** How an upload that came to the commit ends. */
  ghost predicate Ends(u: Upload, rc: int, was: Option<string>, now: Option<string>, parts: map<nat, Part>,
                       file: string, o: Outside)
    requires Proper(o)
  {
    && Covers(parts, file, u.chunk, u.es) && u.chunk > 0 && TextLength(u, o) < 0x8000_0000
    && (rc == 0 <==> UploadSucceeds(u, o))
    && now == if UploadStores(u, o) && ObjectOf(parts, u.es, o.failing).Some?
              then ObjectOf(parts, u.es, o.failing) else was
  }

  /** The end of the upload, once every part is kept. */
  method CommitUpload(manager: UploadManager, server: Server, ghost file: string, ghost chunk: nat, o: Outside)
    returns (rc: int, ghost u: Upload)
    requires manager.gb.Valid() && manager.gb.Contents() == "" && manager.gb.blocks == []
    requires 0 < manager.etags.Length <= MAX_PARTS && chunk > 0 && Proper(o)
    requires (manager.etags.Length - 1) * chunk < |file| <= manager.etags.Length * chunk
    requires forall n :: 0 < n <= manager.etags.Length ==> SliceKept(manager, server, file, chunk, n)
    modifies manager`remaining, manager.gb, server`stored
    ensures (rc == 0 || rc == -EIO) && u.chunk == chunk
    ensures Ends(u, rc, old(server.stored), server.stored, server.parts, file, o)
  {
    ghost var es := SlotsCover(manager, server, file, chunk);
    u := Upload(es, chunk);
    BuildDocument(manager, es, o.failing);
    TextIsOnlyWhole(server.parts, file, chunk, es, o.failing);
    ghost var requests;
    var ok;
    ok, requests := Commit(manager, server, HandedText(es, o.failing), o.pulls, o.retryable);
    rc := if ok then 0 else -EIO;
  }

  lemma TextIsOnlyWhole(parts: map<nat, Part>, file: string, chunk: nat, es: seq<CommitDoc.Entry>, failing: set<nat>)
    requires Covers(parts, file, chunk, es)
    ensures OnlyWhole(HandedText(es, failing))
  {
    var ds := Dones(AllPieces(es), 0, 0, failing);
    assert CommitDoc.CleanEtags(es);
    forall k | 0 < k <= |HandedText(es, failing)|
      ensures CommitDoc.Read(HandedText(es, failing)[k..]) == None
    {
      SuffixIsNoDocument(es, ds, k);
    }
  }

  /** ct_archive_data_big. An upload that does not come to the commit fails and
      leaves the server's object alone. Otherwise Ends says what rc and the
      object are, and ObjectIff which object that can be. */
  method ArchiveDataBig(file: SourceFile, server: Server, o: Outside)
    returns (rc: int, ghost upload: Option<Upload>)
    requires MAX_OBJ_SIZE_LEVEL <= |file.data| <= MAX_FILE_SIZE && Proper(o)
    modifies file, server
    ensures upload.Some? <==> ReachesCommit(o, |file.data|)
    ensures upload.None? ==> rc == (if o.stripe then -EIO else -1) && server.stored == old(server.stored)
    ensures upload.Some? ==>
              && upload.value.chunk == ChunkFor(|file.data|) && (rc == 0 || rc == -EIO)
              && Ends(upload.value, rc, old(server.stored), server.stored, server.parts, file.data, o)
  {
    upload := None;
    if !o.stripe {
      return -1, None;
    }
    var chunk, total, k := GetChunkSize(|file.data|);
    ChunkForIs(|file.data|, k);
    var manager := new UploadManager(total);
    var initiated := Initiate(server, o.initiates);
    if !initiated {
      return -EIO, None;
    }
    var up := new PartUpload(file);
    var put := PutParts(up, manager, server, chunk, total, o.parts);
    if !put {
      return -EIO, None;
    }
    ghost var u;
    rc, u := CommitUpload(manager, server, file.data, chunk, o);
    upload := Some(u);
  }

  /** The server comes to hold something else than the file, or than it had,
      only if entries are lost; and if none fails, it comes to hold the file
      exactly if some request takes the document whole and is accepted. */
  lemma EndsMeans(u: Upload, rc: int, was: Option<string>, now: Option<string>, parts: map<nat, Part>, file: string,
                  o: Outside)
    requires Proper(o) && Ends(u, rc, was, now, parts, file, o)
    ensures now != was && now != Some(file) ==> LosesParts(u.es, o.failing)
    ensures UploadStores(u, o) && LosesParts(u.es, o.failing) ==> now.Some? && now != Some(file)
    ensures o.failing == {} && was != Some(file) ==> (now == Some(file) <==> UploadStores(u, o))
    ensures !LosesParts(u.es, o.failing) ==> now == was || now == Some(file)
    ensures now != was ==> rc == 0
  {
    ObjectIff(parts, file, u.chunk, u.es, o.failing);
    NothingFails(u.es);
    if UploadStores(u, o) {
      StoredMeansSuccess(o.pulls, TextLength(u, o), o.retryable);
    }
  }

  lemma StoredMeansSuccess(pulls: seq<Pull>, n: nat, retryable: set<nat>)
    requires |pulls| == RETRYCOUNT + 1 && CommitStores(pulls, n, retryable)
    ensures CommitSucceeds(pulls, n, retryable)
  {
    var k :| 0 <= k <= RETRYCOUNT && Made(pulls, n, retryable, k) && TakesAll(pulls, n, k);
    assert LeftBefore(pulls, n, k + 1) == 0;
  }

  /** If the first request takes the whole document, the upload succeeds, and the
      object is stored exactly if the server accepts: refused, the upload is a
      success that stores nothing. */
  lemma FirstRequestDecides(u: Upload, rc: int, was: Option<string>, now: Option<string>, parts: map<nat, Part>,
                            file: string, o: Outside)
    requires Proper(o) && Ends(u, rc, was, now, parts, file, o) && o.pulls[0].takes >= TextLength(u, o)
    ensures rc == 0
    ensures !o.pulls[0].accepted ==> now == was
    ensures o.pulls[0].accepted && o.failing == {} ==> now == Some(file)
  {
    if o.pulls[0].accepted {
      AcceptedDocumentIsStored(o.pulls, TextLength(u, o), o.retryable);
      ObjectIff(parts, file, u.chunk, u.es, o.failing);
      NothingFails(u.es);
    } else {
      RefusedDocumentSucceeds(o.pulls, TextLength(u, o), o.retryable);
    }
  }
}
