/**
 Producers and worker over one ring, as interleaved steps (src/tlog.c). Every
 critical section under tlog.lock is one step; the worker's output, which runs
 without the lock, is any number of steps that each write some bytes, so any append may
 fall between two bytes of the same snapshot.
 */
module LogProtocol {
  import opened LogRing

  datatype Worker = Idle | Writing(snap: Snap, pos: nat)

  /** `accepted` and `delivered` are the bytes producers were told are stored
      and the bytes handed to the output function. `lost` counts the pending
      bytes that snapshots left out, and `reported` the drops the worker has
      taken over. */
  datatype Log = Log(ring: Ring, block: bool, worker: Worker,
                     accepted: seq<char>, delivered: seq<char>, lost: nat, reported: nat)

  datatype Event = CheckDrop | Offer(line: seq<char>) | Snapshot | Write(n: nat) | FreeSpace

  function Init(buff: seq<char>, maxLine: nat, block: bool): (s: Log)
    requires 0 < maxLine <= |buff|
    ensures LogInv(s)
  {
    assert buff[0..0] == [];
    Log(Ring(buff, 0, 0, 0, maxLine, 0), block, Idle, [], [], 0, 0)
  }

  predicate Enabled(s: Log, e: Event) {
    match e
    case CheckDrop => true
    case Offer(line) => 0 < |line| <= s.ring.maxLine
    case Snapshot => s.worker.Idle? && HasData(s.ring)
    case Write(n) => s.worker.Writing? && 0 < n && s.worker.pos + n <= s.worker.snap.logLen + s.worker.snap.extLen
    case FreeSpace => s.worker.Writing? && s.worker.pos == s.worker.snap.logLen + s.worker.snap.extLen
  }

  /** A producer that does not block is refused: one more drop is counted. */
  function CountDrop(s: Log): Log {
    s.(ring := Drop(s.ring))
  }

  function Next(s: Log, e: Event): Log
    requires LogInv(s) && Enabled(s, e)
  {
    match e
    case CheckDrop => if !s.block && !HasRoom(s.ring) then CountDrop(s) else s
    case Offer(line) =>
      if HasRoom(s.ring) then
        s.(ring := Append(s.ring, line), accepted := s.accepted + line)
      else if s.block then s
      else CountDrop(s)
    case Snapshot =>
      var sn := TakeSnap(s.ring);
      s.(ring := s.ring.(dropped := 0), worker := Writing(sn, 0), reported := s.reported + sn.dropped,
         lost := s.lost + if |Pending(s.ring)| > sn.logLen + sn.extLen
                          then |Pending(s.ring)| - sn.logLen - sn.extLen else 0)
    case Write(n) =>
      s.(delivered := s.delivered + Region(s.ring, s.worker.snap)[s.worker.pos..s.worker.pos + n],
         worker := s.worker.(pos := s.worker.pos + n))
    case FreeSpace =>
      s.(ring := Release(s.ring, s.worker.snap), worker := Idle)
  }

  /** How the ring stands to the snapshot being written. A snapshot of an
      unwrapped ring ends at logEnd in the upper run, which may have been
      closed by a wrap since; a snapshot of a wrapped ring ends at logEnd in the
      lower run, and appends go on from there up to `start`. */
  ghost predicate SnapInv(r: Ring, sn: Snap) {
    if sn.logExtend == 0 then
      && sn.extLen == 0 && 0 < sn.logLen && r.start + sn.logLen == sn.logEnd
      && sn.logEnd <= |r.buff| - r.maxLine
      && (if r.extEnd == 0 then sn.logEnd <= r.end else sn.logEnd < r.extEnd)
    else
      && sn.logExtend == r.extEnd && r.start + sn.logLen == r.extEnd
      && sn.logEnd <= r.end
      && sn.extLen == if sn.logEnd == r.start then 0 else sn.logEnd
  }

  ghost predicate ShapeInv(s: Log) {
    && Inv(s.ring)
    && (s.worker.Writing? ==>
          && SnapInv(s.ring, s.worker.snap)
          && s.worker.pos <= s.worker.snap.logLen + s.worker.snap.extLen)
  }

  /** Bytes of the snapshot that are still to be written. */
  ghost function InFlight(s: Log): seq<char>
    requires ShapeInv(s)
  {
    if s.worker.Idle? then [] else Region(s.ring, s.worker.snap)[s.worker.pos..]
  }

  /** Unread bytes behind a snapshot. */
  ghost function Behind(r: Ring, sn: Snap): seq<char>
    requires Inv(r) && SnapInv(r, sn)
  {
    if sn.logExtend == 0 then From(r, sn.logEnd) else r.buff[sn.logEnd..r.end]
  }

  /** Unread bytes that are not part of the snapshot. */
  ghost function Rest(s: Log): seq<char>
    requires ShapeInv(s)
  {
    match s.worker
    case Idle => Pending(s.ring)
    case Writing(sn, _) => Behind(s.ring, sn)
  }

  ghost predicate IsFifo(s: Log)
    requires ShapeInv(s)
  {
    s.accepted == s.delivered + InFlight(s) + Rest(s)
  }

  ghost predicate LogInv(s: Log) {
    && ShapeInv(s)
    && (s.lost == 0 ==> IsFifo(s))
    && |s.accepted| == |s.delivered| + |InFlight(s)| + |Rest(s)| + s.lost
    && (s.block ==> s.reported + s.ring.dropped == 0)
  }

  // ---- one step ------------------------------------------------------------

  lemma {:induction false} AppendKeepsSnapInv(r: Ring, sn: Snap, line: seq<char>)
    requires Inv(r) && SnapInv(r, sn) && HasRoom(r) && 0 < |line| <= r.maxLine
    ensures r.end + |line| <= |r.buff| && SnapInv(Append(r, line), sn)
    ensures SnapFits(r, sn) && sn.extLen <= r.end
    ensures r.start + sn.logLen <= r.end || r.end + |line| <= r.start
  {
    AppendKeepsInv(r, line);
  }

  /** While the worker writes without the lock, no append changes a byte of
      what it writes, also not one that wraps. */
  lemma {:induction false} AppendKeepsSnapshot(r: Ring, sn: Snap, line: seq<char>)
    requires Inv(r) && SnapInv(r, sn) && HasRoom(r) && 0 < |line| <= r.maxLine
    ensures r.end + |line| <= |r.buff|
    ensures SnapFits(r, sn) && SnapFits(Append(r, line), sn)
    ensures Region(Append(r, line), sn) == Region(r, sn)
    ensures SnapInv(Append(r, line), sn)
  {
    AppendKeepsSnapInv(r, sn, line);
    PutFrame(r.buff, r.end, line);
    var b := Put(r.buff, r.end, line);
    assert b[0..sn.extLen] == r.buff[0..sn.extLen];
    assert b[r.start..r.start + sn.logLen] == r.buff[r.start..r.start + sn.logLen];
  }

  lemma {:induction false} AppendExtendsUpper(r: Ring, from: nat, line: seq<char>)
    requires Inv(r) && HasRoom(r) && 0 < |line| <= r.maxLine && r.extEnd == 0 && r.start <= from <= r.end
    ensures r.end + |line| <= |r.buff| && Inv(Append(r, line))
    ensures From(Append(r, line), from) == From(r, from) + line
  {
    AppendKeepsInv(r, line);
    PutFrame(r.buff, r.end, line);
    var b := Put(r.buff, r.end, line);
    assert b[from..r.end + |line|] == r.buff[from..r.end] + line;
    if Append(r, line).extEnd > 0 {
      assert b[from..r.end + |line|] + b[..0] == b[from..r.end + |line|];
    }
  }

  lemma {:induction false} AppendExtendsLower(r: Ring, from: nat, line: seq<char>)
    requires Inv(r) && HasRoom(r) && 0 < |line| <= r.maxLine && r.extEnd > 0 && r.start <= from <= r.extEnd
    ensures r.end + |line| <= |r.buff| && Inv(Append(r, line))
    ensures From(Append(r, line), from) == From(r, from) + line
  {
    AppendKeepsInv(r, line);
    PutFrame(r.buff, r.end, line);
    var b := Put(r.buff, r.end, line);
    var upper, lower := r.buff[from..r.extEnd], r.buff[..r.end];
    assert b[from..r.extEnd] == upper;
    assert b[..r.end + |line|] == lower + line;
    assert upper + (lower + line) == upper + lower + line;
  }

  /** An append adds its line at the far end of the unread bytes. */
  lemma AppendExtends(r: Ring, from: nat, line: seq<char>)
    requires Inv(r) && HasRoom(r) && 0 < |line| <= r.maxLine
    requires if r.extEnd == 0 then r.start <= from <= r.end else r.start <= from <= r.extEnd
    ensures r.end + |line| <= |r.buff| && Inv(Append(r, line))
    ensures From(Append(r, line), from) == From(r, from) + line
  {
    if r.extEnd == 0 {
      AppendExtendsUpper(r, from, line);
    } else {
      AppendExtendsLower(r, from, line);
    }
  }

  lemma {:induction false} AppendExtendsBehind(r: Ring, sn: Snap, line: seq<char>)
    requires Inv(r) && SnapInv(r, sn) && HasRoom(r) && 0 < |line| <= r.maxLine
    ensures r.end + |line| <= |r.buff| && Inv(Append(r, line)) && SnapInv(Append(r, line), sn)
    ensures Behind(Append(r, line), sn) == Behind(r, sn) + line
  {
    AppendKeepsInv(r, line);
    AppendKeepsSnapInv(r, sn, line);
    if sn.logExtend == 0 {
      AppendExtends(r, sn.logEnd, line);
    } else {
      PutFrame(r.buff, r.end, line);
    }
  }

  /** Where an accepted line goes: behind everything still unread. */
  lemma {:induction false} OfferExtendsRest(s: Log, line: seq<char>)
    requires LogInv(s) && Enabled(s, Offer(line)) && HasRoom(s.ring)
    ensures ShapeInv(Next(s, Offer(line)))
    ensures InFlight(Next(s, Offer(line))) == InFlight(s)
    ensures Rest(Next(s, Offer(line))) == Rest(s) + line
  {
    AppendKeepsInv(s.ring, line);
    match s.worker
    case Idle =>
      AppendExtends(s.ring, s.ring.start, line);
    case Writing(sn, pos) =>
      AppendKeepsSnapshot(s.ring, sn, line);
      AppendExtendsBehind(s.ring, sn, line);
  }

  lemma OfferKeepsInv(s: Log, line: seq<char>)
    requires LogInv(s) && Enabled(s, Offer(line)) && HasRoom(s.ring)
    ensures LogInv(Next(s, Offer(line)))
  {
    OfferExtendsRest(s, line);
    var sent, flight, rest := s.delivered, InFlight(s), Rest(s);
    assert sent + flight + (rest + line) == sent + flight + rest + line;
  }

  lemma {:induction false} DropKeepsShape(s: Log)
    requires ShapeInv(s)
    ensures ShapeInv(CountDrop(s))
  {
  }

  lemma {:induction false} DropTouchesNothing(s: Log)
    requires ShapeInv(s)
    ensures ShapeInv(CountDrop(s)) && InFlight(CountDrop(s)) == InFlight(s) && Rest(CountDrop(s)) == Rest(s)
  {
    DropKeepsShape(s);
  }

  lemma {:induction false} DropKeepsInv(s: Log)
    requires LogInv(s) && !s.block
    ensures LogInv(CountDrop(s))
  {
    DropTouchesNothing(s);
  }

  /** After a snapshot its regions are in flight, and nothing is left behind
      them. */
  lemma {:induction false} SnapshotTakes(s: Log)
    requires LogInv(s) && Enabled(s, Snapshot)
    ensures ShapeInv(Next(s, Snapshot)) && Rest(Next(s, Snapshot)) == []
    ensures InFlight(Next(s, Snapshot)) == Region(s.ring, TakeSnap(s.ring))
    ensures |Pending(s.ring)| == |Region(s.ring, TakeSnap(s.ring))| + Next(s, Snapshot).lost - s.lost
    ensures Next(s, Snapshot).lost == s.lost <==> !Full(s.ring)
  {
    var s' := Next(s, Snapshot);
    var sn := TakeSnap(s.ring);
    SnapshotCoversIffNotFull(s.ring);
    assert Region(s'.ring, sn) == Region(s.ring, sn);
    assert s.ring.buff[sn.logEnd..s.ring.end] == [];
  }

  lemma SnapshotKeepsInv(s: Log)
    requires LogInv(s) && Enabled(s, Snapshot)
    ensures LogInv(Next(s, Snapshot))
    ensures Next(s, Snapshot).lost == s.lost <==> !Full(s.ring)
  {
    var s' := Next(s, Snapshot);
    SnapshotTakes(s);
    SnapshotCoversIffNotFull(s.ring);
    if !Full(s.ring) {
      Regroup(s.delivered, [], Region(s.ring, TakeSnap(s.ring)), []);
    }
  }

  lemma Regroup(a: seq<char>, b: seq<char>, c: seq<char>, d: seq<char>)
    ensures a + (b + c) + d == a + b + c + d
    ensures a + [] + c == a + c + []
  {
  }

  lemma {:induction false} SliceOn(s: seq<char>, i: nat, n: nat)
    requires i + n <= |s|
    ensures s[i..] == s[i..i + n] + s[i + n..]
  {
  }

  /** Writing moves the next bytes from the snapshot to what is delivered. */
  lemma {:induction false} WriteMoves(s: Log, n: nat) returns (part: seq<char>)
    requires LogInv(s) && Enabled(s, Write(n))
    ensures ShapeInv(Next(s, Write(n))) && Rest(Next(s, Write(n))) == Rest(s)
    ensures |part| == n && Next(s, Write(n)).delivered == s.delivered + part
    ensures InFlight(s) == part + InFlight(Next(s, Write(n)))
  {
    var region, pos := Region(s.ring, s.worker.snap), s.worker.pos;
    part := region[pos..pos + n];
    SliceOn(region, pos, n);
  }

  lemma WriteKeepsInv(s: Log, n: nat)
    requires LogInv(s) && Enabled(s, Write(n))
    ensures LogInv(Next(s, Write(n)))
  {
    var part := WriteMoves(s, n);
    Regroup(s.delivered, part, InFlight(Next(s, Write(n))), Rest(s));
  }

  lemma FreeSpaceKeepsInv(s: Log)
    requires LogInv(s) && Enabled(s, FreeSpace)
    ensures LogInv(Next(s, FreeSpace))
  {
    var s' := Next(s, FreeSpace);
    assert InFlight(s) == [];
    assert Rest(s') == Rest(s);
  }

  lemma StepKeepsInv(s: Log, e: Event)
    requires LogInv(s) && Enabled(s, e)
    ensures LogInv(Next(s, e))
    ensures Next(s, e).lost == s.lost <==> !(e.Snapshot? && Full(s.ring))
  {
    match e
    case CheckDrop =>
      if !s.block { DropKeepsInv(s); }
    case Offer(line) =>
      if HasRoom(s.ring) { OfferKeepsInv(s, line); } else if !s.block { DropKeepsInv(s); }
    case Snapshot => SnapshotKeepsInv(s);
    case Write(n) => WriteKeepsInv(s, n);
    case FreeSpace => FreeSpaceKeepsInv(s);
  }

  // ---- runs ----------------------------------------------------------------

  ghost predicate Possible(s: Log, es: seq<Event>)
    requires LogInv(s)
    decreases |es|
  {
    es != [] ==> Enabled(s, es[0]) && (StepKeepsInv(s, es[0]); Possible(Next(s, es[0]), es[1..]))
  }

  ghost function After(s: Log, es: seq<Event>): (s': Log)
    requires LogInv(s) && Possible(s, es)
    ensures LogInv(s')
    decreases |es|
  {
    if es == [] then s else StepKeepsInv(s, es[0]); After(Next(s, es[0]), es[1..])
  }

  /** The guard that decides: the worker never copies the indices while the
      ring is Full. */
  ghost predicate NoFullSnapshot(s: Log, es: seq<Event>)
    requires LogInv(s) && Possible(s, es)
    decreases |es|
  {
    es != [] ==>
      && !(es[0].Snapshot? && Full(s.ring))
      && (StepKeepsInv(s, es[0]); NoFullSnapshot(Next(s, es[0]), es[1..]))
  }

  lemma {:induction false} LossOverRun(s: Log, es: seq<Event>)
    requires LogInv(s) && Possible(s, es)
    ensures After(s, es).lost >= s.lost
    ensures After(s, es).lost == s.lost <==> NoFullSnapshot(s, es)
    decreases |es|
  {
    if es != [] {
      StepKeepsInv(s, es[0]);
      LossOverRun(Next(s, es[0]), es[1..]);
    }
  }

  /** The ring is a FIFO in every interleaving in which no snapshot meets a
      Full ring, and in no other. */
  lemma RingIsFifoIff(buff: seq<char>, maxLine: nat, block: bool, es: seq<Event>)
    requires 0 < maxLine <= |buff|
    requires Possible(Init(buff, maxLine, block), es)
    ensures IsFifo(After(Init(buff, maxLine, block), es)) <==> NoFullSnapshot(Init(buff, maxLine, block), es)
  {
    LossOverRun(Init(buff, maxLine, block), es);
    LostBytesBreakFifo(After(Init(buff, maxLine, block), es));
  }

  ghost predicate ShortLines(es: seq<Event>, maxLine: nat) {
    forall i :: 0 <= i < |es| && es[i].Offer? ==> |es[i].line| < maxLine
  }

  lemma ShortLinesOn(es: seq<Event>, maxLine: nat)
    requires es != [] && ShortLines(es, maxLine)
    ensures ShortLines(es[1..], maxLine) && (es[0].Offer? ==> |es[0].line| < maxLine)
  {
  }

  lemma ShortStepNeverFills(s: Log, e: Event)
    requires LogInv(s) && Enabled(s, e) && !Full(s.ring)
    requires e.Offer? ==> |e.line| < s.ring.maxLine
    ensures !Full(Next(s, e).ring)
  {
    if e.Offer? && HasRoom(s.ring) {
      AppendFillsIff(s.ring, e.line);
    }
  }

  lemma {:induction false} ShortLinesNeverFill(s: Log, es: seq<Event>)
    requires LogInv(s) && Possible(s, es) && !Full(s.ring) && ShortLines(es, s.ring.maxLine)
    ensures NoFullSnapshot(s, es) && !Full(After(s, es).ring)
    decreases |es|
  {
    if es != [] {
      StepKeepsInv(s, es[0]);
      ShortStepNeverFills(s, es[0]);
      ShortLinesOn(es, s.ring.maxLine);
      ShortLinesNeverFill(Next(s, es[0]), es[1..]);
    }
  }

  /** With lines shorter than max_line_size every interleaving is a FIFO: what
      was delivered, what is being written and what is still in the ring make
      up the accepted lines in the order of their acceptance. */
  lemma RingIsFifo(buff: seq<char>, maxLine: nat, block: bool, es: seq<Event>)
    requires 0 < maxLine <= |buff| && ShortLines(es, maxLine)
    requires Possible(Init(buff, maxLine, block), es)
    ensures var s := After(Init(buff, maxLine, block), es);
            s.accepted == s.delivered + InFlight(s) + Rest(s) && s.lost == 0
  {
    ShortLinesNeverFill(Init(buff, maxLine, block), es);
    LossOverRun(Init(buff, maxLine, block), es);
  }

  lemma SecondOfFour(all: seq<char>, a: seq<char>, b: seq<char>, c: seq<char>, d: seq<char>)
    requires all == a + (b + c) + d
    ensures |a| + |b| <= |all| && all[|a|..|a| + |b|] == b
  {
  }

  lemma WriteTakesNext(s: Log, n: nat)
    requires LogInv(s) && Enabled(s, Write(n)) && s.lost == 0
    ensures |s.delivered| + n <= |s.accepted|
    ensures Next(s, Write(n)).delivered == s.delivered + s.accepted[|s.delivered|..|s.delivered| + n]
  {
    var part := WriteMoves(s, n);
    SecondOfFour(s.accepted, s.delivered, part, InFlight(Next(s, Write(n))), Rest(s));
  }

  /** Each step is a step of a byte queue: an accepted line goes in at one end
      whole, what is written is the next bytes out at the other, and nothing
      else changes the queue. */
  lemma StepRefinesQueue(s: Log, e: Event)
    requires LogInv(s) && Enabled(s, e) && s.lost == 0
    ensures s.delivered <= s.accepted
    ensures e.Offer? && HasRoom(s.ring) ==>
              Next(s, e).accepted == s.accepted + e.line && Next(s, e).delivered == s.delivered
    ensures e.Write? ==>
              && |s.delivered| + e.n <= |s.accepted| && Next(s, e).accepted == s.accepted
              && Next(s, e).delivered == s.delivered + s.accepted[|s.delivered|..|s.delivered| + e.n]
    ensures !e.Write? && !(e.Offer? && HasRoom(s.ring)) ==>
              Next(s, e).accepted == s.accepted && Next(s, e).delivered == s.delivered
  {
    if e.Write? {
      WriteTakesNext(s, e.n);
    }
  }

  // ---- space ---------------------------------------------------------------

  /** In every run: an append is refused only if all of the buffer but two lines
      at most holds bytes that were accepted and not yet released. */
  lemma RefusedOnlyWhenFull(buff: seq<char>, maxLine: nat, block: bool, es: seq<Event>)
    requires 0 < maxLine <= |buff| && Possible(Init(buff, maxLine, block), es)
    ensures var s := After(Init(buff, maxLine, block), es);
            !HasRoom(s.ring) ==> |Pending(s.ring)| > |s.ring.buff| - 2 * s.ring.maxLine
  {
    var s := After(Init(buff, maxLine, block), es);
    if !HasRoom(s.ring) {
      RefusedOnlyWhenWrapped(s.ring);
    }
  }

  /** A refused append finds room after at most two releases, if nothing is
      appended meanwhile: one that ends the write in flight, and one for a
      snapshot taken after it. */
  lemma TwoReleasesMakeRoom(s: Log)
    requires LogInv(s) && !HasRoom(s.ring)
    ensures s.worker.Idle? ==> HasData(s.ring) && HasRoom(Release(s.ring, TakeSnap(s.ring)))
    ensures s.worker.Writing? ==>
              var r := Release(s.ring, s.worker.snap);
              HasRoom(r) || (Inv(r) && HasData(r) && HasRoom(Release(r, TakeSnap(r))))
  {
    RefusedOnlyWhenWrapped(s.ring);
  }

  // ---- the line that must not be offered -----------------------------------

  lemma Prepend(s: Log, e: Event, es: seq<Event>) returns (fs: seq<Event>)
    requires LogInv(s) && Enabled(s, e) && LogInv(Next(s, e)) && Possible(Next(s, e), es)
    ensures fs == [e] + es
    ensures Possible(s, fs) && After(s, fs) == After(Next(s, e), es)
  {
    fs := [e] + es;
    assert fs[1..] == es;
  }

  lemma RunStep(s: Log, e: Event) returns (s': Log)
    requires LogInv(s) && Enabled(s, e)
    ensures LogInv(s') && s' == Next(s, e)
  {
    StepKeepsInv(s, e);
    s' := Next(s, e);
  }

  lemma SecondHalfLosesBytes(s: Log, line: seq<char>) returns (es: seq<Event>)
    requires |line| == 8192 && LogInv(s) && s.worker.Idle? && |s.ring.buff| == 16384 && s.ring.maxLine == 8192
    requires s.ring.start == s.ring.end == 8192 && s.ring.extEnd == 0 && s.lost == 0
    ensures es == [Offer(line)] + ([Offer(line)] + ([Snapshot] + []))
    ensures Possible(s, es) && After(s, es).lost == 8192
  {
    var s1 := RunStep(s, Offer(line));
    var s2 := RunStep(s1, Offer(line));
    var s3 := RunStep(s2, Snapshot);
    es := Prepend(s2, Snapshot, []);
    es := Prepend(s1, Offer(line), es);
    es := Prepend(s, Offer(line), es);
  }

  lemma DrainThenLose(s: Log, line: seq<char>) returns (es: seq<Event>)
    requires |line| == 8192 && LogInv(s) && |s.ring.buff| == 16384 && s.ring.maxLine == 8192
    requires s.worker == Writing(Snap(8192, 0, 8192, 0, 0), 0)
    requires s.ring.start == 0 && s.ring.end == 8192 && s.ring.extEnd == 0 && s.lost == 0
    ensures es == [Write(8192)] + ([FreeSpace] + ([Offer(line)] + ([Offer(line)] + ([Snapshot] + []))))
    ensures Possible(s, es) && After(s, es).lost == 8192
  {
    var s1 := RunStep(s, Write(8192));
    var s2 := RunStep(s1, FreeSpace);
    es := SecondHalfLosesBytes(s2, line);
    es := Prepend(s1, FreeSpace, es);
    es := Prepend(s, Write(8192), es);
  }

  lemma LostBytesBreakFifo(s: Log)
    requires LogInv(s)
    ensures IsFifo(s) <==> s.lost == 0
  {
    assert |s.delivered + InFlight(s) + Rest(s)| == |s.accepted| - s.lost;
  }

  lemma StoreOneAndSnapshot(s: Log, line: seq<char>) returns (s1: Log, s2: Log)
    requires |s.ring.buff| == 16384 && s.ring.maxLine == 8192 && |line| == 8192
    requires s == Init(s.ring.buff, 8192, s.block) && LogInv(s)
    ensures LogInv(s1) && s1 == Next(s, Offer(line)) && Enabled(s1, Snapshot)
    ensures LogInv(s2) && s2 == Next(s1, Snapshot)
    ensures s2.worker == Writing(Snap(8192, 0, 8192, 0, 0), 0) && |s2.ring.buff| == 16384 && s2.ring.maxLine == 8192
    ensures s2.ring.start == 0 && s2.ring.end == 8192 && s2.ring.extEnd == 0 && s2.lost == 0
  {
    s1 := RunStep(s, Offer(line));
    s2 := RunStep(s1, Snapshot);
  }

  /** Lines of the largest size the clamp lets through can lose bytes, with the
      largest max_line_size and the smallest buffer the log library lets its
      users set: one such line is stored and drained, two more are stored, and
      the next snapshot leaves out the second. */
  lemma LongLinesLoseBytes(s: Log, line: seq<char>) returns (es: seq<Event>)
    requires |s.ring.buff| == 16384 && s.ring.maxLine == 8192 && |line| == 8192
    requires s == Init(s.ring.buff, 8192, s.block) && LogInv(s)
    ensures es == [Offer(line)] + ([Snapshot]
              + ([Write(8192)] + ([FreeSpace] + ([Offer(line)] + ([Offer(line)] + ([Snapshot] + []))))))
    ensures Possible(s, es) && After(s, es).lost == 8192 && !IsFifo(After(s, es))
  {
    var s1, s2 := StoreOneAndSnapshot(s, line);
    es := DrainThenLose(s2, line);
    es := Prepend(s1, Snapshot, es);
    es := Prepend(s, Offer(line), es);
    LostBytesBreakFifo(After(s, es));
  }
}
