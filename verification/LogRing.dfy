/**
 The byte ring of one log (src/tlog.c): the three indices, what each critical
 section does to them, and the facts about one step that the protocol in
 LogProtocol.dfy builds on. A C char is a Dafny char here and everywhere else.
 */
module LogRing {

  /** The ring fields of struct tlog_log. `maxLine` is max_line_size and
      |buff| is buffsize; neither changes. */
  datatype Ring = Ring(buff: seq<char>, start: nat, end: nat, extEnd: nat, maxLine: nat, dropped: nat)

  /** What the worker copies out of the ring under the lock. */
  datatype Snap = Snap(logLen: nat, extLen: nat, logEnd: nat, logExtend: nat, dropped: nat)

  /** `extEnd > 0` says that producers have gone round: the unread bytes are
      then [start, extEnd) followed by [0, end). They go round only where less
      than a full line is left. */
  predicate Inv(r: Ring) {
    && 0 < r.maxLine <= |r.buff|
    && r.start <= |r.buff| - r.maxLine
    && r.end <= |r.buff| - r.maxLine
    && (if r.extEnd == 0 then r.start <= r.end else r.end <= r.start < r.extEnd <= |r.buff|)
    && (r.extEnd > 0 ==> r.extEnd > |r.buff| - r.maxLine)
  }

  /** The state in which the two indices meet again although the ring is full. */
  predicate Full(r: Ring) {
    r.extEnd > 0 && r.end == r.start && r.end > 0
  }

  predicate HasData(r: Ring) {
    r.end != r.start || r.extEnd > 0
  }

  /** The `maxlen` of the producers. When end meets start in a wrapped ring the
      code leaves `maxlen` as it was: 0, or the value that made the previous
      round of the loop wait. Both are below maxLine, so 0 stands for it. */
  function FreeRun(r: Ring): int {
    if r.end == r.start then
      if r.extEnd == 0 then |r.buff| - r.end else 0
    else if r.end > r.start then |r.buff| - r.end
    else r.start - r.end
  }

  predicate HasRoom(r: Ring) {
    FreeRun(r) >= r.maxLine
  }

  function Put(buff: seq<char>, at: nat, line: seq<char>): (b: seq<char>)
    requires at + |line| <= |buff|
    ensures |b| == |buff|
  {
    buff[..at] + line + buff[at + |line|..]
  }

  lemma PutFrame(buff: seq<char>, at: nat, line: seq<char>)
    requires at + |line| <= |buff|
    ensures Put(buff, at, line)[at..at + |line|] == line
    ensures forall i, j {:trigger Put(buff, at, line)[i..j]} ::
              0 <= i <= j <= at || at + |line| <= i <= j <= |buff| ==> Put(buff, at, line)[i..j] == buff[i..j]
    ensures forall i {:trigger Put(buff, at, line)[i..at + |line|]} ::
              0 <= i <= at ==> Put(buff, at, line)[i..at + |line|] == buff[i..at] + line
  {
    var b := Put(buff, at, line);
    assert forall k :: 0 <= k < at ==> b[k] == buff[k];
    assert forall k :: at + |line| <= k < |buff| ==> b[k] == buff[k];
    assert forall k :: at <= k < at + |line| ==> b[k] == line[k - at];
  }

  /** The append of one line and the early wrap that follows it. */
  function Append(r: Ring, line: seq<char>): (r': Ring)
    requires r.end + |line| <= |r.buff|
  {
    var end := r.end + |line|;
    var buff := Put(r.buff, r.end, line);
    if end > |r.buff| - r.maxLine
    then r.(buff := buff, extEnd := end, end := 0)
    else r.(buff := buff, end := end)
  }

  function Drop(r: Ring): Ring {
    r.(dropped := r.dropped + 1)
  }

  function TakeSnap(r: Ring): Snap
    requires r.extEnd > 0 ==> r.start <= r.extEnd
  {
    var wrapped := if r.extEnd > 0 then r.extEnd - r.start else 0;
    Snap(if r.end > r.start then r.end - r.start else wrapped,
         if r.end < r.start then r.end else 0,
         r.end,
         r.extEnd,
         r.dropped)
  }

  function Release(r: Ring, sn: Snap): Ring {
    r.(start := sn.logEnd, extEnd := if sn.logExtend > 0 then 0 else r.extEnd)
  }

  /** The unread bytes from index `from` on, in the order they were appended. */
  function From(r: Ring, from: nat): seq<char>
    requires if r.extEnd == 0 then from <= r.end <= |r.buff| else from <= r.extEnd <= |r.buff| && r.end <= |r.buff|
  {
    if r.extEnd == 0 then r.buff[from..r.end] else r.buff[from..r.extEnd] + r.buff[..r.end]
  }

  function Pending(r: Ring): seq<char>
    requires Inv(r)
  {
    From(r, r.start)
  }

  /** The two regions a snapshot tells the worker to write, read from the
      buffer as it is now. */
  predicate SnapFits(r: Ring, sn: Snap) {
    r.start + sn.logLen <= |r.buff| && sn.extLen <= |r.buff|
  }

  function Region(r: Ring, sn: Snap): seq<char>
    requires SnapFits(r, sn)
  {
    r.buff[r.start..r.start + sn.logLen] + r.buff[..sn.extLen]
  }

  /** Every append that is let through stays inside the buffer, also when the
      line has the largest length the clamp lets through. */
  lemma AppendKeepsInv(r: Ring, line: seq<char>)
    requires Inv(r) && HasRoom(r) && 0 < |line| <= r.maxLine
    ensures r.end + |line| <= |r.buff|
    ensures Inv(Append(r, line))
    ensures r.extEnd > 0 ==> r.end + |line| <= r.start && Append(r, line).extEnd == r.extEnd
  {
  }

  /** A refusal means that the ring has gone round and still holds data, and
      that all of the buffer but two lines at most is in use. */
  lemma RefusedOnlyWhenWrapped(r: Ring)
    requires Inv(r) && !HasRoom(r)
    ensures r.extEnd > 0 && HasData(r) && r.start - r.end < r.maxLine
    ensures |Pending(r)| > |r.buff| - 2 * r.maxLine
  {
  }

  /** A snapshot covers all that is pending exactly when the ring is not in the
      Full state; otherwise the bytes [0, end) are left out, and its release
      makes the ring look empty. */
  lemma SnapshotCoversIffNotFull(r: Ring)
    requires Inv(r) && HasData(r)
    ensures SnapFits(r, TakeSnap(r))
    ensures Region(r, TakeSnap(r)) == Pending(r) <==> !Full(r)
    ensures Full(r) ==> Pending(r) == Region(r, TakeSnap(r)) + r.buff[..r.end]
    ensures Inv(Release(r, TakeSnap(r))) && !HasData(Release(r, TakeSnap(r)))
  {
    var sn := TakeSnap(r);
    if r.extEnd == 0 {
      assert r.buff[..0] == [];
    } else {
      assert r.start + sn.logLen == r.extEnd;
      if Full(r) {
        assert Region(r, sn) == r.buff[r.start..r.extEnd];
        assert |Pending(r)| == |Region(r, sn)| + r.end;
      }
    }
  }

  /** Only a line that uses up the whole free run of a wrapped ring makes it
      Full, so the line must have the largest length, maxLine. */
  lemma AppendFillsIff(r: Ring, line: seq<char>)
    requires Inv(r) && HasRoom(r) && 0 < |line| <= r.maxLine
    ensures r.end + |line| <= |r.buff|
    ensures Full(Append(r, line)) <==> r.extEnd > 0 && r.start - r.end == |line|
    ensures Full(Append(r, line)) ==> |line| == r.maxLine
  {
  }
}
