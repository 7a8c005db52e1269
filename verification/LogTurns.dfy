/**
 The worker of src/tlog.c after `run` is cleared: one turn at one log.
 */
module LogTurns {
  import opened LogRing
  import opened Tinylog

  ghost predicate Separate(logs: seq<TlogLog>) {
    forall i, j :: 0 <= i < j < |logs| ==> logs[i] != logs[j]
  }

  ghost function DataCount(rings: seq<Ring>): nat {
    if rings == [] then 0 else (if HasData(rings[0]) then 1 else 0) + DataCount(rings[1..])
  }

  lemma {:induction false} DataCountDrops(rings: seq<Ring>, i: nat, r: Ring)
    requires i < |rings| && HasData(rings[i]) && !HasData(r)
    ensures DataCount(rings[i := r]) < DataCount(rings)
  {
    if i > 0 {
      assert rings[i := r][1..] == rings[1..][i - 1 := r];
      DataCountDrops(rings[1..], i - 1, r);
    } else {
      assert rings[i := r][1..] == rings[1..];
    }
  }

  ghost predicate SomeData(rings: seq<Ring>, from: int)
    requires from >= 0
  {
    exists i :: from <= i < |rings| && HasData(rings[i])
  }

  method AnyHasData(logs: seq<TlogLog>, ghost rings: seq<Ring>) returns (any: bool)
    requires |rings| == |logs| && forall i :: 0 <= i < |logs| ==> logs[i].View() == rings[i] && Inv(rings[i])
    ensures any <==> SomeData(rings, 0)
  {
    for i := 0 to |logs|
      invariant forall k :: 0 <= k < i ==> !HasData(rings[k])
    {
      var has := logs[i].HasUnread();
      if has {
        return true;
      }
    }
    any := false;
  }

  /** Where the worker is in the list of `count` logs after k more calls of
      _tlog_next_log; -1 stands for NULL. */
  ghost function Cursor(count: nat, last: int, k: nat): (c: int)
    requires -1 <= last < count
    ensures -1 <= c < count
  {
    if k == 0 then last
    else
      var c := Cursor(count, last, k - 1);
      if c + 1 < count then c + 1 else -1
  }

  method NextLog(count: nat, last: int) returns (next: int)
    requires -1 <= last < count
    ensures next == Cursor(count, last, 1)
  {
    next := if last + 1 < count then last + 1 else -1;
  }

  lemma {:induction false} CursorIs(count: nat, last: int, k: nat)
    requires -1 <= last < count && k <= count + 1
    ensures Cursor(count, last, k) == if last + k < count then last + k else last + k - count - 1
  {
    if k > 0 {
      CursorIs(count, last, k - 1);
    }
  }

  /** From wherever the worker is, its next count + 1 calls come to every log
      exactly once, and once to the end of the list. */
  lemma RoundVisitsEachLogOnce(count: nat, last: int, log: int) returns (k: nat)
    requires -1 <= last < count && -1 <= log < count
    ensures 1 <= k <= count + 1 && Cursor(count, last, k) == log
    ensures forall j :: 1 <= j <= count + 1 && Cursor(count, last, j) == log ==> j == k
  {
    k := if log > last then log - last else log + count + 1 - last;
    CursorIs(count, last, k);
    forall j | 1 <= j <= count + 1 && Cursor(count, last, j) == log
      ensures j == k
    {
      CursorIs(count, last, j);
    }
  }

  /** What one log hands over when it is drained once: all that is pending,
      unless the ring is Full. */
  ghost function Drained(r: Ring): seq<char>
    requires Inv(r)
  {
    if HasData(r) then (SnapshotCoversIffNotFull(r); Region(r, TakeSnap(r))) else []
  }

  /** Both critical sections of the worker with the write between them, when
      no producer runs. */
  method DrainOnce(log: TlogLog) returns (text: seq<char>)
    requires log.Valid() && HasData(log.View())
    modifies log`start, log`extEnd, log`dropped
    ensures text == Drained(old(log.View()))
    ensures log.Valid() && !HasData(log.View()) && log.dropped == 0
  {
    SnapshotCoversIffNotFull(log.View());
    var sn := log.CopyIndices();
    text := log.WriteBuffLog(sn);
    log.FreeSpace(sn);
  }

  /** How far the flush has come with one log: `now` is its ring, `first` what
      the ring was, and `text` what it has handed over. */
  ghost predicate Flushed(first: Ring, now: Ring, text: seq<char>) {
    Inv(first) && Inv(now) && if HasData(now) then text == [] && now == first else text == Drained(first)
  }

  ghost predicate Progress(logs: seq<TlogLog>, first: seq<Ring>, rings: seq<Ring>, out: seq<seq<char>>)
    reads set log | log in logs, set log | log in logs :: log.buff
  {
    && |out| == |first| == |rings| == |logs|
    && forall i :: 0 <= i < |logs| ==> logs[i].View() == rings[i] && Flushed(first[i], rings[i], out[i])
  }

  /** The worker's turn at one log. */
  method Visit(logs: seq<TlogLog>, i: nat, out: seq<seq<char>>, ghost first: seq<Ring>, ghost rings: seq<Ring>)
    returns (out': seq<seq<char>>, ghost rings': seq<Ring>)
    requires Separate(logs) && Progress(logs, first, rings, out) && i < |logs|
    modifies logs[i]
    ensures Progress(logs, first, rings', out') && !HasData(rings'[i])
    ensures HasData(rings[i]) ==> DataCount(rings') < DataCount(rings)
    ensures !HasData(rings[i]) ==> rings' == rings
  {
    out', rings' := out, rings;
    var has := logs[i].HasUnread();
    if has {
      var text := DrainOnce(logs[i]);
      out' := out[i := out[i] + text];
      rings' := rings[i := logs[i].View()];
      DataCountDrops(rings, i, rings'[i]);
    }
  }

  lemma DrainedIsPendingIff(r: Ring)
    requires Inv(r)
    ensures Drained(r) == Pending(r) <==> !Full(r)
  {
    if HasData(r) {
      SnapshotCoversIffNotFull(r);
    }
  }

  /** The cursor comes nearer to data, or goes back to the head of the list,
      from where there is some. */
  ghost predicate Nearer(rings: seq<Ring>, log: int, next: int)
    requires log >= -1 && next >= -1
  {
    if SomeData(rings, next + 1) then !SomeData(rings, log + 1) || next > log
    else !SomeData(rings, log + 1) && next > log
  }

  lemma NearerAfterVisit(rings: seq<Ring>, last: int, log: int)
    requires -1 <= last < |rings| && SomeData(rings, 0)
    requires log == if last + 1 < |rings| then last + 1 else -1
    requires log != -1 ==> !HasData(rings[log])
    ensures Nearer(rings, last, log)
  {
    if SomeData(rings, last + 1) {
      var i :| last + 1 <= i < |rings| && HasData(rings[i]);
      assert log + 1 <= i;
    }
  }

  /** One round of the worker's loop. */
  method Turn(logs: seq<TlogLog>, last: int, out: seq<seq<char>>, ghost first: seq<Ring>, ghost rings: seq<Ring>)
    returns (log: int, out': seq<seq<char>>, ghost rings': seq<Ring>)
    requires Separate(logs) && Progress(logs, first, rings, out) && -1 <= last < |logs| && SomeData(rings, 0)
    modifies set log | log in logs
    ensures -1 <= log < |logs| && Progress(logs, first, rings', out')
    ensures DataCount(rings') < DataCount(rings) || (rings' == rings && Nearer(rings, last, log))
  {
    out', rings' := out, rings;
    log := NextLog(|logs|, last);
    if log != -1 {
      out', rings' := Visit(logs, log, out, first, rings);
    }
    if rings' == rings {
      NearerAfterVisit(rings, last, log);
    }
  }
}
