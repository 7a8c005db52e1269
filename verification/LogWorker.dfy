/**
 The worker's loop over all logs until none has data.
 */
module LogWorker {
  import LogProtocol
  import opened LogRing
  import opened Tinylog
  import opened LogTurns

  /** The loop of _tlog_work with `run` cleared and no more producers. */
  method WorkUntilEmpty(logs: seq<TlogLog>, cursor: int, out: seq<seq<char>>, ghost first: seq<Ring>,
                        ghost rings: seq<Ring>)
    returns (out': seq<seq<char>>, ghost rings': seq<Ring>)
    requires Separate(logs) && Progress(logs, first, rings, out) && -1 <= cursor < |logs|
    modifies set log | log in logs
    ensures Progress(logs, first, rings', out') && !SomeData(rings', 0)
  {
    out', rings' := out, rings;
    var log := cursor;
    var any := AnyHasData(logs, rings');
    while any
      invariant -1 <= log < |logs| && Progress(logs, first, rings', out')
      invariant any <==> SomeData(rings', 0)
      decreases DataCount(rings'), !SomeData(rings', log + 1), |logs| - log
    {
      log, out', rings' := Turn(logs, log, out', first, rings');
      any := AnyHasData(logs, rings');
    }
  }

  /** The worker ends, and then every log is empty and has handed over what one
      drain hands over: by DrainedIsPendingIff, all that was pending, unless
      its ring was Full. */
  method FlushOnExit(logs: seq<TlogLog>, cursor: int, ghost first: seq<Ring>) returns (out: seq<seq<char>>)
    requires Separate(logs) && |first| == |logs|
    requires forall i :: 0 <= i < |logs| ==> logs[i].Valid() && logs[i].View() == first[i]
    requires -1 <= cursor < |logs|
    modifies set log | log in logs
    ensures |out| == |logs|
    ensures forall i :: 0 <= i < |logs| ==> logs[i].Valid() && !HasData(logs[i].View())
    ensures forall i :: 0 <= i < |logs| ==> Inv(first[i]) && out[i] == Drained(first[i])
  {
    out := seq(|logs|, _ => []);
    ghost var rings;
    out, rings := WorkUntilEmpty(logs, cursor, out, first, first);
  }

  /** What the flush hands over completes the delivery: for every log whose
      lines were shorter than max_line_size, in any run that ends with the
      worker between two snapshots, delivered then equals accepted. */
  lemma FlushCompletesDelivery(buff: seq<char>, maxLine: nat, block: bool, es: seq<LogProtocol.Event>)
    requires 0 < maxLine <= |buff| && LogProtocol.ShortLines(es, maxLine)
    requires LogProtocol.Possible(LogProtocol.Init(buff, maxLine, block), es)
    requires LogProtocol.After(LogProtocol.Init(buff, maxLine, block), es).worker.Idle?
    ensures var s := LogProtocol.After(LogProtocol.Init(buff, maxLine, block), es);
            s.delivered + Drained(s.ring) == s.accepted
  {
    LogProtocol.ShortLinesNeverFill(LogProtocol.Init(buff, maxLine, block), es);
    LogProtocol.RingIsFifo(buff, maxLine, block, es);
    DrainedIsPendingIff(LogProtocol.After(LogProtocol.Init(buff, maxLine, block), es).ring);
  }
}
