/**
 struct tlog_log and the functions of src/tlog.c that work on it in place: the
 producers' and the worker's critical sections, and the formatting of a root line.
 Each critical section is proved against its step in LogRing.dfy.
 */
module Tinylog {
  import opened LogRing

  /** The formatting callback failed, or an append was made, refused and
      counted, or refused to a producer that has to wait. */
  datatype Outcome = NoLine | Stored | Dropped | MustWait

  class TlogLog {
    const buff: array<char>
    const maxLine: nat
    const block: bool
    var start: nat
    var end: nat
    var extEnd: nat
    var dropped: nat

    ghost function View(): Ring
      reads this, buff
    {
      Ring(buff[..], start, end, extEnd, maxLine, dropped)
    }

    ghost predicate Valid()
      reads this, buff
    {
      Inv(View())
    }

    constructor (buffsize: nat, maxLine: nat, block: bool)
      requires 0 < maxLine <= buffsize
      ensures Valid() && fresh(buff) && Pending(View()) == [] && !HasData(View())
      ensures this.maxLine == maxLine && buff.Length == buffsize && this.block == block && dropped == 0
    {
      this.buff := new char[buffsize];
      this.maxLine, this.block := maxLine, block;
      start, end, extEnd, dropped := 0, 0, 0, 0;
    }

    /** The length of the free run, the `maxlen` of the source. */
    method FreeLength() returns (maxlen: int)
      requires Valid()
      ensures maxlen == FreeRun(View())
    {
      maxlen := 0;
      if end == start {
        if extEnd == 0 {
          maxlen := buff.Length - end;
        }
      } else if end > start {
        maxlen := buff.Length - end;
      } else {
        maxlen := start - end;
      }
    }

    /** _tlog_need_drop: refuses before the line is even formatted. */
    method NeedDrop() returns (drop: bool)
      requires Valid()
      modifies this`dropped
      ensures drop <==> !block && !HasRoom(old(View()))
      ensures View() == if drop then Drop(old(View())) else old(View())
    {
      drop := false;
      if block {
        return;
      }
      var maxlen := FreeLength();
      if maxlen < maxLine {
        dropped := dropped + 1;
        drop := true;
      }
    }

    /** One round of the loop in _tlog_vprintf under tlog.lock, with the append
        if there is room. */
    method TryAppend(line: array<char>, len: nat) returns (r: Outcome)
      requires Valid() && line != buff && 0 < len <= line.Length && len <= maxLine
      modifies this`end, this`extEnd, this`dropped, buff
      ensures Valid()
      ensures r == if HasRoom(old(View())) then Stored else if block then MustWait else Dropped
      ensures r.Stored? ==> old(end) + len <= buff.Length
      ensures View() == match r
                        case Stored => Append(old(View()), old(line[..len]))
                        case Dropped => Drop(old(View()))
                        case _ => old(View())
    {
      var maxlen := FreeLength();
      if maxlen < maxLine {
        if !block {
          dropped := dropped + 1;
          return Dropped;
        }
        return MustWait;
      }
      ghost var text := line[..len];
      AppendKeepsInv(View(), text);
      forall i | 0 <= i < len {
        buff[end + i] := line[i];
      }
      assert buff[..] == Put(old(buff[..]), end, text);
      end := end + len;
      if end > buff.Length - maxLine {
        extEnd := end;
        end := 0;
      }
      r := Stored;
    }

    method HasUnread() returns (has: bool)
      requires Valid()
      ensures has <==> HasData(View())
    {
      has := end != start || extEnd > 0;
    }

    /** The first critical section of the worker. */
    method CopyIndices() returns (sn: Snap)
      requires Valid()
      modifies this`dropped
      ensures sn == TakeSnap(old(View()))
      ensures View() == old(View()).(dropped := 0)
    {
      var logLen, logExtLen, logExtend := 0, 0, 0;
      if extEnd > 0 {
        logLen := extEnd - start;
        logExtend := extEnd;
      }
      if end < start {
        logExtLen := end;
      } else if end > start {
        logLen := end - start;
      }
      sn := Snap(logLen, logExtLen, end, logExtend, dropped);
      dropped := 0;
    }

    /** _tlog_write_buff_log: the two calls of the output function. */
    method WriteBuffLog(sn: Snap) returns (text: seq<char>)
      requires SnapFits(View(), sn)
      ensures text == Region(View(), sn)
    {
      text := buff[start..start + sn.logLen];
      if sn.extLen > 0 {
        text := text + buff[..sn.extLen];
      }
      assert text == Region(View(), sn);
    }

    /** The second critical section of the worker. */
    method FreeSpace(sn: Snap)
      modifies this`start, this`extEnd
      ensures View() == Release(old(View()), sn)
    {
      start := sn.logEnd;
      if sn.logExtend > 0 {
        extEnd := 0;
      }
    }
  }

  // ---- producers -----------------------------------------------------------

  /** _tlog_root_log_buffer without segments. `window` is what the format
      callback leaves in the maxlen - 2 bytes it is given, `logLen` what it
      returns, and `before` the byte in front of the buffer, which the code
      looks at when the callback returns 0. */
  method RootLogBuffer(buff: array<char>, window: seq<char>, logLen: int, before: char) returns (len: int)
    requires buff.Length >= 6 && |window| == buff.Length - 2
    modifies buff
    ensures -1 <= len <= buff.Length - 2
    ensures len == -1 <==> logLen < 0
    ensures len == 0 ==> logLen == 0 && before == '\n'
    ensures 0 < logLen < |window| ==>
              buff[..len] == window[..logLen] + if window[logLen - 1] == '\n' then "" else "\n"
    ensures logLen == 0 ==> buff[..len] == if before == '\n' then "" else "\n"
    ensures logLen >= |window| ==> buff[..len] == window[..|window| - 4] + "...\n"
  {
    var maxFormatLen := buff.Length - 2;
    buff[buff.Length - 1] := '\0';
    forall i | 0 <= i < |window| {
      buff[i] := window[i];
    }
    assert buff[..|window|] == window;
    if logLen < 0 {
      return -1;
    }
    len := logLen;
    if logLen >= maxFormatLen {
      buff[maxFormatLen - 2] := '.';
      buff[maxFormatLen - 3] := '.';
      buff[maxFormatLen - 4] := '.';
      len := maxFormatLen - 1;
    }
    var last := if len == 0 then before else buff[len - 1];
    if last != '\n' && len + 1 < buff.Length - 1 {
      buff[len] := '\n';
      len := len + 1;
    }
  }

  /** The clamp of _tlog_vprintf for callbacks that report more than fits. */
  method ClampLine(buff: array<char>, len: int) returns (n: int)
    requires buff.Length >= 5
    modifies buff
    ensures n == if len < buff.Length then len else buff.Length
    ensures len < buff.Length ==> buff[..] == old(buff[..])
    ensures len >= buff.Length ==> buff[..] == old(buff[..buff.Length - 5]) + "...\n\0"
  {
    n := len;
    if n >= buff.Length {
      n := buff.Length;
      buff[n - 1] := '\0';
      buff[n - 2] := '\n';
      buff[n - 3] := '.';
      buff[n - 4] := '.';
      buff[n - 5] := '.';
    }
  }

  /** What other producers and the worker may do to the ring while this thread
      does not have the lock: anything that keeps it valid. */
  method OthersRun(log: TlogLog)
    requires log.Valid()
    modifies log`start, log`end, log`extEnd, log`dropped, log.buff
    ensures log.Valid()
  {
    var r: Ring := *;
    if Inv(r) && |r.buff| == log.buff.Length && r.maxLine == log.maxLine {
      forall i | 0 <= i < log.buff.Length {
        log.buff[i] := r.buff[i];
      }
      log.start, log.end, log.extEnd, log.dropped := r.start, r.end, r.extEnd, r.dropped;
      assert log.View() == r;
    }
  }

  /** A root message goes through _tlog_vprintf, up to its first decision under
      the lock. The check comes first; if it passes, the line is formatted
      while others go on, and `seen` is the ring they leave. A line that is
      stored is whole and at most max_line_size - 2 bytes long, so it cannot
      make the ring Full; one that is not is counted once if it is dropped, by
      the check or by the loop, and else not at all. */
  method LogRootMessage(log: TlogLog, window: seq<char>, logLen: int, before: char)
    returns (r: Outcome, line: seq<char>, ghost checked: bool, ghost seen: Ring)
    requires log.Valid() && log.maxLine >= 6 && |window| == log.maxLine - 2
    modifies log`start, log`end, log`extEnd, log`dropped, log.buff
    ensures log.Valid()
    ensures checked <==> log.block || HasRoom(old(log.View()))
    ensures !checked ==> r == Dropped && log.View() == Drop(old(log.View()))
    ensures checked ==> Inv(seen) && |seen.buff| == log.buff.Length && seen.maxLine == log.maxLine
    ensures checked ==> r == if line == [] then NoLine else if HasRoom(seen) then Stored
              else if log.block then MustWait else Dropped
    ensures checked ==> (line == [] <==> logLen < 0 || (logLen == 0 && before == '\n'))
    ensures r.Stored? ==> seen.end + |line| <= log.buff.Length
    ensures checked ==> log.View() == match r
                                      case Stored => Append(seen, line)
                                      case Dropped => Drop(seen)
                                      case _ => seen
    ensures |line| <= log.maxLine - 2
    ensures checked && logLen == 0 && before != '\n' ==> line == "\n"
    ensures checked && 0 < logLen < |window| ==>
              line == window[..logLen] + if window[logLen - 1] == '\n' then "" else "\n"
    ensures checked && logLen >= |window| ==> line == window[..|window| - 4] + "...\n"
    ensures r.Stored? && !Full(seen) ==> !Full(log.View())
  {
    line := [];
    seen := log.View();
    var drop := log.NeedDrop();
    checked := !drop;
    if drop {
      return Dropped, line, checked, seen;
    }
    var buff := new char[log.maxLine];
    var len := RootLogBuffer(buff, window, logLen, before);
    OthersRun(log);
    seen := log.View();
    if len <= 0 {
      return NoLine, line, checked, seen;
    }
    len := ClampLine(buff, len);
    line := buff[..len];
    if HasRoom(log.View()) {
      AppendFillsIff(log.View(), line);
    }
    r := log.TryAppend(buff, len);
  }
}
