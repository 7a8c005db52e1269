/**
 Removing old log files (src/tlog.c). Each pass lists the directory, in whatever
 order, and unlinks the file its scan takes for the oldest. The scan starts from
 the modification time 0 and takes that value to say that it has none yet.
 */
module Retention {
  datatype File = File(name: string, mtime: int)

  // ---- one scan ------------------------------------------------------------

  /** _tlog_get_oldest_callback over the log files in the order listed. */
  function Scan(order: seq<File>): File {
    if order == [] then File("", 0)
    else
      var best, f := Scan(order[..|order| - 1]), order[|order| - 1];
      if best.mtime == 0 || best.mtime > f.mtime then f else best
  }

  ghost predicate Lists(order: seq<File>, files: set<File>) {
    (forall f :: f in order <==> f in files) && forall i, j :: 0 <= i < j < |order| ==> order[i] != order[j]
  }

  ghost predicate Oldest(files: set<File>, f: File) {
    f in files && forall g :: g in files ==> f.mtime <= g.mtime
  }

  ghost function Early(files: set<File>): set<File> {
    set f | f in files && f.mtime < 0
  }

  /** Files with a zero and with a positive time are there, and none before. */
  ghost predicate Unclear(files: set<File>) {
    Early(files) == {} && (exists f :: f in files && f.mtime == 0) && exists f :: f in files && f.mtime > 0
  }

  ghost function Files(order: seq<File>): set<File> {
    set f | f in order
  }

  lemma {:induction false} ScanFindsOldest(order: seq<File>)
    requires order != []
    ensures Scan(order) in order
    ensures !Unclear(Files(order)) ==> Oldest(Files(order), Scan(order))
  {
    var n := |order| - 1;
    if n > 0 {
      var init, f := order[..n], order[n];
      ScanFindsOldest(init);
      assert order == init + [f];
      assert Files(order) == Files(init) + {f};
      if !Unclear(Files(order)) && Unclear(Files(init)) {
        var e :| e in Early(Files(order));
        assert e !in Early(Files(init)) && f.mtime < 0;
      } else if !Unclear(Files(order)) && Scan(init).mtime == 0 {
        assert f.mtime <= 0 by {
          assert Early(Files(init)) == {};
          assert f.mtime > 0 ==> Early(Files(order)) == {};
        }
      }
    }
  }

  lemma {:induction false} ListingExists(files: set<File>) returns (order: seq<File>)
    ensures Lists(order, files)
  {
    order := [];
    if files != {} {
      var f :| f in files;
      order := ListingExists(files - {f});
      order := order + [f];
    }
  }

  lemma ScanFromZeroOn(order: seq<File>, zero: File, last: File)
    requires zero.mtime == 0 && forall f :: f in order ==> f.mtime >= 0
    ensures Scan(order + [zero, last]) == last
  {
    var upTo := order + [zero];
    assert (order + [zero, last])[..|order| + 1] == upTo && upTo[..|order|] == order;
    if order != [] {
      ScanFindsOldest(order);
    }
    assert Scan(upTo) == zero;
  }

  /** A scan can miss a file with time 0 by listing it just before another. */
  lemma ScanCanTake(files: set<File>, zero: File, last: File) returns (order: seq<File>)
    requires zero in files && last in files && zero != last && zero.mtime == 0 && Early(files) == {}
    ensures Lists(order, files) && Scan(order) == last
  {
    var rest := ListingExists(files - {zero, last});
    forall f | f in rest
      ensures f.mtime >= 0
    {
      assert f !in Early(files);
    }
    ScanFromZeroOn(rest, zero, last);
    order := rest + [zero, last];
  }

  /** The scan finds an oldest file in every order of the listing, exactly if
      it is not Unclear. */
  lemma OldestInEveryOrderIff(files: set<File>)
    requires files != {}
    ensures (forall order :: Lists(order, files) ==> Oldest(files, Scan(order))) <==> !Unclear(files)
  {
    if Unclear(files) {
      var zero :| zero in files && zero.mtime == 0;
      var last :| last in files && last.mtime > 0;
      var order := ScanCanTake(files, zero, last);
      assert !Oldest(files, Scan(order));
    } else {
      forall order | Lists(order, files)
        ensures Oldest(files, Scan(order))
      {
        assert Files(order) == files;
        ScanFindsOldest(order);
      }
    }
  }

  lemma ScanMeans(files: set<File>, order: seq<File>)
    requires Lists(order, files)
    ensures files != {} && !Unclear(files) ==> Oldest(files, Scan(order))
    ensures files == {} ==> Scan(order) == File("", 0)
  {
    assert order != [] ==> order[0] in files;
    if files != {} {
      OldestInEveryOrderIff(files);
    }
  }

  // ---- many passes ---------------------------------------------------------

  /** The listings of successive passes, each removing what it found. */
  ghost predicate Passes(files: set<File>, orders: seq<seq<File>>) {
    orders == [] || (Lists(orders[0], files) && Passes(files - {Scan(orders[0])}, orders[1..]))
  }

  ghost function Left(files: set<File>, orders: seq<seq<File>>): set<File> {
    if orders == [] then files else Left(files - {Scan(orders[0])}, orders[1..])
  }

  ghost predicate NewestKept(files: set<File>, left: set<File>) {
    left <= files && forall f, g :: f in files - left && g in left ==> f.mtime <= g.mtime
  }

  lemma PassRemoves(files: set<File>, order: seq<File>)
    requires Lists(order, files)
    ensures files == {} ==> files - {Scan(order)} == {}
    ensures files != {} ==> Scan(order) in files && |files - {Scan(order)}| == |files| - 1
  {
    assert order != [] ==> order[0] in files;
    if files != {} {
      var f :| f in files;
      assert f in order;
      ScanFindsOldest(order);
    }
  }

  lemma {:induction false} LeftCount(files: set<File>, orders: seq<seq<File>>)
    requires Passes(files, orders)
    ensures Left(files, orders) <= files
    ensures |Left(files, orders)| == if |files| > |orders| then |files| - |orders| else 0
  {
    if orders != [] {
      PassRemoves(files, orders[0]);
      LeftCount(files - {Scan(orders[0])}, orders[1..]);
    }
  }

  /** `passes` removals that never have to choose in an Unclear directory, or
      leave nothing to compare with. */
  ghost predicate Sound(files: set<File>, passes: nat) {
    || passes >= |files| || passes <= |Early(files)|
    || (forall f :: f in files ==> f.mtime != 0) || forall f :: f in files ==> f.mtime <= 0
  }

  lemma {:induction false} SoundPassesKeepNewest(files: set<File>, orders: seq<seq<File>>)
    requires Passes(files, orders) && Sound(files, |orders|)
    ensures NewestKept(files, Left(files, orders))
  {
    LeftCount(files, orders);
    if 0 < |orders| < |files| {
      var f := Scan(orders[0]);
      PassRemoves(files, orders[0]);
      assert !Unclear(files);
      OldestInEveryOrderIff(files);
      var files' := files - {f};
      if |orders| <= |Early(files)| {
        var e :| e in Early(files);
        assert Early(files') == Early(files) - {f};
      }
      SoundPassesKeepNewest(files', orders[1..]);
      LeftCount(files', orders[1..]);
    }
  }

  /** Passes can go for the positive times first and keep a zero to the end. */
  lemma {:induction false} ZeroCanStay(files: set<File>, passes: nat) returns (orders: seq<seq<File>>, zero: File)
    requires passes < |files| && Early(files) == {} && exists f :: f in files && f.mtime == 0
    ensures |orders| == passes && Passes(files, orders)
    ensures zero in Left(files, orders) && zero.mtime == 0
  {
    orders := [];
    zero :| zero in files && zero.mtime == 0;
    if passes > 0 {
      var last := OtherFile(files, zero);
      var order := ScanCanTake(files, zero, last);
      assert Early(files - {last}) <= Early(files);
      var later;
      later, zero := ZeroCanStay(files - {last}, passes - 1);
      orders := [order] + later;
      assert orders[1..] == later;
    }
  }

  lemma OtherFile(files: set<File>, f: File) returns (g: File)
    requires f in files && |files| > 1
    ensures g in files && g != f
  {
    assert |files - {f}| == |files| - 1;
    g :| g in files - {f};
  }

  /** Passes that do have to choose can remove a newer file. */
  lemma {:induction false} NewerCanGo(files: set<File>, passes: nat) returns (orders: seq<seq<File>>)
    requires !Sound(files, passes)
    ensures |orders| == passes && Passes(files, orders) && !NewestKept(files, Left(files, orders))
  {
    var order;
    if Early(files) == {} {
      var zero :| zero in files && zero.mtime == 0;
      var last :| last in files && last.mtime > 0;
      order := ScanCanTake(files, zero, last);
      var files' := files - {last};
      assert Early(files') <= Early(files);
      var later, kept := ZeroCanStay(files', passes - 1);
      LeftCount(files', later);
      orders := [order] + later;
      assert orders[1..] == later;
    } else {
      order := ListingExists(files);
      PassRemoves(files, order);
      OldestInEveryOrderIff(files);
      var f := Scan(order);
      var e :| e in Early(files);
      var files' := files - {f};
      assert Early(files') == Early(files) - {f};
      var later := NewerCanGo(files', passes - 1);
      LeftCount(files', later);
      orders := [order] + later;
      assert orders[1..] == later;
    }
  }

  /** Whatever the orders of the listings, the newest files are kept, exactly
      if the number of passes is Sound for the directory. */
  lemma NewestKeptIff(files: set<File>, passes: nat)
    ensures (forall orders :: |orders| == passes && Passes(files, orders) ==> NewestKept(files, Left(files, orders)))
            <==> Sound(files, passes)
  {
    if Sound(files, passes) {
      forall orders | |orders| == passes && Passes(files, orders)
        ensures NewestKept(files, Left(files, orders))
      {
        SoundPassesKeepNewest(files, orders);
      }
    } else {
      var orders := NewerCanGo(files, passes);
    }
  }

  // ---- the directory -------------------------------------------------------

  /** The names of one log's files. */
  datatype Log = Log(logname: string, suffix: string)

  predicate IsLogFile(log: Log, name: string) {
    && (exists i :: 0 <= i <= |name| && log.suffix <= name[i..])
    && log.logname + "-" <= name
  }

  lemma {:induction false} BeginsIff(p: string, name: string)
    ensures p <= name <==> exists rest :: name == p + rest
  {
    if p <= name {
      assert name == p + name[|p|..];
    }
  }

  lemma {:induction false} InsideIff(p: string, name: string)
    ensures (exists i :: 0 <= i <= |name| && p <= name[i..]) <==> exists a, b :: name == a + p + b
  {
    if exists i :: 0 <= i <= |name| && p <= name[i..] {
      var i :| 0 <= i <= |name| && p <= name[i..];
      assert name == name[..i] + p + name[i + |p|..];
    }
    if exists a, b :: name == a + p + b {
      var a, b :| name == a + p + b;
      assert name[|a|..] == p + b;
    }
  }

  /** A log file's name is the log's name, a '-' and anything, and the suffix
      stands somewhere in it. */
  lemma {:induction false} LogFileIff(log: Log, name: string)
    ensures IsLogFile(log, name) <==>
              && (exists rest :: name == log.logname + "-" + rest)
              && exists a, b :: name == a + log.suffix + b
  {
    BeginsIff(log.logname + "-", name);
    InsideIff(log.suffix, name);
  }

  /** What the log itself names its archives. */
  lemma {:induction false} ArchivesAreLogFiles(log: Log, stamp: string)
    ensures IsLogFile(log, log.logname + "-" + stamp + log.suffix)
  {
    var name := log.logname + "-" + stamp + log.suffix;
    assert name == log.logname + "-" + (stamp + log.suffix);
    assert name == (log.logname + "-" + stamp) + log.suffix + "";
    LogFileIff(log, name);
  }

  ghost function LogFiles(log: Log, files: map<string, int>): set<File> {
    set name | name in files && IsLogFile(log, name) :: File(name, files[name])
  }

  class Directory {
    var files: map<string, int>

    constructor (files: map<string, int>)
      ensures this.files == files
    {
      this.files := files;
    }

    /** readdir to the end, in no order one can rely on. */
    method List() returns (names: seq<string>)
      ensures (forall n :: n in names <==> n in files) && forall i, j :: 0 <= i < j < |names| ==> names[i] != names[j]
    {
      names := [];
      var rest := files.Keys;
      while rest != {}
        invariant forall n :: n in files <==> n in names || n in rest
        invariant forall n :: n in names ==> n !in rest
        invariant forall i, j :: 0 <= i < j < |names| ==> names[i] != names[j]
      {
        var name :| name in rest;
        names := names + [name];
        rest := rest - {name};
      }
    }

    method Unlink(name: string)
      modifies this
      ensures files == old(files) - {name}
    {
      files := files - {name};
    }
  }

  /** The listing with _tlog_count_log_callback. */
  method CountLogs(dir: Directory, log: Log) returns (n: nat)
    ensures n == |LogFiles(log, dir.files)|
  {
    var names := dir.List();
    ghost var found: set<File> := {};
    n := 0;
    for i := 0 to |names|
      invariant forall f :: f in found <==> f.name in names[..i] && f in LogFiles(log, dir.files)
      invariant n == |found|
    {
      if IsLogFile(log, names[i]) {
        n := n + 1;
        found := found + {File(names[i], dir.files[names[i]])};
      }
    }
    assert found == LogFiles(log, dir.files);
  }

  /** The log's files among the names, in their order. */
  ghost function LogOrder(log: Log, names: seq<string>, files: map<string, int>): seq<File> {
    if names == [] then []
    else
      var init, name := LogOrder(log, names[..|names| - 1], files), names[|names| - 1];
      if name in files && IsLogFile(log, name) then init + [File(name, files[name])] else init
  }

  lemma {:induction false} LogOrderLists(log: Log, names: seq<string>, files: map<string, int>)
    requires forall i, j :: 0 <= i < j < |names| ==> names[i] != names[j]
    ensures Lists(LogOrder(log, names, files), set f | f in LogFiles(log, files) && f.name in names)
  {
    if names != [] {
      var init := names[..|names| - 1];
      var name := names[|names| - 1];
      assert names == init + [name];
      LogOrderLists(log, init, files);
      assert forall f :: f in LogOrder(log, init, files) ==> f.name in init && f.name != name;
    }
  }

  /** The listing with _tlog_get_oldest_callback. */
  method GetOldest(dir: Directory, log: Log) returns (oldest: File, ghost order: seq<File>)
    ensures Lists(order, LogFiles(log, dir.files)) && oldest == Scan(order)
    ensures LogFiles(log, dir.files) != {} && !Unclear(LogFiles(log, dir.files)) ==>
              Oldest(LogFiles(log, dir.files), oldest)
    ensures LogFiles(log, dir.files) == {} ==> oldest == File("", 0)
  {
    var names := dir.List();
    oldest := File("", 0);
    for i := 0 to |names|
      invariant oldest == Scan(LogOrder(log, names[..i], dir.files))
    {
      assert names[..i + 1][..i] == names[..i];
      if IsLogFile(log, names[i]) {
        var mtime := dir.files[names[i]];
        ghost var before, f := LogOrder(log, names[..i], dir.files), File(names[i], mtime);
        assert (before + [f])[..|before|] == before;
        assert LogOrder(log, names[..i + 1], dir.files) == before + [f];
        if oldest.mtime == 0 || oldest.mtime > mtime {
          oldest := File(names[i], mtime);
        }
      }
    }
    order := LogOrder(log, names, dir.files);
    assert names[..|names|] == names;
    LogOrderLists(log, names, dir.files);
    assert (set f | f in LogFiles(log, dir.files) && f.name in names) == LogFiles(log, dir.files);
    ScanMeans(LogFiles(log, dir.files), order);
  }

  /** _tlog_remove_oldestlog, where stat and unlink succeed. */
  method RemoveOldest(dir: Directory, log: Log) returns (ghost order: seq<File>)
    requires "" !in dir.files
    modifies dir
    ensures "" !in dir.files && Lists(order, LogFiles(log, old(dir.files)))
    ensures LogFiles(log, dir.files) == LogFiles(log, old(dir.files)) - {Scan(order)}
    ensures forall n :: n in old(dir.files) && !IsLogFile(log, n) ==>
              n in dir.files && dir.files[n] == old(dir.files[n])
    ensures dir.files.Keys <= old(dir.files).Keys
  {
    var oldest;
    oldest, order := GetOldest(dir, log);
    if order != [] {
      ScanFindsOldest(order);
    }
    dir.Unlink(oldest.name);
  }

  /** _tlog_remove_oldlog: of the log's files, as many as there may be are left,
      and no other file is touched. Unless a pass has to choose in an Unclear
      directory, those left are the newest. */
  method RemoveOldLogs(dir: Directory, log: Log, logcount: nat) returns (ghost orders: seq<seq<File>>)
    requires "" !in dir.files
    modifies dir
    ensures forall n :: n in old(dir.files) && !(log.logname + "-" <= n) ==>
              n in dir.files && dir.files[n] == old(dir.files[n])
    ensures forall n :: n in old(dir.files) && (forall i :: 0 <= i <= |n| ==> !(log.suffix <= n[i..])) ==>
              n in dir.files && dir.files[n] == old(dir.files[n])
    ensures forall n :: n in old(dir.files) && !IsLogFile(log, n) ==>
              n in dir.files && dir.files[n] == old(dir.files[n])
    ensures dir.files.Keys <= old(dir.files).Keys
    ensures var was, now := LogFiles(log, old(dir.files)), LogFiles(log, dir.files);
            && |now| == (if |was| < logcount then |was| else logcount)
            && Passes(was, orders) && now == Left(was, orders) <= was
            && (Sound(was, |orders|) ==> NewestKept(was, now))
    ensures |orders| == |LogFiles(log, old(dir.files))| - |LogFiles(log, dir.files)|
  {
    ghost var was := LogFiles(log, dir.files);
    var count := CountLogs(dir, log);
    orders := [];
    var i := 0;
    while i < count - logcount
      invariant |orders| == i && (i <= count - logcount || i == 0)
      invariant "" !in dir.files && dir.files.Keys <= old(dir.files).Keys
      invariant Passes(was, orders) && LogFiles(log, dir.files) == Left(was, orders)
      invariant forall n :: n in old(dir.files) && !IsLogFile(log, n) ==>
          n in dir.files && dir.files[n] == old(dir.files[n])
    {
      var order := RemoveOldest(dir, log);
      OnePassMore(was, orders, order);
      orders := orders + [order];
      i := i + 1;
    }
    LeftCount(was, orders);
    if Sound(was, |orders|) {
      SoundPassesKeepNewest(was, orders);
    }
  }

  lemma {:induction false} OnePassMore(files: set<File>, orders: seq<seq<File>>, order: seq<File>)
    requires Passes(files, orders) && Lists(order, Left(files, orders))
    ensures Passes(files, orders + [order]) && Left(files, orders + [order]) == Left(files, orders) - {Scan(order)}
  {
    var all := orders + [order];
    if orders == [] {
      assert all[1..] == [];
    } else {
      assert all[1..] == orders[1..] + [order];
      OnePassMore(files - {Scan(orders[0])}, orders[1..], order);
    }
  }
}
