/**
 Commit documents with pieces missing. An append that fails leaves the first
 bytes of its piece in the buffer, or none, and does not count them; the request
 then carries as many bytes as were counted. This tells exactly which of these
 texts the reference reader takes for a document, and what it reads.
 */
module CutDoc {
  import opened Common
  import opened CommitDoc

  /** The pieces appended after the opening tag. */
  function Pieces(es: seq<Entry>): (ps: seq<string>)
    ensures |ps| == |es| + 1
  {
    if es == [] then [CLOSE] else [EntryText(es[0])] + Pieces(es[1..])
  }

  /** The first ds[i] bytes of the i-th piece get into the buffer. */
  ghost predicate Cuts(ps: seq<string>, ds: seq<nat>) {
    |ds| == |ps| && forall i :: 0 <= i < |ps| ==> ds[i] <= |ps[i]|
  }

  function Counted(ps: seq<string>, ds: seq<nat>): nat
    requires |ds| == |ps|
  {
    if ps == [] then 0 else (if ds[0] == |ps[0]| then |ps[0]| else 0) + Counted(ps[1..], ds[1..])
  }

  ghost function Put(ps: seq<string>, ds: seq<nat>): (text: string)
    requires Cuts(ps, ds)
    ensures Counted(ps, ds) <= |text|
  {
    if ps == [] then "" else ps[0][..ds[0]] + Put(ps[1..], ds[1..])
  }

  /** What the request carries. */
  ghost function Handed(ps: seq<string>, ds: seq<nat>): string
    requires Cuts(ps, ds)
  {
    Put(ps, ds)[..Counted(ps, ds)]
  }

  /** The entries that got in. */
  function Kept(es: seq<Entry>, ds: seq<nat>): seq<Entry>
    requires |ds| >= |es|
  {
    if es == [] then []
    else (if ds[0] == |EntryText(es[0])| then [es[0]] else []) + Kept(es[1..], ds[1..])
  }

  /** Every entry got in whole or not at all, and the closing tag whole. */
  ghost predicate Unbroken(es: seq<Entry>, ds: seq<nat>) {
    if es == [] then |ds| == 1 && ds[0] == |CLOSE|
    else |ds| > 0 && (ds[0] == 0 || ds[0] == |EntryText(es[0])|) && Unbroken(es[1..], ds[1..])
  }

  lemma {:induction false} HandedStep(ps: seq<string>, ds: seq<nat>)
    requires ps != [] && Cuts(ps, ds) && ps[0] != ""
    ensures ds[0] == |ps[0]| ==> Handed(ps, ds) == ps[0] + Handed(ps[1..], ds[1..])
    ensures ds[0] == 0 ==> Handed(ps, ds) == Handed(ps[1..], ds[1..])
    ensures 0 < ds[0] < |ps[0]| ==>
              var c := Counted(ps[1..], ds[1..]);
              Handed(ps, ds) == if c <= ds[0] then ps[0][..c] else ps[0][..ds[0]] + Put(ps[1..], ds[1..])[..c - ds[0]]
  {
    var rest, c := Put(ps[1..], ds[1..]), Counted(ps[1..], ds[1..]);
    if ds[0] == |ps[0]| {
      assert (ps[0] + rest)[..|ps[0]| + c] == ps[0] + rest[..c];
      assert ps[0][..ds[0]] == ps[0];
    } else if ds[0] == 0 {
      assert "" + rest == rest;
    } else if c <= ds[0] {
      assert (ps[0][..ds[0]] + rest)[..c] == ps[0][..c];
    } else {
      assert (ps[0][..ds[0]] + rest)[..c] == ps[0][..ds[0]] + rest[..c - ds[0]];
    }
  }

  // ---- a piece broken off is no entry --------------------------------------

  /** A tag that a piece broken off may still need does not begin here. */
  predicate StartsFresh(s: string) {
    s == "" || (s[0] == '<' && !("</P" <= s) && !("</E" <= s) && !("<E" <= s) && !("<PartN" <= s))
  }

  lemma FreshPrefix(s: string, n: nat)
    requires StartsFresh(s) && n <= |s|
    ensures StartsFresh(s[..n])
  {
  }

  lemma {:induction false} FreshPiece(p: string, d: nat, rest: string)
    requires (PART <= p || p == CLOSE) && 0 < d <= |p| && (rest != "" ==> rest[0] == '<')
    ensures StartsFresh(p[..d] + rest)
  {
    var s := p[..d] + rest;
    assert s[0] == p[0] == '<';
    if d == 1 {
      assert |s| > 1 ==> s[1] == '<';
    } else {
      assert s[1] == p[1];
      assert PART[1] == 'P' && CLOSE[1] == '/' && CLOSE[2] == 'C';
      if p == CLOSE {
        assert |s| > 2 ==> s[2] == (if d == 2 then '<' else 'C');
      } else if d <= 5 {
        assert |s| > d ==> s[d] == '<';
      } else {
        assert s[5] == p[5] == PART[5] == '>';
      }
    }
  }

  lemma {:induction false} PutStartsFresh(es: seq<Entry>, ds: seq<nat>)
    requires Cuts(Pieces(es), ds)
    ensures StartsFresh(Put(Pieces(es), ds))
  {
    var ps := Pieces(es);
    var rest := Put(ps[1..], ds[1..]);
    if es != [] {
      PutStartsFresh(es[1..], ds[1..]);
    }
    if ds[0] > 0 {
      FreshPiece(ps[0], ds[0], rest);
    } else {
      assert ps[0][..0] + rest == rest;
    }
  }

  lemma TagRest(tag: string, d: nat, rest: string)
    requires d <= |tag|
    ensures tag <= tag[..d] + rest ==> tag[d..] <= rest
  {
    var s := tag[..d] + rest;
    if tag <= s {
      assert forall i {:trigger rest[i]} :: 0 <= i < |tag| - d ==> rest[i] == s[d + i] == tag[d + i];
    }
  }

  /** Where another tag begins inside of a tag. */
  lemma {:induction false} InnerTag(tag: string, d: nat)
    requires tag == PART || tag == ETAG || tag == END
    requires 0 < d < |tag| && tag[d] == '<'
    ensures "<PartN" <= tag[d..] || "<E" <= tag[d..] || "</P" <= tag[d..]
  {
    if tag == PART {
      assert d == 6 && PART[6..] == "<PartNumber>";
    } else if tag == ETAG {
      assert d == 13 && ETAG[13..] == "<ETag>";
    } else {
      assert d == 7 && END[7..] == "</Part>";
    }
  }

  lemma PrefixOfPrefix(a: string, b: string, c: string)
    ensures a <= b <= c ==> a <= c
  {
  }

  /** A tag broken off inside is not completed by what follows. */
  lemma CutTag(tag: string, d: nat, rest: string)
    requires tag == PART || tag == ETAG || tag == END
    requires 0 < d < |tag| && StartsFresh(rest)
    ensures Strip(tag[..d] + rest, tag) == None
  {
    var t := tag[d..];
    TagRest(tag, d, rest);
    if tag[d] == '<' {
      InnerTag(tag, d);
    }
    assert t <= rest ==> rest[0] == t[0] == tag[d];
    PrefixOfPrefix("<PartN", t, rest);
    PrefixOfPrefix("<E", t, rest);
    PrefixOfPrefix("</P", t, rest);
  }

  lemma FreshIsNoTag(s: string)
    requires StartsFresh(s)
    ensures Strip(s, ETAG) == None && Strip(s, END) == None
  {
    assert "</P" <= ETAG && "</E" <= END;
  }

  /** In the number, or right before or behind it. */
  lemma CutNumber(e: Entry, d: nat, rest: string)
    requires d <= |Decimal(e.number)| && StartsFresh(rest)
    ensures ReadEntry(PART + (Decimal(e.number)[..d] + rest)) == None
  {
    var digits := Decimal(e.number)[..d];
    ReadDecimal(e.number);
    StripTag(PART, digits + rest);
    UpToTagEnds(digits, rest);
    FreshIsNoTag(rest);
  }

  lemma CutEtagTag(e: Entry, d: nat, rest: string)
    requires 0 < d < |ETAG| && StartsFresh(rest)
    ensures ReadEntry(PART + (Decimal(e.number) + (ETAG[..d] + rest))) == None
  {
    var s1 := Decimal(e.number) + (ETAG[..d] + rest);
    ReadDecimal(e.number);
    StripTag(PART, s1);
    UpToTagEnds(Decimal(e.number), ETAG[..d] + rest);
    CutTag(ETAG, d, rest);
  }

  /** In the ETag, or right before or behind it. */
  lemma CutEtag(e: Entry, d: nat, rest: string)
    requires d <= |e.etag| && '<' !in e.etag && StartsFresh(rest)
    ensures ReadEntry(PART + (Decimal(e.number) + (ETAG + (e.etag[..d] + rest)))) == None
  {
    var s2 := e.etag[..d] + rest;
    StripTag(PART, Decimal(e.number) + (ETAG + s2));
    ReadDecimal(e.number);
    UpToTagEnds(Decimal(e.number), ETAG + s2);
    StripTag(ETAG, s2);
    UpToTagEnds(e.etag[..d], rest);
    FreshIsNoTag(rest);
  }

  lemma CutEnd(e: Entry, d: nat, rest: string)
    requires 0 < d < |END| && '<' !in e.etag && StartsFresh(rest)
    ensures ReadEntry(PART + (Decimal(e.number) + (ETAG + (e.etag + (END[..d] + rest))))) == None
  {
    var s3 := END[..d] + rest;
    var s2 := e.etag + s3;
    StripTag(PART, Decimal(e.number) + (ETAG + s2));
    ReadDecimal(e.number);
    UpToTagEnds(Decimal(e.number), ETAG + s2);
    StripTag(ETAG, s2);
    UpToTagEnds(e.etag, s3);
    CutTag(END, d, rest);
  }

  lemma CutJoin(a: string, b: string, d: nat, rest: string)
    requires |a| <= d <= |a| + |b|
    ensures (a + b)[..d] + rest == a + (b[..d - |a|] + rest)
  {
  }

  lemma CutBehindTag(e: Entry, d: nat, rest: string)
    requires '<' !in e.etag && d < |e.etag + END| && StartsFresh(rest)
    ensures ReadEntry(PART + (Decimal(e.number) + (ETAG + ((e.etag + END)[..d] + rest)))) == None
  {
    if d <= |e.etag| {
      assert (e.etag + END)[..d] == e.etag[..d];
      CutEtag(e, d, rest);
    } else {
      CutJoin(e.etag, END, d, rest);
      CutEnd(e, d - |e.etag|, rest);
    }
  }

  lemma CutBehindNumber(e: Entry, d: nat, rest: string)
    requires '<' !in e.etag && 0 < d < |ETAG + (e.etag + END)| && StartsFresh(rest)
    ensures ReadEntry(PART + (Decimal(e.number) + ((ETAG + (e.etag + END))[..d] + rest))) == None
  {
    if d < |ETAG| {
      assert (ETAG + (e.etag + END))[..d] == ETAG[..d];
      CutEtagTag(e, d, rest);
    } else {
      CutJoin(ETAG, e.etag + END, d, rest);
      CutBehindTag(e, d - |ETAG|, rest);
    }
  }

  lemma CutPart(d: nat, rest: string)
    requires 0 < d < |PART| && StartsFresh(rest)
    ensures ReadEntry(PART[..d] + rest) == None
  {
    CutTag(PART, d, rest);
  }

  /** Where an entry is broken off. */
  lemma ShapeInTag(e: Entry, d: nat)
    requires d < |PART|
    ensures d < |EntryText(e)| && EntryText(e)[..d] == PART[..d]
  {
  }

  lemma ShapeInNumber(e: Entry, d: nat, rest: string)
    requires d <= |Decimal(e.number)|
    ensures |PART| + d <= |EntryText(e)|
    ensures EntryText(e)[..|PART| + d] + rest == PART + (Decimal(e.number)[..d] + rest)
  {
    var number := Decimal(e.number);
    var t2 := ETAG + (e.etag + END);
    CutJoin(PART, number + t2, |PART| + d, rest);
    assert (number + t2)[..d] == number[..d];
  }

  lemma ShapeBehind(e: Entry, d: nat, rest: string)
    requires |PART| + |Decimal(e.number)| < d <= |EntryText(e)|
    ensures d - |PART| - |Decimal(e.number)| <= |ETAG + (e.etag + END)|
    ensures EntryText(e)[..d] + rest ==
            PART + (Decimal(e.number) + ((ETAG + (e.etag + END))[..d - |PART| - |Decimal(e.number)|] + rest))
  {
    var number := Decimal(e.number);
    var t2 := ETAG + (e.etag + END);
    CutJoin(PART, number + t2, d, rest);
    CutJoin(number, t2, d - |PART|, rest);
  }

  lemma SameText(s: string, t: string)
    requires s == t && ReadEntry(t) == None
    ensures ReadEntry(s) == None
  {
  }

  lemma BrokenInTag(e: Entry, d: nat, rest: string)
    requires 0 < d < |PART| && StartsFresh(rest)
    ensures d < |EntryText(e)| && ReadEntry(EntryText(e)[..d] + rest) == None
  {
    ShapeInTag(e, d);
    CutPart(d, rest);
  }

  lemma {:induction false} BrokenInNumber(e: Entry, d: nat, rest: string)
    requires d <= |Decimal(e.number)| && StartsFresh(rest)
    ensures |PART| + d <= |EntryText(e)| && ReadEntry(EntryText(e)[..|PART| + d] + rest) == None
  {
    ShapeInNumber(e, d, rest);
    CutNumber(e, d, rest);
  }

  lemma {:induction false} BrokenBehind(e: Entry, d: nat, rest: string)
    requires '<' !in e.etag && |PART| + |Decimal(e.number)| < d < |EntryText(e)| && StartsFresh(rest)
    ensures ReadEntry(EntryText(e)[..d] + rest) == None
  {
    var d2 := d - |PART| - |Decimal(e.number)|;
    ShapeBehind(e, d, rest);
    CutBehindNumber(e, d2, rest);
    SameText(EntryText(e)[..d] + rest, PART + (Decimal(e.number) + ((ETAG + (e.etag + END))[..d2] + rest)));
  }

  lemma {:induction false} BrokenEntry(e: Entry, d: nat, rest: string)
    requires '<' !in e.etag && 0 < d < |EntryText(e)| && StartsFresh(rest)
    ensures ReadEntry(EntryText(e)[..d] + rest) == None
  {
    if d < |PART| {
      BrokenInTag(e, d, rest);
    } else if d <= |PART| + |Decimal(e.number)| {
      BrokenInNumber(e, d - |PART|, rest);
    } else {
      BrokenBehind(e, d, rest);
    }
  }

  lemma NoEntryReadsNone(s: string)
    requires ReadEntry(s) == None && s != CLOSE
    ensures ReadEntries(s) == None
  {
  }

  lemma BrokenReadsNone(e: Entry, d: nat, rest: string)
    requires '<' !in e.etag && d < |EntryText(e)| && StartsFresh(rest) && (d == 0 ==> rest == "")
    ensures ReadEntries(EntryText(e)[..d] + rest) == None
  {
    var s := EntryText(e)[..d] + rest;
    if d == 0 {
      assert s == "";
    } else {
      BrokenEntry(e, d, rest);
      assert d > 1 ==> s[1] == EntryText(e)[1] == PART[1] == 'P';
      assert d == 1 && |s| > 1 ==> s[1] == '<';
      assert CLOSE[1] == '/';
    }
    NoEntryReadsNone(s);
  }

  // ---- the whole text ------------------------------------------------------

  lemma BrokenText(e: Entry, d: nat, put: string, c: nat, s: string)
    requires '<' !in e.etag && 0 < d < |EntryText(e)| && StartsFresh(put) && c <= |put|
    requires s == if c <= d then EntryText(e)[..c] else EntryText(e)[..d] + put[..c - d]
    ensures ReadEntries(s) == None
  {
    if c <= d {
      BrokenReadsNone(e, c, "");
      assert s + "" == s;
    } else {
      FreshPrefix(put, c - d);
      BrokenReadsNone(e, d, put[..c - d]);
    }
  }

  lemma {:induction false} HandedBroken(es: seq<Entry>, ds: seq<nat>)
    requires es != [] && CleanEtags(es) && Cuts(Pieces(es), ds) && 0 < ds[0] < |EntryText(es[0])|
    ensures ReadEntries(Handed(Pieces(es), ds)) == None
  {
    var ps := Pieces(es);
    HandedStep(ps, ds);
    PutStartsFresh(es[1..], ds[1..]);
    assert ps[1..] == Pieces(es[1..]);
    BrokenText(es[0], ds[0], Put(ps[1..], ds[1..]), Counted(ps[1..], ds[1..]), Handed(ps, ds));
  }

  lemma HandedNothing(ds: seq<nat>)
    requires Cuts(Pieces([]), ds)
    ensures Handed(Pieces([]), ds) == if ds[0] == |CLOSE| then CLOSE else ""
  {
    HandedStep(Pieces([]), ds);
    assert CLOSE + "" == CLOSE;
  }

  /** The reader gets the entries that are in the text if every append either
      got its piece in whole or nothing of it, and the closing tag in; otherwise
      nothing. */
  lemma {:induction false} ReadHanded(es: seq<Entry>, ds: seq<nat>)
    requires CleanEtags(es) && Cuts(Pieces(es), ds)
    ensures ReadEntries(Handed(Pieces(es), ds)) == if Unbroken(es, ds) then Some(Kept(es, ds)) else None
  {
    var ps := Pieces(es);
    if es == [] {
      HandedNothing(ds);
      NoEntryReadsNone("");
    } else if 0 < ds[0] < |ps[0]| {
      HandedBroken(es, ds);
    } else {
      assert ps[1..] == Pieces(es[1..]);
      ReadHanded(es[1..], ds[1..]);
      HandedStep(ps, ds);
      KeptStep(es, ds);
      if ds[0] > 0 {
        ReadOneMore(es[0], Handed(ps[1..], ds[1..]));
      }
    }
  }

  lemma KeptStep(es: seq<Entry>, ds: seq<nat>)
    requires es != [] && |ds| >= |es|
    ensures Kept(es, ds) == if ds[0] == |EntryText(es[0])| then [es[0]] + Kept(es[1..], ds[1..])
              else Kept(es[1..], ds[1..])
  {
    assert [] + Kept(es[1..], ds[1..]) == Kept(es[1..], ds[1..]);
  }

  // ---- with the opening tag ------------------------------------------------

  function AllPieces(es: seq<Entry>): (ps: seq<string>)
    ensures |ps| == |es| + 2 && ps[0] == OPEN && ps[1..] == Pieces(es)
  {
    [OPEN] + Pieces(es)
  }

  /** No "<C" begins in the text. */
  predicate NoOpen(s: string) {
    forall i :: 0 <= i < |s| - 1 && s[i] == '<' ==> s[i + 1] != 'C'
  }

  lemma NoOpenJoin(s: string, t: string)
    requires NoOpen(s) && NoOpen(t) && (t != "" ==> t[0] != 'C')
    ensures NoOpen(s + t)
  {
  }

  lemma NoOpenSlice(s: string, i: nat, j: nat)
    requires NoOpen(s) && i <= j <= |s|
    ensures NoOpen(s[i..j])
  {
  }

  lemma EntryNoOpen(e: Entry)
    requires '<' !in e.etag
    ensures NoOpen(EntryText(e))
  {
    var number := Decimal(e.number);
    ReadDecimal(e.number);
    assert NoOpen(number) && NoOpen(e.etag) && NoOpen(PART) && NoOpen(ETAG) && NoOpen(END);
    NoOpenJoin(e.etag, END);
    TextBehindTag(e);
    NoOpenJoin(number, ETAG + (e.etag + END));
    NoOpenJoin(PART, number + (ETAG + (e.etag + END)));
  }

  /** After a tag comes '>', so what follows may begin as it likes. */
  lemma TextBehindTag(e: Entry)
    requires '<' !in e.etag && NoOpen(e.etag + END)
    ensures NoOpen(ETAG + (e.etag + END)) && Decimal(e.number)[0] != 'C'
  {
    assert ETAG[|ETAG| - 1] == '>';
    var n := e.number;
    assert Digit(n % 10) != 'C';
    DecimalStarts(n);
  }

  lemma {:induction false} DecimalStarts(n: nat)
    ensures Decimal(n) != "" && Decimal(n)[0] != 'C'
  {
    if n >= 10 {
      DecimalStarts(n / 10);
    }
  }

  lemma {:induction false} PutNoOpen(es: seq<Entry>, ds: seq<nat>)
    requires CleanEtags(es) && Cuts(Pieces(es), ds)
    ensures NoOpen(Put(Pieces(es), ds))
  {
    var ps := Pieces(es);
    var rest := Put(ps[1..], ds[1..]);
    if es != [] {
      PutNoOpen(es[1..], ds[1..]);
      PutStartsFresh(es[1..], ds[1..]);
      EntryNoOpen(es[0]);
    } else {
      assert CLOSE[1] == '/';
      assert NoOpen(CLOSE);
    }
    NoOpenSlice(ps[0], 0, ds[0]);
    NoOpenJoin(ps[0][..ds[0]], rest);
  }

  lemma OpenHasNoTagInside(i: nat, j: nat)
    requires 0 < i <= j <= |OPEN|
    ensures NoOpen(OPEN[i..j])
  {
    assert forall k :: 0 < k < |OPEN| ==> OPEN[k] != '<';
    assert forall k :: 0 <= k < j - i ==> OPEN[i..j][k] == OPEN[i + k];
  }

  /** Nothing behind the first byte looks like the start of a document. */
  lemma {:induction false} OpenOnlyFirst(es: seq<Entry>, ds: seq<nat>, k: nat)
    requires CleanEtags(es) && Cuts(AllPieces(es), ds) && 0 < k <= |Put(AllPieces(es), ds)|
    ensures NoOpen(Put(AllPieces(es), ds)[k..])
  {
    PutNoOpen(es, ds[1..]);
    PutStartsFresh(es, ds[1..]);
    NoOpenBehindTag(ds[0], Put(Pieces(es), ds[1..]), k);
  }

  lemma NoOpenBehindTag(d: nat, rest: string, k: nat)
    requires d <= |OPEN| && NoOpen(rest) && StartsFresh(rest) && 0 < k <= d + |rest|
    ensures NoOpen((OPEN[..d] + rest)[k..])
  {
    if k <= d {
      OpenHasNoTagInside(k, d);
      NoOpenJoin(OPEN[k..d], rest);
      assert (OPEN[..d] + rest)[k..] == OPEN[k..d] + rest;
    } else {
      NoOpenSlice(rest, k - d, |rest|);
      assert (OPEN[..d] + rest)[k..] == rest[k - d..];
    }
  }

  lemma NoOpenReadsNone(s: string)
    requires NoOpen(s)
    ensures Read(s) == None
  {
    assert OPEN[0] == '<' && OPEN[1] == 'C';
  }

  /** What a second attempt sends after a first one stopped within the text is
      never taken for a document. */
  lemma SuffixIsNoDocument(es: seq<Entry>, ds: seq<nat>, k: nat)
    requires CleanEtags(es) && Cuts(AllPieces(es), ds) && 0 < k <= |Handed(AllPieces(es), ds)|
    ensures Read(Handed(AllPieces(es), ds)[k..]) == None
  {
    var put, c := Put(AllPieces(es), ds), Counted(AllPieces(es), ds);
    OpenOnlyFirst(es, ds, k);
    NoOpenSlice(put[k..], 0, c - k);
    assert put[..c][k..] == put[k..][..c - k];
    NoOpenReadsNone(put[..c][k..]);
  }

  lemma NoOpeningTag(es: seq<Entry>, ds: seq<nat>)
    requires CleanEtags(es) && Cuts(AllPieces(es), ds) && ds[0] < |OPEN|
    ensures Read(Handed(AllPieces(es), ds)) == None
  {
    var put, c, rest := Put(AllPieces(es), ds), Counted(AllPieces(es), ds), Put(Pieces(es), ds[1..]);
    PutStartsFresh(es, ds[1..]);
    if ds[0] == 0 {
      PutNoOpen(es, ds[1..]);
      assert put == rest;
      NoOpenSlice(rest, 0, c);
      NoOpenReadsNone(rest[..c]);
    } else {
      var s := put[..c];
      assert |s| > ds[0] ==> s[ds[0]] == rest[0] == '<';
      assert forall i :: 0 < i < |OPEN| ==> OPEN[i] != '<';
      assert !(OPEN <= s);
    }
  }

  /** The text is read as a document exactly if the opening and the closing tag
      are in it, and every other append got its piece in whole or nothing of
      it; and then as the document of the entries that got in. */
  lemma ReadText(es: seq<Entry>, ds: seq<nat>)
    requires CleanEtags(es) && Cuts(AllPieces(es), ds)
    ensures Read(Handed(AllPieces(es), ds)) ==
            if ds[0] == |OPEN| && Unbroken(es, ds[1..]) then Some(Kept(es, ds[1..])) else None
  {
    if ds[0] < |OPEN| {
      NoOpeningTag(es, ds);
    } else {
      HandedStep(AllPieces(es), ds);
      StripTag(OPEN, Handed(Pieces(es), ds[1..]));
      ReadHanded(es, ds[1..]);
    }
  }

  lemma {:induction false} WholePieces(es: seq<Entry>, ds: seq<nat>)
    requires Cuts(Pieces(es), ds) && forall i :: 0 <= i < |ds| ==> ds[i] == |Pieces(es)[i]|
    ensures Handed(Pieces(es), ds) == EntriesText(es) + CLOSE
  {
    var ps := Pieces(es);
    if es == [] {
      HandedNothing(ds);
      assert "" + CLOSE == CLOSE;
    } else {
      assert ps[1..] == Pieces(es[1..]);
      WholePieces(es[1..], ds[1..]);
      HandedStep(ps, ds);
      Join(EntryText(es[0]), EntriesText(es[1..]), CLOSE);
    }
  }

  /** With every piece in whole, the text is the document. */
  lemma WholeText(es: seq<Entry>, ds: seq<nat>)
    requires Cuts(AllPieces(es), ds) && forall i :: 0 <= i < |ds| ==> ds[i] == |AllPieces(es)[i]|
    ensures Handed(AllPieces(es), ds) == Document(es)
  {
    var ps := AllPieces(es);
    assert forall i :: 0 <= i < |ps| - 1 ==> ds[1..][i] == ds[i + 1] && Pieces(es)[i] == ps[i + 1];
    WholePieces(es, ds[1..]);
    HandedStep(ps, ds);
  }
}
