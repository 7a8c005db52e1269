/**
 The document that commits a multipart upload (src/lhsmtool_s3.c), and a
 reference reader for it on the server's side.
 */
module CommitDoc {
  import opened Common

  datatype Entry = Entry(number: nat, etag: string)

  const OPEN := "<CompleteMultipartUpload>"
  const CLOSE := "</CompleteMultipartUpload>"
  const PART := "<Part><PartNumber>"
  const ETAG := "</PartNumber><ETag>"
  const END := "</ETag></Part>"

  /** printf's %d for a number that is not negative. */
  function Decimal(n: nat): string {
    (if n < 10 then "" else Decimal(n / 10)) + [Digit(n % 10)]
  }

  function Digit(d: nat): char
    requires d < 10
  {
    '0' + d as char
  }

  function EntryText(e: Entry): string {
    PART + (Decimal(e.number) + (ETAG + (e.etag + END)))
  }

  function EntriesText(es: seq<Entry>): string {
    if es == [] then "" else EntryText(es[0]) + EntriesText(es[1..])
  }

  function Document(es: seq<Entry>): string {
    OPEN + (EntriesText(es) + CLOSE)
  }

  lemma Join(a: string, b: string, c: string)
    ensures a + b + c == a + (b + c)
  {
  }

  lemma {:induction false} EntriesSnoc(es: seq<Entry>, e: Entry)
    ensures EntriesText(es + [e]) == EntriesText(es) + EntryText(e)
  {
    if es == [] {
      assert es + [e] == [e] && EntriesText([e][1..]) == "";
    } else {
      assert (es + [e])[1..] == es[1..] + [e];
      EntriesSnoc(es[1..], e);
      Join(EntryText(es[0]), EntriesText(es[1..]), EntryText(e));
    }
  }

  /** The tags, letter by letter. */
  lemma TagLetters()
    ensures OPEN == "<CompleteMultipartUpload>" && CLOSE == "</CompleteMultipartUpload>"
    ensures PART == "<Part><PartNumber>" && ETAG == "</PartNumber><ETag>" && END == "</ETag></Part>"
  {
  }

  /** How they stand in a document, shown on one with the number 12. */
  lemma {:induction false} DocumentShape(etag: string)
    ensures Document([Entry(12, etag)]) == OPEN + ((PART + ("12" + (ETAG + (etag + END)))) + CLOSE)
  {
    assert Decimal(12) == Decimal(1) + ['2'] == "12";
    var e := EntryText(Entry(12, etag));
    assert EntriesText([Entry(12, etag)]) == e + "" == e;
  }

  // ---- the reference reader ------------------------------------------------

  function Strip(s: string, tag: string): Option<string> {
    if tag <= s then Some(s[|tag|..]) else None
  }

  /** The text up to the next '<'. */
  function UpToTag(s: string): (t: string)
    ensures t <= s
  {
    if s == "" || s[0] == '<' then "" else [s[0]] + UpToTag(s[1..])
  }

  function DigitValue(c: char): Option<nat> {
    if '0' <= c <= '9' then Some(c as int - '0' as int) else None
  }

  function ReadNumber(s: string): Option<nat> {
    if s == "" then None
    else if |s| == 1 then DigitValue(s[0])
    else match (ReadNumber(s[..|s| - 1]), DigitValue(s[|s| - 1]))
         case (Some(n), Some(d)) => Some(n * 10 + d)
         case _ => None
  }

  function ReadEntry(s: string): (r: Option<(Entry, string)>)
    ensures r.Some? ==> |r.value.1| < |s|
  {
    match Strip(s, PART)
    case None => None
    case Some(s1) =>
      var digits := UpToTag(s1);
      match (ReadNumber(digits), Strip(s1[|digits|..], ETAG))
      case (Some(n), Some(s2)) =>
        var etag := UpToTag(s2);
        (match Strip(s2[|etag|..], END)
         case None => None
         case Some(rest) => Some((Entry(n, etag), rest)))
      case _ => None
  }

  function ReadEntries(s: string): Option<seq<Entry>>
    decreases |s|
  {
    if s == CLOSE then Some([])
    else match ReadEntry(s)
         case None => None
         case Some((e, rest)) =>
           match ReadEntries(rest)
           case None => None
           case Some(es) => Some([e] + es)
  }

  function Read(s: string): Option<seq<Entry>> {
    match Strip(s, OPEN)
    case None => None
    case Some(rest) => ReadEntries(rest)
  }

  // ---- reading gives back what was written ---------------------------------

  lemma StripTag(tag: string, rest: string)
    ensures Strip(tag + rest, tag) == Some(rest)
  {
  }

  lemma {:induction false} UpToTagEnds(t: string, rest: string)
    requires '<' !in t && (rest != "" ==> rest[0] == '<')
    ensures UpToTag(t + rest) == t && (t + rest)[|t|..] == rest
  {
    if t == "" {
      assert t + rest == rest;
    } else {
      assert (t + rest)[1..] == t[1..] + rest;
      UpToTagEnds(t[1..], rest);
    }
  }

  lemma ReadDigit(d: nat)
    requires d < 10
    ensures DigitValue(Digit(d)) == Some(d) && Digit(d) != '<'
  {
  }

  lemma {:induction false} ReadLastDigit(s: string, n: nat, d: nat)
    requires d < 10 && s != "" && ReadNumber(s) == Some(n) && '<' !in s
    ensures ReadNumber(s + [Digit(d)]) == Some(n * 10 + d) && '<' !in s + [Digit(d)]
  {
    var t := s + [Digit(d)];
    ReadDigit(d);
    assert t[..|t| - 1] == s && t[|t| - 1] == Digit(d);
  }

  lemma {:induction false} ReadDecimal(n: nat)
    ensures ReadNumber(Decimal(n)) == Some(n) && '<' !in Decimal(n) && Decimal(n) != ""
  {
    if n < 10 {
      ReadDigit(n);
      assert Decimal(n) == [Digit(n)];
    } else {
      ReadDecimal(n / 10);
      ReadLastDigit(Decimal(n / 10), n / 10, n % 10);
    }
  }

  lemma ReadBackEntry(e: Entry, rest: string)
    requires '<' !in e.etag
    ensures ReadEntry(EntryText(e) + rest) == Some((e, rest))
  {
    var s3 := END + rest;
    var s2 := e.etag + s3;
    var s1 := Decimal(e.number) + (ETAG + s2);
    var number := Decimal(e.number);
    Join(PART, number + (ETAG + (e.etag + END)), rest);
    Join(number, ETAG + (e.etag + END), rest);
    Join(ETAG, e.etag + END, rest);
    Join(e.etag, END, rest);
    StripTag(PART, s1);
    ReadDecimal(e.number);
    UpToTagEnds(Decimal(e.number), ETAG + s2);
    StripTag(ETAG, s2);
    UpToTagEnds(e.etag, s3);
    StripTag(END, rest);
  }

  ghost predicate CleanEtags(es: seq<Entry>) {
    forall i :: 0 <= i < |es| ==> '<' !in es[i].etag
  }

  lemma EntryIsNotClose(e: Entry, rest: string)
    ensures EntryText(e) + rest != CLOSE
  {
    assert (EntryText(e) + rest)[1] == PART[1] == 'P' && CLOSE[1] == '/';
  }

  lemma ReadEntriesStep(s: string, e: Entry, rest: string, es: seq<Entry>)
    requires s != CLOSE && ReadEntry(s) == Some((e, rest)) && ReadEntries(rest) == Some(es)
    ensures ReadEntries(s) == Some([e] + es)
  {
  }

  lemma NoRestReadsNone(s: string, e: Entry, rest: string)
    requires s != CLOSE && ReadEntry(s) == Some((e, rest)) && ReadEntries(rest) == None
    ensures ReadEntries(s) == None
  {
  }

  lemma ReadOneMore(e: Entry, rest: string)
    requires '<' !in e.etag
    ensures ReadEntries(EntryText(e) + rest) ==
            match ReadEntries(rest) { case None => None case Some(es) => Some([e] + es) }
  {
    EntryIsNotClose(e, rest);
    ReadBackEntry(e, rest);
    if ReadEntries(rest).Some? {
      ReadEntriesStep(EntryText(e) + rest, e, rest, ReadEntries(rest).value);
    } else {
      NoRestReadsNone(EntryText(e) + rest, e, rest);
    }
  }

  lemma {:induction false} ReadBackEntries(es: seq<Entry>, close: string)
    requires CleanEtags(es) && close == CLOSE
    ensures ReadEntries(EntriesText(es) + close) == Some(es)
  {
    if es == [] {
      assert EntriesText(es) + close == close;
    } else {
      Join(EntryText(es[0]), EntriesText(es[1..]), close);
      ReadBackEntries(es[1..], close);
      ReadOneMore(es[0], EntriesText(es[1..]) + close);
      assert es == [es[0]] + es[1..];
    }
  }

  /** The server reads back exactly the entries, in order. */
  lemma ReadBack(es: seq<Entry>)
    requires CleanEtags(es)
    ensures Read(Document(es)) == Some(es)
  {
    StripTag(OPEN, EntriesText(es) + CLOSE);
    ReadBackEntries(es, CLOSE);
  }
}
