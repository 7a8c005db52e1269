/**
 The growing buffer of src/growbuffer.c: a circular doubly linked list of
 64 KiB blocks, appended to at the tail and read from the head.
 */
module GrowBuffer {
  import opened Common

  const BLOCK_SIZE: nat := 65536

  /** struct growbuffer. The bytes are part of the struct, so `data` is a field
      that is updated and not an object of its own. `place` numbers the blocks
      of one buffer in the order they were linked in. */
  class Block {
    var data: seq<char>
    var size: nat
    var start: nat
    var prev: Block
    var next: Block
    ghost const place: nat

    ghost predicate Fits()
      reads `start, `size, `data
    {
      |data| == BLOCK_SIZE && start + size <= BLOCK_SIZE
    }

    ghost function Text(): seq<char>
      requires Fits()
      reads `start, `size, `data
    {
      data[start..start + size]
    }

    /** malloc, and the fields growbuffer_append sets at once; a lone block is
        its own neighbour. */
    constructor (ghost place: nat)
      ensures Fits() && start == 0 && size == 0
      ensures prev == next == this && this.place == place
    {
      data := seq(BLOCK_SIZE, _ => '\0');
      size, start := 0, 0;
      prev, next := this, this;
      this.place := place;
    }

    /** The copy of growbuffer_append, to `data[size]`. */
    method Fill(text: seq<char>) returns (n: nat)
      requires Fits() && start == 0
      modifies `size, `data
      ensures Fits() && n == (if |text| < BLOCK_SIZE - old(size) then |text| else BLOCK_SIZE - old(size))
      ensures Text() == old(Text()) + text[..n]
    {
      n := BLOCK_SIZE - size;
      if n > |text| {
        n := |text|;
      }
      data := data[..size] + text[..n] + data[size + n..];
      size := size + n;
    }

    /** The copy of growbuffer_read. */
    method Take(amt: nat) returns (text: seq<char>)
      requires Fits()
      modifies `start, `size
      ensures Fits() && |text| == if old(size) > amt then amt else old(size)
      ensures old(Text()) == text + Text()
    {
      var n := if size > amt then amt else size;
      text := data[start..start + n];
      start, size := start + n, size - n;
    }
  }

  function Concat(texts: seq<seq<char>>): seq<char> {
    if texts == [] then [] else texts[0] + Concat(texts[1..])
  }

  /** More bytes at the end of the last text. */
  function Grown(texts: seq<seq<char>>, more: seq<char>): (grown: seq<seq<char>>)
    requires texts != []
    ensures |grown| == |texts|
  {
    texts[|texts| - 1 := texts[|texts| - 1] + more]
  }

  lemma {:induction false} ConcatLast(texts: seq<seq<char>>, more: seq<char>)
    requires texts != []
    ensures Concat(Grown(texts, more)) == Concat(texts) + more
  {
    var grown := Grown(texts, more);
    if |texts| == 1 {
      assert grown[1..] == [] && texts[1..] == [];
    } else {
      assert grown[1..] == texts[1..][|texts| - 2 := texts[1..][|texts| - 2] + more];
      ConcatLast(texts[1..], more);
      assert texts[0] + (Concat(texts[1..]) + more) == texts[0] + Concat(texts[1..]) + more;
    }
  }

  lemma {:induction false} ConcatSnoc(texts: seq<seq<char>>, more: seq<char>)
    ensures Concat(texts + [more]) == Concat(texts) + more
  {
    if texts == [] {
      assert texts + [more] == [more] && Concat([more]) == more + [];
    } else {
      assert (texts + [more])[1..] == texts[1..] + [more];
      ConcatSnoc(texts[1..], more);
      assert texts[0] + (Concat(texts[1..]) + more) == texts[0] + Concat(texts[1..]) + more;
    }
  }

  lemma FullSnoc(texts: seq<seq<char>>, more: seq<char>)
    requires texts != [] ==> |texts[|texts| - 1]| == BLOCK_SIZE
    ensures AllFull(texts) ==> AllFull(texts + [more])
  {
  }

  lemma LastGrows(texts: seq<seq<char>>, more: seq<char>)
    requires texts != [] && more != [] && forall i :: 0 <= i < |texts| - 1 ==> texts[i] != []
    ensures var grown := Grown(texts, more);
            && Concat(grown) == Concat(texts) + more
            && (forall i :: 0 <= i < |grown| ==> grown[i] != [])
            && (AllFull(texts) ==> AllFull(grown))
            && |grown[|texts| - 1]| == |texts[|texts| - 1]| + |more|
  {
    ConcatLast(texts, more);
  }

  lemma JoinOn(was: seq<char>, put: seq<char>, rest: seq<char>, n: nat)
    requires n <= |rest|
    ensures was + put + rest[..n] == was + (put + rest[..n])
    ensures put + rest[..n] + rest[n..] == put + rest
  {
    assert rest[..n] + rest[n..] == rest;
  }

  lemma ConcatHead(texts: seq<seq<char>>, text: seq<char>, rest: seq<char>)
    requires texts != [] && texts[0] == text + rest
    ensures Concat(texts) == text + Concat(texts[0 := rest])
  {
    assert texts[0 := rest][1..] == texts[1..];
    assert text + rest + Concat(texts[1..]) == text + (rest + Concat(texts[1..]));
  }

  ghost predicate AllFull(texts: seq<seq<char>>) {
    forall i :: 0 <= i < |texts| - 1 ==> |texts[i]| == BLOCK_SIZE
  }

  /** Free bytes in the last block when n bytes are in full blocks and it. */
  function RoomAfter(n: nat): nat {
    if n == 0 then 0 else if n >= BLOCK_SIZE then RoomAfter(n - BLOCK_SIZE) else BLOCK_SIZE - n
  }

  lemma {:induction false} NoRoomIff(n: nat)
    ensures RoomAfter(n) == 0 <==> n % BLOCK_SIZE == 0
  {
    if n >= BLOCK_SIZE {
      NoRoomIff(n - BLOCK_SIZE);
      assert n % BLOCK_SIZE == (n - BLOCK_SIZE) % BLOCK_SIZE;
    }
  }

  lemma {:induction false} PackedRoom(texts: seq<seq<char>>)
    requires texts != [] && AllFull(texts) && 0 < |texts[|texts| - 1]| <= BLOCK_SIZE
    ensures RoomAfter(|Concat(texts)|) == BLOCK_SIZE - |texts[|texts| - 1]|
  {
    if |texts| == 1 {
      assert Concat(texts) == texts[0] + [];
    } else {
      assert forall i :: 0 <= i < |texts[1..]| - 1 ==> texts[1..][i] == texts[i + 1];
      PackedRoom(texts[1..]);
    }
  }

  /** The buffer a `growbuffer **` points at. */
  class Buffer {
    var head: Block?
    ghost var blocks: seq<Block>
    ghost var texts: seq<seq<char>>

    constructor ()
      ensures Valid() && head == null && Contents() == [] && blocks == []
    {
      head := null;
      blocks, texts := [], [];
    }

    /** The blocks form one ring: next and prev go round it in opposite
        directions. */
    ghost predicate Linked()
      reads `head, `blocks, (set b | b in blocks)`prev, (set b | b in blocks)`next
    {
      && (if blocks == [] then head == null else head == blocks[0])
      && (forall i {:trigger blocks[i].place} :: 0 <= i < |blocks| ==> blocks[i].place == blocks[0].place + i)
      && (forall i {:trigger blocks[i].next} :: 0 <= i < |blocks| - 1 ==> blocks[i].next == blocks[i + 1])
      && (forall i {:trigger blocks[i].prev} :: 0 < i < |blocks| ==> blocks[i].prev == blocks[i - 1])
      && (blocks != [] ==> blocks[|blocks| - 1].next == blocks[0] && blocks[0].prev == blocks[|blocks| - 1])
    }

    /** Each block holds its text. */
    ghost predicate Holds()
      reads `blocks, `texts, (set b | b in blocks)`start, (set b | b in blocks)`size, (set b | b in blocks)`data
    {
      |texts| == |blocks| && forall i {:trigger blocks[i].Fits()} {:trigger texts[i]} {:trigger blocks[i].Text()} ::
        0 <= i < |blocks| ==> blocks[i].Fits() && texts[i] == blocks[i].Text()
    }

    ghost predicate NoneEmpty(from: nat, to: nat)
      requires to <= |texts|
      reads `texts
    {
      forall i :: from <= i < to ==> texts[i] != []
    }

    ghost predicate Valid()
      reads this, blocks
    {
      Linked() && Holds() && NoneEmpty(0, |texts|)
    }

    ghost function Contents(): seq<char>
      reads `texts
    {
      Concat(texts)
    }

    /** No byte of the tail block has been read yet. */
    ghost predicate TailUnread()
      reads `blocks, (set b | b in blocks)`start
    {
      blocks != [] ==> blocks[|blocks| - 1].start == 0
    }

    /** growbuffer_append, where it links a new block in before the head. */
    method Link(buf: Block)
      requires Linked() && (blocks != [] ==> buf.place == blocks[0].place + |blocks|)
      requires buf.prev == buf.next == buf
      modifies `head, `blocks, (set b | b in blocks)`prev, (set b | b in blocks)`next, buf`prev, buf`next
      ensures Linked() && blocks == old(blocks) + [buf]
    {
      ghost var n := |blocks|;
      if head != null {
        assert head == blocks[0] && head.prev == blocks[n - 1];
        buf.prev := head.prev;
        buf.next := head;
        head.prev.next := buf;
        head.prev := buf;
      } else {
        head := buf;
      }
      blocks := blocks + [buf];
    }

    /** There is a tail block with room; it may still be empty. */
    ghost predicate Ready()
      reads this, blocks
    {
      && Linked() && Holds() && TailUnread()
      && head != null && blocks[|blocks| - 1].size < BLOCK_SIZE && NoneEmpty(0, |texts| - 1)
    }

    method LinkNew() returns (buf: Block)
      requires Linked()
      modifies `head, `blocks, (set b | b in blocks)`prev, (set b | b in blocks)`next
      ensures Linked() && fresh(buf) && blocks == old(blocks) + [buf]
      ensures buf.Fits() && buf.start == 0 && buf.size == 0
    {
      buf := new Block(if blocks == [] then 0 else blocks[0].place + |blocks|);
      Link(buf);
    }

    /** Free bytes in the tail block. */
    ghost function TailRoom(): int
      reads `texts
    {
      if texts == [] then 0 else BLOCK_SIZE - |texts[|texts| - 1]|
    }

    lemma TailRoomIsLeft()
      requires Holds()
      ensures TailRoom() >= 0
    {
      assert blocks != [] ==> blocks[|blocks| - 1].Fits();
    }

    /** Every block but the last is full, as long as nothing is read. */
    ghost predicate Packed()
      reads `texts
    {
      AllFull(texts)
    }

    /** growbuffer_append, where the tail block is full or missing. */
    method AddTail()
      requires Valid() && TailRoom() == 0
      modifies `head, `blocks, `texts, (set b | b in blocks)`prev, (set b | b in blocks)`next
      ensures Ready() && Contents() == old(Contents()) && TailRoom() == BLOCK_SIZE
      ensures old(Packed()) ==> Packed()
      ensures forall i :: 0 <= i < |blocks| ==> blocks[i] in old(blocks) || fresh(blocks[i])
    {
      var buf := LinkNew();
      ConcatSnoc(texts, []);
      FullSnoc(texts, []);
      texts := texts + [[]];
    }

    /** The copy into the tail block touches no other block. */
    method FillLast(text: seq<char>) returns (n: nat)
      requires Holds() && head != null && blocks != [] && head.prev == blocks[|blocks| - 1] && text != []
      requires head.prev.start == 0 && head.prev.size < BLOCK_SIZE
      requires forall i :: 0 <= i < |blocks| - 1 ==> blocks[i] != head.prev
      modifies `texts, (set b | b in blocks)`size, (set b | b in blocks)`data
      ensures Holds() && 0 < n <= |text| && n == Least(|text|, old(TailRoom()))
      ensures texts == Grown(old(texts), text[..n])
    {
      ghost var last := |blocks| - 1;
      n := head.prev.Fill(text);
      assert forall i :: 0 <= i < last ==> blocks[i].Text() == old(blocks[i].Text());
      texts := Grown(texts, text[..n]);
    }

    /** growbuffer_append, where it copies into the tail block. */
    method FillTail(text: seq<char>) returns (n: nat)
      requires Ready() && text != []
      modifies `texts, (set b | b in blocks)`size, (set b | b in blocks)`data
      ensures Valid() && TailUnread() && 0 < n <= |text|
      ensures Contents() == old(Contents()) + text[..n]
      ensures n == Least(|text|, old(TailRoom())) && TailRoom() == old(TailRoom()) - n
      ensures old(Packed()) ==> Packed()
    {
      assert head.prev == blocks[|blocks| - 1];
      assert forall i :: 0 <= i < |blocks| - 1 ==> blocks[i].place != blocks[|blocks| - 1].place;
      n := FillLast(text);
      assert Linked() && TailUnread() && NoneEmpty(0, |texts|);
      LastGrows(old(texts), text[..n]);
    }

    /** The test with which growbuffer_append decides on a new block. */
    method TailFull() returns (full: bool)
      requires Valid() && TailUnread()
      ensures full <==> TailRoom() == 0
      ensures TailRoom() >= 0 && (!full ==> Ready())
    {
      assert head != null ==> head.prev == blocks[|blocks| - 1];
      full := head == null || head.prev.size == BLOCK_SIZE;
    }

    /** One round of the loop of growbuffer_append. Malloc works `mallocs` times
        and then fails; n == 0 says that it was called and failed. */
    method AppendSome(rest: seq<char>, mallocs: nat) returns (n: nat, left: nat)
      requires Valid() && TailUnread() && rest != []
      modifies this, blocks
      ensures Valid() && TailUnread() && (old(Packed()) ==> Packed())
      ensures forall i :: 0 <= i < |blocks| ==> blocks[i] in old(blocks) || fresh(blocks[i])
      ensures n <= |rest| && Contents() == old(Contents()) + rest[..n]
      ensures n + Capacity(left) == old(Capacity(mallocs)) && TailRoom() >= 0
      ensures n == 0 <==> old(Capacity(mallocs)) == 0
    {
      left := mallocs;
      var full := TailFull();
      if full {
        if left == 0 {
          return 0, left;
        }
        AddTail();
        left := left - 1;
      }
      n := FillTail(rest);
    }

    /** What fits into the tail block and so many new ones. */
    ghost function Capacity(mallocs: nat): int
      reads `texts
    {
      TailRoom() + mallocs * BLOCK_SIZE
    }

    /** growbuffer_append. It returns 0 when malloc fails, with the first `done`
        bytes appended; otherwise it appends all. Here malloc works `mallocs`
        times and then fails. */
    method Append(data: seq<char>, mallocs: nat) returns (r: nat, ghost done: nat)
      requires Valid() && TailUnread()
      modifies this, blocks
      ensures Valid() && TailUnread() && (old(Packed()) ==> Packed())
      ensures forall i :: 0 <= i < |blocks| ==> blocks[i] in old(blocks) || fresh(blocks[i])
      ensures old(TailRoom()) >= 0 && done == Least(|data|, old(Capacity(mallocs)))
      ensures Contents() == old(Contents()) + data[..done]
      ensures r == if done == |data| then |data| else 0
    {
      var rest := data;
      var left: nat := mallocs;
      var failed := false;
      ghost var was, put := Contents(), [];
      TailRoomIsLeft();
      while rest != [] && !failed
        invariant Valid() && TailUnread() && (old(Packed()) ==> Packed())
        invariant forall i :: 0 <= i < |blocks| ==> blocks[i] in old(blocks) || fresh(blocks[i])
        invariant put + rest == data && Contents() == was + put
        invariant |put| + Capacity(left) == old(Capacity(mallocs)) && TailRoom() >= 0
        invariant failed ==> Capacity(left) == 0 && rest != []
        decreases |rest|, !failed
      {
        var n;
        n, left := AppendSome(rest, left);
        failed := n == 0;
        JoinOn(was, put, rest, n);
        put := put + rest[..n];
        rest := rest[n..];
      }
      done := |put|;
      r := if failed then 0 else |data|;
    }

    /** Takes the head out of a ring of several blocks. */
    method Bypass()
      requires Linked() && |blocks| > 1
      modifies `head, `blocks, (set b | b in blocks)`prev, (set b | b in blocks)`next
      ensures Linked() && blocks == old(blocks)[1..]
    {
      ghost var n := |blocks|;
      var buf := head;
      assert buf == blocks[0] && buf.prev == blocks[n - 1] && buf.next == blocks[1];
      assert blocks[1].place != blocks[0].place;
      head := buf.next;
      buf.prev.next := buf.next;
      buf.next.prev := buf.prev;
      forall i | 1 <= i < n
        ensures i < n - 1 ==> blocks[i].next == blocks[i + 1]
        ensures i > 1 ==> blocks[i].prev == blocks[i - 1]
      {
        assert blocks[i].place == blocks[0].place + i;
        assert blocks[1].place == blocks[0].place + 1 && blocks[n - 1].place == blocks[0].place + n - 1;
      }
      blocks := blocks[1..];
    }

    /** growbuffer_read, where it takes the empty head block out of the ring. */
    method Unlink()
      requires Linked() && head != null
      modifies `head, `blocks, (set b | b in blocks)`prev, (set b | b in blocks)`next
      ensures Linked() && blocks == old(blocks)[1..]
    {
      assert |blocks| > 1 ==> blocks[0].next == blocks[1] && blocks[1].place != blocks[0].place;
      if head.next == head {
        head := null;
        blocks := blocks[1..];
      } else {
        Bypass();
      }
    }

    /** The copy out of the head block touches no other block. */
    method TakeFirst(amt: nat) returns (text: seq<char>)
      requires Holds() && head != null && blocks != [] && head == blocks[0]
      requires forall i :: 0 < i < |blocks| ==> blocks[i] != head
      modifies `texts, (set b | b in blocks)`start, (set b | b in blocks)`size
      ensures Holds() && |texts| == |old(texts)| && old(texts)[0] == text + texts[0]
      ensures texts == old(texts)[0 := texts[0]]
      ensures |text| == if old(head.size) > amt then amt else old(head.size)
    {
      text := head.Take(amt);
      assert forall i :: 0 < i < |blocks| ==> blocks[i].Text() == old(blocks[i].Text());
      texts := texts[0 := head.Text()];
    }

    /** growbuffer_read, where it copies out of the head block. */
    method TakeHead(amt: nat) returns (text: seq<char>)
      requires Valid() && head != null
      modifies `texts, (set b | b in blocks)`start, (set b | b in blocks)`size
      ensures Holds() && NoneEmpty(1, |texts|) && old(Contents()) == text + Contents()
      ensures |text| == (if old(head.size) > amt then amt else old(head.size)) &&
                old(head.size) == old(HeadLength()) > 0
    {
      assert forall i :: 0 < i < |blocks| ==> blocks[i].place != blocks[0].place;
      assert texts[0] == blocks[0].Text();
      text := TakeFirst(amt);
      ConcatHead(old(texts), text, texts[0]);
    }

    /** growbuffer_read, where the head block has become empty. */
    method DropHead()
      requires Linked() && Holds() && head != null && head.size == 0 && NoneEmpty(1, |texts|)
      modifies `head, `blocks, `texts, (set b | b in blocks)`prev, (set b | b in blocks)`next
      ensures Valid() && blocks == old(blocks)[1..] && Contents() == old(Contents())
    {
      assert texts[0] == [];
      Unlink();
      texts := texts[1..];
    }

    /** The unread bytes of the head block. */
    ghost function HeadLength(): nat
      reads `texts
    {
      if texts == [] then 0 else |texts[0]|
    }

    /** growbuffer_read: the next bytes, at most `amt` of them and as many of those
        as the head block has; none only if none are asked for or none are
        left. */
    method Read(amt: nat) returns (text: seq<char>)
      requires Valid()
      modifies this, blocks
      ensures Valid() && forall i :: 0 <= i < |blocks| ==> blocks[i] in old(blocks)
      ensures old(Contents()) == text + Contents()
      ensures |text| == Least(amt, old(HeadLength()))
      ensures text == [] ==> amt == 0 || old(Contents()) == []
    {
      text := [];
      if head == null {
        return;
      }
      text := TakeHead(amt);
      if head.size == 0 {
        DropHead();
      }
    }

    /** growbuffer_destroy frees every block of the ring once, and reads no
        block after it is freed. */
    method Destroy() returns (freed: seq<Block>)
      requires Linked()
      ensures freed == blocks
    {
      var first := head;
      var gb := head;
      freed := [];
      while gb != null
        invariant |freed| <= |blocks| && freed == blocks[..|freed|]
        invariant gb == if |freed| < |blocks| then blocks[|freed|] else null
        decreases |blocks| - |freed|
      {
        var next := gb.next;
        assert |freed| + 1 < |blocks| ==> blocks[|freed| + 1].place != blocks[0].place;
        freed := freed + [gb];
        gb := if next == first then null else next;
      }
    }
  }

  // ---- why the tail has to be unread ---------------------------------------

  /** The live bytes of a block after the copy of growbuffer_append, which goes
      to data[size] whatever `start` is. */
  function LiveAfterCopy(data: seq<char>, start: nat, size: nat, text: seq<char>): seq<char>
    requires start + size + |text| <= |data|
  {
    var data' := data[..size] + text + data[size + |text|..];
    data'[start..start + size + |text|]
  }

  predicate CopyAppends(data: seq<char>, start: nat, size: nat, text: seq<char>)
    requires start + size + |text| <= |data|
  {
    LiveAfterCopy(data, start, size, text) == data[start..start + size] + text
  }

  /** A copy into a block that still has room appends, whatever the bytes,
      exactly when nothing has been read from the block. */
  lemma AppendsIffUnread(start: nat, size: nat)
    requires start + size < BLOCK_SIZE
    ensures (forall data: seq<char>, text: seq<char> ::
               |data| == BLOCK_SIZE && start + size + |text| <= BLOCK_SIZE ==> CopyAppends(data, start, size, text))
            <==> start == 0
  {
    if start > 0 {
      var data := seq(BLOCK_SIZE, _ => 'o');
      assert LiveAfterCopy(data, start, size, "n")[size] == 'o';
      assert !CopyAppends(data, start, size, "n");
    } else {
      forall data: seq<char>, text: seq<char> | |data| == BLOCK_SIZE && start + size + |text| <= BLOCK_SIZE
        ensures CopyAppends(data, start, size, text)
      {
        assert LiveAfterCopy(data, start, size, text) == data[..size] + text;
      }
    }
  }
}
