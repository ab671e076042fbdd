/** The receive ring: filled by the interrupt, emptied by the main thread.

    The interrupt runs to completion between two memory accesses of the main thread, any
    number of times. Each main-thread method therefore takes, as parameters, the bytes
    that arrive in each of the gaps between its accesses. */
module Ring {
  import opened Bytes
  import opened Flash

  const SIZE: nat := 512
  const CAPACITY: nat := 511

  // ---- The queue it stands for ----

  /** A bounded queue that drops what arrives while it is full. */
  function Push(q: seq<byte>, b: byte): seq<byte> {
    if |q| >= CAPACITY then q else q + [b]
  }

  function PushAll(q: seq<byte>, bs: seq<byte>): seq<byte>
    decreases |bs|
  {
    if bs == [] then q else Push(PushAll(q, bs[..|bs| - 1]), bs[|bs| - 1])
  }

  /** Exactly the bytes for which there is room are kept, behind the unread ones, in
      order; every later one is dropped. */
  lemma {:induction false} PushAllKeepsPrefix(q: seq<byte>, bs: seq<byte>)
    requires |q| <= CAPACITY
    ensures var room := CAPACITY - |q|;
            PushAll(q, bs) == q + bs[..if |bs| < room then |bs| else room]
    decreases |bs|
  {
    if bs != [] {
      var front := bs[..|bs| - 1];
      PushAllKeepsPrefix(q, front);
      assert bs == front + [bs[|bs| - 1]];
    } else {
      assert q + bs[..0] == q;
    }
  }

  lemma {:induction false} PushAllAppend(q: seq<byte>, x: seq<byte>, y: seq<byte>)
    ensures PushAll(q, x + y) == PushAll(PushAll(q, x), y)
    decreases |y|
  {
    if y == [] {
      assert x + y == x;
    } else {
      var n := |y| - 1;
      assert (x + y)[..|x + y| - 1] == x + y[..n];
      PushAllAppend(q, x, y[..n]);
    }
  }

  // ---- The ring on values ----

  /** The unread bytes between the two indices. */
  function Unread(buf: seq<byte>, head: nat, tail: nat): (q: seq<byte>)
    requires |buf| == SIZE && head < SIZE && tail < SIZE
    ensures |q| == (head - tail) % SIZE && |q| <= CAPACITY
  {
    if tail <= head then buf[tail..head] else buf[tail..] + buf[..head]
  }

  /** Storing at the head and advancing it appends; it is refused exactly when that
      would make a full ring look empty. */
  lemma StoreAppends(buf: seq<byte>, head: nat, tail: nat, b: byte)
    requires |buf| == SIZE && head < SIZE && tail < SIZE
    ensures (head + 1) % SIZE == tail <==> |Unread(buf, head, tail)| == CAPACITY
    ensures (head + 1) % SIZE != tail ==>
              Unread(buf[head := b], (head + 1) % SIZE, tail) == Unread(buf, head, tail) + [b]
  {
  }

  lemma TakeRemoves(buf: seq<byte>, head: nat, tail: nat)
    requires |buf| == SIZE && head < SIZE && tail < SIZE && head != tail
    ensures var q := Unread(buf, head, tail);
            |q| > 0 && buf[tail] == q[0] && Unread(buf, head, (tail + 1) % SIZE) == q[1..]
  {
    hide Unread;
    if tail < head {
      TakeStraight(buf, head, tail);
    } else {
      TakeWrapped(buf, head, tail);
    }
  }

  lemma TakeStraight(buf: seq<byte>, head: nat, tail: nat)
    requires |buf| == SIZE && tail < head < SIZE
    ensures var q := Unread(buf, head, tail);
            |q| > 0 && buf[tail] == q[0] && Unread(buf, head, (tail + 1) % SIZE) == q[1..]
  {
    assert (tail + 1) % SIZE == tail + 1;
    assert buf[tail..head][1..] == buf[tail + 1..head];
  }

  lemma TakeWrapped(buf: seq<byte>, head: nat, tail: nat)
    requires |buf| == SIZE && head < tail < SIZE
    ensures var q := Unread(buf, head, tail);
            |q| > 0 && buf[tail] == q[0] && Unread(buf, head, (tail + 1) % SIZE) == q[1..]
  {
    var front, back := buf[..head], buf[tail..];
    assert (back + front)[1..] == back[1..] + front;
    if tail + 1 == SIZE {
      assert (tail + 1) % SIZE == 0;
      assert buf[0..head] == front && back[1..] == [];
    } else {
      assert (tail + 1) % SIZE == tail + 1;
      assert back[1..] == buf[tail + 1..];
    }
  }

  /** Moving the tail to where the head was some pushes ago leaves just those pushes. */
  lemma FlushLeavesLater(buf: seq<byte>, head: nat, tail: nat, oldHead: nat, before: seq<byte>)
    requires |buf| == SIZE && head < SIZE && tail < SIZE && oldHead < SIZE
    requires before <= Unread(buf, head, tail) && |before| == (oldHead - tail) % SIZE
    ensures Unread(buf, head, oldHead) == Unread(buf, head, tail)[|before|..]
  {
  }

  // ---- The driver ----

  class Uart {
    const rxBuf: array<byte>
    var rxHead: nat
    var rxTail: nat
    var overrunSw: u32

    /** Everything ever stored, everything ever read or flushed, and how many bytes were
        dropped. */
    ghost var accepted: seq<byte>
    ghost var taken: seq<byte>
    ghost var dropped: nat

    ghost function Pending(): seq<byte>
      reads this, rxBuf
      requires rxBuf.Length == SIZE && rxHead < SIZE && rxTail < SIZE
    {
      Unread(rxBuf[..], rxHead, rxTail)
    }

    /** What was accepted is what was taken followed by what is pending: nothing is lost,
        repeated, overwritten or reordered. */
    ghost predicate Valid()
      reads this, rxBuf
    {
      && rxBuf.Length == SIZE && rxHead < SIZE && rxTail < SIZE
      && accepted == taken + Pending()
      && overrunSw == dropped % 0x1_0000_0000
    }

    constructor ()
      ensures Valid() && fresh(rxBuf) && Pending() == [] && accepted == [] && dropped == 0
    {
      rxBuf := new byte[SIZE](_ => 0);
      rxHead, rxTail, overrunSw := 0, 0, 0;
      accepted, taken, dropped := [], [], 0;
    }

    /** The interrupt: stores the byte, or drops it when the ring is full. It never
        touches the tail. */
    method Isr(b: byte)
      requires Valid()
      modifies `rxHead, `overrunSw, `accepted, `dropped, rxBuf
      ensures Valid()
      ensures Pending() == Push(old(Pending()), b)
      ensures accepted == taken + Pending()
      ensures |accepted| + dropped == |old(accepted)| + old(dropped) + 1
    {
      StoreAppends(rxBuf[..], rxHead, rxTail, b);
      var next := (rxHead + 1) % SIZE;
      if next == rxTail {
        overrunSw := Add32(overrunSw, 1);
        dropped := dropped + 1;
      } else {
        ghost var before := rxBuf[..];
        rxBuf[rxHead] := b;
        assert rxBuf[..] == before[rxHead := b];
        rxHead := next;
        accepted := accepted + [b];
      }
    }

    /** Any number of interrupts in a row. */
    method Interrupts(bs: seq<byte>)
      requires Valid()
      modifies `rxHead, `overrunSw, `accepted, `dropped, rxBuf
      ensures Valid()
      ensures Pending() == PushAll(old(Pending()), bs)
    {
      for i := 0 to |bs|
        invariant Valid()
        invariant Pending() == PushAll(old(Pending()), bs[..i])
      {
        assert bs[..i + 1][..i] == bs[..i];
        Isr(bs[i]);
      }
      assert bs[..|bs|] == bs;
    }

    /** A read is the removal of the oldest byte of a queue that meanwhile receives the
        bytes of all three gaps; it fails only if the queue is empty when looked at. */
    method Getc(gap1: seq<byte>, gap2: seq<byte>, gap3: seq<byte>) returns (ok: bool, out: byte)
      requires Valid()
      modifies `rxHead, `rxTail, `overrunSw, `accepted, `taken, `dropped, rxBuf
      ensures Valid()
      ensures !ok ==> PushAll(old(Pending()), gap1) == [] && Pending() == [] && taken == old(taken)
      ensures ok ==> var q := PushAll(old(Pending()), gap1 + gap2 + gap3);
                     |q| > 0 && out == q[0] && Pending() == q[1..] && taken == old(taken) + [out]
    {
      hide PushAll;
      ghost var q0 := Pending();
      var tail := rxTail;
      Interrupts(gap1);
      if rxHead == tail {
        return false, 0;
      }
      ghost var q1 := Pending();
      Interrupts(gap2);
      PushAllKeepsPrefix(q1, gap2);
      out := Oldest(tail);
      ghost var q2 := Pending();
      Interrupts(gap3);
      PushAllKeepsPrefix(q2, gap3);
      PushAllAppend(q0, gap1, gap2);
      PushAllAppend(q0, gap1 + gap2, gap3);
      Advance(tail);
      ok := true;
    }

    method Oldest(tail: nat) returns (out: byte)
      requires Valid() && tail == rxTail && Pending() != []
      ensures out == Pending()[0]
    {
      TakeRemoves(rxBuf[..], rxHead, rxTail);
      out := rxBuf[tail];
    }

    method Advance(tail: nat)
      requires Valid() && tail == rxTail && Pending() != []
      modifies `rxTail, `taken
      ensures Valid()
      ensures Pending() == old(Pending())[1..] && taken == old(taken) + [old(Pending())[0]]
    {
      TakeRemoves(rxBuf[..], rxHead, rxTail);
      taken := taken + [Pending()[0]];
      rxTail := (tail + 1) % SIZE;
    }

    /** The count is that of the moment the head was read; later arrivals can only make
        it an understatement. */
    method Available(gap: seq<byte>) returns (n: nat)
      requires Valid()
      modifies `rxHead, `overrunSw, `accepted, `dropped, rxBuf
      ensures Valid()
      ensures n == |old(Pending())| <= |Pending()|
      ensures Pending() == PushAll(old(Pending()), gap)
    {
      var head := rxHead;
      ghost var q := Pending();
      Interrupts(gap);
      PushAllKeepsPrefix(q, gap);
      n := (head - rxTail) % SIZE;
    }

    /** Discards what was pending when the head was read, and nothing that came later. */
    method RxFlush(gap: seq<byte>)
      requires Valid()
      modifies `rxHead, `rxTail, `overrunSw, `accepted, `taken, `dropped, rxBuf
      ensures Valid()
      ensures PushAll(old(Pending()), gap) == old(Pending()) + Pending()
      ensures taken == old(taken) + old(Pending())
    {
      hide Unread, PushAll;
      var head := rxHead;
      ghost var q := Pending();
      Interrupts(gap);
      PushAllKeepsPrefix(q, gap);
      ghost var p := Pending();
      FlushLeavesLater(rxBuf[..], rxHead, rxTail, head, q);
      assert p == q + p[|q|..];
      assert taken + p == (taken + q) + p[|q|..];
      taken := taken + q;
      rxTail := head;
    }
  }
}
