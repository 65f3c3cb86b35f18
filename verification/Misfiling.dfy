/** A packet that arrives while packets in sequence wait to be written: because the output
    file blocked, or because it comes between the connection and the first drain. */
module Misfiling {
  import opened Words
  import opened Bits
  import opened Seqnum
  import opened Codec
  import opened PacketBuffer
  import opened ReceiverModel
  import opened ReceiverView
  import opened ReceiverSteps

  // ---------- The mask

  /** The bit that process_incoming_pkt sets for a packet gap ahead of the expected one,
      and the bit of that packet. */
  function BitSet(mask: nat, gap: nat): nat {
    DistanceOf(TrailingOnes(mask)) + gap
  }

  function BitDue(mask: nat, gap: nat): nat {
    TrailingOnes(mask) + gap
  }

  /** The mask comes out right exactly when bit 0 is clear, or both bits were set
      already, as for a packet received before. */
  lemma MaskRightIff(mask: nat, gap: nat)
    ensures SetBit(mask, BitSet(mask, gap)) == SetBit(mask, BitDue(mask, gap))
            <==> mask % 2 == 0 || (gap > 0 && Bit(mask, BitSet(mask, gap)) && Bit(mask, BitDue(mask, gap)))
  {
    TrailingOnesBits(mask);
    var a, b := BitSet(mask, gap), BitDue(mask, gap);
    if mask % 2 == 1 {
      SetBitBits(mask, a, b);
      SetBitBits(mask, b, b);
      SetBitBits(mask, a, a);
      SetBitBits(mask, b, a);
      if Bit(mask, a) { SetAgain(mask, a); }
      if Bit(mask, b) { SetAgain(mask, b); }
    }
  }

  /** The bit behind the trailing ones, set: how many trailing ones there are then. */
  lemma OnesBehind(mask: nat, k: nat, n: nat)
    requires k == TrailingOnes(mask) < n
    ensures TrailingOnes(SetBit(mask, k)) == n <==> (forall i :: k < i < n ==> Bit(mask, i)) && !Bit(mask, n)
  {
    var due := SetBit(mask, k);
    var t := TrailingOnes(due);
    TrailingOnesBits(mask);
    TrailingOnesBits(due);
    SetBitBits(mask, k, n);
    SetBitBits(mask, k, t);
    if t == n {
      forall i | k < i < n ensures Bit(mask, i) {
        assert Bit(due, i);
        SetBitBits(mask, k, i);
      }
    } else if t > n {
      assert Bit(due, n);
    } else if k < t {
      assert !Bit(mask, t);
    }
  }

  /** The bit that is set instead is set already. */
  lemma NothingSet(mask: nat)
    requires mask % 2 == 1
    ensures SetBit(mask, BitSet(mask, 0)) == mask
  {
    TrailingOnesBits(mask);
    SetAgain(mask, TrailingOnes(mask) - 1);
  }

  /** `expected_seq += max_window - window_size()` after the expected packet, with k
      packets in sequence still buffered, adds k again. The expected number comes out right
      exactly when there are none, or the k - 1 packets behind the one received, and no
      more, were held. */
  lemma AdvanceRightIff(mask: nat)
    ensures var k := TrailingOnes(mask);
            k + TrailingOnes(SetBit(mask, BitSet(mask, 0))) == TrailingOnes(SetBit(mask, BitDue(mask, 0)))
            <==> k == 0 || ((forall i :: k < i < 2 * k ==> Bit(mask, i)) && !Bit(mask, 2 * k))
  {
    if TrailingOnes(mask) > 0 {
      NothingSet(mask);
      AdvanceOnes(mask, TrailingOnes(mask), SetBit(mask, TrailingOnes(mask)));
    }
  }

  lemma AdvanceOnes(mask: nat, k: nat, due: nat)
    requires k == TrailingOnes(mask) > 0 && due == SetBit(mask, k)
    ensures k + k == TrailingOnes(due) <==> (forall i :: k < i < 2 * k ==> Bit(mask, i)) && !Bit(mask, 2 * k)
  {
    OnesBehind(mask, k, 2 * k);
  }

  lemma {:induction false} BitsBehind(mask: nat, i: nat)
    requires Bit(mask, i) && i > TrailingOnes(mask)
    ensures Popcount(mask) > TrailingOnes(mask)
  {
    TrailingOnesBits(mask);
    if mask % 2 == 1 { BitsBehind(mask / 2, i - 1); } else { HasBit(mask, i); }
  }

  lemma {:induction false} HasBit(mask: nat, i: nat)
    requires Bit(mask, i)
    ensures Popcount(mask) > 0
  {
    if i > 0 { HasBit(mask / 2, i - 1); }
  }

  /** With nothing held behind, the advance exceeds the due one by the number of packets
      that waited, less one: so many numbers are acknowledged that were never received. */
  lemma AdvanceExcess(mask: nat)
    requires mask % 2 == 1 && Popcount(mask) == TrailingOnes(mask)
    ensures var k := TrailingOnes(mask);
            && TrailingOnes(SetBit(mask, BitDue(mask, 0))) == k + 1
            && k + TrailingOnes(SetBit(mask, BitSet(mask, 0))) == (k + 1) + (k - 1)
  {
    var k := TrailingOnes(mask);
    NothingSet(mask);
    if Bit(mask, k + 1) { BitsBehind(mask, k + 1); }
    OnesBehind(mask, k, k + 1);
  }

  // ---------- Ring, mask and number together

  /** The bit that is set is that of the chunk before the packet's; its own is as it was. */
  lemma MisfiledBits(c: seq<Slot<Packet>>, mask: nat, mask': nat, s: Receiver, gap: nat)
    requires Matches(c, mask, s) && mask' == SetBit(mask, BitSet(mask, gap)) && TrailingOnes(mask) > 0
    ensures var j := Next(s) + gap;
            && Next(s) == s.expected + TrailingOnes(mask) && Next(s) !in s.held
            && Bit(mask', BitSet(mask, gap)) && s.expected + BitSet(mask, gap) == j - 1
            && (Bit(mask', BitDue(mask, gap)) <==> j in s.held) && s.expected + BitDue(mask, gap) == j
  {
    NextShown(mask, s);
    SetBitBits(mask, BitSet(mask, gap), BitSet(mask, gap));
    SetBitBits(mask, BitSet(mask, gap), BitDue(mask, gap));
    assert Shown(mask, s.expected, s.held, BitDue(mask, gap));
  }

  lemma MisfiledUndisturbed(c: seq<Slot<Packet>>, c': seq<Slot<Packet>>, mask: nat, mask': nat, expectedSeq: uint8,
                            expectedSeq': uint8, s: Receiver, p: Packet, held: map<nat, Bytes>)
    requires Matches(c, mask, s) && Misfiled(c, c', mask, mask', expectedSeq, expectedSeq', s.expected, p)
    requires Stores(c, s.expected, held) && Next(s) !in held
    ensures Undisturbed(c, c', s.expected, held, TrailingOnes(mask) + Distance(p.seqnum, expectedSeq))
  {
    NextShown(mask, s);
    var d := TrailingOnes(mask) + Distance(p.seqnum, expectedSeq);
    forall j: nat | j in held && j != s.expected + d ensures StillThere(c, c', s.expected, j) {
      assert Stored(c, s.expected, held, j) && Same(c, c', j - s.expected);
    }
  }

  /** A mask without the bit of the packet, or with that of a chunk which is not held. */
  lemma MisfiledWrong(c': seq<Slot<Packet>>, mask': nat, s: Receiver, j: nat, d: nat, p: Packet)
    requires j == s.expected + d && d > 0 && Bit(mask', d - 1) && (Bit(mask', d) <==> j in s.held)
    requires j !in s.held || j - 1 !in s.held
    ensures !Matches(c', mask', Keep(s, j, p))
  {
    var t := Keep(s, j, p);
    var i := if j in s.held then d - 1 else d;
    assert !Shown(mask', s.expected, t.held, i);
  }

  /** Two bits that are set already. */
  lemma MisfiledRight(c: seq<Slot<Packet>>, c': seq<Slot<Packet>>, mask: nat, mask': nat, expectedSeq: uint8,
                      expectedSeq': uint8, s: Receiver, p: Packet, d: nat)
    requires Matches(c, mask, s) && Misfiled(c, c', mask, mask', expectedSeq, expectedSeq', s.expected, p)
    requires |p.payload| == p.length && d == TrailingOnes(mask) + Distance(p.seqnum, expectedSeq)
    requires s.expected + d in s.held && s.expected + d - 1 in s.held
    ensures Matches(c', mask', Keep(s, s.expected + d, p))
  {
    NextShown(mask, s);
    assert Shown(mask, s.expected, s.held, d) && Shown(mask, s.expected, s.held, d - 1);
    SetAgain(mask, d);
    SetAgain(mask, d - 1);
    MisfiledUndisturbed(c, c', mask, mask', expectedSeq, expectedSeq', s, p, s.held);
    MatchesKeep(c, c', mask, s, d, p);
  }

  /** The state that process_incoming_pkt leaves is the right one, with the packet kept at its
      number, if and only if nothing changes: the packet and the one before it were held
      already, and the packet is not the next one. */
  lemma MisfiledRightIff(c: seq<Slot<Packet>>, c': seq<Slot<Packet>>, mask: nat, mask': nat, expectedSeq: uint8,
                         expectedSeq': uint8, s: Receiver, p: Packet)
    requires Matches(c, mask, s) && Misfiled(c, c', mask, mask', expectedSeq, expectedSeq', s.expected, p)
    requires |p.payload| == p.length
    ensures var gap := Distance(p.seqnum, expectedSeq);
            var j := Next(s) + gap;
            Matches(c', mask', Keep(s, j, p)) <==> gap > 0 && j in s.held && j - 1 in s.held
  {
    var k, gap := TrailingOnes(mask), Distance(p.seqnum, expectedSeq);
    MisfiledBits(c, mask, mask', s, gap);
    var j := Next(s) + gap;
    if gap > 0 && j in s.held && j - 1 in s.held {
      MisfiledRight(c, c', mask, mask', expectedSeq, expectedSeq', s, p, k + gap);
    } else {
      MisfiledWrong(c', mask', s, j, k + gap, p);
    }
  }

  // ---------- What the next writes are

  /** The mask after n slots were released. */
  function Released(mask: nat, n: nat): nat {
    if n == 0 then mask else Released(mask / 2, n - 1)
  }

  lemma {:induction false} ReleasedBit(mask: nat, n: nat, i: nat)
    ensures Bit(Released(mask, n), i) <==> Bit(mask, n + i)
  {
    if n > 0 { ReleasedBit(mask / 2, n - 1, i); }
  }

  lemma FirstShown(mask: nat, base: nat, held: map<nat, Bytes>)
    requires Shows(mask, base, held)
    ensures mask % 2 == 1 <==> base in held
  {
    assert Shown(mask, base, held, 0);
  }

  /** Ring and mask after the drain. */
  lemma {:induction false} MatchesDrained(c: seq<Slot<Packet>>, mask: nat, s: Receiver)
    returns (c': seq<Slot<Packet>>, left: nat, d: Receiver)
    requires Matches(c, mask, s)
    ensures Matches(c', left, d) && d == Drain(s) && left == Released(mask, TrailingOnes(mask))
    ensures var k := TrailingOnes(mask); k <= |c| && c' == c[k..] && d.expected == s.expected + k
    decreases |s.held|
  {
    FirstShown(mask, s.expected, s.held);
    if mask % 2 == 1 {
      MatchesRelease(c, mask, s);
      c', left, d := MatchesDrained(c[1..], mask / 2, WriteFirst(s));
    } else {
      c', left, d := c, mask, s;
    }
  }

  lemma StoresKept(c: seq<Slot<Packet>>, c': seq<Slot<Packet>>, base: nat, held: map<nat, Bytes>, k: nat)
    requires Stores(c, base, held) && Undisturbed(c, c', base, held, k) && base + k !in held
    ensures Stores(c', base, held)
  {
    forall j: nat ensures Stored(c', base, held, j) {
      if j in held { assert Stored(c, base, held, j) && StillThere(c, c', base, j); }
    }
  }

  /** The next packet is stored in its slot and not marked: ring and mask stand for what was
      held before. The expected number has moved past it, by as many as waited. */
  lemma NextUnmarked(c: seq<Slot<Packet>>, c': seq<Slot<Packet>>, mask: nat, mask': nat, expectedSeq: uint8,
                     expectedSeq': uint8, s: Receiver, p: Packet) returns (t: Receiver)
    requires Matches(c, mask, s) && Misfiled(c, c', mask, mask', expectedSeq, expectedSeq', s.expected, p)
    requires expectedSeq == Wrap8(Next(s)) && p.seqnum == expectedSeq
    ensures t == s.(used := |c'|, ts := p.ts) && mask' == mask && Matches(c', mask', t)
    ensures var k := TrailingOnes(mask);
            k > 0 && c'[k].body == p && c'[k].seqnum == p.seqnum && expectedSeq' == Wrap8(Next(s) + k)
  {
    t := s.(used := |c'|, ts := p.ts);
    var k := TrailingOnes(mask);
    NextShown(mask, s);
    assert Distance(p.seqnum, expectedSeq) == 0;
    BitAgain(mask, k - 1);
    MisfiledUndisturbed(c, c', mask, mask', expectedSeq, expectedSeq', s, p, s.held);
    StoresKept(c, c', s.expected, s.held, k);
    Wrap8Sum(Next(s), k);
    assert HasNumber(c', s.expected, k);
  }

  /** The bit that a packet in sequence sets with nothing waiting, if its slot is the k-th. */
  lemma FirstBitSet(left: nat, base: nat, held: map<nat, Bytes>, k: nat)
    requires Shows(left, base, held) && left % 2 == 0 && k > 0
    ensures Bit(SetBit(left, BitSet(left, 0)), 0)
    ensures Bit(SetBit(left, BitSet(left, 0)), k) <==> base + k in held
  {
    SetBitBits(left, 0, 0);
    SetBitBits(left, 0, k);
    assert Shown(left, base, held, k);
  }

  lemma ReleasedAll(mask: nat)
    ensures Released(mask, TrailingOnes(mask)) % 2 == 0
  {
    ReleasedBit(mask, TrailingOnes(mask), 0);
    TrailingOnesBits(mask);
  }

  /** What is written next is what would have been written without that packet. */
  lemma {:induction false} DrainSame(s: Receiver, t: Receiver)
    requires t.expected == s.expected && t.held == s.held && t.out == s.out
    ensures Drain(t).out == Drain(s).out
    decreases |s.held|
  {
    if s.expected in s.held { DrainSame(WriteFirst(s), WriteFirst(t)); }
  }

  /** After the drain, its slot, the k-th one, is the first, and bit 0 is clear: whatever comes
      next in sequence, k places further down since the expected number has moved as far,
      sets the bit of the first slot, and not that of its own. */
  lemma ReleasedByTheNext(c: seq<Slot<Packet>>, mask: nat, t: Receiver, k: nat) returns (d: Receiver, left: nat)
    requires Matches(c, mask, t) && k == TrailingOnes(mask) > 0
    ensures d == Drain(t) && d.expected == t.expected + k && left == Released(mask, k)
    ensures k <= |c| && Matches(c[k..], left, d)
    ensures left % 2 == 0 && Bit(SetBit(left, BitSet(left, 0)), 0)
    ensures Bit(SetBit(left, BitSet(left, 0)), k) <==> d.expected + k in d.held
  {
    var c';
    c', left, d := MatchesDrained(c, mask, t);
    ReleasedAll(mask);
    FirstBitSet(left, d.expected, d.held, k);
  }

  // ---------- A packet just ahead

  lemma ShowsAgain(mask: nat, base: nat, held: map<nat, Bytes>, j: nat, chunk: Bytes)
    requires Shows(mask, base, held) && j in held
    ensures Shows(mask, base, held[j := chunk])
  {
    var held' := held[j := chunk];
    assert held'.Keys == held.Keys;
    forall i: nat ensures Shown(mask, base, held', i) {
      assert Shown(mask, base, held, i);
    }
  }

  lemma TrailingGrow(mask: nat)
    ensures TrailingOnes(SetBit(mask, TrailingOnes(mask))) > TrailingOnes(mask)
  {
    var k := TrailingOnes(mask);
    var t := TrailingOnes(SetBit(mask, k));
    TrailingOnesBits(mask);
    TrailingOnesBits(SetBit(mask, k));
    SetBitBits(mask, k, t);
  }

  /** The chunks held according to ring and mask: the packet's bytes in the place of chunk n,
      and in its own if that was held. */
  function HeldTwice(held: map<nat, Bytes>, n: nat, chunk: Bytes): map<nat, Bytes> {
    if n + 1 in held then held[n + 1 := chunk][n := chunk] else held[n := chunk]
  }

  lemma ShowsTwice(mask: nat, base: nat, held: map<nat, Bytes>, k: nat, chunk: Bytes)
    requires Shows(mask, base, held)
    ensures Shows(SetBit(mask, k), base, HeldTwice(held, base + k, chunk))
  {
    if base + k + 1 in held {
      ShowsAgain(mask, base, held, base + k + 1, chunk);
      ShowsSet(mask, base, held[base + k + 1 := chunk], k, chunk);
    } else {
      ShowsSet(mask, base, held, k, chunk);
    }
  }

  lemma StoresTwice(c: seq<Slot<Packet>>, c': seq<Slot<Packet>>, base: nat, held: map<nat, Bytes>, k: nat, p: Packet)
    requires Stores(c, base, held) && Undisturbed(c, c', base, held, k + 1) && k + 1 < |c'|
    requires c'[k].body == p && c'[k + 1].body == p && |p.payload| == p.length
    ensures Stores(c', base, HeldTwice(held, base + k, p.payload))
  {
    var held' := HeldTwice(held, base + k, p.payload);
    forall j: nat ensures Stored(c', base, held', j) {
      if j in held && j != base + k + 1 { assert Stored(c, base, held, j) && StillThere(c, c', base, j); }
    }
  }

  /** A packet just ahead of the next one is written in the place of the next one: ring and
      mask stand for a state that holds its bytes as that chunk. */
  lemma WrittenInPlaceOfTheNext(c: seq<Slot<Packet>>, c': seq<Slot<Packet>>, mask: nat, mask': nat, expectedSeq: uint8,
                                expectedSeq': uint8, s: Receiver, p: Packet) returns (t: Receiver)
    requires Matches(c, mask, s) && Misfiled(c, c', mask, mask', expectedSeq, expectedSeq', s.expected, p)
    requires expectedSeq == Wrap8(Next(s)) && p.seqnum == Wrap8(Next(s) + 1) && |p.payload| == p.length
    requires |s.out| == s.expected
    ensures t == Receiver(s.expected, HeldTwice(s.held, Next(s), p.payload), |c'|, s.out, p.ts)
    ensures Matches(c', mask', t) && expectedSeq' == Wrap8(Next(s))
    ensures Next(s) < |Drain(t).out| && Drain(t).out[Next(s)] == p.payload
  {
    var k, n := TrailingOnes(mask), Next(s);
    NextShown(mask, s);
    WindowTestExact(n + 1, n, 1);
    t := Receiver(s.expected, HeldTwice(s.held, n, p.payload), |c'|, s.out, p.ts);
    MisfiledUndisturbed(c, c', mask, mask', expectedSeq, expectedSeq', s, p, s.held);
    StoresTwice(c, c', s.expected, s.held, k, p);
    ShowsTwice(mask, s.expected, s.held, k, p.payload);
    TrailingGrow(mask);
    NextShown(mask', t);
    DrainWrites(t, n);
  }
}
