/** The ring of packets used by both endpoints (pktbuf.c, pktbuf.h): a
    power-of-two array of slots between two wrapping 32-bit counters. */
module PacketBuffer {
  import opened Words
  import opened Bits

  /** A slot: the sequence number the ring itself reads and writes, and the rest. */
  datatype Slot<T> = Slot(seqnum: uint8, body: T)

  /** The slot an absolute counter falls on: the counter modulo the capacity. */
  function MaskIndex(i: nat, capacity: nat): (slot: nat)
    requires PowerOfTwo(capacity)
    ensures slot < capacity
  {
    Reduce(i, capacity)
  }

  /** mask_index computes it with a mask. */
  lemma MaskIsModulo(i: nat, capacity: nat)
    requires PowerOfTwo(capacity)
    ensures capacity > 0 && And(i, capacity - 1) == MaskIndex(i, capacity)
  {
    MaskIsRemainder(i, capacity);
    ReduceIsRemainder(i, capacity);
  }

  /** Counters less than a turn apart fall on different slots. */
  lemma SameSlot(i: nat, j: nat, capacity: nat)
    requires PowerOfTwo(capacity) && i < j + capacity && j < i + capacity
    requires MaskIndex(i, capacity) == MaskIndex(j, capacity)
    ensures i == j
  {
    ReduceIsRemainder(i, capacity);
    ReduceIsRemainder(j, capacity);
    SameRemainder(i, j, capacity);
  }

  /** A turn later the counter is back on the same slot. */
  lemma NextTurn(i: nat, capacity: nat)
    requires PowerOfTwo(capacity)
    ensures MaskIndex(i + capacity, capacity) == MaskIndex(i, capacity)
  {
    ReduceIsRemainder(i, capacity);
    ReduceIsRemainder(i + capacity, capacity);
    OneTurn(i, capacity);
  }

  /** A 32-bit counter that wraps stays on the same slot as one that does not. */
  lemma WrappedCounter(counter: nat, i: nat, capacity: nat)
    requires PowerOfTwo(capacity) && capacity < TWO32
    ensures MaskIndex(Wrap32(counter) + i, capacity) == MaskIndex(counter + i, capacity)
  {
    var q := DividesWord(capacity);
    ReduceIsRemainder(counter, TWO32);
    ReduceIsRemainder(Wrap32(counter) + i, capacity);
    ReduceIsRemainder(counter + i, capacity);
    NestedRemainder(counter, TWO32, capacity, q);
    RemainderOfSum(Wrap32(counter), i, capacity);
    RemainderOfSum(counter, i, capacity);
  }

  /** Masking the head of the ring before adding an offset changes nothing. */
  lemma MaskedHead(first: nat, offset: nat, capacity: nat)
    requires PowerOfTwo(capacity)
    ensures MaskIndex(MaskIndex(first, capacity) + offset, capacity) == MaskIndex(first + offset, capacity)
  {
    ReduceIsRemainder(first, capacity);
    ReduceIsRemainder(MaskIndex(first, capacity) + offset, capacity);
    ReduceIsRemainder(first + offset, capacity);
    RemainderOfSum(first, offset, capacity);
  }

  /** The slot k places after the counter first. */
  function Position(first: nat, k: nat, capacity: nat): (slot: nat)
    requires PowerOfTwo(capacity)
    ensures slot < capacity
  {
    MaskIndex(first + k, capacity)
  }

  /** n packets of the array h, from the counter first on. */
  ghost function Live<T>(h: seq<Slot<T>>, first: nat, n: nat): (c: seq<Slot<T>>)
    requires PowerOfTwo(|h|)
    ensures |c| == n
  {
    if n == 0 then [] else Live(h, first, n - 1) + [h[Position(first, n - 1, |h|)]]
  }

  lemma {:induction false} LiveAt<T>(h: seq<Slot<T>>, first: nat, n: nat, k: nat)
    requires PowerOfTwo(|h|) && k < n
    ensures Live(h, first, n)[k] == h[Position(first, k, |h|)]
  {
    if k < n - 1 { LiveAt(h, first, n - 1, k); }
  }

  lemma {:induction false} LiveShrinks<T>(h: seq<Slot<T>>, first: uint32, n: nat)
    requires PowerOfTwo(|h|) && |h| < TWO32 && n > 0
    ensures Live(h, Inc32(first), n - 1) == Live(h, first, n)[1..]
  {
    if n > 1 {
      LiveShrinks(h, first, n - 1);
      WrappedCounter(first + 1, n - 2, |h|);
      assert Position(Inc32(first), n - 2, |h|) == Position(first, n - 1, |h|);
    }
  }

  lemma StoredAt<T>(h: seq<Slot<T>>, first: nat, i: nat, k: nat, s: Slot<T>)
    requires PowerOfTwo(|h|) && k < |h| && i < |h|
    ensures h[Position(first, k, |h|) := s][Position(first, i, |h|)]
            == if i == k then s else h[Position(first, i, |h|)]
  {
    if Position(first, i, |h|) == Position(first, k, |h|) {
      SameSlot(first + i, first + k, |h|);
    }
  }

  /** Writing one live slot changes that packet and no other. */
  lemma {:induction false} LiveStore<T>(h: seq<Slot<T>>, first: nat, n: nat, k: nat, s: Slot<T>)
    requires PowerOfTwo(|h|) && k < |h| && n <= |h|
    ensures Live(h[Position(first, k, |h|) := s], first, n)
            == if k < n then Live(h, first, n)[k := s] else Live(h, first, n)
  {
    if n > 0 {
      LiveStore(h, first, n - 1, k, s);
      StoredAt(h, first, n - 1, k, s);
    }
  }

  /** Counting up from first leads to the counter it should. */
  lemma CounterPosition(first: uint32, n: uint32, capacity: nat)
    requires PowerOfTwo(capacity) && capacity < TWO32
    ensures MaskIndex(Add32(first, n), capacity) == Position(first, n, capacity)
  {
    WrappedCounter(first + n, 0, capacity);
  }

  /** The assertion of slotfor_seq lets through one offset too many: the slots of the
      packets before it are all different from its own exactly when it is less than the
      capacity. */
  lemma OffsetBoundTight(first: nat, offset: nat, capacity: nat)
    requires PowerOfTwo(capacity) && 0 < offset <= capacity
    ensures (forall k :: 0 <= k < offset ==> Position(first, k, capacity) != Position(first, offset, capacity))
            <==> offset < capacity
  {
    if offset == capacity {
      NextTurn(first, capacity);
      assert Position(first, 0, capacity) == Position(first, offset, capacity);
    } else {
      forall k | 0 <= k < offset ensures Position(first, k, capacity) != Position(first, offset, capacity) {
        if Position(first, k, capacity) == Position(first, offset, capacity) {
          SameSlot(first + k, first + offset, capacity);
        }
      }
    }
  }

  /** The slot p gets another number. */
  ghost function WithSeqnum<T>(h: seq<Slot<T>>, p: nat, seqnum: uint8): seq<Slot<T>>
    requires p < |h|
  {
    h[p := h[p].(seqnum := seqnum)]
  }

  /** Slots in use once there are at least n. */
  function Filling(used: nat, n: nat): nat {
    if used < n then n else used
  }

  /** The array h after slots were reserved until n are in use, the k-th one numbered
      start + k. */
  ghost function Filled<T>(h: seq<Slot<T>>, first: nat, used: nat, start: uint8, n: nat): (h': seq<Slot<T>>)
    requires PowerOfTwo(|h|)
    ensures |h'| == |h|
    decreases n - used
  {
    if used >= n then h
    else Filled(WithSeqnum(h, Position(first, used, |h|), Wrap8(start + used)), first, used + 1, start, n)
  }

  /** What the live packets become when a request offset places from the head is served:
      the old ones untouched, the reserved ones numbered consecutively. */
  ghost predicate Extended<T>(before: seq<Slot<T>>, after: seq<Slot<T>>, start: uint8, offset: nat) {
    && |after| == Filling(|before|, offset + 1)
    && before <= after
    && forall k :: |before| <= k < |after| ==> after[k].seqnum == Wrap8(start + k)
  }

  /** Within the capacity, filling extends the live packets and changes no body. */
  lemma {:induction false} FilledExtends<T>(h: seq<Slot<T>>, first: nat, used: nat, start: uint8, n: nat)
    requires PowerOfTwo(|h|) && used <= |h| && 0 < n <= |h|
    ensures var h' := Filled(h, first, used, start, n);
            && SameBodies(h, h') && (n <= used ==> h' == h)
            && Extended(Live(h, first, used), Live(h', first, Filling(used, n)), start, n - 1)
    decreases n - used
  {
    if used < n {
      var g := WithSeqnum(h, Position(first, used, |h|), Wrap8(start + used));
      LiveStore(h, first, used, used, g[Position(first, used, |h|)]);
      FilledExtends(g, first, used + 1, start, n);
    }
  }

  /** Reserving the first slot first makes no difference. */
  lemma {:induction false} FilledTwice<T>(h: seq<Slot<T>>, first: nat, used: nat, start: uint8, n: nat)
    requires PowerOfTwo(|h|) && n > 0
    ensures Filled(Filled(h, first, used, start, 1), first, Filling(used, 1), start, n)
            == Filled(h, first, used, start, n)
  {
    if used == 0 {
      assert Filled(h, first, 0, start, 1) == WithSeqnum(h, Position(first, 0, |h|), Wrap8(start + 0));
    }
  }

  /** At the capacity, the slot that is reserved last is that of the oldest packet. */
  lemma {:induction false} FilledOver<T>(h: seq<Slot<T>>, first: nat, used: nat, start: uint8)
    requires PowerOfTwo(|h|) && used <= |h|
    ensures Filled(h, first, used, start, |h| + 1)
            == WithSeqnum(Filled(h, first, used, start, |h|), Position(first, 0, |h|), Wrap8(start + |h|))
    decreases |h| - used
  {
    if used < |h| {
      FilledOver(WithSeqnum(h, Position(first, used, |h|), Wrap8(start + used)), first, used + 1, start);
    } else {
      NextTurn(first, |h|);
    }
  }

  class PktBuf<T(0)> {
    const capacity: nat
    const head: array<Slot<T>>
    var first: uint32
    var last: uint32

    ghost predicate Valid()
      reads this
    {
      && PowerOfTwo(capacity) && 0 < capacity <= 0x7fff_ffff
      && head.Length == capacity
      && Used() <= capacity
    }

    /** Besides, a ring may hold one reserved slot too many: the last offset that
        slotfor_seq lets through is the capacity itself. */
    ghost predicate Shaped()
      reads this
    {
      && PowerOfTwo(capacity) && 0 < capacity <= 0x7fff_ffff
      && head.Length == capacity
      && Used() <= capacity + 1
    }

    /** pktbuf_used */
    function Used(): uint32
      reads this
    {
      Sub32(last, first)
    }

    /** pktbuf_empty */
    predicate Empty()
      reads this
      ensures Empty() <==> Used() == 0
    {
      first == last
    }

    /** pktbuf_full */
    predicate Full()
      reads this
    {
      Used() >= capacity
    }

    /** The physical slot of the k-th live packet. */
    ghost function Phys(k: nat): (slot: nat)
      reads this
      requires Shaped()
      ensures slot < head.Length
    {
      Position(first, k, capacity)
    }

    /** The live packets, oldest first. */
    ghost function Contents(): (c: seq<Slot<T>>)
      reads this, head
      requires Valid()
      ensures |c| == Used()
    {
      Live(head[..], first, Used())
    }

    /** Reading a live packet through its slot. */
    lemma SlotContent(k: nat)
      requires Valid() && k < Used()
      ensures head[Phys(k)] == Contents()[k]
    {
      LiveAt(head[..], first, Used(), k);
    }

    /** pktbuf_new: cleared slots, both counters zero. */
    constructor (capacity: nat, blank: T)
      requires Popcount(capacity) == 1 && capacity <= 0x7fff_ffff
      ensures Valid() && fresh(head) && this.capacity == capacity
      ensures first == 0 && last == 0 && Contents() == []
      ensures forall p :: 0 <= p < capacity ==> head[p] == Slot(0, blank)
    {
      PopcountOne(capacity);
      this.capacity := capacity;
      head := new Slot<T>[capacity](_ => Slot(0, blank));
      first, last := 0, 0;
    }

    /** The macro mask_index. */
    method Mask(i: nat) returns (slot: nat)
      requires Shaped()
      ensures slot == MaskIndex(i, capacity)
    {
      MaskIsModulo(i, capacity);
      slot := And(i, capacity - 1);
    }

    /** pktbuf_enqueue: reserves the next slot, whose content stays what it was. In a
        full ring, which only an assertion of the debug build rejects, that is the slot
        of the oldest packet. */
    method Enqueue() returns (slot: nat)
      requires Valid()
      modifies this`last
      ensures Shaped() && last == Inc32(old(last)) && Used() == old(Used()) + 1
      ensures slot == Phys(old(Used())) == MaskIndex(old(last), capacity)
      ensures !old(Full()) ==> Valid() && Contents() == old(Contents()) + [head[slot]]
      ensures old(Full()) ==> slot == Phys(0)
    {
      CounterPosition(first, Used(), capacity);
      if Used() == capacity { NextTurn(first, capacity); }
      slot := Mask(last);
      last := Inc32(last);
    }

    /** pktbuf_dequeue: releases the oldest packet and leaves its bytes in place. */
    method Dequeue() returns (slot: nat)
      requires Valid() && !Empty()
      modifies this`first
      ensures Valid() && first == Inc32(old(first)) && Used() == old(Used()) - 1
      ensures slot == old(Phys(0))
      ensures Contents() == old(Contents())[1..]
    {
      LiveShrinks(head[..], first, Used());
      slot := Mask(first);
      first := Inc32(first);
    }

    /** pktbuf_first: the oldest packet, or -1 (NULL) when there is none. */
    method First() returns (slot: int)
      requires Valid()
      ensures slot == if Used() == 0 then -1 else Phys(0)
    {
      if Empty() { return -1; }
      slot := Mask(first);
    }

    /** pktbuf_last: the newest packet, or -1 (NULL) when there is none. */
    method Last() returns (slot: int)
      requires Valid()
      ensures slot == if Used() == 0 then -1 else Phys(Used() - 1)
    {
      if Empty() { return -1; }
      CounterPosition(first, Used() - 1, capacity);
      slot := Mask(Sub32(last, 1));
    }

    /** pktbuf_at: indexes the array itself, not the live packets; -1 when its
        assertion stops the process. */
    method At(idx: uint32) returns (slot: int)
      requires Valid()
      ensures slot == if MaskIndex(idx, capacity) < Used() then MaskIndex(idx, capacity) else -1
      ensures forall k :: 0 <= k < Used() && idx == Add32(first, k) ==>
                slot == if Phys(k) < Used() then Phys(k) else -1
    {
      forall k | 0 <= k < Used() && idx == Add32(first, k) ensures MaskIndex(idx, capacity) == Phys(k) {
        CounterPosition(first, k, capacity);
      }
      slot := Mask(idx);
      if slot >= Used() { return -1; }
    }

    /** Writes the k-th live packet through the pointer its slot stands for. */
    method Store(slot: nat, s: Slot<T>, ghost k: nat)
      requires Valid() && k < Used() && slot == Phys(k)
      modifies head
      ensures Contents() == old(Contents())[k := s]
      ensures head[..] == old(head[..])[slot := s]
    {
      LiveStore(head[..], first, Used(), k, s);
      head[slot] := s;
    }

    /** pktbuf_enqueue(buf)->seq = seqnum */
    method Reserve(seqnum: uint8)
      requires Valid()
      modifies this`last, head
      ensures Shaped() && Used() == old(Used()) + 1
      ensures head[..] == WithSeqnum(old(head[..]), Phys(old(Used())), seqnum)
    {
      var slot := Enqueue();
      head[slot] := head[slot].(seqnum := seqnum);
    }

    /** The extending loop of pktbuf_slotfor_seq. */
    method ExtendTo(firstSeq: uint8, offset: nat)
      requires Shaped() && offset <= capacity
      modifies this`last, head
      ensures Shaped() && Used() == Filling(old(Used()), offset + 1)
      ensures head[..] == Filled(old(head[..]), first, old(Used()), firstSeq, offset + 1)
      ensures offset < old(Used()) ==> last == old(last)
    {
      while !(offset < Used())
        invariant Shaped() && old(Used()) <= Used() <= Filling(old(Used()), offset + 1)
        invariant Filled(head[..], first, Used(), firstSeq, offset + 1)
                  == Filled(old(head[..]), first, old(Used()), firstSeq, offset + 1)
        invariant offset < old(Used()) ==> last == old(last)
        decreases offset + 1 - Used()
      {
        Reserve(Wrap8(firstSeq + Used()));
      }
    }

    /** The number of the first slot when slotfor_seq looks at it. */
    ghost function FirstSeq(seqnum: uint8): uint8
      reads this, head
      requires Shaped()
    {
      if Used() == 0 then seqnum else head[Phys(0)].seqnum
    }

    /** pktbuf_slotfor_seq: the slot as many places from the head as the number is from
        the first one, after reserving what is missing; -1 when the assertion stops the
        process. */
    method SlotFor(seqnum: uint8) returns (slot: int)
      requires Shaped()
      modifies this`last, head
      ensures Shaped()
      ensures var start := old(FirstSeq(seqnum));
              var offset := Wrap8(seqnum - start);
              if offset > capacity then slot == -1 && last == old(last) && head[..] == old(head[..])
              else slot == Phys(offset) && Used() == Filling(old(Used()), offset + 1)
                   && head[..] == Filled(old(head[..]), first, old(Used()), start, offset + 1)
                   && (offset < old(Used()) ==> last == old(last))
    {
      ReserveFirst(seqnum);
      var firstItem := Mask(first);
      var firstSeq := head[firstItem].seqnum;
      var offset := Wrap8(seqnum - firstSeq);
      if offset > capacity { return -1; }
      FilledTwice(old(head[..]), first, old(Used()), firstSeq, offset + 1);
      ExtendTo(firstSeq, offset);
      MaskedHead(first, offset, capacity);
      slot := Mask(firstItem + offset);
    }

    /** An empty ring gets its first slot. */
    method ReserveFirst(seqnum: uint8)
      requires Shaped()
      modifies this`last, head
      ensures Shaped() && Used() == Filling(old(Used()), 1) && FirstSeq(seqnum) == old(FirstSeq(seqnum))
      ensures head[..] == Filled(old(head[..]), first, old(Used()), seqnum, 1)
      ensures old(Used()) > 0 ==> last == old(last) && head[..] == old(head[..])
    {
      if Empty() {
        Reserve(seqnum);
      }
    }

    /** Within the capacity: live packets untouched, the reserved ones numbered
        consecutively, no body changed, and nothing at all changed for a live packet. */
    method SlotWithin(seqnum: uint8, ghost start: uint8, ghost offset: nat) returns (slot: nat)
      requires Valid() && start == (if Used() == 0 then seqnum else Contents()[0].seqnum)
      requires offset == Wrap8(seqnum - start) && offset < capacity
      modifies this`last, head
      ensures Valid() && slot == Phys(offset) && offset < Used()
      ensures Extended(old(Contents()), Contents(), start, offset)
      ensures SameBodies(old(head[..]), head[..])
      ensures offset < old(Used()) ==> last == old(last) && head[..] == old(head[..])
    {
      if Used() > 0 { SlotContent(0); }
      FilledExtends(head[..], first, Used(), start, offset + 1);
      slot := SlotFor(seqnum);
    }
  }

  /** Only sequence-number fields may differ. */
  ghost predicate SameBodies<T>(h: seq<Slot<T>>, h': seq<Slot<T>>) {
    |h| == |h'| && forall p :: 0 <= p < |h| ==> h'[p].body == h[p].body
  }
}
