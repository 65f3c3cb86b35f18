/** How the ring and the 8-bit numbers of the sender stand for a model state. */
module SenderView {
  import opened Words
  import opened Options
  import opened Seqnum
  import opened Bits
  import opened Codec
  import opened PacketBuffer
  import opened SenderModel

  /** The slot p of the ring after |chunks| enqueues: the last chunk that fell on it. */
  ghost predicate SlotsHold(h: seq<Slot<Image>>, chunks: seq<Bytes>)
    requires ChunkSizes(chunks) && PowerOfTwo(|h|)
  {
    && (forall j :: 0 <= j < |chunks| && |chunks| - |h| <= j ==>
          h[MaskIndex(j, |h|)] == ChunkSlot(chunks, j))
    && (forall p :: |chunks| <= p < |h| ==> h[p] == Slot(0, Blank))
  }

  /** The ring holds the chunks from ack on, and its counters count chunks. */
  ghost predicate RingState(capacity: nat, h: seq<Slot<Image>>, first: uint32, last: uint32, used: nat, s: Sender) {
    && Bounded(s, capacity) && |h| == capacity
    && first == Wrap32(s.ack) && last == Wrap32(|s.chunks|) && used == |s.chunks| - s.ack
    && SlotsHold(h, s.chunks)
  }

  /** The other variables stand for the model state. */
  ghost predicate Counters(lastAck: uint8, lastSent: uint8, lastChunkRead: uint8, lastWin: uint8, dupAck: uint8,
                           retryCount: nat, lastInRead: int, pollFile: bool, s: Sender) {
    && lastAck == Wrap8(s.ack) && lastSent == Wrap8(s.sent - 1) && lastChunkRead == Wrap8(|s.chunks| - 1)
    && lastWin == s.win && dupAck == s.dup && retryCount == s.retry && pollFile == s.pollInput
    && lastInRead == (if s.chunks == [] then -1 else |s.chunks[|s.chunks| - 1]|)
  }

  /** Releasing the oldest packet. */
  lemma RingReleased(capacity: nat, h: seq<Slot<Image>>, first: uint32, last: uint32, used: nat, s: Sender)
    requires RingState(capacity, h, first, last, used, s) && ValidSender(s, capacity) && s.ack < s.sent
    ensures used > 0 && RingState(capacity, h, Inc32(first), last, used - 1, s.(ack := s.ack + 1))
    ensures ValidSender(s.(ack := s.ack + 1), capacity)
  {
    CounterStep(s.ack);
  }

  lemma CountersReleased(lastAck: uint8, lastSent: uint8, lastChunkRead: uint8, lastWin: uint8, dupAck: uint8,
                         retryCount: nat, lastInRead: int, pollFile: bool, s: Sender)
    requires Counters(lastAck, lastSent, lastChunkRead, lastWin, dupAck, retryCount, lastInRead, pollFile, s)
    ensures Counters(Wrap8(lastAck + 1), lastSent, lastChunkRead, lastWin, dupAck, retryCount, lastInRead, pollFile,
                     s.(ack := s.ack + 1))
  {
    CounterStep(s.ack);
  }

  lemma CountersSent(lastAck: uint8, lastSent: uint8, lastChunkRead: uint8, lastWin: uint8, dupAck: uint8,
                     retryCount: nat, lastInRead: int, pollFile: bool, s: Sender)
    requires Counters(lastAck, lastSent, lastChunkRead, lastWin, dupAck, retryCount, lastInRead, pollFile, s)
    ensures Wrap8(lastSent + 1) == Wrap8(s.sent)
    ensures Counters(lastAck, Wrap8(lastSent + 1), lastChunkRead, lastWin, dupAck, retryCount, lastInRead, pollFile,
                     s.(sent := s.sent + 1))
  {
    CounterStep(s.sent);
  }

  lemma CountersRead(lastAck: uint8, lastSent: uint8, lastChunkRead: uint8, lastWin: uint8, dupAck: uint8,
                     retryCount: nat, lastInRead: int, pollFile: bool, s: Sender, data: Bytes)
    requires Counters(lastAck, lastSent, lastChunkRead, lastWin, dupAck, retryCount, lastInRead, pollFile, s)
    ensures Wrap8(lastChunkRead + 1) == Wrap8(|s.chunks|)
    ensures Counters(lastAck, lastSent, Wrap8(lastChunkRead + 1), lastWin, dupAck, retryCount, |data|, pollFile,
                     InputRead(s, data))
  {
    CounterStep(|s.chunks|);
  }

  /** The live packets that a ring holds for a state. */
  ghost function Buffered(s: Sender): (c: seq<Slot<Image>>)
    requires ChunkSizes(s.chunks) && s.ack <= |s.chunks|
    ensures |c| == |s.chunks| - s.ack
    ensures forall i :: 0 <= i < |c| ==> c[i] == ChunkSlot(s.chunks, s.ack + i)
  {
    seq(|s.chunks| - s.ack, i requires 0 <= i < |s.chunks| - s.ack => ChunkSlot(s.chunks, s.ack + i))
  }

  lemma BufferedMore(s: Sender, data: Bytes)
    requires ChunkSizes(s.chunks) && s.ack <= |s.chunks| && |data| <= MAX_PAYLOAD_SIZE
    ensures Buffered(InputRead(s, data))
            == Buffered(s) + [Slot(Wrap8(|s.chunks|), Encoded(Packet(1, false, 0, Wrap8(|s.chunks|), |data|,
                                                                     [0xef, 0xbe, 0xad, 0xde], data)))]
  {
  }

  lemma BufferedFrom(s: Sender, target: nat)
    requires ChunkSizes(s.chunks) && s.ack <= target <= |s.chunks|
    ensures Buffered(s.(ack := target)) == Buffered(s)[target - s.ack..]
  {
  }

  /** Every slot below the number of enqueues is held by one chunk of the last turn. */
  lemma Occupant(p: nat, read: nat, capacity: nat) returns (j: nat)
    requires PowerOfTwo(capacity) && p < read
    ensures read - capacity <= j < read && MaskIndex(j, capacity) == MaskIndex(p, capacity)
    decreases read - p
  {
    if p + capacity < read {
      NextTurn(p, capacity);
      PositiveCapacity(capacity);
      j := Occupant(p + capacity, read, capacity);
    } else {
      j := p;
    }
  }

  lemma PositiveCapacity(capacity: nat)
    requires PowerOfTwo(capacity)
    ensures capacity > 0
  {
  }

  /** Slots of the first turn are numbered like their indices. */
  lemma FirstTurn(p: nat, capacity: nat)
    requires PowerOfTwo(capacity) && p < capacity
    ensures MaskIndex(p, capacity) == p
  {
  }

  /** What a slot about to be reused holds. */
  lemma StaleSlot(h: seq<Slot<Image>>, chunks: seq<Bytes>, j: nat)
    requires ChunkSizes(chunks) && PowerOfTwo(|h|) && SlotsHold(h, chunks)
    requires |chunks| <= j < |chunks| + |h|
    ensures h[MaskIndex(j, |h|)].body == StaleImage(chunks, |h|, j)
  {
    if j < |h| {
      FirstTurn(j, |h|);
    } else {
      NextTurn(j - |h|, |h|);
    }
  }

  /** Filling the next slot with the next chunk. */
  lemma SlotsHoldNext(h: seq<Slot<Image>>, chunks: seq<Bytes>, data: Bytes)
    requires ChunkSizes(chunks) && |data| <= MAX_PAYLOAD_SIZE && PowerOfTwo(|h|) && SlotsHold(h, chunks)
    ensures ChunkSizes(chunks + [data])
    ensures SlotsHold(h[MaskIndex(|chunks|, |h|) := ChunkSlot(chunks + [data], |chunks|)], chunks + [data])
  {
    var more, n := chunks + [data], |chunks|;
    var h' := h[MaskIndex(n, |h|) := ChunkSlot(more, n)];
    forall j | 0 <= j < |more| && |more| - |h| <= j
      ensures h'[MaskIndex(j, |h|)] == ChunkSlot(more, j)
    {
      if j < n && MaskIndex(j, |h|) == MaskIndex(n, |h|) { SameSlot(j, n, |h|); }
    }
    if n < |h| { FirstTurn(n, |h|); }
  }

  /** Among the chunks the ring may still hold, an accepted number names one. */
  lemma AcceptedIndex(s: Sender, capacity: nat, nack: uint8, j: nat)
    requires ValidSender(s, capacity) && InWindow(nack, Wrap8(s.ack), s.sent - s.ack)
    requires |s.chunks| - capacity <= j < |s.chunks|
    ensures Wrap8(j) == nack <==> j == IndexOf(s, nack)
  {
    DistanceInverse(nack, s.ack);
    if Wrap8(j) == nack { SameByte(j, IndexOf(s, nack)); }
  }

  /** A scanned slot that carries an accepted number is that live packet. */
  lemma ScannedSlot(h: seq<Slot<Image>>, s: Sender, nack: uint8, p: nat)
    requires PowerOfTwo(|h|) && ValidSender(s, |h|) && SlotsHold(h, s.chunks)
    requires InWindow(nack, Wrap8(s.ack), s.sent - s.ack)
    requires p < |s.chunks| - s.ack && h[p].seqnum == nack
    ensures var j := IndexOf(s, nack); NackFound(s, |h|, j) && h[p] == ChunkSlot(s.chunks, j)
  {
    FirstTurn(p, |h|);
    var j := Occupant(p, |s.chunks|, |h|);
    AcceptedIndex(s, |h|, nack, j);
  }

  /** A scan that finds nothing had nothing to find. */
  lemma NothingScanned(h: seq<Slot<Image>>, s: Sender, nack: uint8)
    requires PowerOfTwo(|h|) && ValidSender(s, |h|) && SlotsHold(h, s.chunks)
    requires InWindow(nack, Wrap8(s.ack), s.sent - s.ack)
    requires forall p :: 0 <= p < |s.chunks| - s.ack ==> h[p].seqnum != nack
    ensures !NackFound(s, |h|, IndexOf(s, nack))
  {
    var j := IndexOf(s, nack);
    if NackFound(s, |h|, j) {
      AcceptedIndex(s, |h|, nack, j);
    }
  }

  /** The slots during go-back-n, k packets resent: the chunks, then the slots that
      slotfor_seq reserved, then stale ones. */
  ghost predicate ResendingSlots(h: seq<Slot<Image>>, first: nat, used: nat, s: Sender, k: nat)
    requires PowerOfTwo(|h|) && Bounded(s, |h|)
  {
    var u := |s.chunks| - s.ack;
    && 0 < u && k <= |h| && used == (if k <= u then u else k)
    && (forall i :: 0 <= i < used ==> Live(h, first, used)[i] == Emission(s.chunks, |h|, s.ack + i))
    && (forall i {:trigger h[Position(first, i, |h|)]} :: used <= i < |h| ==>
          h[Position(first, i, |h|)].body == StaleImage(s.chunks, |h|, s.ack + i))
  }

  ghost predicate ResendingState(capacity: nat, h: seq<Slot<Image>>, first: uint32, used: nat, s: Sender, k: nat) {
    Bounded(s, capacity) && |h| == capacity && first == Wrap32(s.ack) && ResendingSlots(h, first, used, s, k)
  }

  /** The ring once the first slot has been numbered anew: one slot too many is in use. */
  ghost predicate OverfullState(capacity: nat, h: seq<Slot<Image>>, first: uint32, used: nat, s: Sender) {
    && Bounded(s, capacity) && |h| == capacity && first == Wrap32(s.ack) && s.ack < |s.chunks|
    && used == capacity + 1
    && forall i {:trigger h[Position(first, i, |h|)]} :: 0 < i <= capacity ==>
         h[Position(first, i, |h|)] == Emission(s.chunks, |h|, s.ack + i)
  }

  /** The ring at turn k of go-back-n. */
  ghost predicate TurnState(capacity: nat, h: seq<Slot<Image>>, first: uint32, used: nat, s: Sender, k: nat) {
    && (k <= capacity ==> ResendingState(capacity, h, first, used, s, k))
    && (k > capacity ==> OverfullState(capacity, h, first, used, s))
  }

  /** What k turns of go-back-n send. */
  ghost function TurnsSent(s: Sender, capacity: nat, k: nat): seq<Slot<Image>>
    requires ChunkSizes(s.chunks) && s.ack < |s.chunks|
    requires k <= 2 * capacity + 1
  {
    Emissions(s.chunks, capacity, Turns(s.ack, capacity, k))
  }

  lemma TurnsSentNext(s: Sender, capacity: nat, k: nat)
    requires ChunkSizes(s.chunks) && s.ack < |s.chunks| && k <= 2 * capacity
    ensures TurnsSent(s, capacity, k + 1)
            == TurnsSent(s, capacity, k) + [Emission(s.chunks, capacity, Turn(s.ack, capacity, k))]
    ensures TurnsSent(s, capacity, 0) == []
  {
  }

  /** Within the capacity the turns are the packets in order. */
  lemma TurnsInOrder(s: Sender, capacity: nat, k: nat)
    requires ChunkSizes(s.chunks) && s.ack < |s.chunks| && k <= capacity
    ensures TurnsSent(s, capacity, k) == Emissions(s.chunks, capacity, Range(s.ack, s.ack + k))
  {
    assert Turns(s.ack, capacity, k) == Range(s.ack, s.ack + k);
  }

  /** What went out, and the ring before: unchanged as long as only chunks were resent. */
  ghost predicate Resent(capacity: nat, h: seq<Slot<Image>>, last: uint32, wire: seq<Slot<Image>>, s: Sender, k: nat,
                         w0: seq<Slot<Image>>, last0: uint32, h0: seq<Slot<Image>>) {
    && Bounded(s, capacity) && |h0| == capacity && s.ack < |s.chunks| && k <= 2 * capacity + 1
    && last0 == Wrap32(|s.chunks|) && SlotsHold(h0, s.chunks)
    && wire == w0 + TurnsSent(s, capacity, k)
    && (s.ack + k <= |s.chunks| ==> last == last0 && h == h0)
  }

  lemma StartResending(h: seq<Slot<Image>>, first: nat, s: Sender)
    requires PowerOfTwo(|h|) && |h| < TWO32 && Bounded(s, |h|) && SlotsHold(h, s.chunks)
    requires first == Wrap32(s.ack) && s.ack < |s.chunks|
    ensures ResendingSlots(h, first, |s.chunks| - s.ack, s, 0)
  {
    var u := |s.chunks| - s.ack;
    forall i | 0 <= i < u
      ensures Live(h, first, u)[i] == Emission(s.chunks, |h|, s.ack + i)
    {
      BufferedSlot(h, first, s, i);
    }
    forall i | u <= i < |h|
      ensures h[Position(first, i, |h|)].body == StaleImage(s.chunks, |h|, s.ack + i)
    {
      FreeSlot(h, first, s, i);
    }
  }

  lemma BufferedSlot(h: seq<Slot<Image>>, first: nat, s: Sender, i: nat)
    requires PowerOfTwo(|h|) && |h| < TWO32 && Bounded(s, |h|) && SlotsHold(h, s.chunks)
    requires first == Wrap32(s.ack) && s.ack + i < |s.chunks|
    ensures Live(h, first, |s.chunks| - s.ack)[i] == Emission(s.chunks, |h|, s.ack + i)
  {
    WrappedCounter(s.ack, i, |h|);
    LiveAt(h, first, |s.chunks| - s.ack, i);
  }

  lemma FreeSlot(h: seq<Slot<Image>>, first: nat, s: Sender, i: nat)
    requires PowerOfTwo(|h|) && |h| < TWO32 && Bounded(s, |h|) && SlotsHold(h, s.chunks)
    requires first == Wrap32(s.ack) && |s.chunks| - s.ack <= i < |h|
    ensures h[Position(first, i, |h|)].body == StaleImage(s.chunks, |h|, s.ack + i)
  {
    WrappedCounter(s.ack, i, |h|);
    StaleSlot(h, s.chunks, s.ack + i);
  }

  lemma ResentSlots(h: seq<Slot<Image>>, h': seq<Slot<Image>>, first: nat, used: nat, used': nat, s: Sender, k: nat)
    requires PowerOfTwo(|h|) && Bounded(s, |h|) && ResendingSlots(h, first, used, s, k) && k < |h|
    requires SameBodies(h, h')
    requires Extended(Live(h, first, used), Live(h', first, used'), Wrap8(s.ack), k)
    ensures ResendingSlots(h', first, used', s, k + 1)
    ensures Live(h', first, used')[k] == Emission(s.chunks, |h|, s.ack + k)
  {
    forall i | 0 <= i < used' ensures Live(h', first, used')[i] == Emission(s.chunks, |h|, s.ack + i) {
      ResentSlot(h, h', first, used, used', s, k, i);
    }
  }

  lemma ResentSlot(h: seq<Slot<Image>>, h': seq<Slot<Image>>, first: nat, used: nat, used': nat, s: Sender, k: nat,
                   i: nat)
    requires PowerOfTwo(|h|) && Bounded(s, |h|) && ResendingSlots(h, first, used, s, k) && k < |h|
    requires SameBodies(h, h') && i < used'
    requires Extended(Live(h, first, used), Live(h', first, used'), Wrap8(s.ack), k)
    ensures Live(h', first, used')[i] == Emission(s.chunks, |h|, s.ack + i)
  {
    Wrap8Sum(s.ack, k);
    if i < used {
      assert Live(h', first, used')[i] == Live(h, first, used)[i];
    } else {
      LiveAt(h', first, used', k);
    }
  }

  /** What slotfor_seq makes of the ring, given the number of the first slot. */
  ghost function Served(h: seq<Slot<Image>>, first: nat, used: nat, start: uint8, offset: nat): seq<Slot<Image>>
    requires PowerOfTwo(|h|)
  {
    Filled(h, first, used, start, offset + 1)
  }

  /** A turn before the capacity: the k-th packet after the oldest one. */
  lemma TurnWithin(capacity: nat, h: seq<Slot<Image>>, first: uint32, used: nat, s: Sender, k: nat)
    requires ResendingState(capacity, h, first, used, s, k) && k < capacity
    ensures var h' := Served(h, first, used, Wrap8(s.ack), k);
            && ResendingState(capacity, h', first, Filling(used, k + 1), s, k + 1)
            && h'[Position(first, k, capacity)] == Emission(s.chunks, capacity, s.ack + k)
            && (s.ack + k < |s.chunks| ==> k < used && h' == h)
  {
    FilledExtends(h, first, used, Wrap8(s.ack), k + 1);
    var h' := Served(h, first, used, Wrap8(s.ack), k);
    ResentSlots(h, h', first, used, Filling(used, k + 1), s, k);
    LiveAt(h', first, Filling(used, k + 1), k);
  }

  /** The turn at the capacity numbers the slot of the oldest packet anew. */
  lemma TurnAtCapacity(h: seq<Slot<Image>>, first: uint32, used: nat, s: Sender)
    requires ResendingState(|h|, h, first, used, s, |h|)
    ensures var h' := Served(h, first, used, Wrap8(s.ack), |h|);
            && OverfullState(|h|, h', first, |h| + 1, s)
            && used == |h|
  {
    CapacityReached(h, first, used, s);
    ServedOver(h, first, Wrap8(s.ack));
    var h' := Served(h, first, used, Wrap8(s.ack), |h|);
    forall i | 0 < i <= |h| ensures h'[Position(first, i, |h|)] == Emission(s.chunks, |h|, s.ack + i) {
      OverfullSlot(h, first, s, i);
    }
  }

  lemma CapacityReached(h: seq<Slot<Image>>, first: uint32, used: nat, s: Sender)
    requires ResendingState(|h|, h, first, used, s, |h|)
    ensures used == |h| && s.ack < |s.chunks|
  {
  }

  lemma ServedOver(h: seq<Slot<Image>>, first: nat, start: uint8)
    requires PowerOfTwo(|h|)
    ensures Served(h, first, |h|, start, |h|) == WithSeqnum(h, Position(first, 0, |h|), Wrap8(start + |h|))
  {
    FilledOver(h, first, |h|, start);
  }

  /** One slot of the ring after that. */
  lemma OverfullSlot(h: seq<Slot<Image>>, first: uint32, s: Sender, i: nat)
    requires ResendingState(|h|, h, first, |h|, s, |h|) && 0 < i <= |h|
    ensures WithSeqnum(h, Position(first, 0, |h|), Wrap8(Wrap8(s.ack) + |h|))[Position(first, i, |h|)]
            == Emission(s.chunks, |h|, s.ack + i)
  {
    if i < |h| {
      OtherSlot(h, first, i, Wrap8(Wrap8(s.ack) + |h|));
      LiveAt(h, first, |h|, i);
    } else {
      OverwrittenSlot(h, first, s);
    }
  }

  lemma OtherSlot(h: seq<Slot<Image>>, first: nat, i: nat, seqnum: uint8)
    requires PowerOfTwo(|h|) && 0 < i < |h|
    ensures WithSeqnum(h, Position(first, 0, |h|), seqnum)[Position(first, i, |h|)] == h[Position(first, i, |h|)]
  {
    if Position(first, i, |h|) == Position(first, 0, |h|) { SameSlot(first + i, first + 0, |h|); }
  }

  lemma OverwrittenSlot(h: seq<Slot<Image>>, first: uint32, s: Sender)
    requires ResendingState(|h|, h, first, |h|, s, |h|)
    ensures WithSeqnum(h, Position(first, 0, |h|), Wrap8(Wrap8(s.ack) + |h|))[Position(first, |h|, |h|)]
            == Emission(s.chunks, |h|, s.ack + |h|)
  {
    Wrap8Sum(s.ack, |h|);
    NextTurn(first, |h|);
    LiveAt(h, first, |h|, 0);
  }

  /** The turns after that leave the ring alone. */
  lemma TurnPast(capacity: nat, h: seq<Slot<Image>>, first: uint32, used: nat, s: Sender, start: uint8, i: nat)
    requires OverfullState(capacity, h, first, used, s) && 0 < i
    ensures i <= capacity ==>
              && Served(h, first, used, start, i) == h && Filling(used, i + 1) == used
              && h[Position(first, i, capacity)] == Emission(s.chunks, capacity, s.ack + i)
  {
  }

  /** The number of the first slot at turn k. */
  lemma TurnStart(capacity: nat, h: seq<Slot<Image>>, first: uint32, used: nat, s: Sender, k: nat)
    requires TurnState(capacity, h, first, used, s, k) && k <= 2 * capacity + 1
    ensures used > 0
    ensures h[Position(first, 0, capacity)].seqnum == Wrap8(if k <= capacity then s.ack else s.ack + capacity)
    ensures Wrap8(Wrap8(s.ack + k) - h[Position(first, 0, capacity)].seqnum)
            == if k <= capacity then k else k - capacity
  {
    if k <= capacity {
      LiveAt(h, first, used, 0);
      WindowTestExact(s.ack + k, s.ack, 0);
    } else {
      NextTurn(first, capacity);
      assert h[Position(first, capacity, capacity)].seqnum == Wrap8(s.ack + capacity);
      WindowTestExact(s.ack + k, s.ack + capacity, 0);
    }
  }

  /** One turn: what slotfor_seq returns, and the ring it leaves. It stops the process
      at the turn after twice the capacity, and not before. */
  lemma TurnStep(capacity: nat, h: seq<Slot<Image>>, first: uint32, used: nat, s: Sender, k: nat,
                 start: uint8, offset: nat)
    requires TurnState(capacity, h, first, used, s, k) && k <= 2 * capacity + 1 && s.ack < |s.chunks|
    requires start == h[Position(first, 0, capacity)].seqnum && offset == Wrap8(Wrap8(s.ack + k) - start)
    ensures used > 0 && (offset > capacity <==> k == 2 * capacity + 1)
    ensures offset <= capacity ==>
              var h' := Served(h, first, used, start, offset);
              && TurnState(capacity, h', first, Filling(used, offset + 1), s, k + 1)
              && h'[Position(first, offset, capacity)] == Emission(s.chunks, capacity, Turn(s.ack, capacity, k))
    ensures s.ack + k < |s.chunks| ==> offset < used && Served(h, first, used, start, offset) == h
  {
    TurnStart(capacity, h, first, used, s, k);
    if k < capacity {
      TurnWithin(capacity, h, first, used, s, k);
    } else if k == capacity {
      TurnAtCapacity(h, first, used, s);
    } else {
      TurnPast(capacity, h, first, used, s, start, offset);
    }
  }

  /** The uint8_t last_sent - last_ack + 1 is the number of packets in flight. */
  lemma InFlight(ack: nat, sent: nat)
    requires ack <= sent <= ack + 255
    ensures Wrap8(Wrap8(sent - 1) - Wrap8(ack) + 1) == sent - ack
    ensures Wrap8(Wrap8(sent - 1) + 1 - Wrap8(ack)) == sent - ack
  {
    Wrap8Sum(sent - 1, 1 - Wrap8(ack));
    Wrap8Sum(ack, sent);
  }

  /** An accepted number is that of the oldest packet only at distance 0. */
  lemma SameNumber(s: Sender, seqnum: uint8)
    ensures Wrap8(s.ack) == seqnum <==> IndexOf(s, seqnum) == s.ack
  {
    DistanceInverse(seqnum, s.ack);
  }

  /** The two conditions of the loop of do_send_sbuf, on the 8-bit variables. */
  lemma Unsent(s: Sender)
    requires s.ack <= s.sent <= |s.chunks| <= s.ack + 255
    ensures Wrap8(s.sent - 1) == Wrap8(|s.chunks| - 1) <==> s.sent == |s.chunks|
    ensures Wrap8(Wrap8(s.sent - 1) + 1 - Wrap8(s.ack)) == s.sent - s.ack
  {
    InFlight(s.ack, s.sent);
    if Wrap8(s.sent - 1) == Wrap8(|s.chunks| - 1) { SameByte(s.sent - 1, |s.chunks| - 1); }
  }

  lemma FewEmissions(s: Sender, capacity: nat)
    requires ChunkSizes(s.chunks)
    ensures Emissions(s.chunks, capacity, []) == []
    ensures s.ack < |s.chunks| ==> Emissions(s.chunks, capacity, [s.ack]) == [ChunkSlot(s.chunks, s.ack)]
  {
  }

  /** One more packet emitted, in order. */
  lemma EmissionsNext(chunks: seq<Bytes>, capacity: nat, a: nat, b: nat)
    requires ChunkSizes(chunks) && a <= b < |chunks| + capacity
    ensures Emissions(chunks, capacity, Range(a, b + 1))
            == Emissions(chunks, capacity, Range(a, b)) + [Emission(chunks, capacity, b)]
    ensures Emissions(chunks, capacity, Range(a, a)) == []
  {
  }

  /** do_send_sbuf on its way from the state m to s. */
  ghost predicate Sending(m: Sender, s: Sender, capacity: nat, w0: seq<Slot<Image>>, wire: seq<Slot<Image>>) {
    && Bounded(m, capacity) && s == m.(sent := s.sent) && m.sent <= s.sent <= m.sent + Sendable(m)
    && wire == w0 + Emissions(m.chunks, capacity, Range(m.sent, s.sent))
  }

  lemma SendingNext(m: Sender, s: Sender, capacity: nat, w0: seq<Slot<Image>>, wire: seq<Slot<Image>>)
    requires Sending(m, s, capacity, w0, wire) && s.sent < m.sent + Sendable(m)
    ensures Sending(m, s.(sent := s.sent + 1), capacity, w0, wire + [ChunkSlot(s.chunks, s.sent)])
  {
    EmissionsNext(m.chunks, capacity, m.sent, s.sent);
  }

  lemma ResentNext(capacity: nat, h: seq<Slot<Image>>, h': seq<Slot<Image>>, last: uint32, last': uint32,
                   wire: seq<Slot<Image>>, wire': seq<Slot<Image>>, s: Sender, k: nat,
                   w0: seq<Slot<Image>>, last0: uint32, h0: seq<Slot<Image>>)
    requires Resent(capacity, h, last, wire, s, k, w0, last0, h0) && k <= 2 * capacity
    requires wire' == wire + [Emission(s.chunks, capacity, Turn(s.ack, capacity, k))]
    requires s.ack + k < |s.chunks| ==> last' == last && h' == h
    ensures Resent(capacity, h', last', wire', s, k + 1, w0, last0, h0)
  {
    TurnsSentNext(s, capacity, k);
  }

  predicate WithinChunks(chunks: seq<Bytes>, js: seq<nat>) {
    ChunkSizes(chunks) && forall i :: 0 <= i < |js| ==> js[i] < |chunks|
  }

  /** What a packet from the peer makes the sender send is buffered. */
  lemma PartsEmitBuffered(s: Sender, capacity: nat, r: Option<Result<Packet>>)
    requires ValidSender(s, capacity)
    ensures WithinChunks(s.chunks, SocketPart(s, capacity, r).emitted)
    ensures SocketPart(s, capacity, r).state.chunks == s.chunks
  {
  }

  /** A packet read later changes nothing in what was sent before: two lists of
      emissions join. */
  lemma EmissionsAppend(chunks: seq<Bytes>, more: seq<Bytes>, capacity: nat, js: seq<nat>, ks: seq<nat>)
    requires chunks <= more && WithinChunks(chunks, js) && WithinChunks(more, ks)
    ensures WithinChunks(more, js + ks)
    ensures Emissions(more, capacity, js + ks)
            == Emissions(chunks, capacity, js) + Emissions(more, capacity, ks)
  {
    assert forall j :: 0 <= j < |chunks| ==> chunks[j] == more[j];
  }

  lemma SendsBuffered(b: Sender, capacity: nat)
    requires Bounded(b, capacity)
    ensures WithinChunks(b.chunks, SendPart(b, capacity).emitted) && SendPart(b, capacity).state.chunks == b.chunks
  {
  }

  /** The output of one iteration is that of its parts. */
  lemma PartsJoin(s: Sender, capacity: nat, r: Option<Result<Packet>>, data: Option<Bytes>, a: Step, b: Sender, c: Step,
                  w0: seq<Slot<Image>>, w1: seq<Slot<Image>>, w2: seq<Slot<Image>>)
    requires ValidSender(s, capacity) && (data.Some? ==> s.pollInput && |data.value| <= MAX_PAYLOAD_SIZE)
    requires a == SocketPart(s, capacity, r) && a.outcome == Running && WithinChunks(s.chunks, a.emitted)
    requires a.state.chunks == s.chunks && b == InputPart(a.state, data) && c == SendPart(b, capacity)
    requires WithinChunks(b.chunks, c.emitted) && c.state.chunks == b.chunks
    requires w1 == w0 + Emissions(s.chunks, capacity, a.emitted)
    requires w2 == w1 + Emissions(b.chunks, capacity, c.emitted)
    ensures var step := SenderModel.PollReady(s, capacity, r, data);
            && step == Step(c.state, a.emitted + c.emitted, Running)
            && WithinChunks(step.state.chunks, step.emitted)
            && w2 == w0 + Emissions(step.state.chunks, capacity, step.emitted)
  {
    EmissionsAppend(s.chunks, b.chunks, capacity, a.emitted, c.emitted);
  }

  /** Go-back-n before turn k: sseq is the number due, the ring and the wire are as k turns
      leave them, and a loop that stops has not passed the last packet in flight. */
  ghost predicate Going(capacity: nat, h: seq<Slot<Image>>, first: uint32, last: uint32, used: nat,
                        wire: seq<Slot<Image>>, s: Sender, sseq: uint8, k: nat,
                        w0: seq<Slot<Image>>, last0: uint32, h0: seq<Slot<Image>>) {
    && TurnState(capacity, h, first, used, s, k) && Resent(capacity, h, last, wire, s, k, w0, last0, h0)
    && sseq == Wrap8(s.ack + k) && (GoBackNRunsAway(s) || s.ack + k <= s.sent)
  }

  /** The condition of the loop. */
  lemma GoingOn(capacity: nat, h: seq<Slot<Image>>, first: uint32, last: uint32, used: nat,
                wire: seq<Slot<Image>>, s: Sender, sseq: uint8, k: nat,
                w0: seq<Slot<Image>>, last0: uint32, h0: seq<Slot<Image>>, lastSent: uint8)
    requires Going(capacity, h, first, last, used, wire, s, sseq, k, w0, last0, h0) && lastSent == Wrap8(s.sent - 1)
    ensures k <= 2 * capacity + 1 && s.ack < |s.chunks|
    ensures sseq as int == lastSent as int + 1 <==> !GoBackNRunsAway(s) && s.ack + k == s.sent
    ensures sseq as int != lastSent as int + 1 ==> GoBackNRunsAway(s) || s.ack + k < s.sent
    ensures k == 2 * capacity + 1 ==> GoBackNRunsAway(s)
  {
    LoopCondition(s, k);
  }

  /** The loop of go-back-n ends at the right place unless last_sent is 255: the
      number behind it is then compared as 256. */
  lemma LoopCondition(s: Sender, k: nat)
    requires s.ack <= s.sent <= s.ack + 31 && (GoBackNRunsAway(s) || s.ack + k <= s.sent)
    ensures Wrap8(s.ack + k) == Wrap8(s.sent - 1) + 1 <==> !GoBackNRunsAway(s) && s.ack + k == s.sent
  {
    CounterStep(s.sent);
    if !GoBackNRunsAway(s) && Wrap8(s.ack + k) == Wrap8(s.sent) { SameByte(s.ack + k, s.sent); }
  }

  lemma NextNumber(sseq: uint8, a: nat)
    requires sseq == Wrap8(a)
    ensures Wrap8(sseq as int + 1) == Wrap8(a + 1)
  {
    Wrap8Sum(a, 1);
  }

  lemma CounterStep(a: nat)
    ensures Inc32(Wrap32(a)) == Wrap32(a + 1)
    ensures Wrap8(Wrap8(a) + 1) == Wrap8(a + 1) && Wrap8(Wrap8(a - 1) + 1) == Wrap8(a)
  {
    Wrap32Sum(a, 1);
    Wrap8Sum(a, 1);
    Wrap8Sum(a - 1, 1);
  }
}

/** The sender's code (transmit.c): 8-bit counters and the ring, updated in place,
    and proved to follow the state machine of SenderModel. */
module SenderCode {
  import opened Words
  import opened Options
  import opened Seqnum
  import opened Bits
  import opened Codec
  import opened PacketBuffer
  import opened SenderModel
  import opened SenderView

  class SenderState {
    const ring: PktBuf<Image>
    var lastAck: uint8
    var lastWin: uint8
    var lastSent: uint8
    var lastChunkRead: uint8
    var dupAck: uint8
    var retryCount: nat
    var lastInRead: int
    var pollFile: bool
    /** Everything written to the socket so far. */
    var wire: seq<Slot<Image>>
    ghost var model: Sender

    /** The ring stands for a model state. */
    ghost predicate RingStandsFor(s: Sender)
      reads ring, ring.head
    {
      ring.Valid() && RingState(ring.capacity, ring.head[..], ring.first, ring.last, ring.Used(), s)
    }

    ghost predicate RingHolds()
      reads this`model, ring, ring.head
    {
      RingStandsFor(model)
    }

    /** The machine variables stand for the model state. */
    ghost predicate Consistent()
      reads this, ring, ring.head
    {
      && RingHolds()
      && Counters(lastAck, lastSent, lastChunkRead, lastWin, dupAck, retryCount, lastInRead, pollFile, model)
    }

    ghost predicate Valid()
      reads this, ring, ring.head
    {
      Consistent() && ValidSender(model, ring.capacity)
    }

    constructor (capacity: nat)
      requires Popcount(capacity) == 1 && capacity <= 128
      ensures Valid() && fresh(ring) && fresh(ring.head) && ring.capacity == capacity
      ensures model == Sender(0, 0, [], 1, 0, 0, true) == Initial() && wire == [] && ring.Contents() == []
      ensures lastAck == 0 && lastSent == 255 && lastChunkRead == 255 && lastWin == 1
      ensures dupAck == 0 && retryCount == 0 && lastInRead == -1 && pollFile
    {
      PopcountOne(capacity);
      ring := new PktBuf<Image>(capacity, Blank);
      lastAck, lastWin, lastSent, lastChunkRead := 0, 1, 255, 255;
      dupAck, retryCount, lastInRead, pollFile := 0, 0, -1, true;
      wire, model := [], Initial();
    }

    /** Live packet k is chunk ack + k. */
    lemma LivePacket(k: nat)
      requires RingHolds() && model.ack + k < |model.chunks|
      ensures ring.Phys(k) == MaskIndex(model.ack + k, ring.capacity)
      ensures ring.Contents()[k] == ring.head[ring.Phys(k)] == ChunkSlot(model.chunks, model.ack + k)
    {
      WrappedCounter(model.ack, k, ring.capacity);
      ring.SlotContent(k);
    }

    /** One of the physical slots 0 to used - 1 has the number. */
    ghost predicate Scanned(nack: uint8)
      reads ring, ring.head
    {
      exists p :: 0 <= p < ring.Used() && p < ring.head.Length && ring.head[p].seqnum == nack
    }

    /** The i-th live packet, oldest first, has the number, and is what was sent. */
    ghost predicate SentLive(i: nat, nack: uint8, w0: seq<Slot<Image>>)
      reads this`wire, ring, ring.head
    {
      ring.Valid() && i < ring.Used() && ring.Contents()[i].seqnum == nack && wire == w0 + [ring.Contents()[i]]
    }

    /** The scan of process_nack, over physical slots 0 to used - 1. */
    method ScanFor(nack: uint8) returns (slot: int)
      requires Valid() && InWindow(nack, lastAck, model.sent - model.ack)
      ensures slot == -1 <==> !Scanned(nack)
      ensures var j := IndexOf(model, nack);
              if NackFound(model, ring.capacity, j)
              then 0 <= slot < ring.capacity && ring.head[slot] == ChunkSlot(model.chunks, j)
              else slot == -1
    {
      var used := ring.Used();
      ghost var h := ring.head[..];
      var i := 0;
      while i < used
        invariant i <= used
        invariant forall p :: 0 <= p < i ==> h[p].seqnum != nack
      {
        FirstTurn(i, ring.capacity);
        slot := ring.At(i);
        if ring.head[slot].seqnum == nack {
          ScannedSlot(h, model, nack, i);
          return;
        }
        i := i + 1;
      }
      NothingScanned(h, model, nack);
      slot := -1;
    }

    /** process_nack: although the scan passes over slots that may be stale, what it
        sends is the live packet with that number. */
    method ProcessNack(nack: uint8)
      requires Valid() && InWindow(nack, lastAck, model.sent - model.ack)
      modifies this`wire
      ensures Valid()
      ensures if Scanned(nack) then exists i: nat :: SentLive(i, nack, old(wire)) else wire == old(wire)
      ensures var step := SenderModel.ProcessNack(model, ring.capacity, IndexOf(model, nack));
              wire == old(wire) + Emissions(model.chunks, ring.capacity, step.emitted)
    {
      var slot := ScanFor(nack);
      if slot >= 0 {
        NetSend(slot);
        NamedPacket(nack, slot, old(wire));
      }
    }

    /** What was sent is the live packet with that number. */
    lemma NamedPacket(nack: uint8, slot: nat, w0: seq<Slot<Image>>)
      requires Valid() && InWindow(nack, lastAck, model.sent - model.ack)
      requires NackFound(model, ring.capacity, IndexOf(model, nack)) && slot < ring.head.Length
      requires ring.head[slot] == ChunkSlot(model.chunks, IndexOf(model, nack)) && wire == w0 + [ring.head[slot]]
      ensures exists i: nat :: SentLive(i, nack, w0)
    {
      var i := IndexOf(model, nack) - model.ack;
      DistanceInverse(nack, model.ack);
      LivePacket(i);
      assert SentLive(i, nack, w0);
    }

    /** pktbuf_dequeue on the oldest packet in flight. */
    method DropFirst(ghost s: Sender)
      requires Valid() && model.ack < model.sent && s == model.(ack := model.ack + 1)
      modifies ring`first
      ensures RingStandsFor(s) && ValidSender(s, ring.capacity)
    {
      RingReleased(ring.capacity, ring.head[..], ring.first, ring.last, ring.Used(), model);
      var slot := ring.Dequeue();
    }

    /** The body of the loop of process_ack. */
    method ReleaseFirst()
      requires Valid() && model.ack < model.sent
      modifies this`lastAck, this`model, ring`first
      ensures Valid() && model == old(model).(ack := old(model.ack) + 1)
    {
      ghost var s := model.(ack := model.ack + 1);
      CountersReleased(lastAck, lastSent, lastChunkRead, lastWin, dupAck, retryCount, lastInRead, pollFile, model);
      DropFirst(s);
      lastAck, model := Wrap8(lastAck + 1), s;
    }

    /** What the ring holds. */
    lemma BufferIs()
      requires RingHolds()
      ensures Bounded(model, ring.capacity) && ring.Contents() == Buffered(model)
    {
      forall i | 0 <= i < ring.Used() ensures ring.Contents()[i] == Buffered(model)[i] {
        LivePacket(i);
      }
    }

    /** process_ack: releases every packet before an accepted number. */
    method ProcessAck(ack: uint8)
      requires Valid() && InWindow(ack, lastAck, model.sent - model.ack)
      modifies this`lastAck, this`model, this`dupAck, ring`first
      ensures Valid()
      ensures model == old(model).(ack := IndexOf(old(model), ack), dup := 0)
      ensures lastAck == ack && dupAck == 0
      ensures Distance(ack, old(lastAck)) <= old(ring.Used())
      ensures ring.Contents() == old(ring.Contents())[Distance(ack, old(lastAck))..]
    {
      ghost var target := IndexOf(model, ack);
      DistanceInverse(ack, model.ack);
      BufferIs();
      BufferedFrom(model, target);
      ReleaseUpTo(ack, target);
      BufferIs();
    }

    /** The loop of process_ack, and `dup_ack = 0`. */
    method ReleaseUpTo(ack: uint8, ghost target: nat)
      requires Valid() && model.ack <= target <= model.sent && Wrap8(target) == ack
      modifies this`lastAck, this`model, this`dupAck, ring`first
      ensures Valid() && model == old(model).(ack := target, dup := 0) && lastAck == ack && dupAck == 0
    {
      while lastAck != ack
        invariant Valid() && model == old(model).(ack := model.ack)
        invariant model.ack <= target
        decreases target - model.ack
      {
        ReleaseFirst();
      }
      SameByte(model.ack, target);
      ResetDuplicates();
    }

    /** net_send(pktbuf_first(send_buf)) */
    method SendOldest() returns (outcome: Outcome)
      requires Valid()
      modifies this`wire
      ensures Valid()
      ensures outcome == if model.ack == |model.chunks| then NullPointer else Running
      ensures outcome == if ring.Used() == 0 then NullPointer else Running
      ensures wire == if ring.Used() == 0 then old(wire) else old(wire) + [ring.Contents()[0]]
      ensures wire == old(wire) + Emissions(model.chunks, ring.capacity,
                                            if model.ack == |model.chunks| then [] else [model.ack])
    {
      FewEmissions(model, ring.capacity);
      var slot := ring.First();
      if slot < 0 { return NullPointer; }
      LivePacket(0);
      NetSend(slot);
      return Running;
    }

    /** net_send */
    method NetSend(slot: nat)
      requires Valid() && slot < ring.head.Length
      modifies this`wire
      ensures Valid() && wire == old(wire) + [ring.head[slot]]
    {
      wire := wire + [ring.head[slot]];
    }

    /** process_dup_ack: the third duplicate resends the oldest packet, through a
        null pointer when nothing is buffered. */
    method ProcessDupAck() returns (outcome: Outcome)
      requires Valid()
      modifies this`wire, this`dupAck, this`model
      ensures Valid()
      ensures model == SenderModel.ProcessDupAck(old(model)).state
              && outcome == SenderModel.ProcessDupAck(old(model)).outcome
      ensures wire == old(wire) + Emissions(model.chunks, ring.capacity, SenderModel.ProcessDupAck(old(model)).emitted)
      ensures old(dupAck) != 2 ==> dupAck == old(dupAck) + 1 && outcome == Running && wire == old(wire)
      ensures old(dupAck) == 2 && ring.Used() > 0 ==>
                dupAck == 0 && outcome == Running && wire == old(wire) + [ring.Contents()[0]]
      ensures old(dupAck) == 2 && ring.Used() == 0 ==> dupAck == 0 && outcome == NullPointer && wire == old(wire)
    {
      FewEmissions(model, ring.capacity);
      var third := CountDuplicate();
      if third {
        outcome := SendOldest();
      } else {
        outcome := Running;
      }
    }

    /** `++dup_ack`, and back to 0 at the third. */
    method CountDuplicate() returns (third: bool)
      requires Valid()
      modifies this`dupAck, this`model
      ensures Valid() && third == (old(model.dup) + 1 == MAX_DUP_ACK) && third == (old(dupAck) == 2)
      ensures dupAck == if third then 0 else old(dupAck) + 1
      ensures model == old(model).(dup := if third then 0 else old(model.dup) + 1)
    {
      dupAck := dupAck + 1;
      third := dupAck == MAX_DUP_ACK;
      if third {
        dupAck := 0;
      }
      model := model.(dup := dupAck);
    }

    /** retry_count = 0 */
    method MarkAlive()
      requires Valid()
      modifies this`retryCount, this`model
      ensures Valid() && model == old(model).(retry := 0) && retryCount == 0
    {
      retryCount := 0;
      model := model.(retry := 0);
    }

    /** The window of an accepted packet replaces the last one. */
    method UpdateWindow(win: uint8)
      requires Valid() && win < 32
      modifies this`lastWin, this`model
      ensures Valid() && model == old(model).(win := win)
    {
      if lastWin != win {
        lastWin := win;
      }
      model := model.(win := win);
    }

    /** The window test and the type check of handle_socket_read. */
    method Acceptable(r: Result<Packet>) returns (ok: bool)
      requires Valid()
      ensures ok == Accepts(model, r)
    {
      var win := Wrap8(lastSent - lastAck + 1);
      InFlight(model.ack, model.sent);
      ok := r.Ok? && InWindow(r.value.seqnum, lastAck, win) && (r.value.typ == ACK || r.value.typ == NACK);
    }

    /** handle_socket_read, on the outcome of decoding the datagram. */
    method HandleSocketRead(r: Result<Packet>) returns (outcome: Outcome)
      requires Valid() && (r.Ok? ==> r.value.window < 32)
      modifies this`wire, this`lastAck, this`lastWin, this`dupAck, this`retryCount, this`model, ring`first
      ensures Valid()
      ensures model == SocketRead(old(model), ring.capacity, r).state
              && outcome == SocketRead(old(model), ring.capacity, r).outcome
      ensures wire == old(wire)
              + Emissions(model.chunks, ring.capacity, SocketRead(old(model), ring.capacity, r).emitted)
      ensures retryCount == 0
    {
      MarkAlive();
      var ok := Acceptable(r);
      if !ok { return Running; }
      UpdateWindow(r.value.window);
      outcome := ProcessControl(r.value);
    }

    /** The dispatch on an accepted packet. */
    method ProcessControl(p: Packet) returns (outcome: Outcome)
      requires Valid() && InWindow(p.seqnum, lastAck, model.sent - model.ack)
      modifies this`wire, this`lastAck, this`dupAck, this`model, ring`first
      ensures Valid()
      ensures model == Dispatch(old(model), ring.capacity, p).state
              && outcome == Dispatch(old(model), ring.capacity, p).outcome
      ensures wire == old(wire) + Emissions(model.chunks, ring.capacity, Dispatch(old(model), ring.capacity, p).emitted)
    {
      SameNumber(model, p.seqnum);
      outcome := Running;
      if p.typ == NACK {
        ProcessNack(p.seqnum);
      } else if lastAck == p.seqnum {
        outcome := ProcessDupAck();
      } else {
        ProcessAck(p.seqnum);
      }
    }

    /** The packet of the chunk is the newest one in the ring. */
    method EnqueueChunk(seqnum: uint8, data: Bytes)
      requires RingHolds() && MayRead(model, ring.capacity)
      requires seqnum == Wrap8(|model.chunks|) && |data| <= MAX_PAYLOAD_SIZE
      modifies this`model, ring`last, ring.head
      ensures RingHolds() && model == InputRead(old(model), data)
      ensures ring.Contents() == old(ring.Contents())
              + [Slot(seqnum, Encoded(Packet(1, false, 0, seqnum, |data|, [0xef, 0xbe, 0xad, 0xde], data)))]
    {
      BufferIs();
      BufferedMore(model, data);
      FillChunk(seqnum, data);
      BufferIs();
    }

    /** Enqueues and fills the slot of the next chunk. The TR bit is not assigned: it
        is whatever the slot holds, and that is always zero. */
    method FillChunk(seqnum: uint8, data: Bytes)
      requires RingHolds() && MayRead(model, ring.capacity)
      requires seqnum == Wrap8(|model.chunks|) && |data| <= MAX_PAYLOAD_SIZE
      modifies this`model, ring`last, ring.head
      ensures RingHolds() && model == InputRead(old(model), data)
    {
      var slot := ReserveSlot();
      var tr := match ring.head[slot].body case Blank => false case Encoded(p) => p.tr;
      var packet := Packet(DATA, tr, 0, seqnum, |data|, PKT_TIMESTAMP, data);
      ghost var h, n := ring.head[..], |model.chunks|;
      SlotsHoldNext(h, model.chunks, data);
      ring.head[slot] := Slot(seqnum, Encoded(packet));
      model := InputRead(model, data);
      assert ring.head[..] == h[slot := ChunkSlot(model.chunks, n)];
    }

    /** pktbuf_enqueue, with the bytes the slot still holds. */
    method ReserveSlot() returns (slot: nat)
      requires RingHolds() && MayRead(model, ring.capacity)
      modifies ring`last
      ensures slot == MaskIndex(|model.chunks|, ring.capacity) && slot < ring.head.Length
      ensures ring.head[slot].body == StaleImage(model.chunks, ring.capacity, |model.chunks|)
      ensures ring.Valid() && ring.last == Wrap32(|model.chunks| + 1) && ring.Used() == old(ring.Used()) + 1
    {
      CounterStep(|model.chunks|);
      StaleSlot(ring.head[..], model.chunks, |model.chunks|);
      WrappedCounter(|model.chunks|, 0, ring.capacity);
      slot := ring.Enqueue();
    }

    /** A read that fails. */
    method FailedRead()
      requires Valid() && MayRead(model, ring.capacity)
      modifies this`lastChunkRead, this`lastInRead, ring`last
      ensures lastInRead == -1 && ring.Used() == old(ring.Used()) + 1
    {
      lastChunkRead := Wrap8(lastChunkRead + 1);
      var slot := ReserveSlot();
      lastInRead := -1;
    }

    /** A read that does not. */
    method TakeChunk(data: Bytes)
      requires Valid() && MayRead(model, ring.capacity) && |data| <= MAX_PAYLOAD_SIZE
      modifies this`lastChunkRead, this`lastInRead, this`model, ring`last, ring.head
      ensures Consistent() && model == InputRead(old(model), data)
    {
      CountersRead(lastAck, lastSent, lastChunkRead, lastWin, dupAck, retryCount, lastInRead, pollFile, model, data);
      lastChunkRead := Wrap8(lastChunkRead + 1);
      lastInRead := |data|;
      EnqueueChunk(lastChunkRead, data);
    }

    /** handle_input_read: the chunk read from the input becomes a packet, encoded at
        once in the slot behind the newest one. None stands for a read that fails: the slot
        is reserved by then, nothing is sent, and the process ends. */
    method HandleInputRead(data: Option<Bytes>) returns (ok: bool)
      requires Valid() && pollFile && (data.Some? ==> |data.value| <= MAX_PAYLOAD_SIZE)
      modifies this`lastChunkRead, this`lastInRead, this`model, ring`last, ring.head
      ensures ok == data.Some?
      ensures ok ==> Consistent() && model == InputRead(old(model), data.value)
      ensures !ok ==> lastInRead == -1 && model == old(model) && ring.Used() == old(ring.Used()) + 1
                      && ring.head[..] == old(ring.head[..])
    {
      ok := data.Some?;
      if ok { TakeChunk(data.value); } else { FailedRead(); }
    }

    /** The offset that slotfor_seq works out for a live packet. */
    lemma LiveOffset(k: nat)
      requires RingHolds() && model.ack + k < |model.chunks|
      ensures ring.Used() > k && Wrap8(Wrap8(model.ack + k) - ring.Contents()[0].seqnum) == k
      ensures ring.head[ring.Phys(k)] == ChunkSlot(model.chunks, model.ack + k)
    {
      LivePacket(0);
      LivePacket(k);
      WindowTestExact(model.ack + k, model.ack, 0);
    }

    /** The slot of a live packet by its number: slotfor_seq finds it and changes
        nothing. */
    method LiveSlot(seqnum: uint8, ghost k: nat) returns (slot: nat)
      requires RingHolds() && model.ack + k < |model.chunks| && seqnum == Wrap8(model.ack + k)
      modifies ring`last, ring.head
      ensures RingHolds() && ring.last == old(ring.last) && ring.head[..] == old(ring.head[..])
      ensures slot < ring.head.Length && ring.head[slot] == ChunkSlot(model.chunks, model.ack + k)
    {
      LiveOffset(k);
      slot := ring.SlotWithin(seqnum, ring.Contents()[0].seqnum, k);
    }

    /** can_send */
    predicate CanSend()
      reads this, ring
    {
      !ring.Empty() && Wrap8(lastSent + 1 - lastAck) < lastWin
    }

    /** The loop condition of do_send_sbuf. */
    predicate MoreToSend()
      reads this, ring, ring.head
      requires Consistent()
      ensures MoreToSend() <==> model.sent < |model.chunks| && model.sent - model.ack < model.win
    {
      Unsent(model);
      lastSent != lastChunkRead && CanSend()
    }

    /** The loop body of do_send_sbuf. */
    method SendNext()
      requires Consistent() && model.sent < |model.chunks| && model.sent - model.ack < model.win
      modifies this`lastSent, this`wire, this`model, ring`last, ring.head
      ensures Consistent() && model == old(model).(sent := old(model.sent) + 1)
      ensures wire == old(wire) + [ChunkSlot(model.chunks, old(model.sent))]
    {
      CountersSent(lastAck, lastSent, lastChunkRead, lastWin, dupAck, retryCount, lastInRead, pollFile, model);
      lastSent := Wrap8(lastSent + 1);
      var slot := LiveSlot(lastSent, model.sent - model.ack);
      wire := wire + [ring.head[slot]];
      model := model.(sent := model.sent + 1);
    }

    /** do_send_sbuf */
    method DoSendSbuf()
      requires Consistent()
      modifies this`lastSent, this`wire, this`model, ring`last, ring.head
      ensures Consistent()
      ensures model == SendBuffered(old(model)).state
      ensures wire == old(wire) + Emissions(model.chunks, ring.capacity, SendBuffered(old(model)).emitted)
    {
      ghost var m := model;
      while MoreToSend()
        invariant Consistent() && Sending(m, model, ring.capacity, old(wire), wire)
        decreases |model.chunks| - model.sent
      {
        SendingNext(m, model, ring.capacity, old(wire), wire);
        SendNext();
      }
    }

    /** The ring at turn k of go-back-n. */
    ghost predicate Resending(k: nat)
      reads this`model, ring, ring.head
    {
      ring.Shaped() && TurnState(ring.capacity, ring.head[..], ring.first, ring.Used(), model, k)
    }

    /** The loop body of handle_retransmission; the process stops in slotfor_seq at the
        turn after twice the capacity. */
    method ResendOne(sseq: uint8, ghost k: nat) returns (ok: bool)
      requires Resending(k) && sseq == Wrap8(model.ack + k) && k <= 2 * ring.capacity + 1
      requires model.ack < |model.chunks|
      modifies this`wire, ring`last, ring.head
      ensures ok == (k <= 2 * ring.capacity)
      ensures ok ==> Resending(k + 1)
      ensures wire == old(wire) + (if ok then [Emission(model.chunks, ring.capacity, Turn(model.ack, ring.capacity, k))]
                                   else [])
      ensures model.ack + k < |model.chunks| ==> ring.last == old(ring.last) && ring.head[..] == old(ring.head[..])
    {
      var slot := TurnSlot(sseq, k);
      if slot < 0 { return false; }
      wire := wire + [ring.head[slot]];
      return true;
    }

    /** pktbuf_slotfor_seq at turn k of go-back-n. */
    method TurnSlot(sseq: uint8, ghost k: nat) returns (slot: int)
      requires Resending(k) && sseq == Wrap8(model.ack + k) && k <= 2 * ring.capacity + 1
      requires model.ack < |model.chunks|
      modifies ring`last, ring.head
      ensures slot < ring.head.Length && (slot >= 0 <==> k <= 2 * ring.capacity)
      ensures slot >= 0 ==>
                Resending(k + 1)
                && ring.head[slot] == Emission(model.chunks, ring.capacity, Turn(model.ack, ring.capacity, k))
      ensures model.ack + k < |model.chunks| ==> ring.last == old(ring.last) && ring.head[..] == old(ring.head[..])
    {
      ghost var start := ring.head[ring.Phys(0)].seqnum;
      ghost var offset := Wrap8(sseq - start);
      TurnStep(ring.capacity, ring.head[..], ring.first, ring.Used(), model, k, start, offset);
      slot := Serve(sseq, start, offset);
    }

    /** pktbuf_slotfor_seq on a ring that is not empty, start being the number of its first
        slot. */
    method Serve(sseq: uint8, ghost start: uint8, ghost offset: uint8) returns (slot: int)
      requires ring.Shaped() && ring.Used() > 0
      requires start == ring.head[ring.Phys(0)].seqnum && offset == Wrap8(sseq - start)
      modifies ring`last, ring.head
      ensures ring.Shaped() && slot == if offset > ring.capacity then -1 else ring.Phys(offset)
      ensures offset <= ring.capacity ==>
                ring.head[..] == Served(old(ring.head[..]), ring.first, old(ring.Used()), start, offset)
                && ring.Used() == Filling(old(ring.Used()), offset + 1)
      ensures offset < old(ring.Used()) ==> ring.last == old(ring.last)
    {
      slot := ring.SlotFor(sseq);
    }

    /** Go-back-n before turn k. */
    ghost predicate Progress(sseq: uint8, k: nat, w0: seq<Slot<Image>>, last0: uint32, h0: seq<Slot<Image>>)
      reads this, ring, ring.head
    {
      && ring.Shaped()
      && Going(ring.capacity, ring.head[..], ring.first, ring.last, ring.Used(), wire, model, sseq, k, w0, last0, h0)
    }

    /** At the end, either way. */
    lemma AllResent(sseq: uint8, k: nat, w0: seq<Slot<Image>>, last0: uint32, h0: seq<Slot<Image>>)
      requires Progress(sseq, k, w0, last0, h0)
      requires if GoBackNRunsAway(model) then k == 2 * ring.capacity + 1 else model.ack + k == model.sent
      ensures wire == w0 + Emissions(model.chunks, ring.capacity, Resends(model, ring.capacity))
      ensures !GoBackNRunsAway(model) ==> RingHolds()
    {
      if !GoBackNRunsAway(model) { TurnsInOrder(model, ring.capacity, k); }
    }

    /** What the condition of the loop says. */
    ghost predicate Test(sseq: uint8, k: nat)
      reads this`lastSent, this`model, ring
    {
      && k <= 2 * ring.capacity + 1 && model.ack < |model.chunks|
      && (sseq as int == lastSent as int + 1 <==> !GoBackNRunsAway(model) && model.ack + k == model.sent)
      && (sseq as int != lastSent as int + 1 ==> GoBackNRunsAway(model) || model.ack + k < model.sent)
      && (k == 2 * ring.capacity + 1 ==> GoBackNRunsAway(model))
    }

    /** The loop before turn k, with what its condition says. */
    ghost predicate Turning(sseq: uint8, k: nat, w0: seq<Slot<Image>>, last0: uint32, h0: seq<Slot<Image>>)
      reads this, ring, ring.head
    {
      Progress(sseq, k, w0, last0, h0) && Test(sseq, k) && lastSent == Wrap8(model.sent - 1)
    }

    lemma LoopTest(sseq: uint8, k: nat, w0: seq<Slot<Image>>, last0: uint32, h0: seq<Slot<Image>>)
      requires Progress(sseq, k, w0, last0, h0) && lastSent == Wrap8(model.sent - 1)
      ensures Turning(sseq, k, w0, last0, h0)
    {
      GoingOn(ring.capacity, ring.head[..], ring.first, ring.last, ring.Used(), wire, model, sseq, k, w0, last0, h0,
              lastSent);
    }

    lemma NothingResent()
      requires Consistent() && model.ack < |model.chunks|
      ensures Turning(lastAck, 0, wire, ring.last, ring.head[..])
    {
      StartResending(ring.head[..], ring.first, model);
      TurnsSentNext(model, ring.capacity, 0);
      LoopTest(lastAck, 0, wire, ring.last, ring.head[..]);
    }

    /** How the loop ends, and what it has sent. */
    ghost predicate LoopEnded(outcome: Outcome, w0: seq<Slot<Image>>)
      reads this`wire, this`model, ring, ring.head
    {
      && outcome == (if GoBackNRunsAway(model) then Overrun else Running)
      && (outcome == Running ==> RingHolds())
      && HaveSlots(model.chunks, ring.capacity, Resends(model, ring.capacity))
      && wire == w0 + Emissions(model.chunks, ring.capacity, Resends(model, ring.capacity))
    }

    /** The loop ends where it should. */
    lemma LoopEnds(sseq: uint8, k: nat, w0: seq<Slot<Image>>, last0: uint32, h0: seq<Slot<Image>>)
      requires Turning(sseq, k, w0, last0, h0) && sseq as int == lastSent as int + 1
      ensures LoopEnded(Running, w0)
    {
      AllResent(sseq, k, w0, last0, h0);
    }

    /** One turn of the loop, with the record of what went out. */
    method ResendNext(sseq: uint8, ghost k: nat, ghost w0: seq<Slot<Image>>, ghost last0: uint32,
                      ghost h0: seq<Slot<Image>>) returns (ok: bool)
      requires Progress(sseq, k, w0, last0, h0) && (GoBackNRunsAway(model) || model.ack + k < model.sent)
      modifies this`wire, ring`last, ring.head
      ensures ok == (k <= 2 * ring.capacity)
      ensures if ok then Progress(Wrap8(sseq as int + 1), k + 1, w0, last0, h0) else wire == old(wire)
    {
      ghost var h, last, w := ring.head[..], ring.last, wire;
      ok := ResendOne(sseq, k);
      if ok {
        ResentNext(ring.capacity, h, ring.head[..], last, ring.last, w, wire, model, k, w0, last0, h0);
        NextNumber(sseq, model.ack + k);
      }
    }

    /** The same with what the condition of the loop says before and after. */
    method ResendTested(sseq: uint8, ghost k: nat, ghost w0: seq<Slot<Image>>, ghost last0: uint32,
                        ghost h0: seq<Slot<Image>>) returns (ok: bool)
      requires Turning(sseq, k, w0, last0, h0) && sseq as int != lastSent as int + 1
      modifies this`wire, ring`last, ring.head
      ensures ok ==> k <= 2 * ring.capacity && Turning(Wrap8(sseq as int + 1), k + 1, w0, last0, h0)
      ensures !ok ==> LoopEnded(Overrun, w0)
    {
      if k == 2 * ring.capacity + 1 { AllResent(sseq, k, w0, last0, h0); }
      ok := ResendNext(sseq, k, w0, last0, h0);
      if ok { LoopTest(Wrap8(sseq as int + 1), k + 1, w0, last0, h0); }
    }

    /** The loop itself. */
    method ResendLoop(ghost w0: seq<Slot<Image>>, ghost last0: uint32, ghost h0: seq<Slot<Image>>)
      returns (outcome: Outcome)
      requires Turning(lastAck, 0, w0, last0, h0)
      modifies this`wire, ring`last, ring.head
      ensures LoopEnded(outcome, w0)
    {
      ghost var k := 0;
      var sseq := lastAck;
      while sseq as int != lastSent as int + 1
        invariant Turning(sseq, k, w0, last0, h0)
        decreases 2 * ring.capacity + 1 - k
      {
        var ok := ResendTested(sseq, k, w0, last0, h0);
        if !ok { return Overrun; }
        k := k + 1;
        sseq := Wrap8(sseq as int + 1);
      }
      LoopEnds(sseq, k, w0, last0, h0);
      return Running;
    }

    /** handle_retransmission: go-back-n over the packets in flight. With last_sent
        at 255 the condition of the loop never fails; it resends everything buffered,
        reserves slots up to the capacity, numbers the first one anew (pktbuf.c:70),
        goes round the ring once more, and stops the process. */
    method HandleRetransmission() returns (outcome: Outcome)
      requires Valid() && model.ack < |model.chunks|
      modifies this`retryCount, this`dupAck, this`wire, this`model, ring`last, ring.head
      ensures outcome == Running ==> Valid()
      ensures model == SenderModel.PollTimeout(old(model), ring.capacity).state
              && outcome == SenderModel.PollTimeout(old(model), ring.capacity).outcome
      ensures wire == old(wire)
              + Emissions(model.chunks, ring.capacity, SenderModel.PollTimeout(old(model), ring.capacity).emitted)
    {
      FewEmissions(model, ring.capacity);
      var ok := CountTimeout();
      if !ok { return GaveUp; }
      outcome := GoBackN();
      if outcome == Running { ResetDuplicates(); }
    }

    /** `++retry_count`, within the limit or not. */
    method CountTimeout() returns (ok: bool)
      requires Valid()
      modifies this`retryCount, this`model
      ensures ok == (old(model.retry) + 1 <= MAX_RETRANSMISSION) && model == old(model).(retry := old(model.retry) + 1)
      ensures ok ==> Valid()
    {
      retryCount := retryCount + 1;
      model := model.(retry := model.retry + 1);
      ok := retryCount <= MAX_RETRANSMISSION;
    }

    /** `dup_ack = 0` */
    method ResetDuplicates()
      requires Valid()
      modifies this`dupAck, this`model
      ensures Valid() && model == old(model).(dup := 0) && dupAck == 0
    {
      dupAck := 0;
      model := model.(dup := 0);
    }

    /** The loop of handle_retransmission. */
    method GoBackN() returns (outcome: Outcome)
      requires Valid() && model.ack < |model.chunks|
      modifies this`wire, ring`last, ring.head
      ensures outcome == if GoBackNRunsAway(model) then Overrun else Running
      ensures outcome == Running ==> Valid()
      ensures wire == old(wire) + Emissions(model.chunks, ring.capacity, Resends(model, ring.capacity))
    {
      NothingResent();
      outcome := ResendLoop(wire, ring.last, ring.head[..]);
    }

    /** The decision on what to poll next: `last_in_read != 0 && !pktbuf_full`. */
    method ChoosePolls()
      requires Consistent()
      modifies this`pollFile, this`model
      ensures Valid() && model == old(model).(pollInput := MayRead(old(model), ring.capacity))
    {
      pollFile := lastInRead != 0 && !ring.Full();
      model := model.(pollInput := pollFile);
    }

    /** The first part of an iteration of transmit: the socket. */
    method ReadSocket(r: Option<Result<Packet>>) returns (outcome: Outcome)
      requires Valid() && (r.Some? && r.value.Ok? ==> r.value.value.window < 32)
      modifies this, ring
      ensures Valid() && model.pollInput == old(model.pollInput)
      ensures model == SocketPart(old(model), ring.capacity, r).state
              && outcome == SocketPart(old(model), ring.capacity, r).outcome
      ensures wire == old(wire)
              + Emissions(model.chunks, ring.capacity, SocketPart(old(model), ring.capacity, r).emitted)
    {
      if r.Some? {
        outcome := HandleSocketRead(r.value);
      } else {
        outcome := Running;
      }
    }

    /** The second part: the input file. */
    method ReadInput(data: Option<Bytes>)
      requires Valid() && (data.Some? ==> pollFile && |data.value| <= MAX_PAYLOAD_SIZE)
      modifies this`lastChunkRead, this`lastInRead, this`model, ring`last, ring.head
      ensures Consistent() && model == InputPart(old(model), data)
    {
      if data.Some? {
        var ok := HandleInputRead(data);
      }
    }

    /** The third part: sending, and what to poll next. */
    method SendAndChoose()
      requires Consistent()
      modifies this`lastSent, this`wire, this`model, this`pollFile, ring`last, ring.head
      ensures Valid()
      ensures model == SendPart(old(model), ring.capacity).state
      ensures wire == old(wire) + Emissions(model.chunks, ring.capacity, SendPart(old(model), ring.capacity).emitted)
    {
      DoSendSbuf();
      ChoosePolls();
    }

    /** The loop of transmit after poll reported the socket, the input, or both. */
    method PollReady(r: Option<Result<Packet>>, data: Option<Bytes>) returns (outcome: Outcome)
      requires Valid() && (r.Some? && r.value.Ok? ==> r.value.value.window < 32)
      requires data.Some? ==> pollFile && |data.value| <= MAX_PAYLOAD_SIZE
      modifies this, ring, ring.head
      ensures Valid()
      ensures model == SenderModel.PollReady(old(model), ring.capacity, r, data).state
              && outcome == SenderModel.PollReady(old(model), ring.capacity, r, data).outcome
      ensures WithinChunks(model.chunks, SenderModel.PollReady(old(model), ring.capacity, r, data).emitted)
      ensures wire == old(wire)
              + Emissions(model.chunks, ring.capacity,
                          SenderModel.PollReady(old(model), ring.capacity, r, data).emitted)
    {
      ghost var m := model;
      outcome := ReadSocket(r);
      PartsEmitBuffered(m, ring.capacity, r);
      if outcome != Running { return; }
      ghost var w := wire;
      ReadInput(data);
      ghost var b := model;
      SendsBuffered(b, ring.capacity);
      SendAndChoose();
      PartsJoin(m, ring.capacity, r, data, SocketPart(m, ring.capacity, r), b, SendPart(b, ring.capacity),
                old(wire), w, wire);
    }

    /** The loop of transmit after poll timed out. */
    method PollTimeout() returns (outcome: Outcome)
      requires Valid()
      modifies this, ring, ring.head
      ensures outcome == Running ==> Valid()
      ensures model == SenderModel.PollTimeout(old(model), ring.capacity).state
              && outcome == SenderModel.PollTimeout(old(model), ring.capacity).outcome
      ensures wire == old(wire)
              + Emissions(model.chunks, ring.capacity, SenderModel.PollTimeout(old(model), ring.capacity).emitted)
    {
      if !ring.Empty() {
        outcome := HandleRetransmission();
      } else {
        assert Emissions(model.chunks, ring.capacity, []) == [];
        outcome := Running;
      }
    }

    /** The negation of the do-while condition. */
    method Done() returns (done: bool)
      requires Valid()
      ensures done == Finished(model)
    {
      done := !(lastInRead != 0 || !ring.Empty());
    }
  }
}
