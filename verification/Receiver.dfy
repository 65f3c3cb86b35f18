/** How the ring, the mask and the 8-bit numbers of the receiver stand for a model
    state. The predicates of one slot, bit or chunk keep the quantifiers apart: each is used
    where it is named. */
module ReceiverView {
  import opened Words
  import opened Bits
  import opened Codec
  import opened PacketBuffer
  import opened ReceiverModel

  /** Slot i is numbered base + i. */
  ghost predicate HasNumber(c: seq<Slot<Packet>>, base: nat, i: nat) {
    i < |c| && c[i].seqnum == Wrap8(base + i)
  }

  ghost predicate Numbered(c: seq<Slot<Packet>>, base: nat) {
    forall i: nat {:trigger HasNumber(c, base, i)} :: i < |c| ==> HasNumber(c, base, i)
  }

  /** Bit i of the mask says whether chunk base + i is held. */
  ghost predicate Shown(mask: nat, base: nat, held: map<nat, Bytes>, i: nat) {
    Bit(mask, i) <==> base + i in held
  }

  ghost predicate Shows(mask: nat, base: nat, held: map<nat, Bytes>) {
    Popcount(mask) == |held| && forall i: nat :: Shown(mask, base, held, i)
  }

  /** A slot that holds a whole chunk. */
  ghost predicate HoldsChunk(slot: Slot<Packet>, chunk: Bytes) {
    slot.body.payload == chunk && slot.body.length == |chunk|
  }

  /** A held chunk is in its slot. */
  ghost predicate Stored(c: seq<Slot<Packet>>, base: nat, held: map<nat, Bytes>, j: nat) {
    j in held ==> base <= j < base + |c| && HoldsChunk(c[j - base], held[j])
  }

  ghost predicate Stores(c: seq<Slot<Packet>>, base: nat, held: map<nat, Bytes>) {
    forall j: nat :: Stored(c, base, held, j)
  }

  /** The ring c and the mask stand for the model. */
  ghost predicate Matches(c: seq<Slot<Packet>>, mask: nat, s: Receiver) {
    && |c| == s.used
    && Numbered(c, s.expected)
    && Shows(mask, s.expected, s.held)
    && Stores(c, s.expected, s.held)
  }

  /** The variables besides the ring and the expected number stand for the model. What was
      written last is known while nothing waits to be written. */
  ghost predicate Surroundings(maxWindow: uint8, mask: nat, lastTs: Bytes, output: Bytes, lastWrittenLen: int,
                               s: Receiver) {
    && 1 <= maxWindow <= 31
    && Popcount(mask) <= maxWindow && s.used <= maxWindow + 1
    && lastTs == s.ts && |lastTs| == 4
    && |s.out| == s.expected && output == Concat(s.out)
    && (mask % 2 == 0 ==> lastWrittenLen == (if s.out == [] then -1 else |s.out[|s.out| - 1]|))
  }

  // ---------- A chunk more

  lemma ShowsSet(mask: nat, base: nat, held: map<nat, Bytes>, d: nat, chunk: Bytes)
    requires Shows(mask, base, held)
    ensures Shows(SetBit(mask, d), base, held[base + d := chunk])
  {
    SetBitPopcount(mask, d);
    assert Shown(mask, base, held, d);
    var mask', held' := SetBit(mask, d), held[base + d := chunk];
    forall i: nat ensures Shown(mask', base, held', i) {
      SetBitBits(mask, d, i);
      assert Shown(mask, base, held, i);
    }
  }

  /** Chunk j is where it was. */
  ghost predicate StillThere(c: seq<Slot<Packet>>, c': seq<Slot<Packet>>, base: nat, j: nat) {
    base <= j < base + |c| && j < base + |c'| && c'[j - base] == c[j - base]
  }

  /** So is every held chunk but that of slot d. */
  ghost predicate Undisturbed(c: seq<Slot<Packet>>, c': seq<Slot<Packet>>, base: nat, held: map<nat, Bytes>, d: nat) {
    forall j: nat {:trigger StillThere(c, c', base, j)} :: j in held && j != base + d ==> StillThere(c, c', base, j)
  }

  lemma StoresSet(c: seq<Slot<Packet>>, c': seq<Slot<Packet>>, base: nat, held: map<nat, Bytes>, d: nat, chunk: Bytes)
    requires Stores(c, base, held) && Undisturbed(c, c', base, held, d) && d < |c'| && HoldsChunk(c'[d], chunk)
    ensures Stores(c', base, held[base + d := chunk])
  {
    var held' := held[base + d := chunk];
    forall j: nat ensures Stored(c', base, held', j) {
      if j in held && j != base + d { assert Stored(c, base, held, j) && StillThere(c, c', base, j); }
    }
  }

  // ---------- The first chunk less

  lemma ShowsShift(mask: nat, s: Receiver)
    requires Shows(mask, s.expected, s.held) && mask % 2 == 1
    ensures s.expected in s.held && Shows(mask / 2, s.expected + 1, WriteFirst(s).held)
  {
    assert Shown(mask, s.expected, s.held, 0);
    var mask', base, held := mask / 2, s.expected + 1, WriteFirst(s).held;
    forall i: nat ensures Shown(mask', base, held, i) {
      assert Shown(mask, s.expected, s.held, i + 1);
    }
  }

  lemma StoresShift(c: seq<Slot<Packet>>, s: Receiver)
    requires Stores(c, s.expected, s.held) && s.expected in s.held
    ensures 0 < |c| && HoldsChunk(c[0], s.held[s.expected])
    ensures Stores(c[1..], s.expected + 1, WriteFirst(s).held)
  {
    assert Stored(c, s.expected, s.held, s.expected);
    var c', base, held := c[1..], s.expected + 1, WriteFirst(s).held;
    forall j: nat ensures Stored(c', base, held, j) {
      assert Stored(c, s.expected, s.held, j);
    }
  }

  lemma NumberedShift(c: seq<Slot<Packet>>, base: nat)
    requires Numbered(c, base) && c != []
    ensures Numbered(c[1..], base + 1)
  {
    var c', base' := c[1..], base + 1;
    forall i: nat | i < |c'| ensures HasNumber(c', base', i) {
      assert HasNumber(c, base, i + 1);
    }
  }

  // ---------- What the mask and the ring say about the model

  /** The trailing ones of the mask are the chunks next in line. */
  lemma {:induction false} NextShown(mask: nat, s: Receiver)
    requires Shows(mask, s.expected, s.held)
    ensures Next(s) == s.expected + TrailingOnes(mask) && Next(s) !in s.held
    ensures TrailingOnes(mask) <= |s.held|
    decreases |s.held|
  {
    assert Shown(mask, s.expected, s.held, 0);
    if s.expected in s.held {
      ShowsShift(mask, s);
      NextShown(mask / 2, WriteFirst(s));
    }
  }

  /** The empty ring and mask. */
  lemma NothingMatches(s: Receiver)
    requires s.held == map[] && s.used == 0
    ensures Matches([], 0, s)
  {
    forall i: nat ensures Shown(0, s.expected, s.held, i) { NoBits(i); }
    forall j: nat ensures Stored([], s.expected, s.held, j) {
    }
  }

  lemma NothingHeld(base: nat, held: map<nat, Bytes>)
    requires Stores([], base, held)
    ensures held == map[]
  {
    forall j: nat ensures j !in held { assert Stored([], base, held, j); }
    assert held.Keys == {};
  }

  lemma MatchesBounded(c: seq<Slot<Packet>>, mask: nat, s: Receiver)
    requires Matches(c, mask, s)
    ensures TrailingOnes(mask) <= |c| && |s.held| == Popcount(mask)
    ensures forall j :: j in s.held ==> s.expected <= j < s.expected + s.used
  {
    forall j | j in s.held ensures s.expected <= j < s.expected + s.used {
      assert Stored(c, s.expected, s.held, j);
    }
    TrailingOnesBits(mask);
    if TrailingOnes(mask) > 0 {
      assert Shown(mask, s.expected, s.held, TrailingOnes(mask) - 1);
    }
  }
}

/** Steps on that correspondence. */
module ReceiverSteps {
  import opened Seqnum
  import opened Words
  import opened Bits
  import opened Codec
  import opened PacketBuffer
  import opened ReceiverModel
  import opened ReceiverView

  /** A chunk stored in its slot, d places ahead. */
  lemma MatchesKeep(c: seq<Slot<Packet>>, c': seq<Slot<Packet>>, mask: nat, s: Receiver, d: nat, p: Packet)
    requires Matches(c, mask, s) && |c'| == AtLeast(|c|, d + 1) && Numbered(c', s.expected)
    requires Undisturbed(c, c', s.expected, s.held, d) && |p.payload| == p.length && c'[d].body == p
    ensures Matches(c', SetBit(mask, d), Keep(s, s.expected + d, p))
  {
    ShowsSet(mask, s.expected, s.held, d, p.payload);
    StoresSet(c, c', s.expected, s.held, d, p.payload);
  }

  /** Releasing the first slot after its chunk was written. */
  lemma MatchesRelease(c: seq<Slot<Packet>>, mask: nat, s: Receiver)
    requires Matches(c, mask, s) && mask % 2 == 1
    ensures s.expected in s.held && 0 < |c| && Matches(c[1..], mask / 2, WriteFirst(s))
  {
    ShowsShift(mask, s);
    StoresShift(c, s);
    NumberedShift(c, s.expected);
  }

  /** Nothing besides the ring changes but the output. */
  lemma SurroundingsRelease(maxWindow: uint8, mask: nat, lastTs: Bytes, output: Bytes, lastWrittenLen: int,
                            s: Receiver)
    requires Surroundings(maxWindow, mask, lastTs, output, lastWrittenLen, s)
    requires mask % 2 == 1 && s.expected in s.held
    ensures var chunk := s.held[s.expected];
            Surroundings(maxWindow, mask / 2, lastTs, output + chunk, |chunk|, WriteFirst(s))
  {
    ConcatAppend(s.out, s.held[s.expected]);
  }

  // ---------- Reserving the slot of the next chunk, and receiving into it

  /** Slot k gets the number n. */
  ghost function Renumbered(c: seq<Slot<Packet>>, k: nat, n: nat): seq<Slot<Packet>>
    requires k < |c|
  {
    c[k := Slot(Wrap8(n), c[k].body)]
  }

  /** Slot k is that of the next chunk and free to receive into. It may have lost its
      number. */
  ghost predicate SlotOpen(c: seq<Slot<Packet>>, k: nat, mask: nat, expectedSeq: uint8, s: Receiver) {
    && k < |c| && k == TrailingOnes(mask) && s.expected + k !in s.held
    && Matches(Renumbered(c, k, s.expected + k), mask, s) && expectedSeq == Wrap8(s.expected + k)
  }

  /** Slot i is the same. */
  ghost predicate Same(c: seq<Slot<Packet>>, c': seq<Slot<Packet>>, i: nat) {
    i < |c| && i < |c'| && c'[i] == c[i]
  }

  /** c' has at least k + 1 slots, and is like c but for the k-th and those that c has not. */
  ghost predicate BeginsLike(c: seq<Slot<Packet>>, c': seq<Slot<Packet>>, k: nat) {
    && |c'| == AtLeast(|c|, k + 1)
    && (forall i: nat {:trigger Same(c, c', i)} :: i < |c| && i != k ==> Same(c, c', i))
  }

  lemma BeginsExtended(c: seq<Slot<Packet>>, c1: seq<Slot<Packet>>, start: uint8, k: nat)
    requires Extended(c, c1, start, k)
    ensures BeginsLike(c, c1, k)
  {
    forall i: nat | i < |c| && i != k ensures Same(c, c1, i) {
      assert c1[i] == c[i];
    }
  }

  lemma BeginsReceived(c: seq<Slot<Packet>>, c1: seq<Slot<Packet>>, k: nat, received: Slot<Packet>)
    requires BeginsLike(c, c1, k)
    ensures BeginsLike(c, c1[k := received], k)
  {
    var c2 := c1[k := received];
    forall i: nat | i < |c| && i != k ensures Same(c, c2, i) {
      assert Same(c, c1, i);
    }
  }

  /** The offset that slotfor_seq computes for the expected number. */
  lemma NextOffset(c: seq<Slot<Packet>>, mask: nat, expectedSeq: uint8, s: Receiver, k: nat)
    requires Matches(c, mask, s) && k == TrailingOnes(mask) < 256 && expectedSeq == Wrap8(s.expected + k)
    ensures Wrap8(s.expected) == if c == [] then expectedSeq else c[0].seqnum
    ensures Wrap8(expectedSeq - Wrap8(s.expected)) == k
  {
    NextShown(mask, s);
    WindowTestExact(s.expected + k, s.expected, 0);
    if c == [] {
      NothingHeld(s.expected, s.held);
    } else {
      assert HasNumber(c, s.expected, 0);
    }
  }

  lemma NumberedReserve(c: seq<Slot<Packet>>, c': seq<Slot<Packet>>, base: nat, k: nat)
    requires Numbered(c, base) && Extended(c, c', Wrap8(base), k)
    ensures Numbered(c', base)
  {
    forall i: nat | i < |c'| ensures HasNumber(c', base, i) {
      Wrap8Sum(base, i);
      if i < |c| { assert HasNumber(c, base, i) && c'[i] == c[i]; }
    }
  }

  lemma StoresMore(c: seq<Slot<Packet>>, c': seq<Slot<Packet>>, base: nat, held: map<nat, Bytes>)
    requires Stores(c, base, held) && c <= c'
    ensures Stores(c', base, held)
  {
    forall j: nat ensures Stored(c', base, held, j) {
      assert Stored(c, base, held, j);
    }
  }

  lemma MatchesReserve(c: seq<Slot<Packet>>, c': seq<Slot<Packet>>, mask: nat, s: Receiver, k: nat, t: Receiver)
    requires Matches(c, mask, s) && k == TrailingOnes(mask) && Extended(c, c', Wrap8(s.expected), k)
    requires t == Reserve(s)
    ensures k < |c'| && Matches(c', mask, t)
  {
    NextShown(mask, s);
    NumberedReserve(c, c', s.expected, k);
    StoresMore(c, c', s.expected, s.held);
  }

  /** What the slot holds does not matter as long as it is open. */
  lemma MatchesReceived(c: seq<Slot<Packet>>, received: Slot<Packet>, mask: nat, s: Receiver, k: nat)
    requires Matches(c, mask, s) && k < |c| && s.expected + k !in s.held
    ensures Matches(Renumbered(c[k := received], k, s.expected + k), mask, s)
  {
    var c' := Renumbered(c[k := received], k, s.expected + k);
    forall i: nat | i < |c'| ensures HasNumber(c', s.expected, i) {
      assert HasNumber(c, s.expected, i);
    }
    forall j: nat ensures Stored(c', s.expected, s.held, j) {
      assert Stored(c, s.expected, s.held, j);
    }
  }

  lemma OpenReceived(c: seq<Slot<Packet>>, received: Slot<Packet>, mask: nat, expectedSeq: uint8, s: Receiver, k: nat)
    requires Matches(c, mask, s) && k == TrailingOnes(mask) < |c| && expectedSeq == Wrap8(s.expected + k)
    ensures SlotOpen(c[k := received], k, mask, expectedSeq, s)
  {
    NextShown(mask, s);
    MatchesReceived(c, received, mask, s, k);
  }

  /** The first packet of the connection, in the only slot. */
  lemma FirstSlot(c: seq<Slot<Packet>>, mask: nat, s: Receiver, p: Packet)
    requires Matches([], mask, s) && c == [Slot(p.seqnum, p)]
    ensures SlotOpen(c, 0, mask, Wrap8(s.expected), s.(used := 1)) && s.held == map[] && Popcount(mask) == 0
  {
    NothingHeld(s.expected, s.held);
    NextShown(mask, s);
    var c' := Renumbered(c, 0, s.expected);
    assert HasNumber(c', s.expected, 0);
    forall j: nat ensures Stored(c', s.expected, s.held, j) {
    }
  }

  /** A slot that still has its number, or has got it back. */
  lemma OpenRestored(c: seq<Slot<Packet>>, k: nat, mask: nat, expectedSeq: uint8, s: Receiver)
    requires SlotOpen(c, k, mask, expectedSeq, s) && c[k].seqnum == expectedSeq
    ensures Matches(c, mask, s)
  {
    assert Renumbered(c, k, s.expected + k) == c;
  }

  // ---------- A packet that is kept

  /** The distance of process_incoming_pkt, with k chunks waiting to be written. */
  function DistanceOf(k: nat): nat {
    if k > 0 then k - 1 else 0
  }

  /** It is the 8-bit distance from the number of the first slot to the last one in
      sequence. */
  lemma BufferedDistance(base: nat, k: nat)
    requires 0 < k <= 32
    ensures Wrap8(Wrap8(base + k) - Wrap8(base) - 1) == DistanceOf(k)
  {
    Wrap8Sum(base, base + k);
    Wrap8Sum(base + k, 0 - Wrap8(base) - 1);
    Wrap8Sum(base, base + k - 1);
    Wrap8Sum(k, 0 - 1);
  }

  /** With chunks waiting, the first slot is that of the first one. */
  lemma FirstNumber(c: seq<Slot<Packet>>, k: nat, mask: nat, expectedSeq: uint8, s: Receiver)
    requires SlotOpen(c, k, mask, expectedSeq, s) && 0 < k <= 32
    ensures Wrap8(expectedSeq - c[0].seqnum - 1) == DistanceOf(k)
  {
    assert HasNumber(Renumbered(c, k, s.expected + k), s.expected, 0);
    BufferedDistance(s.expected, k);
  }

  /** The ring after a packet received into slot k was copied gap places down, if it is
      not the next one. */
  ghost predicate Copied(c: seq<Slot<Packet>>, c': seq<Slot<Packet>>, base: nat, k: nat, gap: nat) {
    && k < |c| && |c'| == AtLeast(|c|, k + gap + 1) && Numbered(c', base)
    && (forall i: nat {:trigger Same(c, c', i)} :: i < |c| && i != k && i != k + gap ==> Same(c, c', i))
    && c'[k].body == c[k].body && c'[k + gap].body == c[k].body
  }

  /** All numbers are right but perhaps that of slot k. */
  ghost predicate NumberedBut(c: seq<Slot<Packet>>, base: nat, k: nat) {
    k < |c| && Numbered(Renumbered(c, k, base + k), base)
  }

  lemma CopiedInSteps(c: seq<Slot<Packet>>, c1: seq<Slot<Packet>>, c2: seq<Slot<Packet>>, base: nat, k: nat, gap: nat)
    requires NumberedBut(c, base, k) && gap > 0
    requires Extended(Renumbered(c, k, base + k), c1, Wrap8(base), k + gap)
    requires k + gap < |c1| && c2 == c1[k + gap := Slot(Wrap8(base + k + gap), c1[k].body)]
    ensures Copied(c, c2, base, k, gap)
  {
    var r := Renumbered(c, k, base + k);
    forall i: nat | i < |c2| ensures HasNumber(c2, base, i) {
      Wrap8Sum(base, i);
      if i < |c| && i != k + gap { assert c2[i] == c1[i] == r[i] && HasNumber(r, base, i); }
    }
    forall i: nat | i < |c| && i != k && i != k + gap ensures Same(c, c2, i) {
      assert c1[i] == r[i];
    }
    assert c1[k] == r[k];
  }

  /** The next packet stays in its slot. */
  lemma CopiedNowhere(c: seq<Slot<Packet>>, k: nat, mask: nat, expectedSeq: uint8, s: Receiver)
    requires SlotOpen(c, k, mask, expectedSeq, s) && c[k].seqnum == expectedSeq
    ensures Copied(c, c, s.expected, k, 0)
  {
    OpenRestored(c, k, mask, expectedSeq, s);
  }

  /** The place of a packet gap ahead. */
  lemma PacketPlace(c: seq<Slot<Packet>>, k: nat, mask: nat, expectedSeq: uint8, s: Receiver, gap: nat, p: Packet)
    requires SlotOpen(c, k, mask, expectedSeq, s) && c[k] == Slot(p.seqnum, p) && gap == Distance(p.seqnum, expectedSeq)
    ensures NumberedBut(c, s.expected, k) && p.seqnum == Wrap8(s.expected + k + gap)
    ensures gap == 0 ==> Copied(c, c, s.expected, k, 0)
  {
    DistanceInverse(p.seqnum, s.expected + k);
    if gap == 0 { CopiedNowhere(c, k, mask, expectedSeq, s); }
  }

  /** What process_incoming_pkt makes of ring, mask and expected number. */
  ghost predicate Filed(c: seq<Slot<Packet>>, c': seq<Slot<Packet>>, mask: nat, mask': nat, expectedSeq: uint8,
                        expectedSeq': uint8, base: nat, k: nat, gap: nat) {
    && Copied(c, c', base, k, gap)
    && mask' == SetBit(mask, DistanceOf(k) + gap)
    && expectedSeq' == if gap > 0 then expectedSeq else Wrap8(expectedSeq + TrailingOnes(mask'))
  }

  lemma CopiedUndisturbed(c: seq<Slot<Packet>>, c': seq<Slot<Packet>>, base: nat, held: map<nat, Bytes>, gap: nat)
    requires Copied(c, c', base, 0, gap) && base !in held && Stores(Renumbered(c, 0, base), base, held)
    ensures Undisturbed(Renumbered(c, 0, base), c', base, held, gap)
  {
    var r := Renumbered(c, 0, base);
    forall j: nat | j in held && j != base + gap ensures StillThere(r, c', base, j) {
      assert Stored(r, base, held, j) && Same(c, c', j - base);
    }
  }

  /** The expected number with bit gap set and nothing waiting before. */
  lemma Advanced(mask: nat, gap: nat, base: nat)
    requires mask % 2 == 0
    ensures var ones := TrailingOnes(SetBit(mask, gap));
            Wrap8(base + ones) == if gap > 0 then Wrap8(base) else Wrap8(Wrap8(base) + ones)
  {
    Wrap8Sum(base, TrailingOnes(SetBit(mask, gap)));
  }

  /** With nothing waiting to be written, that is right: the packet is stored at its number,
      no held chunk is touched except by the same chunk again, and the expected number moves
      over all that is then in sequence. */
  lemma FiledRight(c: seq<Slot<Packet>>, c': seq<Slot<Packet>>, mask: nat, mask': nat, expectedSeq: uint8,
                   expectedSeq': uint8, s: Receiver, gap: nat, p: Packet)
    requires SlotOpen(c, 0, mask, expectedSeq, s) && c[0].body == p && |p.payload| == p.length
    requires Filed(c, c', mask, mask', expectedSeq, expectedSeq', s.expected, 0, gap)
    ensures Matches(c', mask', Keep(s, s.expected + gap, p))
    ensures expectedSeq' == Wrap8(s.expected + TrailingOnes(mask'))
  {
    CopiedUndisturbed(c, c', s.expected, s.held, gap);
    MatchesKeep(Renumbered(c, 0, s.expected), c', mask, s, gap, p);
    Advanced(mask, gap, s.expected);
  }

  /** So are the variables. */
  lemma WholeRight(c: seq<Slot<Packet>>, c': seq<Slot<Packet>>, maxWindow: uint8, mask: nat, mask': nat,
                   expectedSeq: uint8, expectedSeq': uint8, lastTs: Bytes, output: Bytes, lastWrittenLen: int,
                   s: Receiver, gap: nat, p: Packet) returns (t: Receiver)
    requires SlotOpen(c, 0, mask, expectedSeq, s) && c[0].body == p && |p.payload| == p.length
    requires Filed(c, c', mask, mask', expectedSeq, expectedSeq', s.expected, 0, gap)
    requires Surroundings(maxWindow, mask, lastTs, output, lastWrittenLen, s)
    requires Popcount(mask) < maxWindow && gap <= maxWindow && p.ts == s.ts
    ensures t == Keep(s, s.expected + gap, p) && Matches(c', mask', t)
    ensures Surroundings(maxWindow, mask', lastTs, output, lastWrittenLen, t)
    ensures expectedSeq' == Wrap8(t.expected + TrailingOnes(mask'))
  {
    t := Keep(s, s.expected + gap, p);
    FiledRight(c, c', mask, mask', expectedSeq, expectedSeq', s, gap, p);
    SetBitPopcount(mask, gap);
  }

  // ---------- A packet that is misfiled

  /** What a packet that is whole leaves, when chunks in sequence wait to be written: the
      ring has it in two slots, its own and that of the next chunk; the mask has the bit of
      the slot before its own. */
  ghost predicate Misfiled(c: seq<Slot<Packet>>, c': seq<Slot<Packet>>, mask: nat, mask': nat, expectedSeq: uint8,
                           expectedSeq': uint8, base: nat, p: Packet) {
    var k, gap := TrailingOnes(mask), Distance(p.seqnum, expectedSeq);
    && k > 0 && |c'| == AtLeast(|c|, k + gap + 1) && Numbered(c', base)
    && (forall i: nat {:trigger Same(c, c', i)} :: i < |c| && i != k && i != k + gap ==> Same(c, c', i))
    && c'[k].body == p && c'[k + gap].body == p
    && mask' == SetBit(mask, k - 1 + gap)
    && expectedSeq' == if gap > 0 then expectedSeq else Wrap8(expectedSeq + k)
  }

  lemma MisfiledInSteps(c: seq<Slot<Packet>>, c1: seq<Slot<Packet>>, c': seq<Slot<Packet>>, mask: nat, mask': nat,
                        expectedSeq: uint8, expectedSeq': uint8, base: nat, k: nat, p: Packet)
    requires BeginsLike(c, c1, k) && c1[k] == Slot(p.seqnum, p) && k == TrailingOnes(mask) > 0
    requires Filed(c1, c', mask, mask', expectedSeq, expectedSeq', base, k, Distance(p.seqnum, expectedSeq))
    ensures Misfiled(c, c', mask, mask', expectedSeq, expectedSeq', base, p)
  {
    var gap := Distance(p.seqnum, expectedSeq);
    if gap == 0 { BitAgain(mask, k - 1); }
    forall i: nat | i < |c| && i != k && i != k + gap ensures Same(c, c', i) {
      assert Same(c, c1, i) && Same(c1, c', i);
    }
  }

  /** The bit of a chunk that waits is set already. */
  lemma BitAgain(mask: nat, i: nat)
    requires i < TrailingOnes(mask)
    ensures SetBit(mask, i) == mask
  {
    TrailingOnesBits(mask);
    SetAgain(mask, i);
  }

  /** The code can go on from there. */
  lemma MisfiledSafe(c: seq<Slot<Packet>>, c': seq<Slot<Packet>>, mask: nat, mask': nat, expectedSeq: uint8,
                     expectedSeq': uint8, s: Receiver, p: Packet)
    requires Matches(c, mask, s) && Misfiled(c, c', mask, mask', expectedSeq, expectedSeq', s.expected, p)
    ensures TrailingOnes(mask') <= |c'|
  {
    var k, gap, t := TrailingOnes(mask), Distance(p.seqnum, expectedSeq), TrailingOnes(mask');
    if t > 0 {
      TrailingOnesBits(mask');
      SetBitBits(mask, k - 1 + gap, t - 1);
      if Bit(mask, t - 1) {
        assert Shown(mask, s.expected, s.held, t - 1);
        assert Stored(c, s.expected, s.held, s.expected + (t - 1));
      }
    }
  }
}

/** The receiver's code (receive.c): the ring, the 32-bit mask and the 8-bit expected
    number, updated in place, and proved to follow the state machine of ReceiverModel. */
module ReceiverCode {
  import opened Words
  import opened Options
  import opened Seqnum
  import opened Bits
  import opened Codec
  import opened PacketBuffer
  import opened ReceiverModel
  import opened ReceiverView
  import opened ReceiverSteps
  import opened ReceiverAnswers

  /** What becomes of a datagram, once the slot of the next chunk is reserved. */
  lemma Decided(s: Receiver, maxWindow: uint8, r: Result<Packet>, k: nat, expectedSeq: uint8, t: Receiver, ok: bool)
    requires !Full(s, maxWindow) && Next(s) == s.expected + k && expectedSeq == Wrap8(s.expected + k)
    requires t == Reserve(s) && ok == Accepts(s, maxWindow, r)
    ensures NackDue(s, maxWindow, r) <==> ok && r.value.tr
    ensures Misfiles(s, maxWindow, r) <==> ok && !r.value.tr && k > 0
    ensures !ok ==> Admit(s, maxWindow, r) == t
    ensures ok && r.value.tr ==> Admit(s, maxWindow, r) == t.(ts := r.value.ts)
    ensures ok ==> k + Distance(r.value.seqnum, expectedSeq) <= maxWindow
    ensures ok && !r.value.tr && k == 0 ==>
              Admit(s, maxWindow, r) == Keep(t, t.expected + Distance(r.value.seqnum, expectedSeq), r.value)
  {
  }

  /** The first packet is processed like any other. */
  lemma FirstKept(s: Receiver, p: Packet, expectedSeq: uint8)
    requires Unconnected(s) && p.seqnum == 0
    ensures Distance(p.seqnum, Wrap8(s.expected)) == 0 && Wrap8(s.expected + 0) == 0
    ensures First(p) == if p.tr then s.(used := 1, ts := p.ts) else Keep(s.(used := 1), 0, p)
  {
  }

  /** What is due after a datagram was read. */
  lemma DueRead(s: Receiver, maxWindow: uint8, due: Due, r: Result<Packet>, ack: bool, nack: bool, nackSeq: uint8)
    requires if NackDue(s, maxWindow, r) then nack && nackSeq == r.value.seqnum
             else nack == due.nack.Some? && (nack ==> nackSeq == due.nack.value)
    requires ack == (due.ack || !nack)
    ensures Due(ack, if nack then Some(nackSeq) else None) == DueAfter(s, maxWindow, due, r)
  {
  }

  /** An iteration, part by part. */
  lemma PollParts(s: Receiver, maxWindow: uint8, due: Due, r: Option<Result<Packet>>, writes: Option<nat>,
                  k: Receiver, due': Due)
    requires k == if r.Some? then Admit(s, maxWindow, r.value) else s
    requires due' == DueThen(s, maxWindow, due, r)
    ensures var d := EmptyBuffer(k, writes);
            Poll(s, maxWindow, due, r, writes) == Step(d, Replies(d, maxWindow, due'), Ended(d))
  {
  }

  class ReceiverState {
    const ring: PktBuf<Packet>
    const maxWindow: uint8
    var oosMask: uint32
    var expectedSeq: uint8
    var lastTs: Bytes
    var needAck: bool
    var needNack: bool
    var nackSeq: uint8
    var lastWrittenLen: int
    /** The output file. */
    var output: Bytes
    /** The packets given to net_send so far. */
    var wire: seq<Packet>
    ghost var model: Receiver

    /** The ring and a mask stand for a model state. */
    ghost predicate RingStandsFor(mask: nat, m: Receiver)
      reads ring, ring.head
    {
      ring.Valid() && Matches(ring.Contents(), mask, m)
    }

    ghost predicate RingMatches()
      reads this`oosMask, this`model, ring, ring.head
    {
      RingStandsFor(oosMask, model)
    }

    /** The part of the state besides the ring and the expected number. */
    ghost predicate Outside()
      reads this`oosMask, this`lastTs, this`output, this`lastWrittenLen, this`model
    {
      Surroundings(maxWindow, oosMask, lastTs, output, lastWrittenLen, model)
    }

    /** Everything but the expected number stands for the model state. */
    ghost predicate Writable()
      reads this`oosMask, this`lastTs, this`output, this`lastWrittenLen, this`model, ring, ring.head
    {
      RingMatches() && ring.capacity == RING_CAPACITY && Outside()
    }

    /** The index of the next chunk: those before it are written, or wait to be. */
    ghost function NextIndex(): nat
      reads this`oosMask, this`model
    {
      model.expected + TrailingOnes(oosMask)
    }

    /** So does the expected number. Chunks next in line may wait to be written. */
    ghost predicate Consistent()
      reads this`oosMask, this`expectedSeq, this`lastTs, this`output, this`lastWrittenLen, this`model, ring, ring.head
    {
      Writable() && expectedSeq == Wrap8(NextIndex())
    }

    /** What is true even after a packet was misfiled: the code can go on. */
    ghost predicate Safe()
      reads this`oosMask, ring
    {
      && ring.Valid() && ring.capacity == RING_CAPACITY
      && TrailingOnes(oosMask) <= ring.Used() && Popcount(oosMask) <= maxWindow <= 31
    }

    lemma ConsistentIsSafe()
      requires Writable()
      ensures Safe() && Bounded(model, maxWindow) && Next(model) == model.expected + TrailingOnes(oosMask)
    {
      NextShown(oosMask, model);
      MatchesBounded(ring.Contents(), oosMask, model);
    }

    /** The replies that are due. */
    ghost function DueNow(): Due
      reads this`needAck, this`needNack, this`nackSeq
    {
      Due(needAck, if needNack then Some(nackSeq) else None)
    }

    /** The static initial values, and the buffer made by main. */
    constructor (maxWindow: uint8)
      requires 1 <= maxWindow <= 31
      ensures Consistent() && fresh(ring) && fresh(ring.head) && this.maxWindow == maxWindow
      ensures model == Receiver(0, map[], 0, [], [0, 0, 0, 0]) && output == [] && wire == []
      ensures ring.capacity == 32 && ring.Contents() == [] && oosMask == 0 && expectedSeq == 0
      ensures lastTs == [0, 0, 0, 0] && lastWrittenLen == -1 && !needAck && !needNack
    {
      this.maxWindow := maxWindow;
      ring := new PktBuf<Packet>(RING_CAPACITY, Packet(0, false, 0, 0, 0, [0, 0, 0, 0], []));
      oosMask, expectedSeq, lastTs := 0, 0, [0, 0, 0, 0];
      needAck, needNack, nackSeq, lastWrittenLen := false, false, 0, -1;
      output, wire := [], [];
      model := Receiver(0, map[], 0, [], [0, 0, 0, 0]);
      new;
      NothingMatches(model);
    }

    /** rbuf_full */
    predicate RbufFull()
      reads this`oosMask
    {
      Popcount(oosMask) >= maxWindow
    }

    /** can_empty_rbuf */
    predicate CanEmptyRbuf()
      reads this, ring
    {
      !ring.Empty() && oosMask % 2 == 1
    }

    /** window_size: shifts the mask until a zero comes out. The unsigned difference
        does not underflow. */
    method WindowSize() returns (win: uint32)
      requires Popcount(oosMask) <= maxWindow
      ensures win == maxWindow - TrailingOnes(oosMask)
    {
      var inSeqCount, mask := 0, oosMask;
      TrailingOnesBits(oosMask);
      while mask % 2 == 1
        invariant TrailingOnes(oosMask) == inSeqCount + TrailingOnes(mask)
        decreases mask
      {
        inSeqCount := inSeqCount + 1;
        mask := mask / 2;
      }
      win := Sub32(maxWindow, inSeqCount);
    }

    // ---------- Receiving

    /** What the decoder guarantees of an accepted packet. */
    ghost predicate Keepable(p: Packet) {
      (p.tr || |p.payload| == p.length) && |p.ts| == 4
    }

    /** A datagram was received into slot k, that of the next chunk, and may have changed its
        number: everything else is as it was. */
    ghost predicate Pending(k: nat)
      reads this`oosMask, this`expectedSeq, this`lastTs, this`output, this`lastWrittenLen, this`model, ring, ring.head
    {
      && ring.Valid() && ring.capacity == RING_CAPACITY && Outside()
      && SlotOpen(ring.Contents(), k, oosMask, expectedSeq, model)
    }

    /** It is the packet p. */
    ghost predicate Received(slot: nat, k: nat, p: Packet)
      reads this`oosMask, this`expectedSeq, this`lastTs, this`output, this`lastWrittenLen, this`model, ring, ring.head
    {
      Pending(k) && slot == ring.Phys(k) && ring.Contents()[k] == Slot(p.seqnum, p)
    }

    /** `pkt->seq = expected_seq` on that slot. */
    method RestoreSeqnum(slot: nat, ghost k: nat)
      requires Pending(k) && slot == ring.Phys(k)
      modifies ring.head
      ensures Consistent()
    {
      ring.SlotContent(k);
      ring.Store(slot, ring.head[slot].(seqnum := expectedSeq), k);
    }

    /** `pkt = pktbuf_slotfor_seq(recv_buf, expected_seq)`, and the datagram received
        into that slot; one that does not decode leaves anything there. */
    method ReceiveInto(r: Result<Packet>, garbage: Slot<Packet>, ghost k: nat) returns (slot: nat)
      requires Consistent() && k == TrailingOnes(oosMask) && Popcount(oosMask) < maxWindow
      modifies this`model, ring`last, ring.head
      ensures Pending(k) && slot == ring.Phys(k) && (r.Ok? ==> Received(slot, k, r.value))
      ensures model == Reserve(old(model)) && BeginsLike(old(ring.Contents()), ring.Contents(), k)
    {
      ghost var c, t := ring.Contents(), Reserve(model);
      slot := ReserveNext(k, t);
      model := t;
      var received := if r.Ok? then Slot(r.value.seqnum, r.value) else garbage;
      OpenReceived(ring.Contents(), received, oosMask, expectedSeq, t, k);
      BeginsReceived(c, ring.Contents(), k, received);
      ring.Store(slot, received, k);
    }

    /** The slot of the next chunk. */
    method ReserveNext(ghost k: nat, ghost t: Receiver) returns (slot: nat)
      requires Consistent() && k == TrailingOnes(oosMask) && Popcount(oosMask) < maxWindow && t == Reserve(model)
      modifies ring`last, ring.head
      ensures RingStandsFor(oosMask, t) && slot == ring.Phys(k) && k < ring.Used()
      ensures Surroundings(maxWindow, oosMask, lastTs, output, lastWrittenLen, t)
      ensures BeginsLike(old(ring.Contents()), ring.Contents(), k)
    {
      ghost var c := ring.Contents();
      TrailingOnesBits(oosMask);
      NextOffset(c, oosMask, expectedSeq, model, k);
      slot := ring.SlotWithin(expectedSeq, Wrap8(model.expected), k);
      MatchesReserve(c, ring.Contents(), oosMask, model, k, t);
      BeginsExtended(c, ring.Contents(), Wrap8(model.expected), k);
    }

    // ---------- process_incoming_pkt

    /** `last_ts = pkt->ts` */
    method RememberTimestamp(slot: nat, ghost k: nat, ghost p: Packet)
      requires Received(slot, k, p) && Keepable(p)
      modifies this`lastTs, this`model
      ensures Received(slot, k, p) && model == old(model).(ts := p.ts)
    {
      ring.SlotContent(k);
      lastTs := ring.head[slot].body.ts;
      model := model.(ts := p.ts);
    }

    /** How far the expected number is from the last one in sequence in the ring. */
    method InSequenceDistance(ghost slot: nat, ghost k: nat, ghost p: Packet) returns (distance: uint8)
      requires Received(slot, k, p) && k <= 32
      ensures distance == DistanceOf(k)
    {
      if oosMask % 2 == 0 { return 0; }
      FirstNumber(ring.Contents(), k, oosMask, expectedSeq, model);
      ring.SlotContent(0);
      var first := ring.Mask(ring.first);
      distance := Wrap8(expectedSeq - ring.head[first].seqnum - 1);
    }

    /** How far the packet received is ahead, and whether it is truncated. */
    method GapAndTr(slot: nat, ghost k: nat, ghost p: Packet) returns (gap: uint8, tr: bool)
      requires Received(slot, k, p)
      ensures gap == Distance(p.seqnum, expectedSeq) && tr == p.tr
    {
      ring.SlotContent(k);
      gap, tr := Wrap8(ring.head[slot].seqnum - expectedSeq), ring.head[slot].body.tr;
    }

    /** The code of a truncated packet: a NACK is due, nothing is stored. */
    method ProcessTruncated(slot: nat, gap: uint8, ghost k: nat, ghost p: Packet)
      requires Received(slot, k, p) && gap == Distance(p.seqnum, expectedSeq)
      modifies this`needNack, this`nackSeq, ring.head
      ensures Consistent() && needNack && nackSeq == p.seqnum
    {
      ring.SlotContent(k);
      needNack, nackSeq := true, ring.head[slot].seqnum;
      if gap > 0 {
        RestoreSeqnum(slot, k);
      } else {
        DistanceInverse(p.seqnum, model.expected + k);
        OpenRestored(ring.Contents(), k, oosMask, expectedSeq, model);
      }
    }

    /** `oos_mask |= 1 << n`. The shift is one of an int: 31 places, which a packet a whole
        window of 31 ahead asks for, reach its sign bit. The sender of this project sends
        nothing that far ahead before its go-back-n runs away (Safety.Credit). */
    method SetMask(n: nat)
      requires n < 32
      modifies this`oosMask
      ensures oosMask == SetBit(old(oosMask), n)
    {
      Pow2Of32();
      SetBitBound(oosMask, n, 32);
      oosMask := SetBit(oosMask, n);
    }

    /** The copy of an out-of-sequence packet down the ring, to the slot of its number;
        the slot it was received into gets its own number back. */
    method CopyDown(slot: nat, gap: uint8, ghost base: nat, ghost k: nat)
      requires ring.Valid() && ring.capacity == RING_CAPACITY && NumberedBut(ring.Contents(), base, k)
      requires slot == ring.Phys(k) && 0 < gap && k + gap < 32
      requires expectedSeq == Wrap8(base + k) && ring.Contents()[k].seqnum == Wrap8(base + k + gap)
      modifies ring`last, ring.head
      ensures ring.Valid() && Copied(old(ring.Contents()), ring.Contents(), base, k, gap)
    {
      ghost var c := ring.Contents();
      var received := ring.head[slot].seqnum;
      ring.SlotContent(k);
      ring.Store(slot, ring.head[slot].(seqnum := expectedSeq), k);
      assert ring.Contents() == Renumbered(c, k, base + k);
      assert HasNumber(ring.Contents(), base, 0);
      WindowTestExact(base + k + gap, base, 0);
      var stored := ring.SlotWithin(received, Wrap8(base), k + gap);
      ghost var c1 := ring.Contents();
      ring.SlotContent(k);
      ring.Store(stored, ring.head[slot].(seqnum := received), k + gap);
      CopiedInSteps(c, c1, ring.Contents(), base, k, gap);
    }

    /** `expected_seq += max_window - window_size()` */
    method AdvanceExpected()
      requires Popcount(oosMask) <= maxWindow
      modifies this`expectedSeq
      ensures expectedSeq == Wrap8(old(expectedSeq) + TrailingOnes(oosMask))
    {
      var win := WindowSize();
      expectedSeq := Wrap8(expectedSeq + (maxWindow - win));
    }

    /** The code behind the mask: the copy for a packet ahead, the advance for the next one. */
    method FileRing(slot: nat, gap: uint8, ghost base: nat, ghost k: nat, ghost c: seq<Slot<Packet>>, ghost e: uint8)
      requires ring.Valid() && ring.capacity == RING_CAPACITY && slot == ring.Phys(k) && Popcount(oosMask) <= maxWindow
      requires c == ring.Contents() && NumberedBut(c, base, k) && c[k].seqnum == Wrap8(base + k + gap)
      requires e == expectedSeq == Wrap8(base + k) && k + gap < 32 && (gap == 0 ==> Copied(c, c, base, k, 0))
      modifies this`expectedSeq, ring`last, ring.head
      ensures ring.Valid() && Copied(c, ring.Contents(), base, k, gap)
      ensures expectedSeq == if gap > 0 then e else Wrap8(e + TrailingOnes(oosMask))
    {
      if gap > 0 {
        CopyDown(slot, gap, base, k);
      } else {
        AdvanceExpected();
      }
    }

    /** The code of a packet that is whole, whatever waits to be written. */
    method FileWhole(slot: nat, distance: uint8, gap: uint8, ghost k: nat, ghost p: Packet,
                     ghost c: seq<Slot<Packet>>, ghost mask: nat, ghost e: uint8)
      requires Received(slot, k, p) && distance == DistanceOf(k)
      requires gap == Distance(p.seqnum, expectedSeq) && k + gap <= maxWindow && Popcount(oosMask) < maxWindow
      requires c == ring.Contents() && mask == oosMask && e == expectedSeq
      modifies this`oosMask, this`expectedSeq, ring`last, ring.head
      ensures ring.Valid() && Popcount(oosMask) <= maxWindow
      ensures Filed(c, ring.Contents(), mask, oosMask, e, expectedSeq, model.expected, k, gap)
    {
      PacketPlace(c, k, mask, e, model, gap, p);
      SetBitPopcount(oosMask, distance + gap);
      SetMask(distance + gap);
      FileRing(slot, gap, model.expected, k, c, e);
    }

    /** From here on the ring and the variables stand for the state m. */
    ghost method StandFor(m: Receiver)
      requires RingStandsFor(oosMask, m) && ring.capacity == RING_CAPACITY
      requires Surroundings(maxWindow, oosMask, lastTs, output, lastWrittenLen, m)
      modifies this`model
      ensures Writable() && model == m
    {
      model := m;
    }

    /** With nothing waiting, that is right. */
    ghost method WholeIsRight(gap: uint8, p: Packet, c: seq<Slot<Packet>>, mask: nat, e: uint8)
      requires SlotOpen(c, 0, mask, e, model) && c[0].body == p && |p.payload| == p.length && p.ts == model.ts
      requires ring.Valid() && ring.capacity == RING_CAPACITY && Popcount(mask) < maxWindow && gap <= maxWindow
      requires Filed(c, ring.Contents(), mask, oosMask, e, expectedSeq, model.expected, 0, gap)
      requires Surroundings(maxWindow, mask, lastTs, output, lastWrittenLen, model)
      modifies this`model
      ensures Consistent() && model == Keep(old(model), old(model).expected + gap, p)
    {
      model := WholeRight(c, ring.Contents(), maxWindow, mask, oosMask, e, expectedSeq, lastTs, output, lastWrittenLen,
                          model, gap, p);
    }

    /** The part of process_incoming_pkt for a packet that is not truncated. */
    method ProcessWhole(slot: nat, distance: uint8, gap: uint8, ghost k: nat, ghost p: Packet)
      requires Received(slot, k, p) && Keepable(p) && !p.tr && p.ts == model.ts && distance == DistanceOf(k)
      requires gap == Distance(p.seqnum, expectedSeq) && k + gap <= maxWindow && Popcount(oosMask) < maxWindow
      modifies this`oosMask, this`expectedSeq, this`model, ring`last, ring.head
      ensures ring.Valid() && Popcount(oosMask) <= maxWindow
      ensures Filed(old(ring.Contents()), ring.Contents(), old(oosMask), oosMask, old(expectedSeq), expectedSeq,
                    old(model).expected, k, gap)
      ensures k == 0 ==> Consistent() && model == Keep(old(model), old(model).expected + gap, p)
    {
      ghost var c, mask, e := ring.Contents(), oosMask, expectedSeq;
      FileWhole(slot, distance, gap, k, p, c, mask, e);
      if k == 0 { WholeIsRight(gap, p, c, mask, e); }
    }

    /** process_incoming_pkt behind its first line. */
    method ProcessStamped(slot: nat, ghost k: nat, ghost p: Packet)
      requires Received(slot, k, p) && Keepable(p) && p.ts == model.ts
      requires k + Distance(p.seqnum, expectedSeq) <= maxWindow && Popcount(oosMask) < maxWindow
      modifies this`oosMask, this`expectedSeq, this`needNack, this`nackSeq, this`model, ring`last, ring.head
      ensures if p.tr then needNack && nackSeq == p.seqnum else needNack == old(needNack) && nackSeq == old(nackSeq)
      ensures p.tr ==> Consistent() && model == old(model)
      ensures !p.tr ==> ring.Valid() && Popcount(oosMask) <= maxWindow
      ensures !p.tr ==>
                Filed(old(ring.Contents()), ring.Contents(), old(oosMask), oosMask, old(expectedSeq), expectedSeq,
                      old(model).expected, k, Distance(p.seqnum, old(expectedSeq)))
      ensures !p.tr && k == 0 ==>
                && Consistent()
                && model == Keep(old(model), old(model).expected + Distance(p.seqnum, old(expectedSeq)), p)
    {
      var distance := InSequenceDistance(slot, k, p);
      var gap, tr := GapAndTr(slot, k, p);
      if tr {
        ProcessTruncated(slot, gap, k, p);
      } else {
        ProcessWhole(slot, distance, gap, k, p);
      }
    }

    /** process_incoming_pkt */
    method ProcessIncomingPkt(slot: nat, ghost k: nat, ghost p: Packet)
      requires Received(slot, k, p) && Keepable(p)
      requires k + Distance(p.seqnum, expectedSeq) <= maxWindow && Popcount(oosMask) < maxWindow
      modifies this`oosMask, this`expectedSeq, this`lastTs, this`needNack, this`nackSeq, this`model,
               ring`last, ring.head
      ensures if p.tr then needNack && nackSeq == p.seqnum else needNack == old(needNack) && nackSeq == old(nackSeq)
      ensures p.tr ==> Consistent() && model == old(model).(ts := p.ts)
      ensures !p.tr ==> ring.Valid() && Popcount(oosMask) <= maxWindow && lastTs == p.ts
      ensures !p.tr ==>
                Filed(old(ring.Contents()), ring.Contents(), old(oosMask), oosMask, old(expectedSeq), expectedSeq,
                      old(model).expected, k, Distance(p.seqnum, old(expectedSeq)))
      ensures !p.tr && k == 0 ==>
                && Consistent()
                && model == Keep(old(model), old(model).expected + Distance(p.seqnum, old(expectedSeq)), p)
    {
      RememberTimestamp(slot, k, p);
      ProcessStamped(slot, k, p);
    }

    /** The tests of net_recv_pkt and the type check. */
    method PassesTests(r: Result<Packet>, win: uint8, ghost s: Receiver) returns (ok: bool)
      requires expectedSeq == Wrap8(Next(s)) && win == WindowLeft(s, maxWindow)
      ensures ok == Accepts(s, maxWindow, r)
    {
      ok := r.Ok? && InWindow(r.value.seqnum, expectedSeq, win) && r.value.typ == DATA;
    }

    /** process_incoming_pkt on an accepted packet in the slot of the next chunk, the ring and
        the state having been c and s before the slot was reserved. */
    method ProcessAccepted(slot: nat, ghost k: nat, ghost p: Packet, ghost c: seq<Slot<Packet>>, ghost s: Receiver)
      requires Received(slot, k, p) && Keepable(p) && BeginsLike(c, ring.Contents(), k) && Matches(c, oosMask, s)
      requires s.expected == model.expected
      requires k + Distance(p.seqnum, expectedSeq) <= maxWindow && Popcount(oosMask) < maxWindow
      modifies this`oosMask, this`expectedSeq, this`lastTs, this`needNack, this`nackSeq, this`model,
               ring`last, ring.head
      ensures if p.tr then needNack && nackSeq == p.seqnum else needNack == old(needNack) && nackSeq == old(nackSeq)
      ensures p.tr ==> Consistent() && model == old(model).(ts := p.ts)
      ensures !p.tr && k == 0 ==>
                && Consistent()
                && model == Keep(old(model), old(model).expected + Distance(p.seqnum, old(expectedSeq)), p)
      ensures !p.tr && k > 0 ==>
                && Safe() && lastTs == p.ts
                && Misfiled(c, ring.Contents(), old(oosMask), oosMask, old(expectedSeq), expectedSeq, s.expected, p)
    {
      ghost var c1, mask, e := ring.Contents(), oosMask, expectedSeq;
      ProcessIncomingPkt(slot, k, p);
      if !p.tr && k > 0 {
        MisfiledInSteps(c, c1, ring.Contents(), mask, oosMask, e, expectedSeq, s.expected, k, p);
        MisfiledSafe(c, ring.Contents(), mask, oosMask, e, expectedSeq, s, p);
      }
    }

    /** The datagram in the slot of the next chunk is dropped, or processed. */
    method FileReceived(slot: nat, ok: bool, r: Result<Packet>, ghost k: nat, ghost c: seq<Slot<Packet>>,
                        ghost s: Receiver)
      requires Pending(k) && slot == ring.Phys(k) && (ok ==> r.Ok? && Received(slot, k, r.value) && Keepable(r.value))
      requires BeginsLike(c, ring.Contents(), k) && Matches(c, oosMask, s) && s.expected == model.expected
      requires ok ==> k + Distance(r.value.seqnum, expectedSeq) <= maxWindow && Popcount(oosMask) < maxWindow
      modifies this`oosMask, this`expectedSeq, this`lastTs, this`needNack, this`nackSeq, this`model,
               ring`last, ring.head
      ensures if ok && r.value.tr then needNack && nackSeq == r.value.seqnum
              else needNack == old(needNack) && nackSeq == old(nackSeq)
      ensures !ok ==> Consistent() && model == old(model)
      ensures ok && r.value.tr ==> Consistent() && model == old(model).(ts := r.value.ts)
      ensures ok && !r.value.tr && k == 0 ==>
                && Consistent()
                && model == Keep(old(model), old(model).expected + Distance(r.value.seqnum, old(expectedSeq)), r.value)
      ensures ok && !r.value.tr && k > 0 ==>
                && Safe() && lastTs == r.value.ts
                && Misfiled(c, ring.Contents(), old(oosMask), oosMask, old(expectedSeq), expectedSeq, s.expected,
                            r.value)
    {
      if !ok {
        RestoreSeqnum(slot, k);
      } else {
        ProcessAccepted(slot, k, r.value, c, s);
      }
    }

    /** net_recv_pkt into the slot of the next chunk, and the type check. */
    method ReceiveAndTest(r: Result<Packet>, garbage: Slot<Packet>, ghost k: nat, ghost s: Receiver)
      returns (slot: nat, ok: bool)
      requires Consistent() && s == model && k == TrailingOnes(oosMask) && Popcount(oosMask) < maxWindow
      modifies this`model, ring`last, ring.head
      ensures Pending(k) && slot == ring.Phys(k) && (r.Ok? ==> Received(slot, k, r.value))
      ensures model == Reserve(s) && BeginsLike(old(ring.Contents()), ring.Contents(), k)
      ensures ok == Accepts(s, maxWindow, r)
      ensures Next(s) == s.expected + k && expectedSeq == Wrap8(s.expected + k) && !Full(s, maxWindow)
    {
      ConsistentIsSafe();
      MatchesBounded(ring.Contents(), oosMask, s);
      var win := WindowSize();
      slot := ReceiveInto(r, garbage, k);
      ok := PassesTests(r, win, s);
    }

    /** do_receive_data. A packet that is whole is kept at its number, unless chunks in
        sequence wait to be written. */
    method DoReceiveData(r: Result<Packet>, garbage: Slot<Packet>)
      requires Consistent() && Popcount(oosMask) < maxWindow && (r.Ok? ==> Keepable(r.value))
      modifies this`oosMask, this`expectedSeq, this`lastTs, this`needNack, this`nackSeq, this`model,
               ring`last, ring.head
      ensures if NackDue(old(model), maxWindow, r) then needNack && nackSeq == r.value.seqnum
              else needNack == old(needNack) && nackSeq == old(nackSeq)
      ensures !Misfiles(old(model), maxWindow, r) ==> Consistent() && model == Admit(old(model), maxWindow, r)
      ensures Misfiles(old(model), maxWindow, r) ==>
                && Safe() && lastTs == r.value.ts
                && Misfiled(old(ring.Contents()), ring.Contents(), old(oosMask), oosMask, old(expectedSeq), expectedSeq,
                            old(model).expected, r.value)
    {
      ghost var c, s, k := ring.Contents(), model, TrailingOnes(oosMask);
      var slot, ok := ReceiveAndTest(r, garbage, k, s);
      Decided(s, maxWindow, r, k, expectedSeq, model, ok);
      FileReceived(slot, ok, r, k, c, s);
    }

    /** do_read_sock: with a full buffer the datagram is discarded. */
    method DoReadSock(r: Result<Packet>, garbage: Slot<Packet>)
      requires Consistent() && (r.Ok? ==> Keepable(r.value))
      modifies this`oosMask, this`expectedSeq, this`lastTs, this`needNack, this`nackSeq, this`model,
               ring`last, ring.head
      ensures if NackDue(old(model), maxWindow, r) then needNack && nackSeq == r.value.seqnum
              else needNack == old(needNack) && nackSeq == old(nackSeq)
      ensures !Misfiles(old(model), maxWindow, r) ==> Consistent() && model == Admit(old(model), maxWindow, r)
      ensures Misfiles(old(model), maxWindow, r) ==>
                && Safe() && lastTs == r.value.ts
                && Misfiled(old(ring.Contents()), ring.Contents(), old(oosMask), oosMask, old(expectedSeq), expectedSeq,
                            old(model).expected, r.value)
    {
      ConsistentIsSafe();
      if !RbufFull() {
        DoReceiveData(r, garbage);
      }
    }

    // ---------- Writing

    /** The write of do_empty_rbuf: a chunk that is not empty waits when the output file
        would block. */
    method OutputFirst(writes: Option<nat>, ghost good: bool) returns (ok: bool, left: Option<nat>)
      requires Safe() && ring.Used() > 0 && (good ==> RingMatches() && model.expected in model.held)
      modifies this`lastWrittenLen, this`output
      ensures good ==> ok == !Blocks(model.held[model.expected], writes)
      ensures good && ok ==> left == LeftAfter(model.held[model.expected], writes)
      ensures good ==> lastWrittenLen == |model.held[model.expected]|
      ensures good ==> output == if ok then old(output) + model.held[model.expected] else old(output)
    {
      if good { StoresShift(ring.Contents(), model); }
      ring.SlotContent(0);
      var slot := ring.First();
      lastWrittenLen, left := ring.head[slot].body.length, writes;
      if lastWrittenLen != 0 {
        if left == Some(0) { return false, left; }
        output := output + ring.head[slot].body.payload;
        if left.Some? { left := Some(left.value - 1); }
      }
      return true, left;
    }

    /** `pktbuf_dequeue(recv_buf); oos_mask >>= 1` */
    method ReleaseFirst(ghost good: bool)
      requires Safe() && oosMask % 2 == 1 && (good ==> RingMatches())
      modifies this`oosMask, ring`first
      ensures Safe() && oosMask == old(oosMask) / 2
      ensures good ==> model.expected in model.held && RingStandsFor(oosMask, WriteFirst(model))
    {
      if good { MatchesRelease(ring.Contents(), oosMask, model); }
      var slot := ring.Dequeue();
      oosMask := oosMask / 2;
    }

    /** Bit 0 of the mask says whether a chunk is next in line. */
    lemma FirstBit()
      requires RingMatches()
      ensures oosMask % 2 == 1 <==> model.expected in model.held
    {
      assert Shown(oosMask, model.expected, model.held, 0);
    }

    /** The body of the loop of do_empty_rbuf. */
    method WriteFirstChunk(writes: Option<nat>, ghost good: bool) returns (ok: bool, left: Option<nat>)
      requires Safe() && oosMask % 2 == 1 && (good ==> Writable() && model.expected in model.held)
      modifies this`oosMask, this`lastWrittenLen, this`output, this`model, ring`first
      ensures Safe() && oosMask == if ok then old(oosMask) / 2 else old(oosMask)
      ensures good ==> Writable() && ok == !Blocks(old(model).held[old(model).expected], writes)
      ensures good && ok ==> model == WriteFirst(old(model))
                             && left == LeftAfter(old(model).held[old(model).expected], writes)
      ensures good && !ok ==> model == old(model)
    {
      if good { SurroundingsRelease(maxWindow, oosMask, lastTs, output, lastWrittenLen, model); }
      ok, left := OutputFirst(writes, good);
      if ok {
        ReleaseFirst(good);
        if good { StandFor(WriteFirst(model)); }
      }
    }

    /** do_empty_rbuf: writes the chunks that are next in line, until the output file would
        block. */
    method DoEmptyRbuf(writes: Option<nat>, ghost good: bool)
      requires Safe() && (good ==> Writable())
      modifies this`oosMask, this`lastWrittenLen, this`output, this`model, ring`first
      ensures Safe()
      ensures good ==> Writable() && model == EmptyBuffer(old(model), writes)
      ensures good ==> NextIndex() == old(NextIndex())
    {
      var left := writes;
      while oosMask % 2 == 1
        invariant Safe() && (good ==> Writable())
        invariant good ==> EmptyBuffer(model, left) == EmptyBuffer(old(model), writes)
        invariant good ==> NextIndex() == old(NextIndex())
        decreases oosMask
      {
        if good { FirstBit(); EmptyStep(model, left); }
        var ok, left' := WriteFirstChunk(left, good);
        if !ok { return; }
        left := left';
      }
      if good { FirstBit(); EmptyNothing(model, left); }
    }

    /** `can_empty_rbuf() || the output file is ready`: the buffer is emptied. */
    method EmptyIfPossible(fileReady: bool, writes: Option<nat>, ghost good: bool)
      requires Safe() && (good ==> Consistent())
      modifies this`oosMask, this`lastWrittenLen, this`output, this`model, ring`first
      ensures Safe() && (good ==> Consistent() && model == EmptyBuffer(old(model), writes))
    {
      if fileReady || CanEmptyRbuf() {
        DoEmptyRbuf(writes, good);
      } else if good {
        FirstBit();
        EmptyNothing(model, writes);
      }
    }

    // ---------- Replies

    /** send_ack. The window announced does not underflow. */
    method SendAck()
      requires Safe()
      modifies this`wire
      ensures |wire| == |old(wire)| + 1 && old(wire) <= wire
      ensures ControlFields(wire[|old(wire)|], 2, expectedSeq, maxWindow - TrailingOnes(oosMask), lastTs)
    {
      TrailingOnesBits(oosMask);
      var win := WindowSize();
      wire := wire + [Control(ACK, expectedSeq, win, lastTs)];
    }

    /** send_nack */
    method SendNack(seqnum: uint8)
      requires Safe()
      modifies this`wire
      ensures |wire| == |old(wire)| + 1 && old(wire) <= wire
      ensures ControlFields(wire[|old(wire)|], 3, seqnum, maxWindow - TrailingOnes(oosMask), lastTs)
    {
      TrailingOnesBits(oosMask);
      var win := WindowSize();
      wire := wire + [Control(NACK, seqnum, win, lastTs)];
    }

    /** The packets sent since the wire held n packets: the replies due, with the number, the
        window and the timestamp as the variables now are. */
    ghost predicate Replied(n: nat, due: Due)
      reads this`wire, this`expectedSeq, this`oosMask, this`lastTs
    {
      n <= |wire| && Answers(wire[n..], due, expectedSeq, maxWindow - TrailingOnes(oosMask), lastTs)
    }

    /** The replies due, in the order of the code, and nothing else. */
    method Reply()
      requires Safe()
      modifies this`wire, this`needAck, this`needNack
      ensures !needAck && !needNack
      ensures old(wire) <= wire && Replied(|old(wire)|, old(DueNow()))
    {
      if needAck { SendAck(); }
      if needNack { SendNack(nackSeq); }
      needAck, needNack := false, false;
    }

    // ---------- The main loop

    /** The negation of the do-while condition. */
    method Done() returns (done: bool)
      ensures Consistent() ==> done == Ended(model)
    {
      if Consistent() { ConsistentIsSafe(); FirstBit(); }
      done := !(lastWrittenLen != 0 || !ring.Empty());
    }

    /** The first part of an iteration: the socket. Unless a NACK is due, an ACK is. */
    method ReadSocket(r: Result<Packet>, garbage: Slot<Packet>) returns (ghost good: bool)
      requires Consistent() && (r.Ok? ==> Keepable(r.value))
      modifies this`oosMask, this`expectedSeq, this`lastTs, this`needAck, this`needNack, this`nackSeq, this`model,
               ring`last, ring.head
      ensures Safe() && good == !Misfiles(old(model), maxWindow, r)
      ensures good ==> Consistent() && model == Admit(old(model), maxWindow, r)
      ensures DueNow() == DueAfter(old(model), maxWindow, old(DueNow()), r)
      ensures lastTs == LastTs(old(model), maxWindow, Some(r), old(lastTs))
    {
      good := !Misfiles(model, maxWindow, r);
      ghost var s, due := model, DueNow();
      DoReadSock(r, garbage);
      if good { ConsistentIsSafe(); }
      if !needNack {
        needAck := true;
      }
      DueRead(s, maxWindow, due, r, needAck, needNack, nackSeq);
    }

    /** The socket, if poll reports it. */
    method SocketPart(r: Option<Result<Packet>>, garbage: Slot<Packet>) returns (ghost good: bool)
      requires Consistent() && (r.Some? && r.value.Ok? ==> Keepable(r.value.value))
      modifies this`oosMask, this`expectedSeq, this`lastTs, this`needAck, this`needNack, this`nackSeq, this`model,
               ring`last, ring.head
      ensures Safe() && good == !(r.Some? && Misfiles(old(model), maxWindow, r.value))
      ensures good ==> Consistent() && model == if r.Some? then Admit(old(model), maxWindow, r.value) else old(model)
      ensures DueNow() == DueThen(old(model), maxWindow, old(DueNow()), r)
      ensures lastTs == LastTs(old(model), maxWindow, r, old(lastTs))
    {
      ConsistentIsSafe();
      good := true;
      if r.Some? {
        good := ReadSocket(r.value, garbage);
      }
    }

    /** The replies of a consistent state are those of the model. */
    lemma ConsistentReplies(before: seq<Packet>, due: Due)
      requires Consistent() && before <= wire && Replied(|before|, due)
      ensures wire[|before|..] == Replies(model, maxWindow, due)
    {
      ConsistentIsSafe();
      RepliesAnswer(model, maxWindow, due);
      AnswersOne(wire[|before|..], Replies(model, maxWindow, due), due, expectedSeq,
                 maxWindow - TrailingOnes(oosMask), lastTs);
    }

    /** Writing, and then the replies. */
    method WriteAndReply(fileReady: bool, writes: Option<nat>, ghost good: bool)
      requires Safe() && (good ==> Consistent())
      modifies this`oosMask, this`lastWrittenLen, this`output, this`model, this`wire, this`needAck, this`needNack,
               ring`first
      ensures Safe() && !needAck && !needNack
      ensures good ==> Consistent() && model == EmptyBuffer(old(model), writes)
      ensures old(wire) <= wire && Replied(|old(wire)|, old(DueNow()))
      ensures good ==> wire[|old(wire)|..] == Replies(model, maxWindow, old(DueNow()))
    {
      ghost var before, due := wire, DueNow();
      EmptyIfPossible(fileReady, writes, good);
      Reply();
      if good { ConsistentReplies(before, due); }
    }

    /** The rest of an iteration. */
    method FinishIteration(fileReady: bool, writes: Option<nat>, ghost good: bool, ghost due: Due, ghost step: Step)
      returns (done: bool)
      requires Safe() && (good ==> Consistent()) && due == DueNow()
      requires good ==> step == Step(EmptyBuffer(model, writes), Replies(EmptyBuffer(model, writes), maxWindow, due),
                                     Ended(EmptyBuffer(model, writes)))
      modifies this`oosMask, this`lastWrittenLen, this`output, this`model, this`wire, this`needAck, this`needNack,
               ring`first
      ensures Safe() && !needAck && !needNack
      ensures old(wire) <= wire && Replied(|old(wire)|, due)
      ensures good ==> Consistent() && Step(model, wire[|old(wire)|..], done) == step
    {
      WriteAndReply(fileReady, writes, good);
      done := Done();
    }

    /** One iteration of the main loop of receive: poll reports a datagram or not, and the
        output file ready or not; the file takes all writes or only some. */
    method Iteration(r: Option<Result<Packet>>, garbage: Slot<Packet>, fileReady: bool, writes: Option<nat>)
      returns (done: bool)
      requires Consistent() && (r.Some? && r.value.Ok? ==> Keepable(r.value.value))
      modifies this, ring, ring.head
      ensures Safe() && !needAck && !needNack
      ensures lastTs == LastTs(old(model), maxWindow, r, old(lastTs)) && old(wire) <= wire
      ensures Replied(|old(wire)|, DueThen(old(model), maxWindow, old(DueNow()), r))
      ensures !(r.Some? && Misfiles(old(model), maxWindow, r.value)) ==>
                && Consistent()
                && Step(model, wire[|old(wire)|..], done) == Poll(old(model), maxWindow, old(DueNow()), r, writes)
    {
      ghost var s, due := model, DueNow();
      ghost var good := SocketPart(r, garbage);
      ghost var due' := DueThen(s, maxWindow, due, r);
      if good { PollParts(s, maxWindow, due, r, writes, model, due'); }
      done := FinishIteration(fileReady, writes, good, due', Poll(s, maxWindow, due, r, writes));
    }

    // ---------- The connection

    /** net_wait_and_connect, in the slot enqueued for the first packet. */
    method ReceiveFirst(p: Packet) returns (slot: nat)
      requires Consistent() && Unconnected(model) && p.seqnum == 0
      modifies this`model, ring`last, ring.head
      ensures Received(slot, 0, p) && model == old(model).(used := 1) && Popcount(oosMask) == 0
    {
      MatchesBounded(ring.Contents(), oosMask, model);
      slot := ring.Enqueue();
      ring.Store(slot, Slot(p.seqnum, p), 0);
      FirstSlot(ring.Contents(), oosMask, model, p);
      model := model.(used := 1);
    }

    /** The connection and process_incoming_pkt on the first packet, which is the expected
        one; an ACK is due. */
    method Connect(p: Packet)
      requires Consistent() && Unconnected(model) && !needAck && !needNack && p.seqnum == 0 && Keepable(p)
      modifies this`oosMask, this`expectedSeq, this`lastTs, this`needAck, this`needNack, this`nackSeq, this`model,
               ring`last, ring.head
      ensures Consistent() && model == First(p) && DueNow() == FirstDue(p)
    {
      FirstKept(model, p, expectedSeq);
      var slot := ReceiveFirst(p);
      ProcessIncomingPkt(slot, 0, p);
      needAck := true;
    }
  }
}
