/** The receiver over whole runs, against any peer. */
module ReceiverRuns {
  import opened Words
  import opened Bits
  import opened Codec
  import opened ReceiverModel

  /** What the decoder guarantees of the datagrams that arrive. */
  predicate FromDecoder(rs: seq<Result<Packet>>) {
    forall i :: 0 <= i < |rs| && rs[i].Ok? ==> |rs[i].value.ts| == 4
  }

  /** The state after the datagrams rs. */
  function AfterAll(s: Receiver, maxWindow: uint8, rs: seq<Result<Packet>>): Receiver
    decreases rs
  {
    if rs == [] then s else AfterAll(Arrive(s, maxWindow, rs[0]), maxWindow, rs[1..])
  }

  /** Whatever arrives, no more chunks are held than the window, none further ahead than
      the window, none is next in line, the slots fit the ring, and what was written
      stays written. */
  lemma {:induction false} AlwaysBounded(s: Receiver, maxWindow: uint8, rs: seq<Result<Packet>>)
    requires ValidReceiver(s, maxWindow) && FromDecoder(rs)
    ensures ValidReceiver(AfterAll(s, maxWindow, rs), maxWindow)
    ensures s.out <= AfterAll(s, maxWindow, rs).out
    decreases |rs|
  {
    if rs != [] {
      var t := Arrive(s, maxWindow, rs[0]);
      ArriveValid(s, maxWindow, rs[0]);
      assert s.out <= t.out by { DrainCounts(Admit(s, maxWindow, rs[0])); }
      AlwaysBounded(t, maxWindow, rs[1..]);
    }
  }

  /** Chunk j was received, written or not. */
  predicate Has(s: Receiver, j: nat) {
    j < |s.out| || j in s.held
  }

  function ChunkOf(s: Receiver, j: nat): Bytes
    requires Has(s, j)
  {
    if j < |s.out| then s.out[j] else s.held[j]
  }

  /** The datagram brings chunk j, whole and within the window. */
  predicate Brings(s: Receiver, maxWindow: uint8, r: Result<Packet>, j: nat) {
    !Full(s, maxWindow) && Accepts(s, maxWindow, r) && !r.value.tr && IndexOf(s, r.value.seqnum) == j
  }

  /** Seen as a map from numbers to chunks, the receiver gains exactly the chunk that a
      datagram brings: nothing received is lost or changed, although every datagram is
      first received into the slot of the expected chunk, and nothing else appears. */
  lemma ArrivalExact(s: Receiver, maxWindow: uint8, r: Result<Packet>, j: nat)
    requires ValidReceiver(s, maxWindow)
    ensures var t := Arrive(s, maxWindow, r);
            && (Has(t, j) <==> Has(s, j) || Brings(s, maxWindow, r, j))
            && (Has(t, j) ==> ChunkOf(t, j) == if Brings(s, maxWindow, r, j) then r.value.payload else ChunkOf(s, j))
  {
    var k := Admit(s, maxWindow, r);
    AdmitExact(s, maxWindow, r, j);
    DrainKeeps(k, j);
  }

  lemma AdmitExact(s: Receiver, maxWindow: uint8, r: Result<Packet>, j: nat)
    requires ValidReceiver(s, maxWindow)
    ensures var k := Admit(s, maxWindow, r);
            && |k.out| == k.expected
            && (Has(k, j) <==> Has(s, j) || Brings(s, maxWindow, r, j))
            && (Has(k, j) ==> ChunkOf(k, j) == if Brings(s, maxWindow, r, j) then r.value.payload else ChunkOf(s, j))
  {
  }

  lemma WriteKeeps(k: Receiver, j: nat)
    requires |k.out| == k.expected && k.expected in k.held
    ensures var w := WriteFirst(k);
            && |w.out| == w.expected && (Has(w, j) <==> Has(k, j))
            && (Has(k, j) ==> ChunkOf(w, j) == ChunkOf(k, j))
  {
  }

  /** Writing chunks moves them from the buffer to the output. */
  lemma {:induction false} DrainKeeps(k: Receiver, j: nat)
    requires |k.out| == k.expected
    ensures Has(Drain(k), j) <==> Has(k, j)
    ensures Has(k, j) ==> ChunkOf(Drain(k), j) == ChunkOf(k, j)
    decreases |k.held|
  {
    if k.expected in k.held {
      var w := WriteFirst(k);
      WriteKeeps(k, j);
      DrainKeeps(w, j);
      assert Drain(k) == Drain(w);
    }
  }

  // ---------- Full, and a window of 0

  /** Full is not the same as an announced window of 0: the latter holds exactly when
      moreover every packet buffered is in sequence. */
  lemma WindowZeroIff(mask: nat, maxWindow: nat)
    requires Popcount(mask) <= maxWindow
    ensures maxWindow - TrailingOnes(mask) == 0
            <==> Popcount(mask) >= maxWindow && TrailingOnes(mask) == Popcount(mask)
  {
    TrailingOnesBits(mask);
  }

  /** Full, with a window of 1 announced. */
  lemma FullWithWindow()
    ensures Popcount(2) >= 1 && 1 - TrailingOnes(2) == 1
  {
    assert Popcount(1) == 1 + Popcount(0);
  }
}
