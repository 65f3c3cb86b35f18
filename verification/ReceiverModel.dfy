/** The receiver as a state machine over unbounded chunk indices: what an iteration
    of receive.c does, for whatever datagram arrives. */
module ReceiverModel {
  import opened Words
  import opened Options
  import opened Seqnum
  import opened Codec

  const RING_CAPACITY: nat := 32

  /** `expected` chunks are written, `held` are the others by index, and `used` is the
      number of reserved ring slots, the first being that of chunk `expected`. */
  datatype Receiver = Receiver(expected: nat, held: map<nat, Bytes>, used: nat, out: seq<Bytes>, ts: Bytes)

  /** The replies that are due: an ACK, and a NACK of a number. */
  datatype Due = Due(ack: bool, nack: Option<uint8>)

  /** A new state, the packets sent, and whether the main loop ends. */
  datatype Step = Step(state: Receiver, replies: seq<Packet>, done: bool)

  predicate Bounded(s: Receiver, maxWindow: nat) {
    && 1 <= maxWindow <= 31
    && |s.out| == s.expected && s.used <= maxWindow + 1 && |s.ts| == 4
    && |s.held| <= maxWindow
    && (forall j :: j in s.held ==> s.expected <= j <= s.expected + maxWindow && j < s.expected + s.used)
  }

  /** Besides, nothing that is next in line waits to be written. */
  predicate ValidReceiver(s: Receiver, maxWindow: nat) {
    Bounded(s, maxWindow) && s.expected !in s.held
  }

  /** A control packet: the number and the window are all it says. */
  function Control(typ: uint8, seqnum: uint8, window: uint8, ts: Bytes): Packet {
    Packet(typ, false, window, seqnum, 0, ts, [])
  }

  // ---------- Chunks next in line

  function WriteFirst(s: Receiver): (w: Receiver)
    requires s.expected in s.held
    ensures |w.held| == |s.held| - 1
  {
    assert (s.held - {s.expected}).Keys == s.held.Keys - {s.expected};
    Receiver(s.expected + 1, s.held - {s.expected}, if s.used == 0 then 0 else s.used - 1,
             s.out + [s.held[s.expected]], s.ts)
  }

  /** The first number from a on that is not held. */
  function FirstGap(held: map<nat, Bytes>, a: nat): (n: nat)
    ensures a <= n <= a + |held|
    ensures a !in held ==> n == a
    decreases |held|
  {
    if a in held then
      assert (held - {a}).Keys == held.Keys - {a};
      FirstGap(held - {a}, a + 1)
    else a
  }

  /** The chunk that expected_seq stands for: those before it are written, or wait to be. */
  function Next(s: Receiver): nat {
    FirstGap(s.held, s.expected)
  }

  /** window_size: max_window less the chunks that wait. */
  function WindowLeft(s: Receiver, maxWindow: uint8): (win: uint8)
    ensures Next(s) - s.expected <= maxWindow ==> win == maxWindow - (Next(s) - s.expected)
  {
    Wrap8(maxWindow - (Next(s) - s.expected))
  }

  /** do_empty_rbuf: writes the chunks that are next in line. */
  function Drain(s: Receiver): (d: Receiver)
    ensures d.expected == Next(s) && d.expected !in d.held
    decreases |s.held|
  {
    if s.expected in s.held then Drain(WriteFirst(s)) else s
  }

  /** do_empty_rbuf with an output file that blocks after some writes; an empty chunk
      takes none. */
  function DrainUntil(s: Receiver, writes: nat): Receiver
    decreases |s.held|
  {
    if s.expected !in s.held then s
    else if s.held[s.expected] == [] then DrainUntil(WriteFirst(s), writes)
    else if writes == 0 then s
    else DrainUntil(WriteFirst(s), writes - 1)
  }

  /** Either, as the output file is. */
  function EmptyBuffer(s: Receiver, writes: Option<nat>): Receiver {
    if writes.Some? then DrainUntil(s, writes.value) else Drain(s)
  }

  /** The output file takes no chunk that is not empty. */
  predicate Blocks(chunk: Bytes, writes: Option<nat>) {
    writes == Some(0) && chunk != []
  }

  /** How many writes are left after one of this chunk. */
  function LeftAfter(chunk: Bytes, writes: Option<nat>): Option<nat>
    requires !Blocks(chunk, writes)
  {
    if writes.Some? && chunk != [] then Some(writes.value - 1) else writes
  }

  lemma EmptyNothing(s: Receiver, writes: Option<nat>)
    requires s.expected !in s.held
    ensures EmptyBuffer(s, writes) == s
  {
  }

  /** Chunk by chunk. */
  lemma EmptyStep(s: Receiver, writes: Option<nat>)
    ensures EmptyBuffer(s, writes)
            == if s.expected !in s.held || Blocks(s.held[s.expected], writes) then s
               else EmptyBuffer(WriteFirst(s), LeftAfter(s.held[s.expected], writes))
  {
  }

  // ---------- A datagram

  /** rbuf_full */
  predicate Full(s: Receiver, maxWindow: nat) {
    |s.held| >= maxWindow
  }

  /** net_recv_pkt and the type check of do_receive_data. */
  predicate Accepts(s: Receiver, maxWindow: uint8, r: Result<Packet>) {
    r.Ok? && InWindow(r.value.seqnum, Wrap8(Next(s)), WindowLeft(s, maxWindow)) && r.value.typ == DATA
  }

  function IndexOf(s: Receiver, seqnum: uint8): nat {
    Next(s) + Distance(seqnum, Wrap8(Next(s)))
  }

  function AtLeast(used: nat, n: nat): nat {
    if used < n then n else used
  }

  /** The slot of the next chunk is reserved. */
  function Reserve(s: Receiver): Receiver {
    s.(used := AtLeast(s.used, Next(s) - s.expected + 1))
  }

  /** A data packet that is not truncated, stored at its index. */
  function Keep(s: Receiver, j: nat, p: Packet): Receiver
    requires s.expected <= j
  {
    s.(held := s.held[j := p.payload], used := AtLeast(s.used, j - s.expected + 1), ts := p.ts)
  }

  /** do_read_sock: what is kept of a datagram. */
  function Admit(s: Receiver, maxWindow: uint8, r: Result<Packet>): Receiver {
    if Full(s, maxWindow) then s
    else if !Accepts(s, maxWindow, r) then Reserve(s)
    else if r.value.tr then Reserve(s).(ts := r.value.ts)
    else Keep(s, IndexOf(s, r.value.seqnum), r.value)
  }

  /** What the code does otherwise: a packet that is whole and accepted while chunks wait
      to be written. */
  predicate Misfiles(s: Receiver, maxWindow: uint8, r: Result<Packet>) {
    !Full(s, maxWindow) && Accepts(s, maxWindow, r) && !r.value.tr && s.expected in s.held
  }

  /** An accepted packet that the network truncated is answered by a NACK. */
  predicate NackDue(s: Receiver, maxWindow: uint8, r: Result<Packet>) {
    !Full(s, maxWindow) && Accepts(s, maxWindow, r) && r.value.tr
  }

  /** What is due after a datagram: a NACK of a truncated packet, and otherwise an ACK,
      even of what was dropped. */
  function DueAfter(s: Receiver, maxWindow: uint8, due: Due, r: Result<Packet>): Due {
    if NackDue(s, maxWindow, r) then due.(nack := Some(r.value.seqnum))
    else due.(ack := due.ack || due.nack.None?)
  }

  /** do_read_sock followed by do_empty_rbuf. */
  function Arrive(s: Receiver, maxWindow: uint8, r: Result<Packet>): Receiver {
    Drain(Admit(s, maxWindow, r))
  }

  /** The bytes of a list of chunks. */
  function Concat(chunks: seq<Bytes>): Bytes {
    if chunks == [] then [] else Concat(chunks[..|chunks| - 1]) + chunks[|chunks| - 1]
  }

  lemma ConcatAppend(chunks: seq<Bytes>, chunk: Bytes)
    ensures Concat(chunks + [chunk]) == Concat(chunks) + chunk
  {
    assert (chunks + [chunk])[..|chunks|] == chunks;
  }

  // ---------- The main loop

  /** The last chunk written was empty and no slot is reserved. */
  predicate Ended(s: Receiver) {
    s.out != [] && s.out[|s.out| - 1] == [] && s.used == 0
  }

  /** The control packets sent at the end of an iteration. */
  function ControlPackets(seqnum: uint8, window: uint8, ts: Bytes, due: Due): seq<Packet> {
    (if due.ack then [Control(ACK, seqnum, window, ts)] else [])
    + (if due.nack.Some? then [Control(NACK, due.nack.value, window, ts)] else [])
  }

  function Replies(s: Receiver, maxWindow: uint8, due: Due): seq<Packet> {
    ControlPackets(Wrap8(Next(s)), WindowLeft(s, maxWindow), s.ts, due)
  }

  /** One iteration: poll reports a datagram or not, the output file takes all writes or
      only some. */
  function Poll(s: Receiver, maxWindow: uint8, due: Due, r: Option<Result<Packet>>, writes: Option<nat>): Step {
    var k := if r.Some? then Admit(s, maxWindow, r.value) else s;
    var d := EmptyBuffer(k, writes);
    Step(d, Replies(d, maxWindow, if r.Some? then DueAfter(s, maxWindow, due, r.value) else due), Ended(d))
  }

  const NOTHING_DUE := Due(false, None)

  /** The iteration of a datagram with an output file that does not block. */
  function Iterate(s: Receiver, maxWindow: uint8, r: Result<Packet>): Step {
    Poll(s, maxWindow, NOTHING_DUE, Some(r), None)
  }

  /** The state before the connection, whatever the timestamp. */
  predicate Unconnected(s: Receiver) {
    s.expected == 0 && s.held == map[] && s.used == 0 && s.out == []
  }

  /** What the first packet leaves in the slot enqueued for it. Only its sequence number
      was checked. */
  function First(p: Packet): Receiver {
    var s := Receiver(0, map[], 1, [], p.ts);
    if p.tr then s else Keep(s, 0, p)
  }

  function FirstDue(p: Packet): Due {
    Due(true, if p.tr then Some(0) else None)
  }

  /** The connection, and the iteration that drains the first packet. */
  function Connect(maxWindow: uint8, p: Packet): Step {
    Poll(First(p), maxWindow, FirstDue(p), None, None)
  }

  // ---------- Properties of the machine, for any peer

  /** Chunk j, which s holds, is written in d. */
  predicate Writes(s: Receiver, d: Receiver, j: nat)
    requires s.expected <= j
  {
    && j in s.held && |s.out| + (j - s.expected) < |d.out|
    && d.out[|s.out| + (j - s.expected)] == s.held[j]
  }

  /** Chunk j is still held in d, unless it was in line. */
  predicate Stays(s: Receiver, d: Receiver, j: nat) {
    && (j in d.held <==> j in s.held && !(s.expected <= j < d.expected))
    && (j in d.held ==> d.held[j] == s.held[j])
  }

  /** Draining keeps what is held out of order, writes nothing but the chunks next in
      line, and stops at the first gap. */
  lemma DrainExact(s: Receiver)
    ensures var d := Drain(s);
            && s.expected <= d.expected && d.expected !in d.held && d.ts == s.ts
            && d.used == (if s.used <= d.expected - s.expected then 0 else s.used - (d.expected - s.expected))
            && s.out <= d.out && |d.out| == |s.out| + (d.expected - s.expected)
    ensures forall j :: s.expected <= j < Drain(s).expected ==> Writes(s, Drain(s), j)
    ensures forall j: nat :: Stays(s, Drain(s), j)
  {
    DrainCounts(s);
    DrainWritesAll(s, Drain(s));
    forall j: nat ensures Stays(s, Drain(s), j) {
      DrainHolds(s, j);
    }
  }

  lemma DrainWritesAll(s: Receiver, d: Receiver)
    requires d == Drain(s) && |d.out| == |s.out| + (d.expected - s.expected)
    ensures forall j :: s.expected <= j < d.expected ==> Writes(s, d, j)
  {
    forall j | s.expected <= j < d.expected ensures Writes(s, d, j) {
      DrainWrites(s, j);
    }
  }

  lemma {:induction false} DrainCounts(s: Receiver)
    ensures var d := Drain(s);
            && d.ts == s.ts
            && d.used == (if s.used <= d.expected - s.expected then 0 else s.used - (d.expected - s.expected))
            && s.out <= d.out && |d.out| == |s.out| + (d.expected - s.expected)
    decreases |s.held|
  {
    if s.expected in s.held { DrainCounts(WriteFirst(s)); }
  }

  lemma {:induction false} DrainWrites(s: Receiver, j: nat)
    requires s.expected <= j < Drain(s).expected
    ensures Writes(s, Drain(s), j)
    decreases |s.held|
  {
    var w := WriteFirst(s);
    DrainCounts(w);
    if j == s.expected {
      assert Drain(w).out[|s.out|] == w.out[|s.out|];
    } else {
      DrainWrites(w, j);
    }
  }

  lemma {:induction false} DrainHolds(s: Receiver, j: nat)
    ensures Stays(s, Drain(s), j)
    decreases |s.held|
  {
    if s.expected in s.held { DrainHolds(WriteFirst(s), j); }
  }

  /** A file that blocks only puts writing off: what is written later is the same, and the
      next number does not change meanwhile. */
  lemma {:induction false} DrainLater(s: Receiver, writes: nat)
    ensures var k := DrainUntil(s, writes);
            && Drain(k) == Drain(s) && Next(k) == Next(s) && s.out <= k.out <= Drain(s).out
            && (k.expected in k.held ==> k.held[k.expected] != [])
    decreases |s.held|
  {
    DrainExact(s);
    if s.expected in s.held && (s.held[s.expected] == [] || writes > 0) {
      DrainLater(WriteFirst(s), if s.held[s.expected] == [] then writes else writes - 1);
    }
  }

  lemma AdmitBounded(s: Receiver, maxWindow: uint8, r: Result<Packet>)
    requires Bounded(s, maxWindow) && (r.Ok? ==> |r.value.ts| == 4)
    ensures Bounded(Admit(s, maxWindow, r), maxWindow)
  {
    if !Full(s, maxWindow) && Accepts(s, maxWindow, r) && !r.value.tr {
      var j := IndexOf(s, r.value.seqnum);
      assert s.expected <= j <= s.expected + maxWindow;
      assert |s.held[j := r.value.payload]| <= |s.held| + 1;
    }
  }

  lemma WriteBounded(s: Receiver, maxWindow: nat)
    requires Bounded(s, maxWindow) && s.expected in s.held
    ensures Bounded(WriteFirst(s), maxWindow)
  {
  }

  lemma {:induction false} DrainBounded(s: Receiver, maxWindow: nat)
    requires Bounded(s, maxWindow)
    ensures ValidReceiver(Drain(s), maxWindow)
    decreases |s.held|
  {
    if s.expected in s.held {
      WriteBounded(s, maxWindow);
      DrainBounded(WriteFirst(s), maxWindow);
    }
  }

  /** The number of chunks held never exceeds the window, so the window that is
      announced never underflows; the slots reserved always fit the ring. */
  lemma ArriveValid(s: Receiver, maxWindow: uint8, r: Result<Packet>)
    requires ValidReceiver(s, maxWindow) && (r.Ok? ==> |r.value.ts| == 4)
    ensures ValidReceiver(Arrive(s, maxWindow, r), maxWindow)
  {
    AdmitBounded(s, maxWindow, r);
    DrainBounded(Admit(s, maxWindow, r), maxWindow);
  }
}
