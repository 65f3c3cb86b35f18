/** The sender as a state machine over unbounded chunk indices: what each handler of
    transmit.c does, for whatever packet arrives. */
module SenderModel {
  import opened Words
  import opened Options
  import opened Seqnum
  import opened Bits
  import opened Codec
  import opened PacketBuffer

  const MAX_DUP_ACK: nat := 3
  const MAX_RETRANSMISSION: nat := 5
  /** 0xdeadbeef, as it lies in memory. */
  const PKT_TIMESTAMP: Bytes := [0xef, 0xbe, 0xad, 0xde]

  /** The bytes of a slot behind its sequence number: cleared memory, or a packet
      in wire form. */
  datatype Image = Blank | Encoded(packet: Packet)

  /** Chunks [ack, sent) are in flight and [sent, |chunks|) wait in the ring.
      pollInput says whether the next poll includes the input file. */
  datatype Sender = Sender(ack: nat, sent: nat, chunks: seq<Bytes>, win: nat, dup: nat, retry: nat,
                           pollInput: bool)

  /** How a handler ends: going on, reading through the null pointer that pktbuf_first
      returns, too many timeouts, or a go-back-n that only the assertion of
      slotfor_seq stops. */
  datatype Outcome = Running | NullPointer | GaveUp | Overrun

  /** A new state, the indices of the packets sent meanwhile, and the outcome. */
  datatype Step = Step(state: Sender, emitted: seq<nat>, outcome: Outcome)

  // ---------- Packets

  function DataPacket(j: nat, chunk: Bytes): (p: Packet)
    requires |chunk| <= MAX_PAYLOAD_SIZE
  {
    Packet(DATA, false, 0, Wrap8(j), |chunk|, PKT_TIMESTAMP, chunk)
  }

  predicate ChunkSizes(chunks: seq<Bytes>) {
    forall j :: 0 <= j < |chunks| ==> |chunks[j]| <= MAX_PAYLOAD_SIZE
  }

  /** The slot of chunk j, from handle_input_read on. */
  function ChunkSlot(chunks: seq<Bytes>, j: nat): Slot<Image>
    requires ChunkSizes(chunks) && j < |chunks|
  {
    Slot(Wrap8(j), Encoded(DataPacket(j, chunks[j])))
  }

  /** What the physical slot of index j holds, |chunks| <= j < |chunks| + capacity:
      the chunk of the turn before, or cleared memory. */
  function StaleImage(chunks: seq<Bytes>, capacity: nat, j: nat): Image
    requires ChunkSizes(chunks) && j < |chunks| + capacity
  {
    if j < capacity then Blank else ChunkSlot(chunks, j - capacity).body
  }

  /** The slot a send of index j puts on the wire; beyond the chunks read, stale
      bytes under a new sequence number. */
  function Emission(chunks: seq<Bytes>, capacity: nat, j: nat): Slot<Image>
    requires ChunkSizes(chunks) && j < |chunks| + capacity
  {
    if j < |chunks| then ChunkSlot(chunks, j) else Slot(Wrap8(j), StaleImage(chunks, capacity, j))
  }

  /** All indices have a slot. */
  predicate HaveSlots(chunks: seq<Bytes>, capacity: nat, js: seq<nat>) {
    ChunkSizes(chunks) && forall i :: 0 <= i < |js| ==> js[i] < |chunks| + capacity
  }

  function Emissions(chunks: seq<Bytes>, capacity: nat, js: seq<nat>): (out: seq<Slot<Image>>)
    requires HaveSlots(chunks, capacity, js)
    ensures |out| == |js|
  {
    seq(|js|, i requires 0 <= i < |js| => Emission(chunks, capacity, js[i]))
  }

  /** The consecutive indices from a up to but not including b. */
  function Range(a: nat, b: nat): (r: seq<nat>)
    ensures |r| == if a <= b then b - a else 0
    ensures forall i :: 0 <= i < |r| ==> r[i] == a + i
  {
    seq(if a <= b then b - a else 0, i requires 0 <= i => a + i)
  }

  /** The index that turn k of a go-back-n sends when its loop condition does not stop
      it: the turn at the capacity numbers the first slot anew, and the next ones go
      round the ring once more. */
  function Turn(ack: nat, capacity: nat, k: nat): nat {
    if k <= capacity then ack + k else ack + (k - capacity)
  }

  function Turns(ack: nat, capacity: nat, n: nat): (r: seq<nat>)
    ensures |r| == n && forall k :: 0 <= k < n ==> r[k] == Turn(ack, capacity, k)
  {
    seq(n, k requires 0 <= k => Turn(ack, capacity, k))
  }

  // ---------- States

  predicate Bounded(s: Sender, capacity: nat) {
    && PowerOfTwo(capacity) && capacity <= 128
    && s.ack <= s.sent <= |s.chunks| <= s.ack + capacity
    && s.sent <= s.ack + 31 && s.win <= 31
    && s.dup < MAX_DUP_ACK && s.retry <= MAX_RETRANSMISSION
    && ChunkSizes(s.chunks)
  }

  /** The input file is polled only while there is more to read and room for it. */
  predicate ValidSender(s: Sender, capacity: nat) {
    Bounded(s, capacity) && (s.pollInput ==> MayRead(s, capacity))
  }

  predicate MayRead(s: Sender, capacity: nat) {
    !EofRead(s.chunks) && |s.chunks| < s.ack + capacity
  }

  /** read returned 0: last_in_read == 0. */
  predicate EofRead(chunks: seq<Bytes>) {
    chunks != [] && chunks[|chunks| - 1] == []
  }

  function Initial(): Sender {
    Sender(0, 0, [], 1, 0, 0, true)
  }

  /** The do-while condition of transmit is false. */
  predicate Finished(s: Sender) {
    EofRead(s.chunks) && s.ack == |s.chunks|
  }

  // ---------- Handlers

  /** process_nack finds index j: it is buffered, and its slot is one of the first
      `used` physical slots, the only ones that are scanned. */
  predicate NackFound(s: Sender, capacity: nat, j: nat)
    requires PowerOfTwo(capacity)
  {
    j < |s.chunks| && s.ack + MaskIndex(j, capacity) < |s.chunks|
  }

  function ProcessNack(s: Sender, capacity: nat, j: nat): Step
    requires PowerOfTwo(capacity)
  {
    Step(s, if NackFound(s, capacity, j) then [j] else [], Running)
  }

  function ProcessDupAck(s: Sender): Step {
    if s.dup + 1 != MAX_DUP_ACK then Step(s.(dup := s.dup + 1), [], Running)
    else if s.ack == |s.chunks| then Step(s.(dup := 0), [], NullPointer)
    else Step(s.(dup := 0), [s.ack], Running)
  }

  /** handle_socket_read: a packet that decodes, lies in [ack, sent] and is an ACK
      or a NACK. */
  predicate Accepts(s: Sender, r: Result<Packet>)
    requires s.ack <= s.sent <= s.ack + 31
  {
    && r.Ok? && InWindow(r.value.seqnum, Wrap8(s.ack), s.sent - s.ack)
    && (r.value.typ == ACK || r.value.typ == NACK)
  }

  /** The index an accepted packet stands for. */
  function IndexOf(s: Sender, seqnum: uint8): nat {
    s.ack + Distance(seqnum, Wrap8(s.ack))
  }

  /** An accepted packet, by type. */
  function Dispatch(s: Sender, capacity: nat, p: Packet): (step: Step)
    requires PowerOfTwo(capacity)
    ensures step.state.chunks == s.chunks
    ensures ChunkSizes(s.chunks) && s.ack <= |s.chunks| && 0 < capacity ==> HaveSlots(s.chunks, capacity, step.emitted)
  {
    var j := IndexOf(s, p.seqnum);
    if p.typ == NACK then ProcessNack(s, capacity, j)
    else if j == s.ack then ProcessDupAck(s)
    else Step(s.(ack := j, dup := 0), [], Running)
  }

  function SocketRead(s: Sender, capacity: nat, r: Result<Packet>): (step: Step)
    requires ValidSender(s, capacity)
    ensures step.state.chunks == s.chunks && HaveSlots(s.chunks, capacity, step.emitted)
  {
    var alive := s.(retry := 0);
    if !Accepts(s, r) then Step(alive, [], Running)
    else Dispatch(alive.(win := r.value.window), capacity, r.value)
  }

  function InputRead(s: Sender, data: Bytes): Sender {
    s.(chunks := s.chunks + [data])
  }

  /** How many packets do_send_sbuf may send: what is buffered and not yet sent, as
      far as the window allows. */
  function Sendable(s: Sender): nat
    requires s.ack <= s.sent <= |s.chunks|
  {
    var credit := s.win - (s.sent - s.ack);
    if credit <= 0 then 0 else if credit < |s.chunks| - s.sent then credit else |s.chunks| - s.sent
  }

  function SendBuffered(s: Sender): Step
    requires s.ack <= s.sent <= |s.chunks|
  {
    Step(s.(sent := s.sent + Sendable(s)), Range(s.sent, s.sent + Sendable(s)), Running)
  }

  /** What an iteration does with the socket, if poll reports it. */
  function SocketPart(s: Sender, capacity: nat, r: Option<Result<Packet>>): (step: Step)
    requires ValidSender(s, capacity)
    ensures step.state.chunks == s.chunks && HaveSlots(s.chunks, capacity, step.emitted)
  {
    if r.Some? then SocketRead(s, capacity, r.value) else Step(s, [], Running)
  }

  /** What it does with the input file, if poll reports it. */
  function InputPart(s: Sender, data: Option<Bytes>): Sender {
    if data.Some? then InputRead(s, data.value) else s
  }

  /** Sending, and the choice of what to poll next. */
  function SendPart(s: Sender, capacity: nat): Step
    requires s.ack <= s.sent <= |s.chunks|
  {
    var sent := SendBuffered(s);
    sent.(state := sent.state.(pollInput := MayRead(s, capacity)))
  }

  /** One iteration of the loop of transmit in which poll reports the socket, the
      input file, or both. */
  function PollReady(s: Sender, capacity: nat, r: Option<Result<Packet>>, data: Option<Bytes>): Step
    requires ValidSender(s, capacity) && (data.Some? ==> s.pollInput)
  {
    var a := SocketPart(s, capacity, r);
    if a.outcome != Running then a
    else
      var c := SendPart(InputPart(a.state, data), capacity);
      Step(c.state, a.emitted + c.emitted, Running)
  }

  /** The loop condition of handle_retransmission never fails when last_sent is 255: it
      compares a uint8_t with the int last_sent + 1 (transmit.c:144). The loop goes round
      the ring twice, until an assertion of slotfor_seq stops the process. */
  predicate GoBackNRunsAway(s: Sender) {
    Wrap8(s.sent) == 0
  }

  /** What the loop of handle_retransmission sends. */
  function Resends(s: Sender, capacity: nat): seq<nat> {
    if GoBackNRunsAway(s) then Turns(s.ack, capacity, 2 * capacity + 1) else Range(s.ack, s.sent)
  }

  /** One iteration in which poll times out. */
  function PollTimeout(s: Sender, capacity: nat): (step: Step)
    requires ValidSender(s, capacity)
    ensures step.state.chunks == s.chunks && HaveSlots(s.chunks, capacity, step.emitted)
  {
    if s.ack == |s.chunks| then Step(s, [], Running)
    else if s.retry + 1 > MAX_RETRANSMISSION then Step(s.(retry := s.retry + 1), [], GaveUp)
    else if GoBackNRunsAway(s) then Step(s.(retry := s.retry + 1), Resends(s, capacity), Overrun)
    else Step(s.(retry := s.retry + 1, dup := 0), Resends(s, capacity), Running)
  }
}
