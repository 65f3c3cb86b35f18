/** Both endpoints and the network between them, as one machine whose steps are the
    iterations of the two main loops and what the network does to a datagram. */
module Network {
  import opened Words
  import opened Options
  import opened Bits
  import opened Codec
  import S = SenderModel
  import R = ReceiverModel

  /** net_wait_and_connect gives up after as many datagrams. */
  const MAX_RETRIES: nat := 5

  /** The checksum, the size of the sender's ring, the receiver's window, the input. */
  datatype Config = Config(crc: Crc, capacity: nat, window: uint8, input: Bytes)

  ghost predicate ValidConfig(c: Config) {
    PowerOfTwo(c.capacity) && 0 < c.capacity <= 128 && 1 <= c.window <= 31
  }

  /** The bytes of a datagram. The index is the unbounded number that its sequence
      number stands for: no step but the bound on the lag looks at it. */
  datatype Msg = Msg(index: nat, bytes: Bytes)

  /** How a datagram arrives: as it was sent, or corrupted. */
  datatype Datagram = Intact(msg: Msg) | Corrupted(msg: Msg, received: Bytes)

  datatype Phase = Waiting(tries: nat) | Receiving | Complete | Aborted

  /** Datagrams on the way down to the receiver and up to the sender, and the input
      not read so far. Sets, so that a datagram may arrive any number of times and in
      any order. */
  datatype Joint = Joint(snd: S.Sender, fate: S.Outcome, rcv: R.Receiver, phase: Phase,
                         down: set<Msg>, up: set<Msg>, rest: Bytes)

  datatype Label =
    | SenderReady(packet: Option<Datagram>, chunk: Option<nat>, keep: bool)
    | SenderTimeout
    | ReceiverReady(datagram: Datagram, keep: bool)
    | ReceiverIdle
    | Truncation(msg: Msg)
    | Loss(gone: set<Msg>)

  function Start(c: Config): Joint {
    Joint(S.Initial(), S.Running, R.Receiver(0, map[], 0, [], [0, 0, 0, 0]), Waiting(0), {}, {}, c.input)
  }

  // ---------- Datagrams

  function Arrived(d: Datagram): Bytes {
    if d.Intact? then d.msg.bytes else d.received
  }

  /** net_recvfrom */
  function Decoded(c: Config, d: Datagram): Result<Packet> {
    Decode(c.crc, Arrived(d))
  }

  /** Corruption is always detected. */
  predicate Arrives(c: Config, net: set<Msg>, d: Datagram) {
    d.msg in net && (d.Corrupted? ==> Decoded(c, d).Err?)
  }

  function Remaining(net: set<Msg>, d: Datagram, keep: bool): set<Msg> {
    if keep then net else net - {d.msg}
  }

  /** The sends of chunks that are in the ring. */
  function Sent(c: Config, chunks: seq<Bytes>, js: seq<nat>): set<Msg>
    requires S.ChunkSizes(chunks)
  {
    set j | j in js && j < |chunks| :: Msg(j, Wire(c.crc, S.DataPacket(j, chunks[j])))
  }

  function Replied(c: Config, replies: seq<Packet>, ack: nat, nack: nat): set<Msg> {
    set p | p in replies && Fits(p) :: Msg(if p.typ == ACK then ack else nack, Wire(c.crc, p))
  }

  // ---------- Steps

  predicate SenderRuns(j: Joint) {
    j.fate == S.Running && !S.Finished(j.snd)
  }

  /** read fills the payload as far as it likes, and returns 0 only at the end. */
  predicate MayReturn(rest: Bytes, n: nat) {
    n <= MAX_PAYLOAD_SIZE && n <= |rest| && (n == 0 <==> rest == [])
  }

  /** A message from the receiver that is behind last_ack lags by no more than 255
      less the window of the test. */
  predicate SenderInTime(s: S.Sender, m: Msg) {
    s.ack - m.index <= 255 - (s.sent - s.ack)
  }

  predicate ReceiverInTime(c: Config, r: R.Receiver, m: Msg) {
    r.expected - m.index <= 255 - c.window
  }

  /** What may happen next. That the sender's state is valid is no condition: the
      invariant of the reachable states implies it. */
  ghost predicate Enabled(c: Config, j: Joint, l: Label) {
    match l
    case SenderReady(d, n, _) =>
      && SenderRuns(j) && S.ValidSender(j.snd, c.capacity) && (d.Some? || n.Some?)
      && (d.Some? ==> Arrives(c, j.up, d.value) && (d.value.Intact? ==> SenderInTime(j.snd, d.value.msg)))
      && (n.Some? ==> j.snd.pollInput && MayReturn(j.rest, n.value))
    case SenderTimeout => SenderRuns(j) && S.ValidSender(j.snd, c.capacity)
    case ReceiverReady(d, _) =>
      && (j.phase.Waiting? || j.phase.Receiving?) && Arrives(c, j.down, d)
      && (d.Intact? ==> ReceiverInTime(c, j.rcv, d.msg))
    case ReceiverIdle => j.phase.Receiving?
    case Truncation(m) => m in j.down && |m.bytes| >= HEADER_LEN
    case Loss(_) => true
  }

  /** An iteration of transmit: the packets sent are added to the network. */
  function SenderDoes(c: Config, j: Joint, step: S.Step): Joint
    requires S.ChunkSizes(step.state.chunks)
  {
    j.(snd := step.state, fate := step.outcome, down := j.down + Sent(c, step.state.chunks, step.emitted))
  }

  function SenderStep(c: Config, j: Joint, d: Option<Datagram>, n: Option<nat>, keep: bool): Joint
    requires S.ValidSender(j.snd, c.capacity) && (n.Some? ==> j.snd.pollInput && MayReturn(j.rest, n.value))
  {
    var r := if d.Some? then Some(Decoded(c, d.value)) else None;
    var data := if n.Some? then Some(j.rest[..n.value]) else None;
    var j1 := SenderDoes(c, j, S.PollReady(j.snd, c.capacity, r, data));
    var j2 := if d.Some? then j1.(up := Remaining(j.up, d.value, keep)) else j1;
    if n.Some? && j1.fate == S.Running then j2.(rest := j.rest[n.value..]) else j2
  }

  function TimeoutStep(c: Config, j: Joint): Joint
    requires S.ValidSender(j.snd, c.capacity)
  {
    SenderDoes(c, j, S.PollTimeout(j.snd, c.capacity))
  }

  /** An iteration of receive: the replies are added to the network. */
  function ReceiverDoes(c: Config, j: Joint, step: R.Step, nack: nat): Joint {
    j.(rcv := step.state, phase := if step.done then Complete else Receiving,
       up := j.up + Replied(c, step.replies, step.state.expected, nack))
  }

  /** net_wait_and_connect takes the first packet numbered 0, and counts the others. */
  function WaitingStep(c: Config, j: Joint, r: Result<Packet>): Joint
    requires j.phase.Waiting? && c.window < 32
  {
    if r.Ok? && r.value.seqnum == 0 then ReceiverDoes(c, j, R.Connect(c.window, r.value), 0)
    else j.(phase := if j.phase.tries + 1 >= MAX_RETRIES then Aborted else Waiting(j.phase.tries + 1))
  }

  function ReceivingStep(c: Config, j: Joint, r: Result<Packet>): Joint
    requires c.window < 32
  {
    ReceiverDoes(c, j, R.Iterate(j.rcv, c.window, r), if r.Ok? then R.IndexOf(j.rcv, r.value.seqnum) else 0)
  }

  function ReceiverStep(c: Config, j: Joint, d: Datagram, keep: bool): Joint
    requires c.window < 32
  {
    var j1 := if j.phase.Waiting? then WaitingStep(c, j, Decoded(c, d)) else ReceivingStep(c, j, Decoded(c, d));
    j1.(down := Remaining(j.down, d, keep))
  }

  ghost function Apply(c: Config, j: Joint, l: Label): Joint
    requires ValidConfig(c) && Enabled(c, j, l)
  {
    match l
    case SenderReady(d, n, keep) => SenderStep(c, j, d, n, keep)
    case SenderTimeout => TimeoutStep(c, j)
    case ReceiverReady(d, keep) => ReceiverStep(c, j, d, keep)
    case ReceiverIdle => j.(phase := Aborted)
    case Truncation(m) => j.(down := j.down + {Msg(m.index, Truncate(m.bytes))})
    case Loss(gone) => j.(down := j.down - gone, up := j.up - gone)
  }

  // ---------- Runs

  ghost predicate IsRun(c: Config, j: Joint, labels: seq<Label>)
    requires ValidConfig(c)
    decreases |labels|
  {
    labels == [] || (Enabled(c, j, labels[0]) && IsRun(c, Apply(c, j, labels[0]), labels[1..]))
  }

  ghost function Final(c: Config, j: Joint, labels: seq<Label>): Joint
    requires ValidConfig(c) && IsRun(c, j, labels)
    decreases |labels|
  {
    if labels == [] then j else Final(c, Apply(c, j, labels[0]), labels[1..])
  }

  /** Where the labels lead, if they are a run. */
  ghost function End(c: Config, j: Joint, labels: seq<Label>): Option<Joint>
    requires ValidConfig(c)
  {
    if IsRun(c, j, labels) then Some(Final(c, j, labels)) else None
  }

  /** The run leads from j to k. */
  ghost predicate Leads(c: Config, j: Joint, labels: seq<Label>, k: Joint)
    requires ValidConfig(c)
  {
    End(c, j, labels) == Some(k)
  }

  /** What the receiver has written. */
  function Output(j: Joint): Bytes {
    R.Concat(j.rcv.out)
  }

  /** What may go wrong in a run. */
  datatype Faults = Faults(timeouts: bool, losses: bool)

  function Either(f: Faults, g: Faults): Faults {
    Faults(f.timeouts || g.timeouts, f.losses || g.losses)
  }

  /** A step in which a datagram that arrives does so as it was sent and for the last
      time, and nothing else goes wrong than what is allowed. */
  predicate Gentle(l: Label, f: Faults) {
    match l
    case SenderReady(d, _, keep) => !keep && (d.Some? ==> d.value.Intact?)
    case SenderTimeout => f.timeouts
    case ReceiverReady(d, keep) => !keep && d.Intact?
    case ReceiverIdle => false
    case Truncation(_) => false
    case Loss(_) => f.losses
  }

  predicate GentleRun(labels: seq<Label>, f: Faults) {
    forall i :: 0 <= i < |labels| ==> Gentle(labels[i], f)
  }
}

/** The bytes that net_send puts on the network for a slot of the sender's ring. */
module SlotBytes {
  import opened Words
  import opened Codec
  import opened PacketBuffer
  import opened SenderModel

  /** A slot in wire form under the number that slotfor_seq gave it; a slot that was
      never filled is a header of zeros. */
  function OnTheWire(crc: Crc, slot: Slot<Image>): Bytes
    requires slot.body.Encoded? ==> Fits(slot.body.packet)
  {
    match slot.body
    case Encoded(p) => Wire(crc, p)[1 := slot.seqnum]
    case Blank => [0, slot.seqnum] + seq(10, _ => 0)
  }

  /** A chunk that was read goes out as its packet. What a go-back-n that runs away
      sends beyond the chunks read is rejected by the decoder, unless the checksum of
      two headers that differ in their number collides. */
  lemma EmissionBytes(crc: Crc, chunks: seq<Bytes>, capacity: nat, j: nat)
    requires ChunkSizes(chunks) && 0 < capacity <= 128 && j < |chunks| + capacity
    ensures var slot := Emission(chunks, capacity, j);
            && (slot.body.Encoded? ==> Fits(slot.body.packet))
            && (if j < |chunks| then OnTheWire(crc, slot) == Wire(crc, DataPacket(j, chunks[j]))
                else if j < capacity then Decode(crc, OnTheWire(crc, slot)) == Err(ETyp)
                else var p := DataPacket(j - capacity, chunks[j - capacity]);
                     Decode(crc, OnTheWire(crc, slot)).Ok?
                     <==> crc(Header(p, false)) == crc(Header(p.(seqnum := Wrap8(j)), false)))
  {
    if j < |chunks| {
      var p := DataPacket(j, chunks[j]);
      assert Wire(crc, p)[1] == p.seqnum;
    } else if j >= capacity {
      var p := DataPacket(j - capacity, chunks[j - capacity]);
      if Wrap8(j) == p.seqnum { SameByte(j, j - capacity); }
      OverwrittenSeqnum(crc, p, Wrap8(j));
    }
  }
}
