/** The sender over whole runs, against any peer: any packet, any window, any order. */
module SenderRuns {
  import opened Words
  import opened Options
  import opened Codec
  import opened Bits
  import opened PacketBuffer
  import opened SenderModel
  import opened SenderAnswers

  /** What poll reports to one iteration of transmit. */
  datatype Event = Ready(packet: Option<Result<Packet>>, data: Option<Bytes>) | Timeout

  /** The decoder and read bound the window and the length; nothing else is assumed. */
  predicate Possible(s: Sender, e: Event) {
    match e
    case Ready(r, d) =>
      && (r.Some? && r.value.Ok? ==> r.value.value.window <= 31)
      && (d.Some? ==> s.pollInput && |d.value| <= MAX_PAYLOAD_SIZE)
    case Timeout => true
  }

  function Next(s: Sender, capacity: nat, e: Event): Step
    requires ValidSender(s, capacity) && Possible(s, e)
  {
    match e
    case Ready(r, d) => PollReady(s, capacity, r, d)
    case Timeout => PollTimeout(s, capacity)
  }

  /** The packets that do_send_sbuf sends in an iteration. */
  function InOrderSends(s: Sender, capacity: nat, e: Event): seq<nat>
    requires ValidSender(s, capacity) && Possible(s, e)
  {
    match e
    case Ready(r, d) =>
      var a := SocketPart(s, capacity, r);
      if a.outcome == Running then SendPart(InputPart(a.state, d), capacity).emitted else []
    case Timeout => []
  }

  /** A run: it goes on as long as the iterations do. */
  ghost predicate IsHistory(s: Sender, capacity: nat, events: seq<Event>)
    decreases |events|
  {
    events == []
    || (ValidSender(s, capacity) && Possible(s, events[0])
        && (events[1..] == [] || Next(s, capacity, events[0]).outcome == Running)
        && IsHistory(Next(s, capacity, events[0]).state, capacity, events[1..]))
  }

  ghost function After(s: Sender, capacity: nat, events: seq<Event>): Sender
    requires IsHistory(s, capacity, events)
    decreases |events|
  {
    if events == [] then s else After(Next(s, capacity, events[0]).state, capacity, events[1..])
  }

  /** All that do_send_sbuf sends, in order. */
  ghost function AllInOrderSends(s: Sender, capacity: nat, events: seq<Event>): seq<nat>
    requires IsHistory(s, capacity, events)
    decreases |events|
  {
    if events == [] then []
    else
      InOrderSends(s, capacity, events[0])
      + AllInOrderSends(Next(s, capacity, events[0]).state, capacity, events[1..])
  }

  // ---------- One iteration

  /** Every iteration that goes on keeps what the ring and the 8-bit numbers need: the
      chunks in the ring fit it, no more than 31 packets are in flight, and the input is
      polled only with room for a chunk. */
  lemma NextValid(s: Sender, capacity: nat, e: Event)
    requires ValidSender(s, capacity) && Possible(s, e)
    ensures var step := Next(s, capacity, e);
            && (step.outcome == Running ==> ValidSender(step.state, capacity))
            && ValidSender(step.state.(retry := 0), capacity)
            && s.chunks <= step.state.chunks && s.ack <= step.state.ack && s.sent <= step.state.sent
  {
    match e
    case Ready(r, d) =>
      ResentInRing(s, capacity, r);
      SendPartValid(InputPart(SocketPart(s, capacity, r).state, d), capacity);
    case Timeout =>
  }

  lemma ResentInRing(s: Sender, capacity: nat, r: Option<Result<Packet>>)
    requires ValidSender(s, capacity) && (r.Some? && r.value.Ok? ==> r.value.value.window <= 31)
    ensures var a := SocketPart(s, capacity, r);
            && ValidSender(a.state, capacity) && a.state.chunks == s.chunks && a.state.sent == s.sent
            && s.ack <= a.state.ack && a.state.pollInput == s.pollInput && a.outcome in {Running, NullPointer}
            && forall i :: 0 <= i < |a.emitted| ==> a.emitted[i] < |s.chunks|
  {
  }

  lemma SendPartValid(b: Sender, capacity: nat)
    requires Bounded(b, capacity)
    ensures var step := SendPart(b, capacity);
            && ValidSender(step.state, capacity) && b.sent <= step.state.sent
            && step.state.ack == b.ack && step.state.chunks == b.chunks
  {
  }

  lemma SendPartNext(s: Sender, capacity: nat)
    requires s.ack <= s.sent <= |s.chunks|
    ensures var step := SendPart(s, capacity);
            && step.emitted == Range(s.sent, step.state.sent) && s.sent <= step.state.sent
            && step.state.ack == s.ack && step.state.win == s.win
            && (forall i :: 0 <= i < |step.emitted| ==> step.emitted[i] + 1 - s.ack <= s.win)
            && (step.state.sent == |s.chunks| || step.state.sent - s.ack >= s.win)
  {
  }

  /** do_send_sbuf sends the next numbers, each within the window announced last, and
      stops only when all is sent or the window is used up. */
  lemma InOrderSendsNext(s: Sender, capacity: nat, e: Event)
    requires ValidSender(s, capacity) && Possible(s, e)
    ensures var step, js := Next(s, capacity, e), InOrderSends(s, capacity, e);
            && js == Range(s.sent, step.state.sent)
            && (forall i :: 0 <= i < |js| ==> js[i] + 1 - step.state.ack <= step.state.win)
            && (e.Ready? && step.outcome == Running ==>
                  step.state.sent == |step.state.chunks| || step.state.sent - step.state.ack >= step.state.win)
  {
    match e
    case Ready(r, d) =>
      ResentInRing(s, capacity, r);
      SendPartNext(InputPart(SocketPart(s, capacity, r).state, d), capacity);
    case Timeout =>
  }

  lemma RangeJoin(a: nat, b: nat, c: nat)
    requires a <= b <= c
    ensures Range(a, b) + Range(b, c) == Range(a, c)
  {
  }

  // ---------- All runs

  /** In every reachable state no more than 31 packets are in flight and the ring holds
      what it can hold; over the whole run the packets sent by do_send_sbuf are
      0, 1, 2, ... without gap or repetition. */
  lemma {:induction false} FlowControl(s: Sender, capacity: nat, events: seq<Event>)
    requires ValidSender(s, capacity) && IsHistory(s, capacity, events)
    ensures var t := After(s, capacity, events);
            && ValidSender(t.(retry := 0), capacity) && s.sent <= t.sent <= t.ack + 31
            && s.chunks <= t.chunks
            && AllInOrderSends(s, capacity, events) == Range(s.sent, t.sent)
    decreases |events|
  {
    if events != [] {
      var step := Next(s, capacity, events[0]);
      NextValid(s, capacity, events[0]);
      InOrderSendsNext(s, capacity, events[0]);
      if events[1..] != [] {
        FlowControl(step.state, capacity, events[1..]);
        RangeJoin(s.sent, step.state.sent, After(s, capacity, events).sent);
      }
    }
  }

  // ---------- What goes out

  /** All that is sent, in order: the indices and the slots as they are at that time. */
  ghost function AllIndices(s: Sender, capacity: nat, events: seq<Event>): seq<nat>
    requires IsHistory(s, capacity, events)
    decreases |events|
  {
    if events == [] then []
    else
      var step := Next(s, capacity, events[0]);
      step.emitted + AllIndices(step.state, capacity, events[1..])
  }

  ghost function AllSlots(s: Sender, capacity: nat, events: seq<Event>): (out: seq<Slot<Image>>)
    requires IsHistory(s, capacity, events)
    ensures |out| == |AllIndices(s, capacity, events)|
    decreases |events|
  {
    if events == [] then []
    else
      var step := Next(s, capacity, events[0]);
      EmittedInRing(s, capacity, events[0]);
      Emissions(step.state.chunks, capacity, step.emitted) + AllSlots(step.state, capacity, events[1..])
  }

  /** An iteration sends chunks that were read; a go-back-n that runs away may also
      send the slots behind them, and is the last iteration. */
  lemma EmittedInRing(s: Sender, capacity: nat, e: Event)
    requires ValidSender(s, capacity) && Possible(s, e)
    ensures var step := Next(s, capacity, e);
            && ChunkSizes(step.state.chunks)
            && (forall i :: 0 <= i < |step.emitted| ==>
                  step.emitted[i] < |step.state.chunks| + (if step.outcome == Overrun then capacity else 0))
  {
    match e
    case Ready(r, d) =>
      ResentInRing(s, capacity, r);
      SendPartNext(InputPart(SocketPart(s, capacity, r).state, d), capacity);
    case Timeout =>
  }

  /** What was read stays read. */
  lemma {:induction false} ChunksKept(s: Sender, capacity: nat, events: seq<Event>)
    requires IsHistory(s, capacity, events) && ChunkSizes(s.chunks)
    ensures var t := After(s, capacity, events); s.chunks <= t.chunks && ChunkSizes(t.chunks)
    decreases |events|
  {
    if events != [] {
      NextValid(s, capacity, events[0]);
      EmittedInRing(s, capacity, events[0]);
      ChunksKept(Next(s, capacity, events[0]).state, capacity, events[1..]);
    }
  }

  lemma SentNow(s: Sender, capacity: nat, events: seq<Event>, i: nat)
    requires IsHistory(s, capacity, events) && events != [] && i < |Next(s, capacity, events[0]).emitted|
    ensures var step := Next(s, capacity, events[0]);
            && AllIndices(s, capacity, events)[i] == step.emitted[i]
            && HaveSlots(step.state.chunks, capacity, step.emitted)
            && AllSlots(s, capacity, events)[i] == Emission(step.state.chunks, capacity, step.emitted[i])
  {
    EmittedInRing(s, capacity, events[0]);
  }

  lemma SlotStays(chunks: seq<Bytes>, later: seq<Bytes>, capacity: nat, j: nat)
    requires ChunkSizes(chunks) && ChunkSizes(later) && chunks <= later && j < |chunks|
    ensures Emission(chunks, capacity, j) == Slot(Wrap8(j), Encoded(DataPacket(j, later[j])))
  {
  }

  lemma Behind<T>(a: seq<T>, b: seq<T>, ab: seq<T>, i: nat)
    requires ab == a + b && |a| <= i < |ab|
    ensures i - |a| < |b| && ab[i] == b[i - |a|]
  {
  }

  lemma SentLater(s: Sender, capacity: nat, events: seq<Event>, i: nat)
    requires IsHistory(s, capacity, events) && events != []
    requires |Next(s, capacity, events[0]).emitted| <= i < |AllIndices(s, capacity, events)|
    ensures var step, rest := Next(s, capacity, events[0]), events[1..];
            var k := i - |step.emitted|;
            && k < |AllIndices(step.state, capacity, rest)|
            && AllIndices(s, capacity, events)[i] == AllIndices(step.state, capacity, rest)[k]
            && AllSlots(s, capacity, events)[i] == AllSlots(step.state, capacity, rest)[k]
  {
    var step, rest := Next(s, capacity, events[0]), events[1..];
    EmittedInRing(s, capacity, events[0]);
    Behind(step.emitted, AllIndices(step.state, capacity, rest), AllIndices(s, capacity, events), i);
    Behind(Emissions(step.state.chunks, capacity, step.emitted), AllSlots(step.state, capacity, rest),
           AllSlots(s, capacity, events), i);
  }

  /** The packet of a chunk never changes: over a whole run, whenever a chunk is sent, for
      the first time, again for a NACK or a third duplicate ACK, or by a go-back-n, it goes
      out as the packet that was encoded when it was read. */
  lemma {:induction false} StableImage(s: Sender, capacity: nat, events: seq<Event>, i: nat)
    requires ValidSender(s, capacity) && IsHistory(s, capacity, events) && i < |AllIndices(s, capacity, events)|
    ensures var t, j := After(s, capacity, events), AllIndices(s, capacity, events)[i];
            && ChunkSizes(t.chunks)
            && (j < |t.chunks| ==>
                  AllSlots(s, capacity, events)[i] == Slot(Wrap8(j), Encoded(DataPacket(j, t.chunks[j]))))
    decreases |events|
  {
    var step, rest := Next(s, capacity, events[0]), events[1..];
    var n, t := |step.emitted|, After(s, capacity, events);
    NextValid(s, capacity, events[0]);
    EmittedInRing(s, capacity, events[0]);
    ChunksKept(step.state, capacity, rest);
    if i >= n {
      SentLater(s, capacity, events, i);
      StableImage(step.state, capacity, rest, i - n);
    } else {
      var j := step.emitted[i];
      SentNow(s, capacity, events, i);
      assert rest == [] ==> t == step.state;
      if j < |t.chunks| { SlotStays(step.state.chunks, t.chunks, capacity, j); }
    }
  }

  // ---------- NACKs

  /** process_nack scans the first slots of the array, not those of the live packets.
      It can find every packet from ack up to n if and only if there is none, the ring is
      full, or their slots all lie among those first ones. */
  lemma NacksFoundUpTo(s: Sender, capacity: nat, n: nat)
    requires PowerOfTwo(capacity) && s.ack <= n <= |s.chunks| <= s.ack + capacity
    ensures (forall j :: s.ack <= j < n ==> NackFound(s, capacity, j))
            <==> s.ack == n || |s.chunks| == s.ack + capacity
                 || MaskIndex(s.ack, capacity) + (n - s.ack) <= |s.chunks| - s.ack
  {
    var used, m := |s.chunks| - s.ack, MaskIndex(s.ack, capacity);
    if m + (n - s.ack) <= used {
      forall j | s.ack <= j < n ensures NackFound(s, capacity, j) {
        LiveSlotIndex(s.ack, j - s.ack, capacity);
      }
    } else if s.ack < n && used < capacity {
      var i := if m < used then used - m else 0;
      LiveSlotIndex(s.ack, i, capacity);
      assert !NackFound(s, capacity, s.ack + i);
    }
  }

  /** Every packet in flight is found if and only if nothing is in flight, the ring is
      full, or the flight ends among the first slots. */
  lemma EveryNackFound(s: Sender, capacity: nat)
    requires ValidSender(s, capacity)
    ensures (forall j :: s.ack <= j < s.sent ==> NackFound(s, capacity, j))
            <==> s.ack == s.sent || |s.chunks| == s.ack + capacity
                 || MaskIndex(s.ack, capacity) + (s.sent - s.ack) <= |s.chunks| - s.ack
  {
    NacksFoundUpTo(s, capacity, s.sent);
  }

  /** The slot of the i-th packet after the first one, as long as the array does not end. */
  lemma LiveSlotIndex(first: nat, i: nat, capacity: nat)
    requires PowerOfTwo(capacity) && MaskIndex(first, capacity) + i < capacity
    ensures MaskIndex(first + i, capacity) == MaskIndex(first, capacity) + i
  {
    MaskedHead(first, i, capacity);
  }

  // ---------- A NACK that is not found

  /** A chunk read with nothing waiting to be sent and credit left is sent at once. */
  lemma ReadAndSent(s: Sender, capacity: nat, data: Bytes)
    requires ValidSender(s, capacity) && s.pollInput && |data| <= MAX_PAYLOAD_SIZE
    requires s.sent == |s.chunks| && s.sent - s.ack < s.win
    ensures Possible(s, Ready(None, Some(data)))
    ensures var more := s.(chunks := s.chunks + [data], sent := s.sent + 1);
            Next(s, capacity, Ready(None, Some(data)))
            == Step(more.(pollInput := MayRead(more, capacity)), Range(s.sent, s.sent + 1), Running)
  {
  }

  function Acknowledgement(index: nat): Event {
    Ready(Some(Ok(Packet(ACK, false, 31, Wrap8(index), 0, PKT_TIMESTAMP, []))), None)
  }

  /** An ACK of everything sent, with everything read sent. */
  lemma AllAcknowledged(s: Sender, capacity: nat)
    requires ValidSender(s, capacity) && s.ack < s.sent == |s.chunks|
    ensures Possible(s, Acknowledgement(s.sent))
    ensures var done := s.(ack := s.sent, win := 31, dup := 0, retry := 0);
            Next(s, capacity, Acknowledgement(s.sent))
            == Step(done.(pollInput := MayRead(done, capacity)), [], Running)
  {
    Seqnum.WindowTestExact(s.sent, s.ack, s.sent - s.ack);
  }

  /** One more iteration in front of a run. */
  lemma HistoryFrom(s: Sender, capacity: nat, e: Event, events: seq<Event>)
    requires ValidSender(s, capacity) && Possible(s, e) && Next(s, capacity, e).outcome == Running
    requires IsHistory(Next(s, capacity, e).state, capacity, events)
    ensures IsHistory(s, capacity, [e] + events)
    ensures After(s, capacity, [e] + events) == After(Next(s, capacity, e).state, capacity, events)
  {
    assert ([e] + events)[1..] == events;
  }

  /** One chunk is sent and acknowledged, and another one is sent. */
  lemma OneInFlight(s0: Sender, capacity: nat, x: Bytes, y: Bytes) returns (events: seq<Event>)
    requires PowerOfTwo(capacity) && 1 < capacity <= 128 && s0 == Initial()
    requires 0 < |x| <= MAX_PAYLOAD_SIZE && |y| <= MAX_PAYLOAD_SIZE
    ensures IsHistory(s0, capacity, events)
    ensures var s := After(s0, capacity, events);
            ValidSender(s, capacity) && s.ack == 1 && s.sent == |s.chunks| == 2
  {
    ReadAndSent(s0, capacity, x);
    var s1 := Next(s0, capacity, Ready(None, Some(x))).state;
    AllAcknowledged(s1, capacity);
    var s2 := Next(s1, capacity, Acknowledgement(s1.sent)).state;
    ReadAndSent(s2, capacity, y);
    var s3 := Next(s2, capacity, Ready(None, Some(y))).state;
    assert IsHistory(s3, capacity, []) && After(s3, capacity, []) == s3;
    HistoryFrom(s2, capacity, Ready(None, Some(y)), []);
    events := [Ready(None, Some(y))] + [];
    HistoryFrom(s1, capacity, Acknowledgement(s1.sent), events);
    events := [Acknowledgement(s1.sent)] + events;
    HistoryFrom(s0, capacity, Ready(None, Some(x)), events);
    events := [Ready(None, Some(x))] + events;
  }

  /** Then the NACK of the packet in flight, the only one, is accepted and sends nothing,
      whatever the capacity is above 1. */
  lemma NackNotFound(capacity: nat, x: Bytes, y: Bytes) returns (events: seq<Event>)
    requires PowerOfTwo(capacity) && 1 < capacity <= 128
    requires 0 < |x| <= MAX_PAYLOAD_SIZE && |y| <= MAX_PAYLOAD_SIZE
    ensures IsHistory(Initial(), capacity, events)
    ensures var s, r := After(Initial(), capacity, events), Ok(Packet(NACK, false, 31, Wrap8(1), 0, PKT_TIMESTAMP, []));
            && ValidSender(s, capacity) && s.ack <= 1 < s.sent
            && Accepts(s, r) && SocketRead(s, capacity, r).emitted == []
  {
    events := OneInFlight(Initial(), capacity, x, y);
    NackBeyondScan(After(Initial(), capacity, events), capacity);
  }

  lemma NackBeyondScan(s: Sender, capacity: nat)
    requires ValidSender(s, capacity) && s.ack == 1 && s.sent == |s.chunks| == 2 && capacity > 1
    ensures var r := Ok(Packet(NACK, false, 31, Wrap8(1), 0, PKT_TIMESTAMP, []));
            Accepts(s, r) && SocketRead(s, capacity, r).emitted == []
  {
    Seqnum.WindowTestExact(1, 1, 1);
  }

  /** With a capacity of 1 there is only one slot, and every NACK finds its packet. */
  lemma SingleSlot(s: Sender)
    requires ValidSender(s, 1)
    ensures forall j :: s.ack <= j < s.sent ==> NackFound(s, 1, j)
  {
    EveryNackFound(s, 1);
  }

  // ---------- Duplicate ACKs

  /** The third ACK of a number that is already acknowledged reads through a null
      pointer exactly when nothing is buffered; with a packet buffered it is sent. */
  lemma ThirdDuplicate(s: Sender, capacity: nat, r: Result<Packet>)
    requires ValidSender(s, capacity)
    ensures SocketRead(s, capacity, r).outcome == NullPointer
            <==> Accepts(s, r) && r.value.typ == ACK && r.value.seqnum == Wrap8(s.ack)
                 && s.dup == MAX_DUP_ACK - 1 && s.ack == |s.chunks|
  {
    if Accepts(s, r) { Seqnum.DistanceInverse(r.value.seqnum, s.ack); }
  }

  /** An ACK of last_ack that arrives alone. */
  function Duplicate(s: Sender): Event {
    Ready(Some(Ok(Packet(ACK, false, 31, Wrap8(s.ack), 0, PKT_TIMESTAMP, []))), None)
  }

  lemma OneDuplicate(s: Sender, capacity: nat)
    requires ValidSender(s, capacity) && s.ack == |s.chunks|
    ensures Possible(s, Duplicate(s))
    ensures var step := Next(s, capacity, Duplicate(s));
            if s.dup == MAX_DUP_ACK - 1 then step.outcome == NullPointer
            else step.outcome == Running && ValidSender(step.state, capacity) && step.state.dup == s.dup + 1
                 && step.state.ack == s.ack && step.state.chunks == s.chunks
  {
    ThirdDuplicate(s, capacity, Duplicate(s).packet.value);
    assert Seqnum.Distance(Wrap8(s.ack), Wrap8(s.ack)) == 0;
    NextValid(s, capacity, Duplicate(s));
  }

  /** Whenever everything that was read is acknowledged, as many more ACKs of the same
      number as make three stop the sender. */
  lemma {:induction false} ThreeAcks(s: Sender, capacity: nat) returns (events: seq<Event>)
    requires ValidSender(s, capacity) && s.ack == |s.chunks|
    ensures |events| == MAX_DUP_ACK - 1 - s.dup
    ensures IsHistory(s, capacity, events) && ValidSender(After(s, capacity, events), capacity)
    ensures var t := After(s, capacity, events);
            Possible(t, Duplicate(t)) && Next(t, capacity, Duplicate(t)).outcome == NullPointer
    decreases MAX_DUP_ACK - s.dup
  {
    OneDuplicate(s, capacity);
    if s.dup == MAX_DUP_ACK - 1 {
      events := [];
      assert IsHistory(s, capacity, []) && After(s, capacity, []) == s;
    } else {
      var rest := ThreeAcks(Next(s, capacity, Duplicate(s)).state, capacity);
      HistoryFrom(s, capacity, Duplicate(s), rest);
      events := [Duplicate(s)] + rest;
    }
  }

  // ---------- Giving up

  /** The timeouts at the end of a run with no datagram read in between. */
  function TimeoutsSince(events: seq<Event>): nat {
    if events == [] then 0
    else
      var before, e := events[..|events| - 1], events[|events| - 1];
      match e
      case Timeout => TimeoutsSince(before) + 1
      case Ready(r, _) => if r.Some? then 0 else TimeoutsSince(before)
  }

  /** The last iteration of a run. */
  lemma {:induction false} HistoryLast(s: Sender, capacity: nat, events: seq<Event>)
    requires IsHistory(s, capacity, events) && events != []
    ensures var before, e := events[..|events| - 1], events[|events| - 1];
            && IsHistory(s, capacity, before) && ValidSender(After(s, capacity, before), capacity)
            && Possible(After(s, capacity, before), e)
            && After(s, capacity, events) == Next(After(s, capacity, before), capacity, e).state
    decreases |events|
  {
    var step := Next(s, capacity, events[0]);
    if |events| == 1 {
      assert events[..0] == [] && events[1..] == [];
      assert After(s, capacity, []) == s && After(step.state, capacity, []) == step.state;
    } else {
      HistoryLast(step.state, capacity, events[1..]);
      var before := events[..|events| - 1];
      assert before[1..] == events[1..][..|events| - 2] && before[0] == events[0];
      assert events[1..][|events| - 2] == events[|events| - 1];
    }
  }

  /** The count of timeouts never exceeds that number: every datagram that is read, whatever
      it is, restarts it. */
  lemma {:induction false} CountedSince(capacity: nat, events: seq<Event>)
    requires IsHistory(Initial(), capacity, events)
    ensures After(Initial(), capacity, events).retry <= TimeoutsSince(events)
    decreases |events|
  {
    if events != [] {
      var before, e := events[..|events| - 1], events[|events| - 1];
      HistoryLast(Initial(), capacity, events);
      CountedSince(capacity, before);
      var s := After(Initial(), capacity, before);
      match e
      case Ready(r, d) =>
        if r.Some? { AliveAgain(s, capacity, r.value, d); } else { NothingRead(s, capacity, d); }
      case Timeout => TimeoutAnswered(s, capacity);
    }
  }

  lemma NothingRead(s: Sender, capacity: nat, data: Option<Bytes>)
    requires ValidSender(s, capacity) && (data.Some? ==> s.pollInput)
    ensures PollReady(s, capacity, None, data).state.retry == s.retry
  {
  }

  /** The sender gives up only after six timeouts in a row without a datagram. */
  lemma GivesUpAfterSix(capacity: nat, events: seq<Event>, e: Event)
    requires IsHistory(Initial(), capacity, events)
    requires var s := After(Initial(), capacity, events);
             ValidSender(s, capacity) && Possible(s, e) && Next(s, capacity, e).outcome == GaveUp
    ensures e == Timeout && TimeoutsSince(events + [e]) >= 6
  {
    var s := After(Initial(), capacity, events);
    CountedSince(capacity, events);
    if e.Ready? { IterationAnswered(s, capacity, e.packet, e.data); } else { TimeoutAnswered(s, capacity); }
    assert (events + [e])[..|events|] == events;
  }
}
