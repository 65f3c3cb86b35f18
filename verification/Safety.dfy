/** End-to-end safety: the theorems about every run of sender, receiver and network. */
module Safety {
  import opened Words
  import opened Options
  import opened Codec
  import opened Network
  import opened Invariant
  import opened SenderSteps
  import opened ReceiverKeeps
  import ReceiverAnswers
  import S = SenderModel
  import R = ReceiverModel

  /** Every step of either endpoint, and everything the network does, keeps the
      invariant. */
  lemma StepInv(c: Config, j: Joint, l: Label)
    requires Inv(c, j) && Enabled(c, j, l)
    ensures Inv(c, Apply(c, j, l))
  {
    match l
    case SenderReady(d, n, keep) => SenderReadyInv(c, j, d, n, keep);
    case SenderTimeout => TimeoutInv(c, j);
    case ReceiverReady(d, keep) =>
      if j.phase.Waiting? { WaitingInv(c, j, d, keep); } else { ReceivingInv(c, j, d, keep); }
    case ReceiverIdle =>
    case Truncation(m) => TruncationInv(c, j, m);
    case Loss(_) =>
  }

  /** Truncating a data packet leaves a packet that is known to be truncated. */
  lemma TruncationInv(c: Config, j: Joint, m: Msg)
    requires Inv(c, j) && Enabled(c, j, Truncation(m))
    ensures Inv(c, Apply(c, j, Truncation(m)))
  {
    assert DownOk(c, j.snd.chunks, SentSoFar(j), m);
    TruncationTransparent(c.crc, Whole(j.snd.chunks, m.index));
    TruncationTransparent(c.crc, Cropped(j.snd.chunks, m.index));
  }

  lemma {:induction false} RunInv(c: Config, j: Joint, labels: seq<Label>)
    requires Inv(c, j) && IsRun(c, j, labels)
    ensures Inv(c, Final(c, j, labels))
    decreases |labels|
  {
    if labels != [] {
      StepInv(c, j, labels[0]);
      RunInv(c, Apply(c, j, labels[0]), labels[1..]);
    }
  }

  // ---------- What the invariant says about the transfer

  lemma {:induction false} ConcatPrefix(chunks: seq<Bytes>, n: nat)
    requires n <= |chunks|
    ensures R.Concat(chunks[..n]) <= R.Concat(chunks)
    decreases |chunks| - n
  {
    if n < |chunks| {
      ConcatPrefix(chunks, n + 1);
      assert chunks[..n + 1] == chunks[..n] + [chunks[n]];
      R.ConcatAppend(chunks[..n], chunks[n]);
    } else {
      assert chunks[..n] == chunks;
    }
  }

  lemma InvOutput(c: Config, j: Joint)
    requires Inv(c, j)
    ensures Output(j) <= c.input
    ensures j.phase.Complete? ==> Output(j) == c.input
    ensures S.Finished(j.snd) ==> Output(j) == c.input
  {
    var n := j.rcv.expected;
    ConcatPrefix(j.snd.chunks, n);
    assert R.Concat(j.snd.chunks) <= R.Concat(j.snd.chunks) + j.rest;
    if j.phase.Complete? || S.Finished(j.snd) {
      assert n == |j.snd.chunks| && j.rest == [] by {
        if j.phase.Complete? { assert j.rcv.out[n - 1] == j.snd.chunks[n - 1]; }
      }
      assert j.snd.chunks[..n] == j.snd.chunks;
    }
  }

  /** Whatever the network loses, reorders, duplicates, truncates or corrupts, what the
      receiver has written is a prefix of the input; when its main loop ends by itself,
      and when the sender reports success, it is the whole input. */
  lemma Safety(c: Config, labels: seq<Label>)
    requires ValidConfig(c) && IsRun(c, Start(c), labels)
    ensures var j := Final(c, Start(c), labels);
            && Output(j) <= c.input
            && (j.phase.Complete? ==> Output(j) == c.input)
            && (S.Finished(j.snd) ==> Output(j) == c.input)
  {
    StartInv(c);
    RunInv(c, Start(c), labels);
    InvOutput(c, Final(c, Start(c), labels));
  }

  // ---------- The connection

  /** The datagrams that the receiver reads in a run. */
  function Reads(labels: seq<Label>): nat {
    if labels == [] then 0 else Reads(labels[1..]) + if labels[0].ReceiverReady? then 1 else 0
  }

  /** The receiver reads a packet numbered 0. */
  predicate Opens(c: Config, l: Label) {
    l.ReceiverReady? && Decoded(c, l.datagram).Ok? && Decoded(c, l.datagram).value.seqnum == 0
  }

  /** The receiver waits as long as fewer than five datagrams were read, gives up at the fifth,
      and has received and written nothing by then, as long as none is a packet numbered 0. */
  lemma GivesUpConnecting(c: Config, labels: seq<Label>)
    requires ValidConfig(c) && IsRun(c, Start(c), labels)
    requires forall i :: 0 <= i < |labels| ==> !Opens(c, labels[i])
    ensures var j := Final(c, Start(c), labels);
            && Reads(labels) <= 5 && j.rcv == Start(c).rcv
            && j.phase == if Reads(labels) == 5 then Aborted else Waiting(Reads(labels))
  {
    NotConnected(c, Start(c), labels, 0);
  }

  lemma {:induction false} NotConnected(c: Config, j: Joint, labels: seq<Label>, n: nat)
    requires ValidConfig(c) && IsRun(c, j, labels) && n <= 5
    requires j.phase == if n == 5 then Aborted else Waiting(n)
    requires forall i :: 0 <= i < |labels| ==> !Opens(c, labels[i])
    ensures var k := Final(c, j, labels);
            && n + Reads(labels) <= 5 && k.rcv == j.rcv
            && k.phase == if n + Reads(labels) == 5 then Aborted else Waiting(n + Reads(labels))
    decreases |labels|
  {
    if labels != [] {
      var l := labels[0];
      assert !Opens(c, l);
      NotConnected(c, Apply(c, j, l), labels[1..], if l.ReceiverReady? then n + 1 else n);
    }
  }

  /** The first packet numbered 0 is taken, whatever else it says. */
  lemma Connects(c: Config, j: Joint, l: Label)
    requires ValidConfig(c) && Enabled(c, j, l) && Opens(c, l) && j.phase.Waiting?
    ensures var k, p := Apply(c, j, l), Decoded(c, l.datagram).value;
            && k.phase == (if !p.tr && p.payload == [] then Complete else Receiving)
            && k.rcv == if p.tr then R.Receiver(0, map[], 1, [], p.ts) else R.Receiver(1, map[], 0, [p.payload], p.ts)
  {
    DecodedFits(c.crc, Arrived(l.datagram));
    ReceiverAnswers.FirstAnswered(c.window, Decoded(c, l.datagram).value);
  }

  // ---------- The bounds

  /** As long as the sender's go-back-n has not run away: what is acknowledged is
      written, what is written was sent, no more than the window is in flight, every
      data packet under way is less than a window ahead, and the receiver's buffer is
      never full, so that it cannot discard the packet it waits for. */
  lemma Credit(c: Config, labels: seq<Label>)
    requires ValidConfig(c) && IsRun(c, Start(c), labels)
    ensures var j := Final(c, Start(c), labels);
            j.fate != S.Overrun ==>
              && j.snd.ack <= j.rcv.expected <= j.snd.sent <= j.snd.ack + c.window
              && (forall m :: m in j.down ==> m.index < j.rcv.expected + c.window)
              && !R.Full(j.rcv, c.window)
  {
    StartInv(c);
    RunInv(c, Start(c), labels);
    var j := Final(c, Start(c), labels);
    if j.fate != S.Overrun { NeverFull(c, j); }
  }

  lemma SubsetSize(a: set<nat>, b: set<nat>)
    requires a <= b
    ensures |a| <= |b|
  {
    assert b == a + (b - a);
  }

  lemma NeverFull(c: Config, j: Joint)
    requires Inv(c, j) && j.fate != S.Overrun
    ensures !R.Full(j.rcv, c.window)
    ensures forall m :: m in j.down ==> m.index < j.rcv.expected + c.window
  {
    var a, b := j.rcv.expected + 1, j.rcv.expected + c.window;
    IntervalSize(a, b);
    SubsetSize(j.rcv.held.Keys, Interval(a, b));
    forall m | m in j.down ensures m.index < b {
      assert DownOk(c, j.snd.chunks, SentSoFar(j), m);
    }
  }

  /** The numbers from a up to but not including b. */
  function Interval(a: nat, b: nat): set<nat>
    requires a <= b
    decreases b
  {
    if a < b then Interval(a, b - 1) + {b - 1} else {}
  }

  lemma {:induction false} IntervalSize(a: nat, b: nat)
    requires a <= b
    ensures |Interval(a, b)| == b - a
    ensures forall k :: k in Interval(a, b) <==> a <= k < b
    decreases b
  {
    if a < b { IntervalSize(a, b - 1); }
  }

  /** Both 8-bit tests answer for the unbounded numbers: in a reachable state a data
      packet in time is accepted exactly when its chunk lies in [expected, expected +
      max_window], and a reply in time exactly when it lies in [last_ack, sent]. */
  lemma WindowTestsSound(c: Config, labels: seq<Label>, m: Msg)
    requires ValidConfig(c) && IsRun(c, Start(c), labels)
    ensures var j := Final(c, Start(c), labels);
            && (m in j.down && ReceiverInTime(c, j.rcv, m) ==>
                  (R.Accepts(j.rcv, c.window, Decode(c.crc, m.bytes))
                   <==> j.rcv.expected <= m.index <= j.rcv.expected + c.window))
            && (m in j.up && SenderRuns(j) && SenderInTime(j.snd, m) ==>
                  j.snd.ack <= j.snd.sent <= j.snd.ack + 31 &&
                  (S.Accepts(j.snd, Decode(c.crc, m.bytes)) <==> j.snd.ack <= m.index <= j.snd.sent))
  {
    StartInv(c);
    RunInv(c, Start(c), labels);
    var j := Final(c, Start(c), labels);
    var d := Intact(m);
    if m in j.down && ReceiverInTime(c, j.rcv, m) {
      DownDecodes(c, j.snd.chunks, SentSoFar(j), d, j.down);
      assert m.index <= j.rcv.expected + 128;
      ChunkTaken(c, j.rcv, j.snd.chunks, Decoded(c, d).value, m.index);
    }
    if m in j.up && SenderRuns(j) && SenderInTime(j.snd, m) {
      ReplyAccepted(c, j.snd, j.rcv.expected, m);
    }
  }

  // ---------- Before the first reply

  /** As long as the receiver has sent nothing, the sender has a window of one. */
  predicate Quiet(j: Joint) {
    j.phase.Waiting? ==>
      && j.up == {} && j.snd.ack == 0 && j.snd.win == 1 && j.snd.sent <= 1 && j.fate != S.Overrun
  }

  lemma QuietRead(s: S.Sender, capacity: nat, data: Bytes)
    requires S.ValidSender(s, capacity) && s.pollInput && |data| <= MAX_PAYLOAD_SIZE
    requires s.ack == 0 && s.win == 1 && s.sent <= 1
    ensures var step := S.PollReady(s, capacity, None, Some(data));
            && step.outcome == S.Running && step.state.ack == 0 && step.state.win == 1 && step.state.sent <= 1
  {
  }

  lemma QuietStep(c: Config, j: Joint, l: Label)
    requires Inv(c, j) && Enabled(c, j, l) && Quiet(j)
    ensures Quiet(Apply(c, j, l))
  {
    match l
    case SenderReady(d, n, keep) => if n.Some? { QuietReady(c, j, d, n, keep); }
    case SenderTimeout => QuietTimeout(c, j);
    case ReceiverReady(d, keep) => QuietReceiver(c, j, d, keep);
    case ReceiverIdle =>
    case Truncation(m) =>
    case Loss(_) =>
  }

  lemma QuietReady(c: Config, j: Joint, d: Option<Datagram>, n: Option<nat>, keep: bool)
    requires Inv(c, j) && Enabled(c, j, SenderReady(d, n, keep)) && Quiet(j) && n.Some?
    ensures Quiet(SenderStep(c, j, d, n, keep))
  {
    if j.phase.Waiting? { QuietRead(j.snd, c.capacity, j.rest[..n.value]); }
  }

  lemma QuietTimeout(c: Config, j: Joint)
    requires Inv(c, j) && Enabled(c, j, SenderTimeout) && Quiet(j)
    ensures Quiet(TimeoutStep(c, j))
  {
  }

  lemma QuietReceiver(c: Config, j: Joint, d: Datagram, keep: bool)
    requires Inv(c, j) && Enabled(c, j, ReceiverReady(d, keep)) && Quiet(j)
    ensures Quiet(ReceiverStep(c, j, d, keep))
  {
  }

  lemma {:induction false} QuietRun(c: Config, j: Joint, labels: seq<Label>)
    requires Inv(c, j) && IsRun(c, j, labels) && Quiet(j)
    ensures Quiet(Final(c, j, labels))
    decreases |labels|
  {
    if labels != [] {
      StepInv(c, j, labels[0]);
      QuietStep(c, j, labels[0]);
      QuietRun(c, Apply(c, j, labels[0]), labels[1..]);
    }
  }

  /** A packet read between the connection and the first drain is not misfiled if it is that
      of chunk 0, and nothing else is written. But it reserves a slot: when chunk 0 is empty,
      the main loop, which would end with it, does not, unless the window is 1. */
  lemma FirstRace(maxWindow: uint8, p: Packet, r: Result<Packet>)
    requires 1 <= maxWindow <= 31 && p.seqnum == 0 && (r.Ok? ==> r.value.seqnum == 0)
    ensures !R.Misfiles(R.First(p), maxWindow, r)
    ensures !p.tr ==> R.Arrive(R.First(p), maxWindow, r).out == R.Connect(maxWindow, p).state.out == [p.payload]
    ensures !p.tr && p.payload == [] ==>
              R.Connect(maxWindow, p).done && (R.Ended(R.Arrive(R.First(p), maxWindow, r)) <==> maxWindow == 1)
  {
    if !p.tr {
      OneWritten(R.First(p));
      OneWritten(R.Admit(R.First(p), maxWindow, r));
    }
  }

  lemma OneWritten(s: R.Receiver)
    requires s.expected in s.held && s.expected + 1 !in s.held
    ensures R.Drain(s) == R.WriteFirst(s)
  {
  }

  /** The connection and the first drain are one step of this machine. A datagram that the code
      reads in between can only be one of those under way at that time, and all of these are of
      chunk 0: it is not misfiled, and what is written is the same. */
  lemma RaceWritesTheSame(c: Config, labels: seq<Label>, m: Msg, p: Packet)
    requires ValidConfig(c) && IsRun(c, Start(c), labels)
    requires var j := Final(c, Start(c), labels); j.phase.Waiting? && m in j.down
    requires p.seqnum == 0
    ensures m.index == 0
    ensures !R.Misfiles(R.First(p), c.window, Decode(c.crc, m.bytes))
    ensures !p.tr ==> R.Arrive(R.First(p), c.window, Decode(c.crc, m.bytes)).out == R.Connect(c.window, p).state.out
  {
    StartInv(c);
    RunInv(c, Start(c), labels);
    QuietRun(c, Start(c), labels);
    var j := Final(c, Start(c), labels);
    DownDecodes(c, j.snd.chunks, SentSoFar(j), Intact(m), j.down);
    FirstRace(c.window, p, Decode(c.crc, m.bytes));
  }
}
