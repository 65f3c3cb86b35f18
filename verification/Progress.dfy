/** Schedules: what one delivery achieves. */
module Delivery {
  import opened Words
  import opened Options
  import opened Seqnum
  import opened Codec
  import opened Network
  import opened Invariant
  import opened SenderSteps
  import opened ReceiverKeeps
  import opened Safety
  import S = SenderModel
  import R = ReceiverModel

  predicate Open(j: Joint) {
    j.fate == S.Running && (j.phase.Waiting? || j.phase.Receiving?)
  }

  /** The datagram of chunk i. */
  function DataMsg(c: Config, chunks: seq<Bytes>, i: nat): Msg
    requires S.ChunkSizes(chunks) && i < |chunks|
  {
    Msg(i, Wire(c.crc, Whole(chunks, i)))
  }

  function AckMsg(c: Config, i: nat): Msg
    requires c.window < 32
  {
    Msg(i, Wire(c.crc, Reply(c, ACK, i)))
  }

  /** Whatever was held is still held, or was written. */
  predicate Keeps(r: R.Receiver, e: R.Receiver) {
    r.expected <= e.expected && forall i :: i in r.held ==> i < e.expected || i in e.held
  }

  /** The packet that the receiver waits for, or an earlier one, arrives. */
  lemma Arrival(c: Config, r: R.Receiver, chunks: seq<Bytes>, i: nat)
    requires R.ValidReceiver(r, c.window) && !R.Full(r, c.window) && S.ChunkSizes(chunks) && i < |chunks|
    requires i <= r.expected <= i + 31 && r.ts == S.PKT_TIMESTAMP
    ensures var step := R.Iterate(r, c.window, Ok(Whole(chunks, i)));
            && Keeps(r, step.state) && (i == r.expected ==> r.expected < step.state.expected)
            && step.replies == [Reply(c, ACK, step.state.expected)]
  {
    var p := Whole(chunks, i);
    ChunkTaken(c, r, chunks, p, i);
    var k := R.Admit(r, c.window, Ok(p));
    assert i == r.expected ==> r.expected in k.held;
    R.DrainExact(k);
    forall j | j in r.held ensures j < R.Drain(k).expected || j in R.Drain(k).held {
      assert R.Stays(k, R.Drain(k), j);
    }
  }

  /** So does the first packet. */
  lemma FirstArrival(c: Config, chunks: seq<Bytes>)
    requires S.ChunkSizes(chunks) && chunks != [] && c.window <= 31
    ensures var step := R.Connect(c.window, Whole(chunks, 0));
            && 0 < step.state.expected
            && step.replies == [Reply(c, ACK, step.state.expected)]
  {
    var p := Whole(chunks, 0);
    var k := R.Keep(R.Receiver(0, map[], 1, [], p.ts), 0, p);
    assert k.expected in k.held;
    R.DrainExact(k);
  }

  lemma AckReplied(c: Config, e: nat, nack: nat)
    requires c.window < 32
    ensures AckMsg(c, e) in Replied(c, [Reply(c, ACK, e)], e, nack)
  {
    var p := Reply(c, ACK, e);
    assert p in [p] && Fits(p);
  }

  function DataArrives(c: Config, chunks: seq<Bytes>, i: nat): Label
    requires S.ChunkSizes(chunks) && i < |chunks|
  {
    ReceiverReady(Intact(DataMsg(c, chunks, i)), false)
  }

  /** Delivering it: the receiver moves on if it was the expected one, and in any case
      acknowledges what it has. */
  lemma DataDelivered(c: Config, j: Joint, i: nat) returns (k: Joint)
    requires Inv(c, j) && Open(j) && i < |j.snd.chunks| && DataMsg(c, j.snd.chunks, i) in j.down
    requires i <= j.rcv.expected <= i + 31
    ensures Enabled(c, j, DataArrives(c, j.snd.chunks, i)) && k == Apply(c, j, DataArrives(c, j.snd.chunks, i))
    ensures Inv(c, k) && k.snd == j.snd && k.fate == j.fate && k.rest == j.rest
    ensures k.down == j.down - {DataMsg(c, j.snd.chunks, i)} && AckMsg(c, k.rcv.expected) in k.up
    ensures Keeps(j.rcv, k.rcv) && (i == j.rcv.expected ==> j.rcv.expected < k.rcv.expected)
    ensures k.phase.Receiving? || k.phase.Complete?
  {
    DataStep(c, j, i);
    k := Apply(c, j, DataArrives(c, j.snd.chunks, i));
    StepInv(c, j, DataArrives(c, j.snd.chunks, i));
    if j.phase.Waiting? { FirstReply(c, j); } else { NextReply(c, j, i); }
  }

  lemma DataStep(c: Config, j: Joint, i: nat)
    requires Inv(c, j) && Open(j) && i < |j.snd.chunks| && DataMsg(c, j.snd.chunks, i) in j.down
    requires i <= j.rcv.expected <= i + 31
    ensures Enabled(c, j, DataArrives(c, j.snd.chunks, i))
    ensures var p := Ok(Whole(j.snd.chunks, i));
            Apply(c, j, DataArrives(c, j.snd.chunks, i))
            == (if j.phase.Waiting? then WaitingStep(c, j, p) else ReceivingStep(c, j, p))
               .(down := j.down - {DataMsg(c, j.snd.chunks, i)})
  {
    RoundTrip(c.crc, Whole(j.snd.chunks, i));
  }

  /** What the receiver does with it, in its main loop. */
  lemma NextReply(c: Config, j: Joint, i: nat)
    requires Inv(c, j) && j.fate == S.Running && j.phase.Receiving? && i < |j.snd.chunks|
    requires i <= j.rcv.expected <= i + 31
    ensures var k := ReceivingStep(c, j, Ok(Whole(j.snd.chunks, i)));
            && AckMsg(c, k.rcv.expected) in k.up
            && Keeps(j.rcv, k.rcv) && (i == j.rcv.expected ==> j.rcv.expected < k.rcv.expected)
  {
    NeverFull(c, j);
    Arrival(c, j.rcv, j.snd.chunks, i);
    var k := ReceivingStep(c, j, Ok(Whole(j.snd.chunks, i)));
    AckReplied(c, k.rcv.expected, R.IndexOf(j.rcv, Wrap8(i)));
  }

  /** And before it. */
  lemma FirstReply(c: Config, j: Joint)
    requires Inv(c, j) && j.phase.Waiting? && j.snd.chunks != []
    ensures var k := WaitingStep(c, j, Ok(Whole(j.snd.chunks, 0)));
            AckMsg(c, k.rcv.expected) in k.up && Keeps(j.rcv, k.rcv) && 0 < k.rcv.expected && !k.phase.Waiting?
  {
    FirstArrival(c, j.snd.chunks);
    var k := WaitingStep(c, j, Ok(Whole(j.snd.chunks, 0)));
    AckReplied(c, k.rcv.expected, 0);
  }

  /** Nothing that the receiver misses is lost. */
  predicate Covered(c: Config, j: Joint)
    requires S.ChunkSizes(j.snd.chunks) && j.snd.sent <= |j.snd.chunks|
  {
    forall i :: j.rcv.expected <= i < j.snd.sent ==>
      i in j.rcv.held || DataMsg(c, j.snd.chunks, i) in j.down
  }

  // ---------- The sender

  /** Chunks a to b - 1 are on their way. */
  predicate OnTheirWay(c: Config, chunks: seq<Bytes>, down: set<Msg>, a: nat, b: nat)
    requires S.ChunkSizes(chunks) && b <= |chunks|
  {
    forall i :: a <= i < b ==> DataMsg(c, chunks, i) in down
  }

  lemma RangeSent(c: Config, chunks: seq<Bytes>, js: seq<nat>, a: nat, b: nat)
    requires S.ChunkSizes(chunks) && a <= b <= |chunks| && S.Range(a, b) <= js
    ensures OnTheirWay(c, chunks, Sent(c, chunks, js), a, b)
  {
    forall i | a <= i < b ensures DataMsg(c, chunks, i) in Sent(c, chunks, js) {
      assert js[i - a] == S.Range(a, b)[i - a];
      assert i in js;
    }
  }

  function AckArrives(c: Config, a: nat): Label
    requires c.window < 32
  {
    SenderReady(Some(Intact(AckMsg(c, a))), None, false)
  }

  lemma NewAck(s: S.Sender, capacity: nat, p: Packet, a: nat)
    requires S.ValidSender(s, capacity) && p.typ == ACK && p.window <= 31
    requires S.Accepts(s, Ok(p)) && S.IndexOf(s, p.seqnum) == a > s.ack
    ensures var step := S.PollReady(s, capacity, Some(Ok(p)), None);
            && step.outcome == S.Running && step.emitted == S.Range(s.sent, step.state.sent)
            && step.state.ack == a && step.state.chunks == s.chunks && step.state.retry == 0
            && step.state.win == p.window && step.state.dup == 0 && s.sent <= step.state.sent
  {
  }

  /** A new ACK moves last_ack there, restarts the count of timeouts, and lets the
      sender send. */
  lemma AckDelivered(c: Config, j: Joint, a: nat) returns (k: Joint)
    requires Inv(c, j) && j.fate == S.Running && j.snd.ack < a <= j.rcv.expected && AckMsg(c, a) in j.up
    ensures Enabled(c, j, AckArrives(c, a)) && k == Apply(c, j, AckArrives(c, a)) && Inv(c, k)
    ensures k.rcv == j.rcv && k.phase == j.phase && k.rest == j.rest && k.fate == S.Running
    ensures k.snd.ack == a && k.snd.chunks == j.snd.chunks && k.snd.retry == 0 && j.down <= k.down
    ensures k.snd.win == c.window && k.snd.dup == 0
    ensures j.snd.sent <= k.snd.sent && OnTheirWay(c, k.snd.chunks, k.down, j.snd.sent, k.snd.sent)
  {
    assert UpOk(c, j.rcv.expected, j.snd.sent, AckMsg(c, a));
    ReplyAccepted(c, j.snd, j.rcv.expected, AckMsg(c, a));
    AckStep(c, j, a);
    k := Apply(c, j, AckArrives(c, a));
    NewAck(j.snd, c.capacity, Reply(c, ACK, a), a);
    RangeSent(c, k.snd.chunks, S.Range(j.snd.sent, k.snd.sent), j.snd.sent, k.snd.sent);
  }

  /** An ACK of last_ack, with nothing buffered: the third one reads through a null
      pointer. */
  lemma OldAck(s: S.Sender, capacity: nat, p: Packet)
    requires S.ValidSender(s, capacity) && s.ack == |s.chunks| && s.dup < S.MAX_DUP_ACK
    requires p.typ == ACK && p.window <= 31 && p.seqnum == Wrap8(s.ack)
    ensures var step := S.PollReady(s, capacity, Some(Ok(p)), None);
            && step.emitted == [] && step.state.ack == s.ack && step.state.chunks == s.chunks
            && (if s.dup + 1 == S.MAX_DUP_ACK then step.outcome == S.NullPointer
                else step.outcome == S.Running && step.state.dup == s.dup + 1)
  {
    assert Distance(Wrap8(s.ack), Wrap8(s.ack)) == 0;
  }

  /** What an ACK does that arrives as it was sent. */
  lemma AckStep(c: Config, j: Joint, a: nat)
    requires Inv(c, j) && SenderRuns(j) && AckMsg(c, a) in j.up && SenderInTime(j.snd, AckMsg(c, a))
    ensures Enabled(c, j, AckArrives(c, a))
    ensures var k := Apply(c, j, AckArrives(c, a));
            var step := S.PollReady(j.snd, c.capacity, Some(Ok(Reply(c, ACK, a))), None);
            && Inv(c, k) && k.rcv == j.rcv && k.phase == j.phase && k.rest == j.rest
            && k.snd == step.state && k.fate == step.outcome
            && k.down == j.down + Sent(c, step.state.chunks, step.emitted)
  {
    RoundTrip(c.crc, Reply(c, ACK, a));
    StepInv(c, j, AckArrives(c, a));
  }

  lemma OldAckDelivered(c: Config, j: Joint) returns (k: Joint)
    requires Inv(c, j) && j.fate == S.Running && j.snd.ack == |j.snd.chunks| && !S.EofRead(j.snd.chunks)
    requires AckMsg(c, j.snd.ack) in j.up && j.rcv.expected == j.snd.ack
    ensures Enabled(c, j, AckArrives(c, j.snd.ack)) && k == Apply(c, j, AckArrives(c, j.snd.ack)) && Inv(c, k)
    ensures k.rcv == j.rcv && k.phase == j.phase && k.rest == j.rest && k.down == j.down
    ensures k.snd.ack == j.snd.ack && k.snd.chunks == j.snd.chunks
    ensures if j.snd.dup + 1 == S.MAX_DUP_ACK then k.fate == S.NullPointer
            else k.fate == S.Running && k.snd.dup == j.snd.dup + 1
  {
    AckStep(c, j, j.snd.ack);
    k := Apply(c, j, AckArrives(c, j.snd.ack));
    OldAck(j.snd, c.capacity, Reply(c, ACK, j.snd.ack));
  }

  /** Something can be read and sent at once. */
  predicate CanSendMore(s: S.Sender, capacity: nat) {
    S.MayRead(s, capacity) && s.sent - s.ack < s.win
  }

  /** How much read returns when it returns as much as it can. */
  function ReadLength(rest: Bytes): nat {
    if |rest| < MAX_PAYLOAD_SIZE then |rest| else MAX_PAYLOAD_SIZE
  }

  function InputArrives(rest: Bytes): Label {
    SenderReady(None, Some(ReadLength(rest)), false)
  }

  /** What there is still to read; the end of the input is one read more. */
  function Unread(j: Joint): nat {
    |j.rest| + if S.EofRead(j.snd.chunks) then 0 else 1
  }

  lemma NewInput(s: S.Sender, capacity: nat, data: Bytes)
    requires S.ValidSender(s, capacity) && s.pollInput && |data| <= MAX_PAYLOAD_SIZE
    requires s.sent == |s.chunks| && s.sent - s.ack < s.win
    ensures var step := S.PollReady(s, capacity, None, Some(data));
            && step.outcome == S.Running && step.emitted == S.Range(s.sent, s.sent + 1)
            && step.state.ack == s.ack && step.state.chunks == s.chunks + [data] && step.state.sent == s.sent + 1
            && step.state.win == s.win && step.state.retry == s.retry
  {
  }

  /** With the window used up, a chunk that is read waits in the ring. */
  lemma InputWaits(s: S.Sender, capacity: nat, data: Bytes)
    requires S.ValidSender(s, capacity) && s.pollInput && |data| <= MAX_PAYLOAD_SIZE && s.sent - s.ack >= s.win
    ensures var step := S.PollReady(s, capacity, None, Some(data));
            && step.outcome == S.Running && step.emitted == []
            && step.state.ack == s.ack && step.state.sent == s.sent && step.state.win == s.win
  {
  }

  lemma InputStep(c: Config, j: Joint)
    requires Inv(c, j) && j.fate == S.Running && CanSendMore(j.snd, c.capacity)
    ensures Enabled(c, j, InputArrives(j.rest)) && j.snd.sent == |j.snd.chunks|
    ensures var n, k := ReadLength(j.rest), Apply(c, j, InputArrives(j.rest));
            && k.fate == S.Running && k.rcv == j.rcv && k.phase == j.phase && k.rest == j.rest[n..]
            && k.snd.chunks == j.snd.chunks + [j.rest[..n]] && k.snd.ack == j.snd.ack && k.snd.retry == j.snd.retry
            && k.snd.sent == j.snd.sent + 1 && k.snd.win == j.snd.win && S.ChunkSizes(k.snd.chunks)
            && k.down == j.down + Sent(c, k.snd.chunks, S.Range(j.snd.sent, k.snd.sent))
  {
    NewInput(j.snd, c.capacity, j.rest[..ReadLength(j.rest)]);
  }

  lemma InputDelivered(c: Config, j: Joint) returns (k: Joint)
    requires Inv(c, j) && j.fate == S.Running && CanSendMore(j.snd, c.capacity)
    ensures Enabled(c, j, InputArrives(j.rest)) && k == Apply(c, j, InputArrives(j.rest)) && Inv(c, k)
    ensures k.rcv == j.rcv && k.phase == j.phase && k.fate == S.Running && Unread(k) < Unread(j)
    ensures k.snd.ack == j.snd.ack && k.snd.retry == j.snd.retry && |k.snd.chunks| == |j.snd.chunks| + 1
    ensures j.snd.sent == |j.snd.chunks| && k.snd.sent == j.snd.sent + 1 && j.down <= k.down
    ensures k.snd.win == j.snd.win && |k.rest| == |j.rest| - ReadLength(j.rest) && j.snd.chunks <= k.snd.chunks
    ensures OnTheirWay(c, k.snd.chunks, k.down, j.snd.sent, k.snd.sent)
  {
    InputStep(c, j);
    k := Apply(c, j, InputArrives(j.rest));
    StepInv(c, j, InputArrives(j.rest));
    RangeSent(c, k.snd.chunks, S.Range(j.snd.sent, k.snd.sent), j.snd.sent, k.snd.sent);
  }

  lemma TimeoutResends(c: Config, j: Joint) returns (k: Joint)
    requires Inv(c, j) && j.fate == S.Running && j.snd.ack < j.snd.sent
    requires j.snd.retry < S.MAX_RETRANSMISSION && Wrap8(j.snd.sent) != 0
    ensures Enabled(c, j, SenderTimeout) && k == Apply(c, j, SenderTimeout) && Inv(c, k)
    ensures k.rcv == j.rcv && k.phase == j.phase && k.rest == j.rest && k.fate == S.Running
    ensures k.snd == j.snd.(retry := j.snd.retry + 1, dup := 0) && j.down <= k.down
    ensures OnTheirWay(c, k.snd.chunks, k.down, k.snd.ack, k.snd.sent)
  {
    k := Apply(c, j, SenderTimeout);
    StepInv(c, j, SenderTimeout);
    RangeSent(c, k.snd.chunks, S.Range(k.snd.ack, k.snd.sent), k.snd.ack, k.snd.sent);
  }
}

/** Progress: when a transfer can still be completed. */
module Progress {
  import opened Words
  import opened Options
  import opened Network
  import opened Invariant
  import opened Safety
  import opened Delivery
  import S = SenderModel
  import R = ReceiverModel

  /** Both sides are through: the receiver's main loop has ended by itself and the
      sender reports success. */
  predicate Completed(j: Joint) {
    j.fate == S.Running && j.phase.Complete? && S.Finished(j.snd)
  }

  /** A run in which nothing else goes wrong than what is allowed leads from j to k. */
  ghost predicate Reaches(c: Config, j: Joint, k: Joint, f: Faults)
    requires ValidConfig(c)
  {
    exists labels :: Leads(c, j, labels, k) && GentleRun(labels, f)
  }

  const NO_FAULTS := Faults(false, false)
  const TIMEOUTS := Faults(true, false)
  const LOSSES := Faults(false, true)

  lemma OneStep(c: Config, j: Joint, l: Label, f: Faults)
    requires ValidConfig(c) && Enabled(c, j, l) && Gentle(l, f)
    ensures Reaches(c, j, Apply(c, j, l), f)
  {
    var k := Apply(c, j, l);
    assert [l][1..] == [];
    assert IsRun(c, k, []) && Final(c, k, []) == k;
    assert Leads(c, j, [l], k) && GentleRun([l], f);
  }

  lemma RunStarts(c: Config, j: Joint, l: Label, labels: seq<Label>, k: Joint)
    requires ValidConfig(c) && Enabled(c, j, l) && Leads(c, Apply(c, j, l), labels, k)
    ensures Leads(c, j, [l] + labels, k)
  {
    assert ([l] + labels)[1..] == labels;
  }

  lemma {:induction false} RunsJoin(c: Config, j: Joint, a: seq<Label>, k: Joint, b: seq<Label>, l: Joint)
    requires ValidConfig(c) && Leads(c, j, a, k) && Leads(c, k, b, l)
    ensures Leads(c, j, a + b, l)
    decreases |a|
  {
    if a == [] {
      assert a + b == b;
    } else {
      RunsJoin(c, Apply(c, j, a[0]), a[1..], k, b, l);
      RunStarts(c, j, a[0], a[1..] + b, l);
      assert [a[0]] + (a[1..] + b) == a + b;
    }
  }

  lemma Then(c: Config, j: Joint, k: Joint, l: Joint, f: Faults, g: Faults)
    requires ValidConfig(c) && Reaches(c, j, k, f) && Reaches(c, k, l, g)
    ensures Reaches(c, j, l, Either(f, g))
  {
    var a :| Leads(c, j, a, k) && GentleRun(a, f);
    var b :| Leads(c, k, b, l) && GentleRun(b, g);
    RunsJoin(c, j, a, k, b, l);
    GentleJoin(a, b, f, g);
  }

  lemma GentleJoin(a: seq<Label>, b: seq<Label>, f: Faults, g: Faults)
    requires GentleRun(a, f) && GentleRun(b, g)
    ensures GentleRun(a + b, Either(f, g))
  {
  }

  /** Moreover the sender knows all that was written. */
  ghost predicate Tidy(c: Config, j: Joint) {
    Inv(c, j) && Open(j) && j.snd.ack == j.rcv.expected && Covered(c, j)
  }

  /** Delivering a data packet, and the ACK it is answered by. */
  lemma DeliverAndAck(c: Config, j: Joint, i: nat) returns (k: Joint)
    requires Inv(c, j) && Open(j) && Covered(c, j)
    requires i < |j.snd.chunks| && DataMsg(c, j.snd.chunks, i) in j.down && i <= j.rcv.expected <= i + 31
    requires i == j.rcv.expected || j.snd.ack < j.rcv.expected
    ensures Reaches(c, j, k, NO_FAULTS) && Inv(c, k) && k.fate == S.Running && (k.phase.Receiving? || k.phase.Complete?)
    ensures k.snd.ack == k.rcv.expected >= j.rcv.expected && (i == j.rcv.expected ==> j.rcv.expected < k.rcv.expected)
    ensures k.snd.chunks == j.snd.chunks && k.rest == j.rest && Covered(c, k)
    ensures k.snd.win == c.window && k.snd.retry == 0
  {
    var d := Deliver(c, j, i);
    k := Acknowledge(c, d);
    Then(c, j, d, k, NO_FAULTS, NO_FAULTS);
    StillCovered(c, j, d, k, i);
  }

  lemma Deliver(c: Config, j: Joint, i: nat) returns (d: Joint)
    requires Inv(c, j) && Open(j) && i < |j.snd.chunks| && DataMsg(c, j.snd.chunks, i) in j.down
    requires i <= j.rcv.expected <= i + 31
    ensures Reaches(c, j, d, NO_FAULTS) && Inv(c, d) && d.snd == j.snd && d.fate == j.fate && d.rest == j.rest
    ensures d.down == j.down - {DataMsg(c, j.snd.chunks, i)} && AckMsg(c, d.rcv.expected) in d.up
    ensures Keeps(j.rcv, d.rcv) && (i == j.rcv.expected ==> j.rcv.expected < d.rcv.expected)
    ensures d.phase.Receiving? || d.phase.Complete?
  {
    d := DataDelivered(c, j, i);
    OneStep(c, j, DataArrives(c, j.snd.chunks, i), NO_FAULTS);
  }

  lemma Acknowledge(c: Config, d: Joint) returns (k: Joint)
    requires Inv(c, d) && d.fate == S.Running && d.snd.ack < d.rcv.expected && AckMsg(c, d.rcv.expected) in d.up
    ensures Reaches(c, d, k, NO_FAULTS) && Inv(c, k) && k.rcv == d.rcv && k.phase == d.phase && k.rest == d.rest
    ensures k.fate == S.Running && k.snd.ack == k.rcv.expected && k.snd.chunks == d.snd.chunks
    ensures k.snd.win == c.window && k.snd.retry == 0 && d.down <= k.down && d.snd.sent <= k.snd.sent
    ensures OnTheirWay(c, k.snd.chunks, k.down, d.snd.sent, k.snd.sent)
  {
    k := AckDelivered(c, d, d.rcv.expected);
    OneStep(c, d, AckArrives(c, d.rcv.expected), NO_FAULTS);
  }

  lemma StillCovered(c: Config, j: Joint, d: Joint, k: Joint, i: nat)
    requires Inv(c, j) && Inv(c, k) && Covered(c, j) && i < |j.snd.chunks| && i < d.rcv.expected
    requires d.snd == j.snd && d.down == j.down - {DataMsg(c, j.snd.chunks, i)} && Keeps(j.rcv, d.rcv)
    requires k.rcv == d.rcv && k.snd.chunks == j.snd.chunks && d.down <= k.down && j.snd.sent <= k.snd.sent
    requires OnTheirWay(c, k.snd.chunks, k.down, j.snd.sent, k.snd.sent)
    ensures Covered(c, k)
  {
    forall x | k.rcv.expected <= x < k.snd.sent
      ensures x in k.rcv.held || DataMsg(c, k.snd.chunks, x) in k.down
    {
      if x < j.snd.sent {
        assert x in j.rcv.held || DataMsg(c, j.snd.chunks, x) in j.down;
      }
    }
  }

  /** With nothing in flight, there is input to read and room for it. */
  lemma IdleCanSend(c: Config, j: Joint)
    requires Inv(c, j) && Open(j) && j.snd.ack == j.snd.sent
    ensures CanSendMore(j.snd, c.capacity)
  {
    assert j.snd.sent == |j.snd.chunks|;
    assert j.snd.chunks[..j.rcv.expected] == j.snd.chunks;
  }

  lemma CompleteFinished(c: Config, j: Joint)
    requires Inv(c, j) && j.fate == S.Running && j.phase.Complete? && j.snd.ack == j.rcv.expected
    ensures Completed(j)
  {
    var n := j.rcv.expected;
    assert j.rcv.out[n - 1] == j.snd.chunks[n - 1];
  }

  /** Round by round: the expected packet arrives, its ACK arrives, and when all was
      sent the next chunk is read. */
  lemma {:induction false} Finish(c: Config, j: Joint) returns (k: Joint)
    requires Tidy(c, j)
    ensures Reaches(c, j, k, NO_FAULTS) && Completed(k)
    decreases Unread(j) + |j.snd.chunks| - j.rcv.expected
  {
    var e, j1 := j.rcv.expected, j;
    if e == j.snd.sent {
      IdleCanSend(c, j);
      j1 := InputDelivered(c, j);
      OneStep(c, j, InputArrives(j.rest), NO_FAULTS);
    } else {
      Stay(c, j, NO_FAULTS);
    }
    var j2 := DeliverAndAck(c, j1, e);
    Then(c, j, j1, j2, NO_FAULTS, NO_FAULTS);
    if j2.phase.Complete? {
      CompleteFinished(c, j2);
      k := j2;
    } else {
      k := Finish(c, j2);
      Then(c, j, j2, k, NO_FAULTS, NO_FAULTS);
    }
  }

  lemma Stay(c: Config, j: Joint, f: Faults)
    requires ValidConfig(c)
    ensures Reaches(c, j, j, f)
  {
    assert IsRun(c, j, []) && Final(c, j, []) == j && GentleRun([], f);
  }

  /** After a go-back-n, one delivery and its ACK bring the two sides together. */
  lemma FromResent(c: Config, j: Joint) returns (k: Joint)
    requires Inv(c, j) && Open(j) && j.snd.ack < j.snd.sent
    requires OnTheirWay(c, j.snd.chunks, j.down, j.snd.ack, j.snd.sent)
    ensures Reaches(c, j, k, NO_FAULTS) && Completed(k)
  {
    var i := if j.rcv.expected < j.snd.sent then j.rcv.expected else j.snd.ack;
    var j1 := DeliverAndAck(c, j, i);
    if j1.phase.Complete? {
      CompleteFinished(c, j1);
      k := j1;
    } else {
      k := Finish(c, j1);
      Then(c, j, j1, k, NO_FAULTS, NO_FAULTS);
    }
  }

  /** A go-back-n would not run away, or there is one more packet to send first. */
  predicate Recoverable(c: Config, j: Joint) {
    Wrap8(j.snd.sent) != 0 || CanSendMore(j.snd, c.capacity)
  }

  lemma NextNumber(n: nat)
    requires Wrap8(n) == 0
    ensures Wrap8(n + 1) != 0
  {
    Wrap8Sum(n, 1);
  }

  lemma IdleIsTidy(c: Config, j: Joint)
    requires Inv(c, j) && Open(j) && j.snd.ack == j.snd.sent
    ensures Tidy(c, j)
  {
  }

  lemma SendOneMore(c: Config, j: Joint) returns (k: Joint)
    requires Inv(c, j) && Open(j) && j.snd.retry < S.MAX_RETRANSMISSION
    requires Wrap8(j.snd.sent) == 0 && CanSendMore(j.snd, c.capacity)
    ensures Reaches(c, j, k, TIMEOUTS) && Completed(k)
  {
    NextNumber(j.snd.sent);
    var i := InputDelivered(c, j);
    OneStep(c, j, InputArrives(j.rest), NO_FAULTS);
    k := ResendAndFinish(c, i);
    Then(c, j, i, k, NO_FAULTS, TIMEOUTS);
  }

  lemma Recover(c: Config, j: Joint) returns (k: Joint)
    requires Inv(c, j) && Open(j) && j.snd.retry < S.MAX_RETRANSMISSION && Recoverable(c, j)
    ensures Reaches(c, j, k, TIMEOUTS) && Completed(k)
  {
    if j.snd.ack == j.snd.sent {
      IdleIsTidy(c, j);
      k := Finish(c, j);
      Stay(c, k, TIMEOUTS);
      Then(c, j, k, k, NO_FAULTS, TIMEOUTS);
    } else if Wrap8(j.snd.sent) != 0 {
      k := ResendAndFinish(c, j);
    } else {
      k := SendOneMore(c, j);
    }
  }

  lemma ResendAndFinish(c: Config, j: Joint) returns (k: Joint)
    requires Inv(c, j) && Open(j) && j.snd.ack < j.snd.sent
    requires j.snd.retry < S.MAX_RETRANSMISSION && Wrap8(j.snd.sent) != 0
    ensures Reaches(c, j, k, TIMEOUTS) && Completed(k)
  {
    var j1 := TimeoutResends(c, j);
    OneStep(c, j, SenderTimeout, TIMEOUTS);
    k := FromResent(c, j1);
    Then(c, j, j1, k, TIMEOUTS, NO_FAULTS);
  }

  // ---------- The other direction

  /** The sender has come to an end without success, or it can do nothing but time out
      into a go-back-n that runs away. */
  predicate Doomed(c: Config, j: Joint) {
    && !S.Finished(j.snd)
    && (j.fate != S.Running
        || (j.down == {} && j.up == {} && j.snd.ack < j.snd.sent && !Recoverable(c, j)))
  }

  lemma DoomedStep(c: Config, j: Joint, l: Label)
    requires Inv(c, j) && Enabled(c, j, l) && Doomed(c, j)
    ensures Doomed(c, Apply(c, j, l))
  {
    match l
    case SenderReady(d, n, keep) => DoomedReady(c, j, d, n, keep);
    case SenderTimeout => DoomedTimeout(c, j);
    case ReceiverReady(d, keep) => DoomedReceiver(c, j, d, keep);
    case ReceiverIdle =>
    case Truncation(_) =>
    case Loss(_) =>
  }

  /** Nothing arrives, and what is read is not sent. */
  lemma DoomedReady(c: Config, j: Joint, d: Option<Datagram>, n: Option<nat>, keep: bool)
    requires Inv(c, j) && Enabled(c, j, SenderReady(d, n, keep)) && Doomed(c, j)
    ensures Doomed(c, SenderStep(c, j, d, n, keep))
  {
    InputWaits(j.snd, c.capacity, j.rest[..n.value]);
  }

  /** The go-back-n runs away, or the sender gives up. */
  lemma DoomedTimeout(c: Config, j: Joint)
    requires Inv(c, j) && Enabled(c, j, SenderTimeout) && Doomed(c, j)
    ensures Doomed(c, TimeoutStep(c, j))
  {
  }

  /** A receiver alone does not change the sender. */
  lemma DoomedReceiver(c: Config, j: Joint, d: Datagram, keep: bool)
    requires Inv(c, j) && Enabled(c, j, ReceiverReady(d, keep)) && Doomed(c, j)
    ensures Doomed(c, ReceiverStep(c, j, d, keep))
  {
  }

  lemma {:induction false} DoomedRun(c: Config, j: Joint, labels: seq<Label>)
    requires Inv(c, j) && IsRun(c, j, labels) && Doomed(c, j)
    ensures !Completed(Final(c, j, labels))
    decreases |labels|
  {
    if labels != [] {
      StepInv(c, j, labels[0]);
      DoomedStep(c, j, labels[0]);
      DoomedRun(c, Apply(c, j, labels[0]), labels[1..]);
    }
  }

  ghost predicate CanComplete(c: Config, j: Joint)
    requires ValidConfig(c)
  {
    exists labels :: IsRun(c, j, labels) && Completed(Final(c, j, labels))
  }

  /** It can be completed with every datagram arriving as it was sent and at most once,
      none lost, and nothing worse than timeouts. */
  ghost predicate CompletesGently(c: Config, j: Joint)
    requires ValidConfig(c)
  {
    exists k :: Reaches(c, j, k, TIMEOUTS) && Completed(k)
  }

  lemma GentlyIsEnough(c: Config, j: Joint)
    requires ValidConfig(c) && CompletesGently(c, j)
    ensures CanComplete(c, j)
  {
    var k :| Reaches(c, j, k, TIMEOUTS) && Completed(k);
    var labels :| IsRun(c, j, labels) && GentleRun(labels, TIMEOUTS) && Final(c, j, labels) == k;
    assert IsRun(c, j, labels) && Completed(Final(c, j, labels));
  }

  lemma CannotComplete(c: Config, j: Joint)
    requires Inv(c, j) && Doomed(c, j)
    ensures !CanComplete(c, j)
  {
    forall labels | IsRun(c, j, labels) ensures !Completed(Final(c, j, labels)) {
      DoomedRun(c, j, labels);
    }
  }

  /** The state after some of what is under way was lost. */
  function Without(j: Joint, gone: set<Msg>): Joint {
    j.(down := j.down - gone, up := j.up - gone)
  }

  lemma WithoutInv(c: Config, j: Joint, gone: set<Msg>)
    requires Inv(c, j)
    ensures Inv(c, Without(j, gone))
  {
    StepInv(c, j, Loss(gone));
  }

  /** Whatever is lost, a recoverable transfer completes gently. */
  lemma RecoversFromLoss(c: Config, j: Joint, gone: set<Msg>)
    requires Inv(c, j) && Open(j) && j.snd.retry < S.MAX_RETRANSMISSION && Recoverable(c, j)
    ensures CompletesGently(c, Without(j, gone))
  {
    WithoutInv(c, j, gone);
    var k := Recover(c, Without(j, gone));
  }

  /** Another one is over once all that is under way is lost. */
  lemma LostWithAll(c: Config, j: Joint)
    requires Inv(c, j) && Open(j) && !Recoverable(c, j)
    ensures !CanComplete(c, Without(j, j.down + j.up))
  {
    var k := Without(j, j.down + j.up);
    WithoutInv(c, j, j.down + j.up);
    NotFinished(c, k);
    CannotComplete(c, k);
  }

  /** Take any reachable state in which the sender runs, the receiver has not ended, and
      a timeout is left. The transfer can be completed whatever is lost of the datagrams
      under way, if and only if a go-back-n would not run away or one more packet can be
      sent first; and then it can be completed gently. */
  lemma Progress(c: Config, labels: seq<Label>)
    requires ValidConfig(c) && IsRun(c, Start(c), labels)
    requires var j := Final(c, Start(c), labels); Open(j) && j.snd.retry < S.MAX_RETRANSMISSION
    ensures var j := Final(c, Start(c), labels);
            && ((forall gone: set<Msg> :: CanComplete(c, Without(j, gone))) <==> Recoverable(c, j))
            && (Recoverable(c, j) ==> forall gone: set<Msg> :: CompletesGently(c, Without(j, gone)))
  {
    StartInv(c);
    RunInv(c, Start(c), labels);
    var j := Final(c, Start(c), labels);
    if Recoverable(c, j) {
      forall gone: set<Msg> ensures CompletesGently(c, Without(j, gone)) && CanComplete(c, Without(j, gone)) {
        RecoversFromLoss(c, j, gone);
        GentlyIsEnough(c, Without(j, gone));
      }
    } else {
      LostWithAll(c, j);
    }
  }

  /** With nothing under way, it can be completed if and only if it is recoverable. */
  lemma ProgressWhenQuiet(c: Config, labels: seq<Label>)
    requires ValidConfig(c) && IsRun(c, Start(c), labels)
    requires var j := Final(c, Start(c), labels);
             Open(j) && j.snd.retry < S.MAX_RETRANSMISSION && j.down == {} && j.up == {}
    ensures var j := Final(c, Start(c), labels); CanComplete(c, j) <==> Recoverable(c, j)
  {
    Progress(c, labels);
    var j := Final(c, Start(c), labels);
    assert forall gone: set<Msg> :: Without(j, gone) == j;
    assert Without(j, {}) == j;
  }

  // ---------- Datagrams under way

  /** An ACK of what last_ack does not know yet is under way. */
  predicate AckUnderWay(c: Config, j: Joint)
    requires c.window < 32
  {
    exists a: nat :: j.snd.ack < a <= j.rcv.expected && AckMsg(c, a) in j.up
  }

  /** So is a packet that will be answered by one: that of the expected chunk, or an older one
      if the sender lags behind. */
  predicate DataUnderWay(c: Config, j: Joint)
    requires S.ChunkSizes(j.snd.chunks)
  {
    exists i: nat ::
      && i < |j.snd.chunks| && DataMsg(c, j.snd.chunks, i) in j.down && i <= j.rcv.expected <= i + 31
      && (i == j.rcv.expected || j.snd.ack < j.rcv.expected)
  }

  /** There is something left to send for the first time. */
  predicate MoreToCome(j: Joint) {
    j.snd.sent < |j.snd.chunks| || !S.EofRead(j.snd.chunks)
  }

  lemma RecoverableOnceAcked(c: Config, j: Joint, k: Joint)
    requires Inv(c, j) && Inv(c, k) && MoreToCome(j) && Wrap8(j.snd.sent) == 0
    requires j.fate == k.fate == S.Running && k.snd.chunks == j.snd.chunks && k.snd.win == c.window
    requires j.snd.ack < k.snd.ack <= j.snd.sent <= k.snd.sent
    ensures Recoverable(c, k)
  {
    if j.snd.sent < k.snd.sent {
      if Wrap8(k.snd.sent) == 0 { SameByte(j.snd.sent, k.snd.sent); }
    }
  }

  lemma AckRecovers(c: Config, j: Joint) returns (k: Joint)
    requires Inv(c, j) && Open(j) && MoreToCome(j) && Wrap8(j.snd.sent) == 0 && AckUnderWay(c, j)
    ensures Reaches(c, j, k, TIMEOUTS) && Completed(k)
  {
    var a: nat :| j.snd.ack < a <= j.rcv.expected && AckMsg(c, a) in j.up;
    var d := AckDelivered(c, j, a);
    OneStep(c, j, AckArrives(c, a), NO_FAULTS);
    RecoverableOnceAcked(c, j, d);
    k := Recover(c, d);
    Then(c, j, d, k, NO_FAULTS, TIMEOUTS);
  }

  lemma DataRecovers(c: Config, j: Joint) returns (k: Joint)
    requires Inv(c, j) && Open(j) && MoreToCome(j) && Wrap8(j.snd.sent) == 0 && DataUnderWay(c, j)
    ensures Reaches(c, j, k, TIMEOUTS) && Completed(k)
  {
    var i: nat :| i < |j.snd.chunks| && DataMsg(c, j.snd.chunks, i) in j.down && i <= j.rcv.expected <= i + 31
                  && (i == j.rcv.expected || j.snd.ack < j.rcv.expected);
    var d := Deliver(c, j, i);
    if d.phase.Complete? { CompleteMeansAll(c, d); }
    assert AckMsg(c, d.rcv.expected) in d.up;
    k := AckRecovers(c, d);
    Then(c, j, d, k, NO_FAULTS, TIMEOUTS);
  }

  lemma CompleteMeansAll(c: Config, j: Joint)
    requires Inv(c, j) && j.fate == S.Running && j.phase.Complete?
    ensures !MoreToCome(j)
  {
    var n := j.rcv.expected;
    assert j.rcv.out[n - 1] == j.snd.chunks[n - 1];
  }

  /** Even where a loss of everything under way would be the end, the transfer can be completed
      as long as there is more to send and an ACK under way that moves last_ack, or a packet
      that will be answered by one. */
  lemma ProgressUnderWay(c: Config, labels: seq<Label>)
    requires ValidConfig(c) && IsRun(c, Start(c), labels)
    requires var j := Final(c, Start(c), labels);
             Open(j) && j.snd.retry < S.MAX_RETRANSMISSION && MoreToCome(j)
    ensures var j := Final(c, Start(c), labels);
            S.ChunkSizes(j.snd.chunks) && (AckUnderWay(c, j) || DataUnderWay(c, j) ==> CompletesGently(c, j))
  {
    StartInv(c);
    RunInv(c, Start(c), labels);
    var j := Final(c, Start(c), labels);
    if Recoverable(c, j) {
      var k := Recover(c, j);
    } else if AckUnderWay(c, j) {
      var k := AckRecovers(c, j);
    } else if DataUnderWay(c, j) {
      var k := DataRecovers(c, j);
    }
  }

  lemma NotFinished(c: Config, j: Joint)
    requires Inv(c, j) && Open(j)
    ensures !S.Finished(j.snd)
    ensures !Recoverable(c, j) ==> j.snd.ack < j.snd.sent
  {
    if j.snd.ack == j.snd.sent { IdleCanSend(c, j); }
    assert j.snd.ack == |j.snd.chunks| ==> j.snd.chunks[..j.rcv.expected] == j.snd.chunks;
  }

  // ---------- A transfer that is lost

  /** Sender and receiver agree on n chunks, and there is enough left to read. */
  ghost predicate Agreed(c: Config, j: Joint, n: nat) {
    && Tidy(c, j) && j.snd.ack == j.snd.sent == n && |j.rest| + 512 * n >= |c.input|
    && j.snd.retry == 0 && (n > 0 ==> j.snd.win == c.window)
  }

  /** A run in which every datagram arrives once and in order. */
  lemma {:induction false} Agree(c: Config, n: nat) returns (j: Joint)
    requires ValidConfig(c) && |c.input| > 512 * n
    ensures Reaches(c, Start(c), j, NO_FAULTS) && Agreed(c, j, n)
  {
    if n == 0 {
      j := Start(c);
      StartInv(c);
      Stay(c, j, NO_FAULTS);
    } else {
      var i := Agree(c, n - 1);
      IdleCanSend(c, i);
      var i1 := InputDelivered(c, i);
      OneStep(c, i, InputArrives(i.rest), NO_FAULTS);
      j := DeliverAndAck(c, i1, n - 1);
      NotAtEnd(c, j);
      Then(c, i, i1, j, NO_FAULTS, NO_FAULTS);
      Then(c, Start(c), i, j, NO_FAULTS, NO_FAULTS);
    }
  }

  lemma NotAtEnd(c: Config, j: Joint)
    requires Inv(c, j)
    ensures S.EofRead(j.snd.chunks) || j.phase.Complete? ==> j.rest == []
  {
    if j.phase.Complete? {
      var n := j.rcv.expected;
      assert j.rcv.out[n - 1] == j.snd.chunks[n - 1];
    }
  }

  lemma FillOne(c: Config, j: Joint) returns (k: Joint)
    requires Inv(c, j) && Open(j) && |j.rest| > 512
    requires j.snd.sent - j.snd.ack < j.snd.win && |j.snd.chunks| < j.snd.ack + c.capacity
    ensures Reaches(c, j, k, NO_FAULTS) && Inv(c, k) && Open(k) && |k.rest| == |j.rest| - 512
    ensures k.snd.ack == j.snd.ack && k.snd.win == j.snd.win && k.snd.retry == j.snd.retry
    ensures |k.snd.chunks| == |j.snd.chunks| + 1 == k.snd.sent == j.snd.sent + 1 && k.rcv == j.rcv
  {
    NotAtEnd(c, j);
    k := InputDelivered(c, j);
    OneStep(c, j, InputArrives(j.rest), NO_FAULTS);
  }

  /** Reading and sending m more chunks, with nothing delivered. */
  lemma {:induction false} Fill(c: Config, j: Joint, m: nat) returns (k: Joint)
    requires Inv(c, j) && Open(j) && |j.rest| > 512 * m
    requires j.snd.sent + m - j.snd.ack <= j.snd.win && |j.snd.chunks| + m <= j.snd.ack + c.capacity
    ensures Reaches(c, j, k, NO_FAULTS) && Inv(c, k) && Open(k)
    ensures k.snd.ack == j.snd.ack && k.snd.sent == j.snd.sent + m
    ensures k.snd.win == j.snd.win && k.snd.retry == j.snd.retry && k.rcv == j.rcv
    ensures |k.snd.chunks| == |j.snd.chunks| + m && |k.rest| == |j.rest| - 512 * m
    decreases m
  {
    if m == 0 {
      k := j;
      Stay(c, j, NO_FAULTS);
    } else {
      var i := FillOne(c, j);
      k := Fill(c, i, m - 1);
      Then(c, j, i, k, NO_FAULTS, NO_FAULTS);
    }
  }

  /** For every configuration and every input long enough, there is a run that only
      loses datagrams: every one that arrives does so once and as it was sent, and no
      timeout has occurred. From there nothing leads to the end of the transfer: the
      window that ends with sequence number 255 is lost. */
  lemma LostTransfer(c: Config) returns (j: Joint)
    requires ValidConfig(c) && |c.input| > 512 * 256
    ensures Reaches(c, Start(c), j, LOSSES) && Open(j) && j.snd.retry == 0
    ensures !CanComplete(c, j)
  {
    var flight := if c.window <= c.capacity then c.window as nat else c.capacity;
    var a := Agree(c, 256 - flight);
    var b := Fill(c, a, flight);
    Then(c, Start(c), a, b, NO_FAULTS, NO_FAULTS);
    var l := Loss(b.down + b.up);
    j := Apply(c, b, l);
    StepInv(c, b, l);
    OneStep(c, b, l, LOSSES);
    Then(c, Start(c), b, j, NO_FAULTS, LOSSES);
    NotFinished(c, j);
    assert Wrap8(256) == 0;
    CannotComplete(c, j);
  }
}

/** The null pointer of process_dup_ack, read with this receiver on the other side. */
module NullRead {
  import opened Words
  import opened Network
  import opened Invariant
  import opened Delivery
  import opened Progress
  import S = SenderModel

  /** Copies of the first n chunks are under way. */
  predicate Copies(c: Config, j: Joint, n: nat)
    requires S.ChunkSizes(j.snd.chunks) && n <= |j.snd.chunks|
  {
    OnTheirWay(c, j.snd.chunks, j.down, 0, n)
  }

  /** n chunks are acknowledged, `written` are written, and everything that was read is sent. */
  ghost predicate Stage(c: Config, j: Joint, n: nat, written: nat, read: nat) {
    && Inv(c, j) && Open(j) && |j.rest| + 512 * read >= |c.input|
    && j.snd.ack == n && j.rcv.expected == written && j.snd.sent == |j.snd.chunks| == read
  }

  /** A copy of each of the n chunks is left under way. */
  ghost predicate CopiesLeft(c: Config, j: Joint, n: nat) {
    Stage(c, j, n, n, n) && Copies(c, j, n) && j.snd.retry == 0 && j.snd.dup == 0
  }

  /** One chunk more is read and sent. */
  lemma ReadOne(c: Config, j: Joint, n: nat) returns (k: Joint)
    requires CopiesLeft(c, j, n) && n < 3 && |c.input| > 512 * 3
    ensures Reaches(c, j, k, NO_FAULTS) && Stage(c, k, n, n, n + 1) && Copies(c, k, n + 1) && k.snd.retry == 0
  {
    IdleCanSend(c, j);
    k := InputDelivered(c, j);
    OneStep(c, j, InputArrives(j.rest), NO_FAULTS);
    forall i | 0 <= i < n + 1 ensures DataMsg(c, k.snd.chunks, i) in k.down {
      if i < n { assert DataMsg(c, j.snd.chunks, i) in j.down; }
    }
  }

  /** It is written. */
  lemma WriteOne(c: Config, j: Joint, n: nat) returns (k: Joint)
    requires Stage(c, j, n, n, n + 1) && Copies(c, j, n + 1) && n < 3 && |c.input| > 512 * 3 && j.snd.retry == 0
    ensures Reaches(c, j, k, NO_FAULTS) && Stage(c, k, n, n + 1, n + 1) && Copies(c, k, n) && k.snd.retry == 0
    ensures AckMsg(c, n + 1) in k.up
  {
    assert DataMsg(c, j.snd.chunks, n) in j.down;
    k := Deliver(c, j, n);
    NotAtEnd(c, k);
    OthersStay(c, j.snd.chunks, j.down, n);
  }

  lemma OthersStay(c: Config, chunks: seq<Bytes>, down: set<Msg>, n: nat)
    requires S.ChunkSizes(chunks) && n < |chunks| && OnTheirWay(c, chunks, down, 0, n + 1)
    ensures OnTheirWay(c, chunks, down - {DataMsg(c, chunks, n)}, 0, n)
  {
    forall i | 0 <= i < n ensures DataMsg(c, chunks, i) in down - {DataMsg(c, chunks, n)} {
      assert DataMsg(c, chunks, i) in down && DataMsg(c, chunks, i).index == i;
    }
  }

  /** A timeout that comes before its ACK puts a copy of it back on the network. */
  lemma TimedOut(c: Config, j: Joint, n: nat) returns (k: Joint)
    requires Stage(c, j, n, n + 1, n + 1) && Copies(c, j, n) && n < 3 && j.snd.retry == 0
    ensures Reaches(c, j, k, TIMEOUTS) && Stage(c, k, n, n + 1, n + 1) && Copies(c, k, n + 1) && k.up == j.up
  {
    assert Wrap8(n + 1) == n + 1;
    k := TimeoutResends(c, j);
    OneStep(c, j, SenderTimeout, TIMEOUTS);
    forall i | 0 <= i < n + 1 ensures DataMsg(c, k.snd.chunks, i) in k.down {
      if i < n { assert DataMsg(c, j.snd.chunks, i) in j.down; }
    }
  }

  lemma Acknowledged(c: Config, j: Joint, n: nat) returns (k: Joint)
    requires Stage(c, j, n, n + 1, n + 1) && Copies(c, j, n + 1) && AckMsg(c, n + 1) in j.up
    ensures Reaches(c, j, k, NO_FAULTS) && CopiesLeft(c, k, n + 1)
  {
    k := AckDelivered(c, j, n + 1);
    OneStep(c, j, AckArrives(c, n + 1), NO_FAULTS);
    forall i | 0 <= i < n + 1 ensures DataMsg(c, k.snd.chunks, i) in k.down {
      assert DataMsg(c, j.snd.chunks, i) in j.down;
    }
  }

  lemma OneMore(c: Config, j: Joint, n: nat) returns (k: Joint)
    requires CopiesLeft(c, j, n) && n < 3 && |c.input| > 512 * 3
    ensures Reaches(c, j, k, TIMEOUTS) && CopiesLeft(c, k, n + 1)
  {
    var a := ReadOne(c, j, n);
    var b := WriteOne(c, a, n);
    var d := TimedOut(c, b, n);
    k := Acknowledged(c, d, n);
    Then(c, j, a, b, NO_FAULTS, NO_FAULTS);
    Then(c, j, b, d, NO_FAULTS, TIMEOUTS);
    Then(c, j, d, k, TIMEOUTS, NO_FAULTS);
  }

  lemma ThreeLeft(c: Config) returns (j: Joint)
    requires ValidConfig(c) && |c.input| > 512 * 3
    ensures Reaches(c, Start(c), j, TIMEOUTS) && CopiesLeft(c, j, 3)
  {
    StartInv(c);
    var j1 := OneMore(c, Start(c), 0);
    var j2 := OneMore(c, j1, 1);
    j := OneMore(c, j2, 2);
    Then(c, Start(c), j1, j2, TIMEOUTS, TIMEOUTS);
    Then(c, Start(c), j2, j, TIMEOUTS, TIMEOUTS);
  }

  /** All three chunks are written and acknowledged. */
  ghost predicate ThreeWritten(c: Config, j: Joint) {
    Stage(c, j, 3, 3, 3) && j.rest != []
  }

  /** A copy of an old packet arrives, and the ACK it is answered by. */
  lemma OldPacket(c: Config, j: Joint, i: nat) returns (k: Joint)
    requires ThreeWritten(c, j) && i < 3 && DataMsg(c, j.snd.chunks, i) in j.down
    ensures Reaches(c, j, k, NO_FAULTS) && k.down == j.down - {DataMsg(c, j.snd.chunks, i)}
    ensures if j.snd.dup + 1 == S.MAX_DUP_ACK then k.fate == S.NullPointer
            else ThreeWritten(c, k) && k.snd.chunks == j.snd.chunks && k.snd.dup == j.snd.dup + 1
  {
    NotAtEnd(c, j);
    var d := Deliver(c, j, i);
    NotAtEnd(c, d);
    k := OldAckDelivered(c, d);
    OneStep(c, d, AckArrives(c, 3), NO_FAULTS);
    Then(c, j, d, k, NO_FAULTS, NO_FAULTS);
  }

  lemma ThreeOldPackets(c: Config, j: Joint) returns (k: Joint)
    requires CopiesLeft(c, j, 3) && |c.input| > 512 * 3
    ensures Reaches(c, j, k, NO_FAULTS) && k.fate == S.NullPointer
  {
    var k0 := OldPacket(c, j, 0);
    assert DataMsg(c, k0.snd.chunks, 1) in k0.down && DataMsg(c, k0.snd.chunks, 2) in k0.down;
    var k1 := OldPacket(c, k0, 1);
    k := OldPacket(c, k1, 2);
    Then(c, j, k0, k1, NO_FAULTS, NO_FAULTS);
    Then(c, j, k1, k, NO_FAULTS, NO_FAULTS);
  }

  /** For every configuration and every input of more than three chunks, there is a run in
      which nothing is lost, truncated, corrupted or duplicated, three timeouts come too early,
      and which ends with the sender reading through the null pointer. */
  lemma NullPointerRun(c: Config) returns (j: Joint)
    requires ValidConfig(c) && |c.input| > 512 * 3
    ensures Reaches(c, Start(c), j, TIMEOUTS) && j.fate == S.NullPointer
  {
    var a := ThreeLeft(c);
    j := ThreeOldPackets(c, a);
    Then(c, Start(c), a, j, TIMEOUTS, NO_FAULTS);
  }
}
