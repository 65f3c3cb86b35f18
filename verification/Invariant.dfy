/** What holds of the two endpoints and of every datagram under way, in every
    reachable state. */
module Invariant {
  import opened Words
  import opened Codec
  import opened Network
  import S = SenderModel
  import R = ReceiverModel

  // ---------- The sender

  /** Between two iterations the sender has sent all it may, and polls the input
      whenever it may read it. */
  predicate Settled(s: S.Sender, capacity: nat, window: nat) {
    && 1 <= s.win <= window
    && s.ack <= s.sent <= s.ack + window
    && (s.sent == |s.chunks| || s.sent - s.ack >= s.win)
    && (s.pollInput <==> S.MayRead(s, capacity))
  }

  /** The chunks are the input read so far, cut at the reads; only the read at the
      end of the input is empty. */
  predicate Cut(chunks: seq<Bytes>, rest: Bytes, input: Bytes) {
    && R.Concat(chunks) + rest == input
    && (forall i :: 0 <= i < |chunks| - 1 ==> chunks[i] != [])
    && (S.EofRead(chunks) ==> rest == [])
  }

  predicate SenderInv(c: Config, s: S.Sender, fate: S.Outcome, rest: Bytes) {
    && S.ValidSender(s.(retry := 0), c.capacity) && (fate != S.GaveUp ==> s.retry <= S.MAX_RETRANSMISSION)
    && Settled(s, c.capacity, c.window) && Cut(s.chunks, rest, c.input)
  }

  // ---------- The receiver

  /** It has written the first chunks, and holds others, all below `sent`. */
  predicate Holds(r: R.Receiver, chunks: seq<Bytes>, sent: nat) {
    && r.expected <= sent <= |chunks| && r.out == chunks[..r.expected]
    && (forall k :: k in r.held ==> k < sent && r.held[k] == chunks[k])
    && (r.used <= 1 || r.expected + r.used <= sent)
  }

  predicate LastWrittenEmpty(r: R.Receiver) {
    r.out != [] && r.out[|r.out| - 1] == []
  }

  predicate PhaseInv(r: R.Receiver, phase: Phase) {
    match phase
    case Waiting(_) => r == R.Receiver(0, map[], 0, [], [0, 0, 0, 0])
    case Receiving => r.ts == S.PKT_TIMESTAMP && !LastWrittenEmpty(r)
    case Complete => LastWrittenEmpty(r)
    case Aborted => true
  }

  // ---------- The network

  /** The packet that carries chunk i, and what is left of it when it is truncated. */
  function Whole(chunks: seq<Bytes>, i: nat): Packet
    requires S.ChunkSizes(chunks) && i < |chunks|
  {
    S.DataPacket(i, chunks[i])
  }

  function Cropped(chunks: seq<Bytes>, i: nat): Packet
    requires S.ChunkSizes(chunks) && i < |chunks|
  {
    Whole(chunks, i).(tr := true, payload := [])
  }

  predicate DownOk(c: Config, chunks: seq<Bytes>, sent: nat, m: Msg)
    requires S.ChunkSizes(chunks)
  {
    && m.index < sent <= |chunks|
    && (m.bytes == Wire(c.crc, Whole(chunks, m.index)) || m.bytes == Wire(c.crc, Cropped(chunks, m.index)))
  }

  function Reply(c: Config, typ: uint8, index: nat): Packet {
    R.Control(typ, Wrap8(index), c.window, S.PKT_TIMESTAMP)
  }

  /** An ACK names no chunk that was not written before, a NACK none that was not sent. */
  predicate UpOk(c: Config, expected: nat, sent: nat, m: Msg)
    requires c.window < 32
  {
    || (m.index <= expected && m.bytes == Wire(c.crc, Reply(c, ACK, m.index)))
    || (m.index < sent && m.bytes == Wire(c.crc, Reply(c, NACK, m.index)))
  }

  // ---------- Together

  /** All indices below were sent: a go-back-n that runs away sends the whole ring. */
  function SentSoFar(j: Joint): nat {
    if j.fate == S.Overrun then |j.snd.chunks| else j.snd.sent
  }

  ghost predicate Inv(c: Config, j: Joint) {
    && ValidConfig(c)
    && SenderInv(c, j.snd, j.fate, j.rest)
    && j.snd.ack <= j.rcv.expected
    && R.ValidReceiver(j.rcv, c.window) && Holds(j.rcv, j.snd.chunks, SentSoFar(j)) && PhaseInv(j.rcv, j.phase)
    && (forall m :: m in j.down ==> DownOk(c, j.snd.chunks, SentSoFar(j), m))
    && (forall m :: m in j.up ==> UpOk(c, j.rcv.expected, SentSoFar(j), m))
  }

  lemma StartInv(c: Config)
    requires ValidConfig(c)
    ensures Inv(c, Start(c))
  {
    assert R.Concat([]) + c.input == c.input;
  }
}

/** Steps of the sender keep the invariant. */
module SenderSteps {
  import opened Words
  import opened Options
  import opened Seqnum
  import opened Codec
  import opened Network
  import opened Invariant
  import S = SenderModel
  import R = ReceiverModel

  /** What an accepted reply can say. */
  predicate Sound(s: S.Sender, window: nat, r: Option<Result<Packet>>)
    requires s.ack <= s.sent <= s.ack + 31
  {
    r.Some? && S.Accepts(s, r.value) ==>
      && r.value.value.window == window
      && (r.value.value.typ == NACK ==> S.IndexOf(s, r.value.value.seqnum) < s.sent)
  }

  /** Reading the socket leaves what is in flight sent, and sends nothing that was
      not sent before. */
  lemma SocketPartFacts(s: S.Sender, capacity: nat, window: nat, r: Option<Result<Packet>>)
    requires S.ValidSender(s, capacity) && Settled(s, capacity, window) && window <= 31
    requires Sound(s, window, r)
    ensures var a := S.SocketPart(s, capacity, r);
            && S.Bounded(a.state, capacity) && a.outcome in {S.Running, S.NullPointer}
            && a.state.chunks == s.chunks && a.state.sent == s.sent && a.state.pollInput == s.pollInput
            && s.ack <= a.state.ack && 1 <= a.state.win <= window
            && (a.outcome == S.NullPointer ==> a.state.ack == |s.chunks|)
            && (forall i :: 0 <= i < |a.emitted| ==> a.emitted[i] < s.sent)
  {
  }

  /** Sending settles the sender. */
  lemma SendPartFacts(b: S.Sender, capacity: nat, window: nat)
    requires S.Bounded(b, capacity) && window <= 31 && 1 <= b.win <= window && b.sent <= b.ack + window
    ensures var step := S.SendPart(b, capacity);
            && S.ValidSender(step.state, capacity) && Settled(step.state, capacity, window)
            && b.sent <= step.state.sent && step.state.ack == b.ack && step.state.chunks == b.chunks
            && (forall i :: 0 <= i < |step.emitted| ==> step.emitted[i] < step.state.sent)
  {
  }

  /** An iteration leaves the sender settled, with no more than the window in flight,
      and sends nothing beyond what it has then sent in order. */
  lemma PollReadyFacts(s: S.Sender, capacity: nat, window: nat, r: Option<Result<Packet>>, data: Option<Bytes>)
    requires S.ValidSender(s, capacity) && Settled(s, capacity, window) && window <= 31
    requires Sound(s, window, r) && (data.Some? ==> s.pollInput && |data.value| <= MAX_PAYLOAD_SIZE)
    ensures var step := S.PollReady(s, capacity, r, data);
            && S.ValidSender(step.state, capacity) && Settled(step.state, capacity, window)
            && step.outcome in {S.Running, S.NullPointer}
            && s.sent <= step.state.sent
            && step.state.ack == S.SocketPart(s, capacity, r).state.ack
            && (forall i :: 0 <= i < |step.emitted| ==> step.emitted[i] < step.state.sent)
            && step.state.chunks
               == if data.Some? && step.outcome == S.Running then s.chunks + [data.value] else s.chunks
  {
    SocketPartFacts(s, capacity, window, r);
    SendPartFacts(S.InputPart(S.SocketPart(s, capacity, r).state, data), capacity, window);
  }

  /** The test of the sender, on a reply in time. */
  lemma ReplyAccepted(c: Config, s: S.Sender, expected: nat, m: Msg)
    requires S.ValidSender(s, c.capacity) && ValidConfig(c) && s.ack <= expected <= s.sent
    requires SenderInTime(s, m) && UpOk(c, expected, s.sent, m)
    ensures S.Accepts(s, Decode(c.crc, m.bytes)) <==> s.ack <= m.index <= s.sent
    ensures s.ack <= m.index ==> s.ack + Seqnum.Distance(Wrap8(m.index), Wrap8(s.ack)) == m.index
    ensures || (Decode(c.crc, m.bytes) == Ok(Reply(c, ACK, m.index)) && m.index <= expected)
            || (Decode(c.crc, m.bytes) == Ok(Reply(c, NACK, m.index)) && m.index < s.sent)
  {
    WindowTestExact(m.index, s.ack, s.sent - s.ack);
    RoundTrip(c.crc, Reply(c, ACK, m.index));
    RoundTrip(c.crc, Reply(c, NACK, m.index));
  }

  /** A reply that was decoded and comes in time is taken for what it is: an ACK
      accepted moves last_ack to its own index, which is written. */
  lemma ReplyTaken(c: Config, s: S.Sender, expected: nat, d: Datagram, up: set<Msg>)
    requires S.ValidSender(s, c.capacity) && ValidConfig(c) && s.ack <= expected <= s.sent <= s.ack + c.window
    requires Arrives(c, up, d) && (d.Intact? ==> SenderInTime(s, d.msg) && UpOk(c, expected, s.sent, d.msg))
    ensures Sound(s, c.window, Some(Decoded(c, d)))
    ensures S.Accepts(s, Decoded(c, d)) ==>
              S.IndexOf(s, Decoded(c, d).value.seqnum) == d.msg.index
              && (Decoded(c, d).value.typ == ACK ==> d.msg.index <= expected)
  {
    if d.Intact? { ReplyAccepted(c, s, expected, d.msg); }
  }

  /** Where last_ack is after the socket was read. */
  lemma AckAfter(c: Config, j: Joint, d: Option<Datagram>)
    requires Inv(c, j) && SenderRuns(j) && (d.Some? ==> Arrives(c, j.up, d.value))
    requires d.Some? && d.value.Intact? ==> SenderInTime(j.snd, d.value.msg)
    ensures var r := if d.Some? then Some(Decoded(c, d.value)) else None;
            && S.ValidSender(j.snd, c.capacity) && Sound(j.snd, c.window, r)
            && S.SocketPart(j.snd, c.capacity, r).state.ack <= j.rcv.expected
  {
    if d.Some? {
      ReplyTaken(c, j.snd, j.rcv.expected, d.value, j.up);
    }
  }

  lemma SentOk(c: Config, chunks: seq<Bytes>, js: seq<nat>, sent: nat)
    requires S.ChunkSizes(chunks) && sent <= |chunks|
    requires forall i :: 0 <= i < |js| ==> js[i] < sent || |chunks| <= js[i]
    ensures forall m :: m in Sent(c, chunks, js) ==> DownOk(c, chunks, sent, m)
  {
  }

  /** More chunks, more of them sent, more of them written: what is under way stays
      true. */
  lemma MessagesStay(c: Config, chunks: seq<Bytes>, more: seq<Bytes>, sent: nat, sent': nat, down: set<Msg>)
    requires S.ChunkSizes(chunks) && S.ChunkSizes(more) && chunks <= more && sent <= sent' <= |more|
    requires forall m :: m in down ==> DownOk(c, chunks, sent, m)
    ensures forall m :: m in down ==> DownOk(c, more, sent', m)
  {
    forall m | m in down ensures DownOk(c, more, sent', m) {
      assert more[m.index] == chunks[m.index];
    }
  }

  lemma HoldsStay(r: R.Receiver, chunks: seq<Bytes>, more: seq<Bytes>, sent: nat, sent': nat)
    requires Holds(r, chunks, sent) && chunks <= more && sent <= sent' <= |more|
    ensures Holds(r, more, sent')
  {
    assert more[..r.expected] == chunks[..r.expected];
  }

  lemma Rejoined(a: Bytes, b: Bytes, n: nat)
    requires n <= |b|
    ensures a + b[..n] + b[n..] == a + b
  {
  }

  /** Reading n bytes cuts the next chunk off the input. */
  lemma CutNext(chunks: seq<Bytes>, rest: Bytes, input: Bytes, n: nat)
    requires Cut(chunks, rest, input) && MayReturn(rest, n) && !S.EofRead(chunks)
    ensures Cut(chunks + [rest[..n]], rest[n..], input)
  {
    R.ConcatAppend(chunks, rest[..n]);
    Rejoined(R.Concat(chunks), rest, n);
  }

  /** The part of the invariant that a step of the sender does not touch by itself. */
  lemma SenderMoves(c: Config, j: Joint, snd: S.Sender, fate: S.Outcome, rest: Bytes, js: seq<nat>, up: set<Msg>)
    requires Inv(c, j) && j.fate == S.Running && up <= j.up
    requires SenderInv(c, snd, fate, rest) && j.snd.chunks <= snd.chunks && snd.ack <= j.rcv.expected
    requires var sent := if fate == S.Overrun then |snd.chunks| else snd.sent;
             j.snd.sent <= sent && forall i :: 0 <= i < |js| ==> js[i] < sent || |snd.chunks| <= js[i]
    ensures Inv(c, j.(snd := snd, fate := fate, down := j.down + Sent(c, snd.chunks, js), up := up, rest := rest))
  {
    var sent := if fate == S.Overrun then |snd.chunks| else snd.sent;
    SentOk(c, snd.chunks, js, sent);
    MessagesStay(c, j.snd.chunks, snd.chunks, j.snd.sent, sent, j.down);
    HoldsStay(j.rcv, j.snd.chunks, snd.chunks, j.snd.sent, sent);
  }

  /** The sender after an iteration, by itself. */
  lemma SenderReadyState(c: Config, j: Joint, r: Option<Result<Packet>>, n: Option<nat>)
    requires Inv(c, j) && j.fate == S.Running && S.ValidSender(j.snd, c.capacity) && Sound(j.snd, c.window, r)
    requires n.Some? ==> j.snd.pollInput && MayReturn(j.rest, n.value)
    ensures var step := S.PollReady(j.snd, c.capacity, r, if n.Some? then Some(j.rest[..n.value]) else None);
            var rest := if n.Some? && step.outcome == S.Running then j.rest[n.value..] else j.rest;
            && SenderInv(c, step.state, step.outcome, rest) && step.outcome != S.Overrun
            && j.snd.chunks <= step.state.chunks && j.snd.sent <= step.state.sent
            && step.state.ack == S.SocketPart(j.snd, c.capacity, r).state.ack
            && (forall i :: 0 <= i < |step.emitted| ==> step.emitted[i] < step.state.sent)
  {
    PollReadyFacts(j.snd, c.capacity, c.window, r, if n.Some? then Some(j.rest[..n.value]) else None);
    if n.Some? { CutNext(j.snd.chunks, j.rest, c.input, n.value); }
  }

  lemma SenderReadyInv(c: Config, j: Joint, d: Option<Datagram>, n: Option<nat>, keep: bool)
    requires Inv(c, j) && Enabled(c, j, SenderReady(d, n, keep))
    ensures Inv(c, SenderStep(c, j, d, n, keep))
  {
    var r := if d.Some? then Some(Decoded(c, d.value)) else None;
    var data := if n.Some? then Some(j.rest[..n.value]) else None;
    AckAfter(c, j, d);
    SenderReadyState(c, j, r, n);
    var step := S.PollReady(j.snd, c.capacity, r, data);
    var rest := if n.Some? && step.outcome == S.Running then j.rest[n.value..] else j.rest;
    var up := if d.Some? then Remaining(j.up, d.value, keep) else j.up;
    SenderMoves(c, j, step.state, step.outcome, rest, step.emitted, up);
  }

  lemma TimeoutInv(c: Config, j: Joint)
    requires Inv(c, j) && Enabled(c, j, SenderTimeout)
    ensures Inv(c, TimeoutStep(c, j))
  {
    var step := S.PollTimeout(j.snd, c.capacity);
    SenderMoves(c, j, step.state, step.outcome, j.rest, step.emitted, j.up);
  }
}

/** Steps of the receiver keep the invariant. */
module ReceiverKeeps {
  import opened Words
  import opened Seqnum
  import opened Codec
  import opened Network
  import opened Invariant
  import S = SenderModel
  import R = ReceiverModel

  /** The packet of chunk i, or what is left of it. */
  predicate CarriesChunk(p: Packet, chunks: seq<Bytes>, i: nat)
    requires S.ChunkSizes(chunks)
  {
    i < |chunks| && (p == Whole(chunks, i) || p == Cropped(chunks, i))
  }

  /** A data packet in time is accepted exactly when its chunk lies in the window, and
      taken for that chunk. */
  lemma ChunkTaken(c: Config, r: R.Receiver, chunks: seq<Bytes>, p: Packet, i: nat)
    requires S.ChunkSizes(chunks) && CarriesChunk(p, chunks, i) && c.window <= 31
    requires r.expected - i <= 255 - c.window && i <= r.expected + 128 && r.expected !in r.held
    ensures R.Accepts(r, c.window, Ok(p)) <==> r.expected <= i <= r.expected + c.window
    ensures r.expected <= i ==> R.IndexOf(r, p.seqnum) == i
  {
    WindowTestExact(i, r.expected, c.window);
  }

  /** What a datagram on its way down decodes to. */
  lemma DownDecodes(c: Config, chunks: seq<Bytes>, sent: nat, d: Datagram, down: set<Msg>)
    requires S.ChunkSizes(chunks) && Arrives(c, down, d) && DownOk(c, chunks, sent, d.msg)
    ensures Decoded(c, d).Ok? ==> d.Intact? && CarriesChunk(Decoded(c, d).value, chunks, d.msg.index)
    ensures d.Intact? ==> Decoded(c, d).Ok?
  {
    RoundTrip(c.crc, Whole(chunks, d.msg.index));
    RoundTrip(c.crc, Cropped(chunks, d.msg.index));
  }

  /** What is kept of a datagram is right. */
  lemma AdmitHolds(c: Config, r: R.Receiver, chunks: seq<Bytes>, sent: nat, d: Result<Packet>, i: nat)
    requires S.ChunkSizes(chunks) && Holds(r, chunks, sent) && i < sent && c.window <= 31 && r.expected !in r.held
    requires d.Ok? ==> CarriesChunk(d.value, chunks, i) && r.expected - i <= 255 - c.window && i <= r.expected + 128
    ensures Holds(R.Admit(r, c.window, d), chunks, sent)
    ensures R.Admit(r, c.window, d).ts in {r.ts, S.PKT_TIMESTAMP}
  {
    if d.Ok? { ChunkTaken(c, r, chunks, d.value, i); }
  }

  /** What is written is right, and after the last chunk sent no slot is reserved. */
  lemma {:induction false} DrainHolds(r: R.Receiver, chunks: seq<Bytes>, sent: nat)
    requires Holds(r, chunks, sent)
    ensures var e := R.Drain(r);
            && Holds(e, chunks, sent) && e.ts == r.ts && r.expected <= e.expected
            && (if r.expected in r.held then r.expected < e.expected else e == r)
            && (r.expected < e.expected == sent ==> e.used == 0)
    decreases |r.held|
  {
    if r.expected in r.held {
      var w := R.WriteFirst(r);
      assert chunks[..w.expected] == chunks[..r.expected] + [chunks[r.expected]];
      DrainHolds(w, chunks, sent);
    }
  }

  /** The empty chunk is the last one. */
  lemma EmptyIsLast(e: R.Receiver, chunks: seq<Bytes>, sent: nat, rest: Bytes, input: Bytes)
    requires Holds(e, chunks, sent) && Cut(chunks, rest, input) && LastWrittenEmpty(e)
    ensures e.expected == sent
  {
    assert e.out[|e.out| - 1] == chunks[e.expected - 1];
  }

  /** The main loop ends exactly when the empty chunk was written. */
  lemma EndsWithEmptyChunk(r: R.Receiver, k: R.Receiver, chunks: seq<Bytes>, sent: nat, rest: Bytes, input: Bytes)
    requires Holds(r, chunks, sent) && Holds(k, chunks, sent) && Cut(chunks, rest, input)
    requires k.expected == r.expected && !LastWrittenEmpty(r)
    ensures LastWrittenEmpty(R.Drain(k)) <==> R.Ended(R.Drain(k))
  {
    DrainHolds(k, chunks, sent);
    if LastWrittenEmpty(R.Drain(k)) { EmptyIsLast(R.Drain(k), chunks, sent, rest, input); }
  }

  /** Every reply tells the truth. */
  lemma RepliesOk(c: Config, e: R.Receiver, due: R.Due, i: nat, sent: nat)
    requires e.ts == S.PKT_TIMESTAMP && 1 <= c.window <= 31 && e.expected !in e.held
    requires due.nack.Some? ==> due.nack.value == Wrap8(i) && i < sent
    ensures forall m :: m in Replied(c, R.Replies(e, c.window, due), e.expected, i) ==>
              UpOk(c, e.expected, sent, m)
  {
  }

  /** The part of the invariant that a step of the receiver does not touch by itself. */
  lemma ReceiverMoves(c: Config, j: Joint, step: R.Step, nack: nat, down: set<Msg>)
    requires Inv(c, j) && down <= j.down
    requires R.ValidReceiver(step.state, c.window) && Holds(step.state, j.snd.chunks, SentSoFar(j))
    requires j.rcv.expected <= step.state.expected && (step.done <==> LastWrittenEmpty(step.state))
    requires step.state.ts == S.PKT_TIMESTAMP
    requires forall m :: m in Replied(c, step.replies, step.state.expected, nack) ==>
               UpOk(c, step.state.expected, SentSoFar(j), m)
    ensures Inv(c, ReceiverDoes(c, j, step, nack).(down := down))
  {
    forall m | m in j.up ensures UpOk(c, step.state.expected, SentSoFar(j), m) {
    }
  }

  /** The index of the datagram, and the bounds that make the receiver take it right. */
  lemma DownInTime(c: Config, j: Joint, d: Datagram, keep: bool)
    requires Inv(c, j) && Enabled(c, j, ReceiverReady(d, keep))
    ensures DownOk(c, j.snd.chunks, SentSoFar(j), d.msg) && d.msg.index <= j.rcv.expected + 128
    ensures Decoded(c, d).Ok? ==>
              CarriesChunk(Decoded(c, d).value, j.snd.chunks, d.msg.index)
              && j.rcv.expected - d.msg.index <= 255 - c.window
  {
    DownDecodes(c, j.snd.chunks, SentSoFar(j), d, j.down);
  }

  /** What an iteration does with a data packet, or with a corrupted one. */
  lemma IterateHolds(c: Config, r: R.Receiver, chunks: seq<Bytes>, sent: nat, p: Result<Packet>, i: nat, rest: Bytes)
    requires S.ChunkSizes(chunks) && Holds(r, chunks, sent) && i < sent && R.ValidReceiver(r, c.window)
    requires p.Ok? ==> CarriesChunk(p.value, chunks, i) && r.expected - i <= 255 - c.window && i <= r.expected + 128
    requires Cut(chunks, rest, c.input) && r.ts == S.PKT_TIMESTAMP && !LastWrittenEmpty(r)
    ensures var step, nack := R.Iterate(r, c.window, p), if p.Ok? then R.IndexOf(r, p.value.seqnum) else 0;
            && R.ValidReceiver(step.state, c.window) && Holds(step.state, chunks, sent)
            && r.expected <= step.state.expected
            && (step.done <==> LastWrittenEmpty(step.state)) && step.state.ts == S.PKT_TIMESTAMP
            && (forall m :: m in Replied(c, step.replies, step.state.expected, nack) ==>
                  UpOk(c, step.state.expected, sent, m))
  {
    AdmitHolds(c, r, chunks, sent, p, i);
    var k := R.Admit(r, c.window, p);
    DrainHolds(k, chunks, sent);
    R.ArriveValid(r, c.window, p);
    EndsWithEmptyChunk(r, k, chunks, sent, rest, c.input);
    if p.Ok? { ChunkTaken(c, r, chunks, p.value, i); }
    RepliesOk(c, R.Drain(k), R.DueAfter(r, c.window, R.NOTHING_DUE, p),
              if p.Ok? then R.IndexOf(r, p.value.seqnum) else 0, sent);
  }

  lemma ReceivingInv(c: Config, j: Joint, d: Datagram, keep: bool)
    requires Inv(c, j) && Enabled(c, j, ReceiverReady(d, keep)) && j.phase.Receiving?
    ensures Inv(c, ReceiverStep(c, j, d, keep))
  {
    var p := Decoded(c, d);
    DownInTime(c, j, d, keep);
    IterateHolds(c, j.rcv, j.snd.chunks, SentSoFar(j), p, d.msg.index, j.rest);
    ReceiverMoves(c, j, R.Iterate(j.rcv, c.window, p), if p.Ok? then R.IndexOf(j.rcv, p.value.seqnum) else 0,
                  Remaining(j.down, d, keep));
  }

  /** The first packet is that of chunk 0. */
  lemma FirstIsZero(c: Config, j: Joint, d: Datagram, keep: bool)
    requires Inv(c, j) && Enabled(c, j, ReceiverReady(d, keep)) && j.phase.Waiting?
    requires Decoded(c, d).Ok? && Decoded(c, d).value.seqnum == 0
    ensures d.msg.index == 0
  {
    DownInTime(c, j, d, keep);
    SameByte(d.msg.index, 0);
  }

  /** What the connection does with the first packet. */
  lemma FirstHolds(c: Config, chunks: seq<Bytes>, sent: nat, p: Packet, rest: Bytes)
    requires S.ChunkSizes(chunks) && CarriesChunk(p, chunks, 0) && 0 < sent <= |chunks|
    requires Cut(chunks, rest, c.input) && 1 <= c.window <= 31
    ensures var step := R.Connect(c.window, p);
            && R.ValidReceiver(step.state, c.window) && Holds(step.state, chunks, sent)
            && (step.done <==> LastWrittenEmpty(step.state)) && step.state.ts == S.PKT_TIMESTAMP
            && (forall m :: m in Replied(c, step.replies, step.state.expected, 0) ==>
                  UpOk(c, step.state.expected, sent, m))
  {
    var s := R.Receiver(0, map[], 1, [], p.ts);
    var k := R.First(p);
    R.DrainBounded(k, c.window);
    DrainHolds(k, chunks, sent);
    EndsWithEmptyChunk(s, k, chunks, sent, rest, c.input);
    RepliesOk(c, R.Drain(k), R.FirstDue(p), 0, sent);
  }

  lemma WaitingInv(c: Config, j: Joint, d: Datagram, keep: bool)
    requires Inv(c, j) && Enabled(c, j, ReceiverReady(d, keep)) && j.phase.Waiting?
    ensures Inv(c, ReceiverStep(c, j, d, keep))
  {
    var p := Decoded(c, d);
    if p.Ok? && p.value.seqnum == 0 {
      DownInTime(c, j, d, keep);
      FirstIsZero(c, j, d, keep);
      FirstHolds(c, j.snd.chunks, SentSoFar(j), p.value, j.rest);
      ReceiverMoves(c, j, R.Connect(c.window, p.value), 0, Remaining(j.down, d, keep));
    }
  }
}
