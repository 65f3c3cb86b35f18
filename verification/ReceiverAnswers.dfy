/** What an iteration of the receiver does, case by case: the unbounded index that an 8-bit
    number stands for, what is kept, and every field of the replies. */
module ReceiverAnswers {
  import opened Words
  import opened Options
  import opened Seqnum
  import opened Codec
  import opened ReceiverModel

  // ---------- A datagram

  /** j is the index of the number, from the next chunk to the end of the window. Chunks that
      wait to be written count against the window. */
  predicate Names(s: Receiver, maxWindow: uint8, seqnum: uint8, j: nat) {
    Next(s) <= j <= s.expected + maxWindow && Wrap8(j) == seqnum
  }

  lemma NamesOne(s: Receiver, maxWindow: uint8, seqnum: uint8, j: nat)
    requires Bounded(s, maxWindow) && Names(s, maxWindow, seqnum, j)
    ensures IndexOf(s, seqnum) == j && InWindow(seqnum, Wrap8(Next(s)), WindowLeft(s, maxWindow))
  {
    WindowTestExact(j, Next(s), WindowLeft(s, maxWindow));
  }

  /** A packet is accepted if and only if it decodes, carries data, and its number names an
      index. */
  lemma AcceptsIff(s: Receiver, maxWindow: uint8, r: Result<Packet>)
    requires Bounded(s, maxWindow)
    ensures Accepts(s, maxWindow, r)
            <==> r.Ok? && r.value.typ == 1 && exists j: nat :: Names(s, maxWindow, r.value.seqnum, j)
  {
    if r.Ok? {
      var j := IndexOf(s, r.value.seqnum);
      DistanceInverse(r.value.seqnum, Next(s));
      if InWindow(r.value.seqnum, Wrap8(Next(s)), WindowLeft(s, maxWindow)) {
        assert Names(s, maxWindow, r.value.seqnum, j);
      }
      if j': nat :| Names(s, maxWindow, r.value.seqnum, j') { NamesOne(s, maxWindow, r.value.seqnum, j'); }
    }
  }

  /** A datagram that does not decode, is not data, or names no index leaves all that was
      received, written and remembered as it was; it only reserves the slot of the next chunk.
      An ACK is due, unless a NACK was due before. */
  lemma NotAccepted(s: Receiver, maxWindow: uint8, r: Result<Packet>, due: Due)
    requires Bounded(s, maxWindow) && |s.held| < maxWindow
    requires r.Ok? ==> r.value.typ != 1 || forall j: nat :: !Names(s, maxWindow, r.value.seqnum, j)
    ensures var k := Admit(s, maxWindow, r);
            && k == s.(used := k.used) && !Misfiles(s, maxWindow, r)
            && k.used == (if s.used <= Next(s) - s.expected then Next(s) - s.expected + 1 else s.used)
    ensures DueAfter(s, maxWindow, due, r) == if due.nack.None? then Due(true, None) else due
  {
    AcceptsIff(s, maxWindow, r);
  }

  /** With as many chunks held as the window has, every datagram is discarded. */
  lemma Discarded(s: Receiver, maxWindow: uint8, r: Result<Packet>, due: Due)
    requires Bounded(s, maxWindow) && |s.held| == maxWindow
    ensures Admit(s, maxWindow, r) == s && !Misfiles(s, maxWindow, r)
    ensures DueAfter(s, maxWindow, due, r) == if due.nack.None? then Due(true, None) else due
  {
  }

  /** A truncated packet is not kept, but its timestamp is, and a NACK of its number is due. */
  lemma TruncatedAnswered(s: Receiver, maxWindow: uint8, p: Packet, j: nat, due: Due)
    requires Bounded(s, maxWindow) && |s.held| < maxWindow
    requires p.typ == 1 && p.tr && Names(s, maxWindow, p.seqnum, j)
    ensures var k := Admit(s, maxWindow, Ok(p));
            && k == s.(used := k.used, ts := p.ts) && !Misfiles(s, maxWindow, Ok(p))
            && k.used == (if s.used <= Next(s) - s.expected then Next(s) - s.expected + 1 else s.used)
    ensures DueAfter(s, maxWindow, due, Ok(p)) == Due(due.ack, Some(p.seqnum))
  {
    NamesOne(s, maxWindow, p.seqnum, j);
  }

  /** A whole packet of index j, with nothing waiting to be written, is kept at j and nowhere
      else; its timestamp is remembered, and an ACK is due, unless a NACK was due before. */
  lemma WholeAnswered(s: Receiver, maxWindow: uint8, p: Packet, j: nat, due: Due)
    requires Bounded(s, maxWindow) && |s.held| < maxWindow && s.expected !in s.held
    requires p.typ == 1 && !p.tr && Names(s, maxWindow, p.seqnum, j)
    ensures var k := Admit(s, maxWindow, Ok(p));
            && !Misfiles(s, maxWindow, Ok(p))
            && k == s.(used := k.used, ts := p.ts, held := s.held[j := p.payload])
            && k.used == (if s.used <= j - s.expected then j - s.expected + 1 else s.used)
    ensures DueAfter(s, maxWindow, due, Ok(p)) == if due.nack.None? then Due(true, None) else due
  {
    NamesOne(s, maxWindow, p.seqnum, j);
  }

  // ---------- Replies

  /** A control packet, field by field. */
  predicate ControlFields(p: Packet, typ: uint8, seqnum: uint8, window: int, ts: Bytes) {
    && p.typ == typ && !p.tr && p.window == window && p.seqnum == seqnum
    && p.length == 0 && p.ts == ts && p.payload == []
  }

  /** The packets sent: an ACK if one is due, then a NACK if one is due. */
  predicate Answers(ps: seq<Packet>, due: Due, seqnum: uint8, window: int, ts: Bytes) {
    var n := if due.ack then 1 else 0;
    && |ps| == n + (if due.nack.Some? then 1 else 0)
    && (due.ack ==> ControlFields(ps[0], 2, seqnum, window, ts))
    && (due.nack.Some? ==> ControlFields(ps[n], 3, due.nack.value, window, ts))
  }

  /** That says all about them. */
  lemma AnswersOne(ps: seq<Packet>, qs: seq<Packet>, due: Due, seqnum: uint8, window: int, ts: Bytes)
    requires Answers(ps, due, seqnum, window, ts) && Answers(qs, due, seqnum, window, ts)
    ensures ps == qs
  {
    forall i | 0 <= i < |ps| ensures ps[i] == qs[i] {
    }
  }

  /** They tell the next number, the window less the chunks that wait, and the timestamp that
      was received last. */
  lemma RepliesAnswer(s: Receiver, maxWindow: uint8, due: Due)
    requires Bounded(s, maxWindow)
    ensures Answers(Replies(s, maxWindow, due), due, Wrap8(Next(s)), maxWindow - (Next(s) - s.expected), s.ts)
  {
  }

  // ---------- The whole iteration

  /** The timestamp remembered after a datagram: that of the packet, if it is accepted. */
  function LastTs(s: Receiver, maxWindow: uint8, r: Option<Result<Packet>>, ts: Bytes): Bytes {
    if r.Some? && |s.held| < maxWindow && Accepts(s, maxWindow, r.value) then r.value.value.ts else ts
  }

  /** The replies due after it. */
  function DueThen(s: Receiver, maxWindow: uint8, due: Due, r: Option<Result<Packet>>): Due {
    if r.Some? then DueAfter(s, maxWindow, due, r.value) else due
  }

  /** First the datagram, which leaves the state k and the replies due'; then the drain, then
      those replies. The main loop ends if the last chunk written is empty and no slot is
      reserved. */
  lemma IterationAnswered(s: Receiver, maxWindow: uint8, due: Due, r: Option<Result<Packet>>, writes: Option<nat>,
                          k: Receiver, due': Due)
    requires Bounded(s, maxWindow) && (r.Some? && r.value.Ok? ==> |r.value.value.ts| == 4)
    requires k == if r.Some? then Admit(s, maxWindow, r.value) else s
    requires due' == DueThen(s, maxWindow, due, r)
    ensures var step := Poll(s, maxWindow, due, r, writes);
            var d := step.state;
            && d == EmptyBuffer(k, writes) && d.expected <= Next(d) <= d.expected + maxWindow
            && Answers(step.replies, due', Wrap8(Next(d)), maxWindow - (Next(d) - d.expected), k.ts)
            && (step.done <==> d.out != [] && d.out[|d.out| - 1] == [] && d.used == 0)
  {
    if r.Some? { AdmitBounded(s, maxWindow, r.value); }
    Emptied(k, maxWindow, due', writes, Poll(s, maxWindow, due, r, writes));
  }

  /** What follows the datagram. */
  lemma Emptied(k: Receiver, maxWindow: uint8, due: Due, writes: Option<nat>, step: Step)
    requires Bounded(k, maxWindow) && step.state == EmptyBuffer(k, writes)
    requires step.replies == Replies(step.state, maxWindow, due) && step.done == Ended(step.state)
    ensures var d := step.state;
            && d.expected <= Next(d) <= d.expected + maxWindow
            && Answers(step.replies, due, Wrap8(Next(d)), maxWindow - (Next(d) - d.expected), k.ts)
            && (step.done <==> d.out != [] && d.out[|d.out| - 1] == [] && d.used == 0)
  {
    EmptyBounded(k, maxWindow, writes);
    RepliesAnswer(step.state, maxWindow, due);
  }

  /** Every reply echoes the timestamp of the packet just accepted. */
  lemma TimestampEchoed(s: Receiver, maxWindow: uint8, due: Due, p: Packet, writes: Option<nat>)
    requires Bounded(s, maxWindow) && |p.ts| == 4 && |s.held| < maxWindow && p.typ == 1
    requires exists j: nat :: Names(s, maxWindow, p.seqnum, j)
    ensures var step := Poll(s, maxWindow, due, Some(Ok(p)), writes);
            step.replies != [] && forall i :: 0 <= i < |step.replies| ==> step.replies[i].ts == p.ts
  {
    AcceptsIff(s, maxWindow, Ok(p));
    IterationAnswered(s, maxWindow, due, Some(Ok(p)), writes, Admit(s, maxWindow, Ok(p)),
                      DueAfter(s, maxWindow, due, Ok(p)));
  }

  lemma {:induction false} EmptyBounded(s: Receiver, maxWindow: nat, writes: Option<nat>)
    requires Bounded(s, maxWindow)
    ensures Bounded(EmptyBuffer(s, writes), maxWindow) && EmptyBuffer(s, writes).ts == s.ts
    decreases |s.held|
  {
    EmptyStep(s, writes);
    if s.expected in s.held && !Blocks(s.held[s.expected], writes) {
      WriteBounded(s, maxWindow);
      EmptyBounded(WriteFirst(s), maxWindow, LeftAfter(s.held[s.expected], writes));
    }
  }

  // ---------- The connection

  /** The first packet: kept as chunk 0 if it is whole, and then answered by an ACK; a
      truncated one is answered by an ACK and a NACK, both numbered 0. */
  lemma FirstAnswered(maxWindow: uint8, p: Packet)
    requires 1 <= maxWindow <= 31 && |p.ts| == 4
    ensures var step := Connect(maxWindow, p);
            if p.tr then
              && step.state == Receiver(0, map[], 1, [], p.ts)
              && Answers(step.replies, Due(true, Some(0)), 0, maxWindow, p.ts) && !step.done
            else
              && step.state == Receiver(1, map[], 0, [p.payload], p.ts)
              && Answers(step.replies, Due(true, None), 1, maxWindow, p.ts) && (step.done <==> p.payload == [])
  {
    var s := First(p);
    IterationAnswered(s, maxWindow, FirstDue(p), None, None, s, FirstDue(p));
    EmptyStep(s, None);
    if !p.tr {
      var w := Receiver(1, map[], 0, [p.payload], p.ts);
      assert WriteFirst(s) == w by { assert map[0 := p.payload] - {0} == map[]; }
      EmptyNothing(w, None);
    }
  }

  // ---------- An output file that blocks

  /** How many of the chunks in line are not empty. */
  function Filled(chunks: seq<Bytes>): nat {
    if chunks == [] then 0 else Filled(chunks[1..]) + if chunks[0] == [] then 0 else 1
  }

  /** As many writes are made as the file takes, each of a chunk that is not empty; if a chunk
      is left in line, all of them were made, and it is not empty. */
  lemma {:induction false} BlockedAfter(s: Receiver, writes: nat)
    ensures var k := DrainUntil(s, writes);
            && s.out <= k.out && Filled(k.out[|s.out|..]) <= writes
            && (k.expected in k.held ==> Filled(k.out[|s.out|..]) == writes && k.held[k.expected] != [])
    decreases |s.held|
  {
    if s.expected in s.held && (s.held[s.expected] == [] || writes > 0) {
      var w := WriteFirst(s);
      var left := if s.held[s.expected] == [] then writes else writes - 1;
      BlockedAfter(w, left);
      var k := DrainUntil(s, writes);
      assert k == DrainUntil(w, left);
      assert k.out[|s.out|] == w.out[|s.out|] == s.held[s.expected];
      assert k.out[|s.out|..] == [s.held[s.expected]] + k.out[|w.out|..];
    } else {
      assert s.out[|s.out|..] == [];
    }
  }
}
