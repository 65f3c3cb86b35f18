/** What an iteration of the sender does, case by case: the unbounded index that an 8-bit
    number stands for, the packets sent, and every variable afterwards. */
module SenderAnswers {
  import opened Words
  import opened Options
  import opened Codec
  import opened PacketBuffer
  import opened SenderModel

  // ---------- The socket

  /** j is the index of the number, between last_ack and last_sent + 1. */
  predicate Names(s: Sender, seqnum: uint8, j: nat) {
    s.ack <= j <= s.sent && Wrap8(j) == seqnum
  }

  /** A number names at most one index, and IndexOf finds it. */
  lemma NamesOne(s: Sender, seqnum: uint8, j: nat)
    requires s.ack <= s.sent <= s.ack + 31 && Names(s, seqnum, j)
    ensures IndexOf(s, seqnum) == j && Seqnum.InWindow(seqnum, Wrap8(s.ack), s.sent - s.ack)
    ensures Wrap8(j) == Wrap8(s.ack) <==> j == s.ack
  {
    Seqnum.WindowTestExact(j, s.ack, s.sent - s.ack);
    if Wrap8(j) == Wrap8(s.ack) { SameByte(j, s.ack); }
  }

  /** A packet is accepted if and only if it decodes, is an ACK or a NACK, and its number names
      an index. */
  lemma AcceptsIff(s: Sender, r: Result<Packet>)
    requires s.ack <= s.sent <= s.ack + 31
    ensures Accepts(s, r)
            <==> r.Ok? && (r.value.typ == 2 || r.value.typ == 3) && exists j: nat :: Names(s, r.value.seqnum, j)
  {
    if r.Ok? {
      var j := IndexOf(s, r.value.seqnum);
      Seqnum.DistanceInverse(r.value.seqnum, s.ack);
      if Seqnum.InWindow(r.value.seqnum, Wrap8(s.ack), s.sent - s.ack) {
        assert Names(s, r.value.seqnum, j);
      }
      if j': nat :| Names(s, r.value.seqnum, j') { NamesOne(s, r.value.seqnum, j'); }
    }
  }

  /** Whatever is read restarts the count of timeouts; what is not accepted does nothing
      else. */
  lemma NotAccepted(s: Sender, capacity: nat, r: Result<Packet>)
    requires ValidSender(s, capacity)
    requires r.Ok? ==> r.value.typ < 2 || r.value.typ > 3 || forall j: nat :: !Names(s, r.value.seqnum, j)
    ensures SocketRead(s, capacity, r) == Step(s.(retry := 0), [], Running)
  {
    AcceptsIff(s, r);
  }

  /** A NACK of index j: that packet is sent, and no other, if its slot is one of as many of
      the first slots of the array as there are packets buffered. The window is taken over. */
  lemma NackAnswered(s: Sender, capacity: nat, p: Packet, j: nat)
    requires ValidSender(s, capacity) && p.typ == 3 && Names(s, p.seqnum, j)
    ensures var scanned := j < |s.chunks| && MaskIndex(j, capacity) < |s.chunks| - s.ack;
            SocketRead(s, capacity, Ok(p))
            == Step(s.(retry := 0, win := p.window), if scanned then [j] else [], Running)
  {
    NamesOne(s, p.seqnum, j);
  }

  /** An ACK of index j beyond last_ack acknowledges everything before it, sends nothing and
      clears the count of duplicates. */
  lemma AckAnswered(s: Sender, capacity: nat, p: Packet, j: nat)
    requires ValidSender(s, capacity) && p.typ == 2 && Names(s, p.seqnum, j) && j > s.ack
    ensures SocketRead(s, capacity, Ok(p)) == Step(s.(retry := 0, win := p.window, ack := j, dup := 0), [], Running)
  {
    NamesOne(s, p.seqnum, j);
  }

  /** An ACK of last_ack itself is counted. The third one resends the oldest packet, and only
      that; with nothing buffered it reads through the null pointer. */
  lemma DuplicateAnswered(s: Sender, capacity: nat, p: Packet)
    requires ValidSender(s, capacity) && p.typ == 2 && p.seqnum == Wrap8(s.ack)
    ensures var step, t := SocketRead(s, capacity, Ok(p)), s.(retry := 0, win := p.window);
            if s.dup != 2 then step == Step(t.(dup := s.dup + 1), [], Running)
            else if s.ack < |s.chunks| then step == Step(t.(dup := 0), [s.ack], Running)
            else step == Step(t.(dup := 0), [], NullPointer)
  {
    NamesOne(s, p.seqnum, s.ack);
  }

  // ---------- The whole iteration

  /** An iteration that reads a datagram leaves the count of timeouts at 0, whatever came. */
  lemma AliveAgain(s: Sender, capacity: nat, r: Result<Packet>, data: Option<Bytes>)
    requires ValidSender(s, capacity) && (data.Some? ==> s.pollInput)
    ensures PollReady(s, capacity, Some(r), data).state.retry == 0
  {
    if Accepts(s, r) {
      var j := IndexOf(s, r.value.seqnum);
      Seqnum.DistanceInverse(r.value.seqnum, s.ack);
      if r.value.typ == 3 {
        NackAnswered(s, capacity, r.value, j);
      } else if j > s.ack {
        AckAnswered(s, capacity, r.value, j);
      } else {
        DuplicateAnswered(s, capacity, r.value);
      }
    } else {
      AcceptsIff(s, r);
      NotAccepted(s, capacity, r);
    }
  }

  /** Nothing that the socket does touches what is read, sent or polled. */
  lemma SocketLeaves(s: Sender, capacity: nat, r: Option<Result<Packet>>)
    requires ValidSender(s, capacity) && (r.Some? && r.value.Ok? ==> r.value.value.window <= 31)
    ensures var a := SocketPart(s, capacity, r);
            && a.state.chunks == s.chunks && a.state.sent == s.sent && a.state.pollInput == s.pollInput
            && s.ack <= a.state.ack <= s.sent && a.state.win <= 31 && (a.outcome == Running || a.outcome == NullPointer)
  {
  }

  lemma SendingAnswered(b: Sender, capacity: nat)
    requires b.ack <= b.sent <= |b.chunks|
    ensures var step := SendPart(b, capacity);
            var t := step.state;
            && t == b.(sent := t.sent, pollInput := t.pollInput) && b.sent <= t.sent <= |b.chunks|
            && |step.emitted| == t.sent - b.sent
            && (forall i :: 0 <= i < |step.emitted| ==> step.emitted[i] == b.sent + i)
            && (t.sent > b.sent ==> t.sent - t.ack <= t.win)
            && (t.sent == |t.chunks| || t.sent - t.ack >= t.win)
            && (t.pollInput <==> (b.chunks == [] || b.chunks[|b.chunks| - 1] != []) && |b.chunks| - b.ack < capacity)
  {
  }

  /** The datagram is dealt with first, and the chunk read is appended; then the next packets
      are sent in order until all is sent or the window is used up. The input is polled again
      unless the end was read or the ring is full. After the null pointer nothing happens. */
  lemma IterationAnswered(s: Sender, capacity: nat, r: Option<Result<Packet>>, data: Option<Bytes>)
    requires ValidSender(s, capacity) && (data.Some? ==> s.pollInput && |data.value| <= MAX_PAYLOAD_SIZE)
    requires r.Some? && r.value.Ok? ==> r.value.value.window <= 31
    ensures var a := if r.Some? then SocketRead(s, capacity, r.value) else Step(s, [], Running);
            var step := PollReady(s, capacity, r, data);
            if a.outcome == NullPointer then step == a
            else
              var t := step.state;
              && step.outcome == Running
              && t.chunks == s.chunks + (if data.Some? then [data.value] else [])
              && t == a.state.(chunks := t.chunks, sent := t.sent, pollInput := t.pollInput)
              && |step.emitted| == |a.emitted| + (t.sent - s.sent) && s.sent <= t.sent <= |t.chunks|
              && step.emitted[..|a.emitted|] == a.emitted
              && (forall i :: |a.emitted| <= i < |step.emitted| ==> step.emitted[i] == s.sent + (i - |a.emitted|))
              && (t.sent > s.sent ==> t.sent - t.ack <= t.win)
              && (t.sent == |t.chunks| || t.sent - t.ack >= t.win)
              && (t.pollInput <==> (t.chunks == [] || t.chunks[|t.chunks| - 1] != []) && |t.chunks| - t.ack < capacity)
  {
    var a := SocketPart(s, capacity, r);
    SocketLeaves(s, capacity, r);
    var b := if data.Some? then a.state.(chunks := s.chunks + [data.value]) else a.state;
    SendingAnswered(b, capacity);
  }

  /** A timeout with nothing buffered does nothing. Otherwise it is counted; the sixth in a row
      gives up, and the others send everything from last_ack to last_sent again, in order. With
      last_sent at 255 that does not stop: it goes on to the end of the ring, sends its first
      slot under a new number, and goes round once more. */
  lemma TimeoutAnswered(s: Sender, capacity: nat)
    requires ValidSender(s, capacity)
    ensures var step := PollTimeout(s, capacity);
            if s.ack == |s.chunks| then step == Step(s, [], Running)
            else if s.retry == 5 then step == Step(s.(retry := 6), [], GaveUp)
            else if Wrap8(s.sent - 1) != 255 then
              && step.state == s.(retry := s.retry + 1, dup := 0) && step.outcome == Running
              && |step.emitted| == s.sent - s.ack
              && forall i :: 0 <= i < s.sent - s.ack ==> step.emitted[i] == s.ack + i
            else
              && step.state == s.(retry := s.retry + 1) && step.outcome == Overrun
              && |step.emitted| == 2 * capacity + 1
              && (forall i :: 0 <= i <= capacity ==> step.emitted[i] == s.ack + i)
              && forall i :: capacity < i <= 2 * capacity ==> step.emitted[i] == s.ack + (i - capacity)
  {
    LastSent(s.sent);
  }

  lemma LastSent(sent: nat)
    ensures Wrap8(sent - 1) == 255 <==> Wrap8(sent) == 0
  {
    Wrap8Sum(sent - 1, 1);
    Wrap8Sum(sent, -1);
  }

  // ---------- The bytes of a chunk

  /** A chunk goes out as a data packet: type 1, TR and window 0, its number, its length, the
      fixed timestamp, its bytes. */
  lemma ChunkBytes(crc: Crc, j: nat, chunk: Bytes)
    requires |chunk| <= MAX_PAYLOAD_SIZE
    ensures var w, n := Wire(crc, DataPacket(j, chunk)), |chunk|;
            && Fits(DataPacket(j, chunk)) && |w| == (if n == 0 then 12 else 16 + n)
            && w[0] == 64 && w[1] == Wrap8(j) && 0x100 * (w[2] as int) + w[3] == n
            && w[4] == 0xef && w[5] == 0xbe && w[6] == 0xad && w[7] == 0xde
            && (n > 0 ==> w[12..12 + n] == chunk)
  {
    WireBytes(crc, DataPacket(j, chunk));
    var ts := Wire(crc, DataPacket(j, chunk))[4..8];
    assert ts[0] == 0xef && ts[1] == 0xbe && ts[2] == 0xad && ts[3] == 0xde;
  }
}
