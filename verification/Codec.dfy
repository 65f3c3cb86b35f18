/** The packet codec (packet_implem.c) over the packed struct of
    packet_interface.h, on a little-endian host. CRC-32 (RFC 1952, section 8) is
    a parameter: the results hold for every checksum function. */
module Codec {
  import opened Words
  import opened Options

  type Crc = Bytes -> uint32

  const HEADER_LEN: nat := 12
  const CRC1_OFFSET: nat := 8
  const FOOTER_LEN: nat := 4
  const MAX_PAYLOAD_SIZE: nat := 512
  const STRUCT_LEN: nat := 528
  const CRC2_OFFSET: nat := 524

  const DATA: uint8 := 1
  const ACK: uint8 := 2
  const NACK: uint8 := 3

  datatype Status =
    | PktOk | ETyp | ETr | ELength | ECrc | ENoMem | ENoHeader | EUnconsistent

  datatype Result<+T> = Ok(value: T) | Err(status: Status)

  /** The fields of a packet. The timestamp is four opaque bytes; the payload of a
      truncated packet is empty while its length field keeps the original value. */
  datatype Packet = Packet(typ: uint8, tr: bool, window: uint8, seqnum: uint8, length: uint16,
                           ts: Bytes, payload: Bytes)

  predicate ValidType(t: uint8) {
    t == DATA || t == ACK || t == NACK
  }

  predicate ValidTr(t: uint8, tr: bool) {
    !tr || t == DATA
  }

  /** Values the bit fields and arrays of the struct can hold. */
  predicate Fits(p: Packet) {
    p.typ < 4 && p.window < 32 && |p.ts| == 4 && |p.payload| <= MAX_PAYLOAD_SIZE
  }

  /** The packets the protocol allows on the wire. */
  predicate WellFormed(p: Packet) {
    && Fits(p) && ValidType(p.typ) && ValidTr(p.typ, p.tr)
    && p.length <= MAX_PAYLOAD_SIZE
    && (p.tr ==> p.payload == [])
    && (!p.tr ==> |p.payload| == p.length)
    && (p.typ != DATA ==> p.length == 0)
  }

  // ---------- Integers as bytes

  function BE16(x: uint16): Bytes {
    [x / 256, x % 256]
  }

  function LE16(x: uint16): Bytes {
    [x % 256, x / 256]
  }

  function BE32(x: uint32): Bytes {
    BE16(x / 0x1_0000) + BE16(x % 0x1_0000)
  }

  function LE32(x: uint32): Bytes {
    LE16(x % 0x1_0000) + LE16(x / 0x1_0000)
  }

  /** ntohs of a network-order field. */
  function FromBE16(hi: uint8, lo: uint8): uint16 {
    256 * (hi as int) + lo
  }

  /** ntohl of a network-order field. */
  function FromBE32(b: Bytes): uint32
    requires |b| == 4
  {
    0x1_0000 * (FromBE16(b[0], b[1]) as int) + FromBE16(b[2], b[3])
  }

  lemma BE32Inverse(x: uint32, b: Bytes)
    requires |b| == 4
    ensures b == BE32(x) <==> FromBE32(b) == x
  {
    BE16Inverse(x / 0x1_0000, b[0], b[1]);
    BE16Inverse(x % 0x1_0000, b[2], b[3]);
    assert b == [b[0], b[1]] + [b[2], b[3]];
    var hi, lo: int := FromBE16(b[0], b[1]), FromBE16(b[2], b[3]);
    assert 0x1_0000 * hi + lo == x <==> hi == x / 0x1_0000 && lo == x % 0x1_0000;
  }

  /** Most significant byte first. */
  lemma BE32Bytes(x: uint32)
    ensures |BE32(x)| == 4
    ensures 0x100_0000 * (BE32(x)[0] as int) + 0x1_0000 * (BE32(x)[1] as int) + 0x100 * (BE32(x)[2] as int)
            + BE32(x)[3] == x
  {
    assert BE32(x)[..2] == BE16(x / 0x1_0000) && BE32(x)[2..] == BE16(x % 0x1_0000);
  }

  /** Least significant byte first. */
  lemma LE32Bytes(x: uint32)
    ensures |LE32(x)| == 4
    ensures LE32(x)[0] + 0x100 * (LE32(x)[1] as int) + 0x1_0000 * (LE32(x)[2] as int)
            + 0x100_0000 * (LE32(x)[3] as int) == x
  {
    assert LE32(x)[..2] == LE16(x % 0x1_0000) && LE32(x)[2..] == LE16(x / 0x1_0000);
  }

  lemma BE16Inverse(x: uint16, hi: uint8, lo: uint8)
    ensures [hi, lo] == BE16(x) <==> FromBE16(hi, lo) == x
  {
  }

  // ---------- The first byte: three bit fields

  function FirstByte(typ: uint8, tr: bool, window: uint8): uint8
    requires typ < 4 && window < 32
  {
    window + (if tr then 32 else 0) + 64 * typ
  }

  function TypOf(b: uint8): uint8 { b / 64 }

  predicate TrOf(b: uint8) { b / 32 % 2 == 1 }

  function WindowOf(b: uint8): uint8 { b % 32 }

  function WithTr(b: uint8, tr: bool): uint8 {
    if TrOf(b) == tr then b else if tr then b + 32 else b - 32
  }

  lemma FirstByteFields(typ: uint8, tr: bool, window: uint8, b: uint8)
    requires typ < 4 && window < 32
    ensures b == FirstByte(typ, tr, window) <==> TypOf(b) == typ && TrOf(b) == tr && WindowOf(b) == window
    ensures forall t :: WithTr(FirstByte(typ, tr, window), t) == FirstByte(typ, t, window)
  {
  }

  // ---------- The wire format of the protocol statement

  /** The header up to CRC1, with a chosen TR bit. */
  function Header(p: Packet, tr: bool): (h: Bytes)
    requires Fits(p)
    ensures |h| == CRC1_OFFSET
  {
    [FirstByte(p.typ, tr, p.window), p.seqnum] + BE16(p.length) + p.ts
  }

  /** Header, CRC1 over the header with TR clear, then payload and CRC2 if there
      is a payload. */
  function Wire(crc: Crc, p: Packet): (w: Bytes)
    requires Fits(p)
    ensures |w| == if p.payload == [] then HEADER_LEN else HEADER_LEN + |p.payload| + FOOTER_LEN
  {
    Header(p, p.tr) + BE32(crc(Header(p, false)))
    + (if p.payload == [] then [] else p.payload + BE32(crc(p.payload)))
  }

  /** The wire form byte by byte: type, TR and window in two, one and five bits, the number,
      the length with its high byte first, the timestamp, CRC1 over these with TR clear, then
      the payload and CRC2 over it. */
  lemma WireBytes(crc: Crc, p: Packet)
    requires Fits(p)
    ensures var w := Wire(crc, p);
            && w[0] == 64 * p.typ + (if p.tr then 32 else 0) + p.window && w[1] == p.seqnum
            && 0x100 * (w[2] as int) + w[3] == p.length && w[4..8] == p.ts
            && 0x100_0000 * (w[8] as int) + 0x1_0000 * (w[9] as int) + 0x100 * (w[10] as int) + w[11]
               == crc([64 * p.typ + p.window] + w[1..8])
    ensures var w, n := Wire(crc, p), |p.payload|;
            if n == 0 then |w| == 12
            else |w| == 12 + n + 4 && w[12..12 + n] == p.payload
                 && 0x100_0000 * (w[12 + n] as int) + 0x1_0000 * (w[13 + n] as int) + 0x100 * (w[14 + n] as int)
                    + w[15 + n] == crc(p.payload)
  {
    var w, n := Wire(crc, p), |p.payload|;
    var head := Header(p, p.tr) + BE32(crc(Header(p, false)));
    BE32Bytes(crc(Header(p, false)));
    assert w[..12] == head && head[..8] == Header(p, p.tr) && head[8..] == BE32(crc(Header(p, false)));
    assert Header(p, p.tr)[2..4] == BE16(p.length) && Header(p, p.tr)[4..] == p.ts;
    assert [64 * p.typ + p.window] + w[1..8] == Header(p, false);
    if n > 0 {
      BE32Bytes(crc(p.payload));
      assert w[12..] == p.payload + BE32(crc(p.payload));
      assert w[12..][..n] == p.payload && w[12..][n..] == BE32(crc(p.payload));
    }
  }

  /** What a router leaves of a packet whose payload it drops. */
  function Truncate(w: Bytes): Bytes
    requires |w| >= HEADER_LEN
  {
    [WithTr(w[0], true)] + w[1..HEADER_LEN]
  }

  // ---------- pkt_decode

  /** Payload length for rlen received bytes: a size_t, so 13 to 15 bytes wrap. */
  function PayloadLen(rlen: nat): nat
    requires HEADER_LEN <= rlen <= STRUCT_LEN
  {
    if rlen == HEADER_LEN then 0
    else if rlen >= HEADER_LEN + FOOTER_LEN then rlen - HEADER_LEN - FOOTER_LEN
    else 0x1_0000_0000_0000_0000 + rlen - HEADER_LEN - FOOTER_LEN
  }

  /** CRC1 as received, and the bytes it must cover. */
  function Crc1Of(b: Bytes): uint32
    requires |b| >= HEADER_LEN
  {
    FromBE32(b[CRC1_OFFSET..HEADER_LEN])
  }

  function CoveredByCrc1(b: Bytes): Bytes
    requires |b| >= HEADER_LEN
  {
    [WithTr(b[0], false)] + b[1..CRC1_OFFSET]
  }

  /** The header checks of pkt_decode_inline, in the order of the code. */
  function HeaderCheck(crc: Crc, b: Bytes): Status
    requires |b| >= HEADER_LEN
  {
    if !ValidType(TypOf(b[0])) then ETyp
    else if !ValidTr(TypOf(b[0]), TrOf(b[0])) then ETr
    else if FromBE16(b[2], b[3]) > MAX_PAYLOAD_SIZE then ELength
    else if Crc1Of(b) != crc(CoveredByCrc1(b)) then ECrc
    else PktOk
  }

  /** The payload checks of pkt_decode_inline, in the order of the code. */
  function PayloadCheck(crc: Crc, b: Bytes): Status
    requires HEADER_LEN <= |b| <= STRUCT_LEN && FromBE16(b[2], b[3]) <= MAX_PAYLOAD_SIZE
  {
    var plen, payloadLen := FromBE16(b[2], b[3]), PayloadLen(|b|);
    if TypOf(b[0]) == DATA then
      if (if TrOf(b[0]) then payloadLen != 0 else plen != payloadLen) then EUnconsistent
      else if payloadLen != 0
              && FromBE32(b[HEADER_LEN + payloadLen..]) != crc(b[HEADER_LEN..HEADER_LEN + payloadLen]) then ECrc
      else PktOk
    else if payloadLen != 0 || plen != 0 then EUnconsistent
    else PktOk
  }

  /** pkt_decode on the received bytes. */
  function Decode(crc: Crc, b: Bytes): Result<Packet> {
    if |b| > STRUCT_LEN then Err(EUnconsistent)
    else if |b| < HEADER_LEN then Err(ENoHeader)
    else if HeaderCheck(crc, b) != PktOk then Err(HeaderCheck(crc, b))
    else if PayloadCheck(crc, b) != PktOk then Err(PayloadCheck(crc, b))
    else Ok(Packet(TypOf(b[0]), TrOf(b[0]), WindowOf(b[0]), b[1], FromBE16(b[2], b[3]), b[4..8],
                   b[HEADER_LEN..HEADER_LEN + PayloadLen(|b|)]))
  }

  /** The bytes that may carry p: its wire form, or for an empty payload that form
      followed by four bytes nobody looks at. */
  predicate Carries(crc: Crc, b: Bytes, p: Packet) {
    WellFormed(p)
    && (b == Wire(crc, p)
        || (p.payload == [] && |b| == HEADER_LEN + FOOTER_LEN && b[..HEADER_LEN] == Wire(crc, p)))
  }

  /** The decoder accepts p from b if and only if b carries p: nothing else is
      accepted, and everything the encoder makes is. */
  lemma DecodeExact(crc: Crc, b: Bytes, p: Packet)
    ensures Decode(crc, b) == Ok(p) <==> Carries(crc, b, p)
  {
    if Decode(crc, b) == Ok(p) { DecodedIsCarried(crc, b, p); }
    if Carries(crc, b, p) { CarriedIsDecoded(crc, b, p); }
  }

  // ---------- Every answer of the decoder

  lemma FirstByteBits(x: uint8)
    ensures WithTr(x, false) == 64 * (x / 64) + x % 32 && (ValidType(x / 64) <==> x / 64 != 0)
  {
  }

  /** The header checks on the bytes: the first of the four that fails is reported. */
  lemma HeaderErrors(crc: Crc, b: Bytes)
    requires |b| >= 12
    ensures var typ, tr, n := b[0] / 64, b[0] / 32 % 2 == 1, 0x100 * (b[2] as int) + b[3];
            var crc1 := 0x100_0000 * (b[8] as int) + 0x1_0000 * (b[9] as int) + 0x100 * (b[10] as int) + b[11];
            HeaderCheck(crc, b) == if typ == 0 then ETyp
                                   else if tr && typ != 1 then ETr
                                   else if n > 512 then ELength
                                   else if crc1 != crc([64 * typ + b[0] % 32] + b[1..8]) then ECrc
                                   else PktOk
  {
    var word := b[8..12];
    assert word[0] == b[8] && word[1] == b[9] && word[2] == b[10] && word[3] == b[11];
    FirstByteBits(b[0]);
    assert CoveredByCrc1(b) == [64 * (b[0] / 64) + b[0] % 32] + b[1..8];
  }

  /** The payload checks: the length has to be what the header says, nothing for a control or
      a truncated packet, and then the checksum of a payload has to be right. Twelve bytes and
      sixteen are the same, since the last four are taken for a checksum of nothing. */
  lemma PayloadErrors(crc: Crc, b: Bytes)
    requires 12 <= |b| <= 528 && 0x100 * (b[2] as int) + b[3] <= 512
    ensures var typ, tr, n := b[0] / 64, b[0] / 32 % 2 == 1, 0x100 * (b[2] as int) + b[3];
            var m := if typ == 1 && !tr then n else 0;
            && (PayloadCheck(crc, b) == EUnconsistent
                <==> (typ != 1 && n != 0) || (|b| != 16 + m && !(m == 0 && |b| == 12)))
            && (PayloadCheck(crc, b) == ECrc
                <==> typ == 1 && m > 0 && |b| == 16 + m && LastWord(b) != crc(b[12..12 + m]))
            && PayloadCheck(crc, b) in {PktOk, EUnconsistent, ECrc}
  {
    var m := if b[0] / 64 == 1 && !(b[0] / 32 % 2 == 1) then 0x100 * (b[2] as int) + b[3] else 0;
    if m > 0 && |b| == 16 + m {
      var word := b[12 + m..];
      assert word[0] == b[|b| - 4] && word[1] == b[|b| - 3] && word[2] == b[|b| - 2] && word[3] == b[|b| - 1];
    }
  }

  function LastWord(b: Bytes): int
    requires |b| >= 4
  {
    var n := |b|;
    0x100_0000 * (b[n - 4] as int) + 0x1_0000 * (b[n - 3] as int) + 0x100 * (b[n - 2] as int) + b[n - 1]
  }

  /** The decoder reports the first check that fails, in the order of the code. */
  lemma DecodeErrors(crc: Crc, b: Bytes)
    ensures |b| > 528 ==> Decode(crc, b) == Err(EUnconsistent)
    ensures |b| < 12 ==> Decode(crc, b) == Err(ENoHeader)
    ensures 12 <= |b| <= 528 && HeaderCheck(crc, b) != PktOk ==> Decode(crc, b) == Err(HeaderCheck(crc, b))
    ensures 12 <= |b| <= 528 && HeaderCheck(crc, b) == PktOk ==>
              && 0x100 * (b[2] as int) + b[3] <= 512
              && (if PayloadCheck(crc, b) != PktOk then Decode(crc, b) == Err(PayloadCheck(crc, b))
                  else Decode(crc, b).Ok?)
  {
  }

  lemma SliceOfTake<T>(s: seq<T>, c: nat, a: nat, b: nat)
    requires a <= b <= c <= |s|
    ensures s[..c][a..b] == s[a..b]
  {
  }

  lemma TakeOfDrop<T>(s: seq<T>, a: nat, n: nat)
    requires a + n <= |s|
    ensures s[a..][..n] == s[a..a + n] && s[a..][n..] == s[a + n..]
  {
  }

  /** A header, byte by byte. */
  lemma HeaderBytes(p: Packet, tr: bool, h: Bytes)
    requires Fits(p) && |h| == CRC1_OFFSET
    ensures h == Header(p, tr)
            <==> h[0] == FirstByte(p.typ, tr, p.window) && h[1] == p.seqnum
                 && FromBE16(h[2], h[3]) == p.length && h[4..8] == p.ts
  {
    BE16Inverse(p.length, h[2], h[3]);
    var e := Header(p, tr);
    assert e[..4] == [FirstByte(p.typ, tr, p.window), p.seqnum] + BE16(p.length);
    assert e[4..8] == p.ts;
    assert h[..4] == [h[0], h[1]] + [h[2], h[3]];
    assert h == h[..4] + h[4..8] && e == e[..4] + e[4..8];
  }

  /** The header part of both directions. */
  lemma HeaderExact(b: Bytes, p: Packet)
    requires Fits(p) && |b| >= HEADER_LEN
    ensures b[..CRC1_OFFSET] == Header(p, p.tr)
            <==> TypOf(b[0]) == p.typ && TrOf(b[0]) == p.tr && WindowOf(b[0]) == p.window
                 && b[1] == p.seqnum && FromBE16(b[2], b[3]) == p.length && b[4..8] == p.ts
    ensures b[..CRC1_OFFSET] == Header(p, p.tr) ==> CoveredByCrc1(b) == Header(p, false)
  {
    FirstByteFields(p.typ, p.tr, p.window, b[0]);
    SliceOfTake(b, CRC1_OFFSET, 4, 8);
    HeaderBytes(p, p.tr, b[..CRC1_OFFSET]);
    var covered := CoveredByCrc1(b);
    assert covered[4..8] == b[4..8];
    HeaderBytes(p, false, covered);
  }

  lemma DecodedIsCarried(crc: Crc, b: Bytes, p: Packet)
    requires Decode(crc, b) == Ok(p)
    ensures Carries(crc, b, p)
  {
    HeaderExact(b, p);
    BE32Inverse(crc(Header(p, false)), b[CRC1_OFFSET..HEADER_LEN]);
    assert b[..HEADER_LEN] == Header(p, p.tr) + BE32(crc(Header(p, false)));
    if p.payload != [] {
      BE32Inverse(crc(p.payload), b[HEADER_LEN + |p.payload|..]);
      assert b == b[..HEADER_LEN] + (p.payload + BE32(crc(p.payload)));
    } else if |b| == HEADER_LEN {
      assert b == b[..HEADER_LEN];
    }
  }

  /** The pieces of a wire image, possibly with bytes after them. */
  lemma WireParts(crc: Crc, b: Bytes, p: Packet)
    requires Fits(p) && Wire(crc, p) <= b
    ensures |b| >= HEADER_LEN + |p.payload| && b[..CRC1_OFFSET] == Header(p, p.tr)
    ensures b[CRC1_OFFSET..HEADER_LEN] == BE32(crc(Header(p, false)))
    ensures p.payload != [] && b == Wire(crc, p) ==>
              && b[HEADER_LEN..HEADER_LEN + |p.payload|] == p.payload
              && b[HEADER_LEN + |p.payload|..] == BE32(crc(p.payload))
  {
    var w := Wire(crc, p);
    assert w[..HEADER_LEN] == Header(p, p.tr) + BE32(crc(Header(p, false)));
    assert b[..HEADER_LEN] == w[..HEADER_LEN];
    assert b[..CRC1_OFFSET] == b[..HEADER_LEN][..CRC1_OFFSET];
    assert b[CRC1_OFFSET..HEADER_LEN] == b[..HEADER_LEN][CRC1_OFFSET..];
    if p.payload != [] && b == w {
      var tail := b[HEADER_LEN..];
      assert tail == p.payload + BE32(crc(p.payload));
      assert b[HEADER_LEN..HEADER_LEN + |p.payload|] == tail[..|p.payload|];
      assert b[HEADER_LEN + |p.payload|..] == tail[|p.payload|..];
    }
  }

  /** The header checks pass on the header of a well-formed packet. */
  lemma HeaderPasses(crc: Crc, b: Bytes, p: Packet)
    requires WellFormed(p) && |b| >= HEADER_LEN && b[..CRC1_OFFSET] == Header(p, p.tr)
    requires FromBE32(b[CRC1_OFFSET..HEADER_LEN]) == crc(Header(p, false))
    ensures HeaderCheck(crc, b) == PktOk
  {
    HeaderExact(b, p);
  }

  /** The payload checks pass on its payload. */
  lemma PayloadPasses(crc: Crc, b: Bytes, p: Packet)
    requires WellFormed(p) && HEADER_LEN <= |b| <= STRUCT_LEN && b[..CRC1_OFFSET] == Header(p, p.tr)
    requires if p.payload == [] then |b| == HEADER_LEN || |b| == HEADER_LEN + FOOTER_LEN
             else |b| == HEADER_LEN + |p.payload| + FOOTER_LEN
                  && b[HEADER_LEN..HEADER_LEN + |p.payload|] == p.payload
                  && FromBE32(b[HEADER_LEN + |p.payload|..]) == crc(p.payload)
    ensures FromBE16(b[2], b[3]) <= MAX_PAYLOAD_SIZE && PayloadCheck(crc, b) == PktOk
    ensures PayloadLen(|b|) == |p.payload|
  {
    HeaderExact(b, p);
  }

  /** The decoder returns the packet whose header and payload it finds. */
  lemma DecodesTo(crc: Crc, b: Bytes, p: Packet)
    requires Fits(p) && HEADER_LEN <= |b| <= STRUCT_LEN && b[..CRC1_OFFSET] == Header(p, p.tr)
    requires HeaderCheck(crc, b) == PktOk && PayloadCheck(crc, b) == PktOk
    requires PayloadLen(|b|) == |p.payload| && HEADER_LEN + |p.payload| <= |b|
    requires b[HEADER_LEN..HEADER_LEN + |p.payload|] == p.payload
    ensures Decode(crc, b) == Ok(p)
  {
    HeaderExact(b, p);
  }

  lemma CarriedIsDecoded(crc: Crc, b: Bytes, p: Packet)
    requires Carries(crc, b, p)
    ensures Decode(crc, b) == Ok(p)
  {
    assert Wire(crc, p) <= b by {
      if b != Wire(crc, p) { assert b == b[..HEADER_LEN] + b[HEADER_LEN..]; }
    }
    WireParts(crc, b, p);
    BE32Inverse(crc(Header(p, false)), b[CRC1_OFFSET..HEADER_LEN]);
    if p.payload != [] { BE32Inverse(crc(p.payload), b[HEADER_LEN + |p.payload|..]); }
    HeaderPasses(crc, b, p);
    PayloadPasses(crc, b, p);
    DecodesTo(crc, b, p);
  }

  /** Decoding what was encoded gives the packet back. */
  lemma RoundTrip(crc: Crc, p: Packet)
    requires WellFormed(p)
    ensures Decode(crc, Wire(crc, p)) == Ok(p)
  {
    DecodeExact(crc, Wire(crc, p), p);
  }

  /** A data packet cut down to its header, with TR set by the network, decodes to
      the same header fields: CRC1 is computed with TR clear on both sides. */
  lemma TruncationTransparent(crc: Crc, p: Packet)
    requires WellFormed(p) && p.typ == DATA
    ensures Decode(crc, Truncate(Wire(crc, p))) == Ok(p.(tr := true, payload := []))
    ensures Truncate(Wire(crc, p)) == Wire(crc, p.(tr := true, payload := []))
  {
    var q := p.(tr := true, payload := []);
    FirstByteFields(p.typ, p.tr, p.window, FirstByte(p.typ, p.tr, p.window));
    assert Header(q, false) == Header(p, false);
    assert Truncate(Wire(crc, p)) == Wire(crc, q);
    RoundTrip(crc, q);
  }

  /** An accepted packet that was not truncated re-encodes to the bytes received,
      up to the four bytes that may follow an empty payload. */
  lemma ReencodesToReceived(crc: Crc, b: Bytes)
    requires Decode(crc, b).Ok? && !Decode(crc, b).value.tr
    ensures var p := Decode(crc, b).value;
            && WellFormed(p)
            && Wire(crc, p) == (if p.payload == [] then b[..HEADER_LEN] else b)
            && (|b| == HEADER_LEN || |b| == HEADER_LEN + FOOTER_LEN + |p.payload|)
  {
    var p := Decode(crc, b).value;
    DecodeExact(crc, b, p);
    if p.payload == [] && b == Wire(crc, p) {
      assert b[..HEADER_LEN] == b;
    }
  }

  /** A packet whose sequence byte was overwritten after encoding passes the
      decoder only on a collision of the header checksum. */
  lemma OverwrittenSeqnum(crc: Crc, p: Packet, s: uint8)
    requires WellFormed(p) && s != p.seqnum
    ensures Decode(crc, Wire(crc, p)[1 := s]).Ok?
            <==> crc(Header(p, false)) == crc(Header(p.(seqnum := s), false))
  {
    var v, w, q := Wire(crc, p), Wire(crc, p)[1 := s], p.(seqnum := s);
    RoundTrip(crc, p);
    WireParts(crc, v, p);
    BE32Inverse(crc(Header(p, false)), v[CRC1_OFFSET..HEADER_LEN]);
    HeaderExact(v, p);
    assert w[CRC1_OFFSET..HEADER_LEN] == v[CRC1_OFFSET..HEADER_LEN];
    assert CoveredByCrc1(w) == CoveredByCrc1(v)[1 := s];
    HeaderBytes(q, false, CoveredByCrc1(w));
    HeaderBytes(p, false, CoveredByCrc1(v));
    SliceOfTake(CoveredByCrc1(w), CRC1_OFFSET, 4, 8);
    assert CoveredByCrc1(w)[4..8] == CoveredByCrc1(v)[4..8];
    assert w[HEADER_LEN..] == v[HEADER_LEN..];
    SamePayloadCheck(crc, v, w);
  }

  // ---------- Lengths

  /** pkt_len, on the host form. */
  function PktLen(length: uint16): nat {
    if length != 0 then HEADER_LEN + FOOTER_LEN + length else HEADER_LEN
  }

  /** pkt_len_serial, on the encoded form. */
  function PktLenSerial(w: Bytes): nat
    requires |w| >= 4
  {
    if w[2] != 0 || w[3] != 0 then HEADER_LEN + FOOTER_LEN + FromBE16(w[2], w[3]) else HEADER_LEN
  }

  /** net_send writes exactly the encoded packet, whatever follows it in memory. */
  lemma SerialLength(crc: Crc, p: Packet, rest: Bytes)
    requires WellFormed(p) && !p.tr
    ensures PktLenSerial(Wire(crc, p) + rest) == PktLen(p.length) == |Wire(crc, p)|
  {
    var w := Wire(crc, p) + rest;
    assert [w[2], w[3]] == BE16(p.length);
  }

  // ---------- The code on memory images

  /** The struct in memory, in host order, has the fields of p. */
  ghost predicate Represents(img: Bytes, p: Packet) {
    && Fits(p) && |img| >= HEADER_LEN + |p.payload|
    && img[0] == FirstByte(p.typ, p.tr, p.window) && img[1] == p.seqnum
    && img[2] + 0x100 * (img[3] as int) == p.length && img[4..8] == p.ts
    && img[HEADER_LEN..HEADER_LEN + |p.payload|] == p.payload
  }

  /** CRC1 replaced by another word. */
  function WithCrc1(b: Bytes, word: Bytes): Bytes
    requires |b| >= HEADER_LEN
  {
    b[..CRC1_OFFSET] + word + b[HEADER_LEN..]
  }

  /** The length field, its bytes exchanged. */
  lemma LengthSwapped(img: Bytes, p: Packet)
    requires Represents(img, p)
    ensures [img[3], img[2]] == BE16(p.length)
  {
    BE16Inverse(p.length, img[3], img[2]);
  }

  /** The header in network order with TR clear, before its checksum. */
  lemma HeaderReady(img0: Bytes, img: Bytes, p: Packet)
    requires Represents(img0, p) && |img| == |img0|
    requires img == img0[2 := img0[3]][3 := img0[2]][0 := WithTr(img0[0], false)]
    ensures img[..CRC1_OFFSET] == Header(p, false)
  {
    FirstByteFields(p.typ, p.tr, p.window, img0[0]);
    LengthSwapped(img0, p);
    assert img[4..8] == img0[4..8];
    assert img[..CRC1_OFFSET] == [img[0], img[1]] + [img[2], img[3]] + img[4..8];
  }

  /** And with TR put back behind it. */
  lemma HeaderDone(img: Bytes, img': Bytes, p: Packet, word: Bytes, tr: bool)
    requires Fits(p) && |img| >= HEADER_LEN && |word| == 4 && img[..CRC1_OFFSET] == Header(p, false) && tr == p.tr
    requires img' == WithCrc1(img, word)[0 := WithTr(img[0], tr)]
    ensures img'[..HEADER_LEN] == Header(p, p.tr) + word && img'[HEADER_LEN..] == img[HEADER_LEN..]
  {
    FirstByteFields(p.typ, p.tr, p.window, FirstByte(p.typ, p.tr, p.window));
    assert img[0] == Header(p, false)[0];
    assert img[1..CRC1_OFFSET] == Header(p, false)[1..] == Header(p, p.tr)[1..];
    assert img'[..CRC1_OFFSET] == [WithTr(img[0], tr)] + img[1..CRC1_OFFSET];
    assert img'[CRC1_OFFSET..HEADER_LEN] == word;
    assert img'[..HEADER_LEN] == img'[..CRC1_OFFSET] + img'[CRC1_OFFSET..HEADER_LEN];
  }

  /** Stores a 32-bit word at an offset. */
  method Put32(buf: array<uint8>, offset: nat, word: Bytes)
    requires |word| == 4 && offset + 4 <= buf.Length
    modifies buf
    ensures buf[..] == old(buf[..offset]) + word + old(buf[offset + 4..])
  {
    buf[offset], buf[offset + 1] := word[0], word[1];
    buf[offset + 2], buf[offset + 3] := word[2], word[3];
  }

  /** The header half of pkt_encode_inline: network order, then CRC1. */
  method EncodeHeader(crc: Crc, buf: array<uint8>, ghost p: Packet)
    requires Represents(buf[..], p)
    modifies buf
    ensures buf[..HEADER_LEN] == Header(p, p.tr) + BE32(crc(Header(p, false)))
    ensures buf[HEADER_LEN..] == old(buf[HEADER_LEN..])
  {
    FirstByteFields(p.typ, p.tr, p.window, buf[0]);
    ghost var b0 := buf[..];
    buf[2], buf[3] := buf[3], buf[2];
    var tr := TrOf(buf[0]);
    buf[0] := WithTr(buf[0], false);
    ghost var b1 := buf[..];
    HeaderReady(b0, b1, p);
    Put32(buf, CRC1_OFFSET, BE32(crc(buf[..CRC1_OFFSET])));
    buf[0] := WithTr(buf[0], tr);
    HeaderDone(b1, buf[..], p, BE32(crc(Header(p, false))), tr);
  }

  /** pkt_encode_inline: host form to wire form, in place. */
  method PktEncodeInline(crc: Crc, buf: array<uint8>, ghost p: Packet)
    requires Represents(buf[..], p) && |p.payload| == p.length && buf.Length >= PktLen(p.length)
    modifies buf
    ensures buf[..PktLen(p.length)] == Wire(crc, p)
    ensures buf[PktLen(p.length)..] == old(buf[PktLen(p.length)..])
  {
    var plen := FromBE16(buf[3], buf[2]);
    ghost var b0 := buf[..];
    EncodeHeader(crc, buf, p);
    ghost var b1 := buf[..];
    TakeOfDrop(b0, HEADER_LEN, plen);
    TakeOfDrop(b1, HEADER_LEN, plen);
    assert b1[HEADER_LEN..HEADER_LEN + plen] == p.payload;
    if plen != 0 {
      Put32(buf, HEADER_LEN + plen, BE32(crc(buf[HEADER_LEN..HEADER_LEN + plen])));
      Joined(b1, buf[..], p.payload, BE32(crc(p.payload)));
    }
  }

  /** A footer written behind a payload that follows the header. */
  lemma Joined(img: Bytes, img': Bytes, payload: Bytes, footer: Bytes)
    requires |img| == |img'| >= HEADER_LEN + |payload| + |footer|
    requires img[HEADER_LEN..HEADER_LEN + |payload|] == payload
    requires img' == img[..HEADER_LEN + |payload|] + footer + img[HEADER_LEN + |payload| + |footer|..]
    ensures img'[..HEADER_LEN + |payload| + |footer|] == img[..HEADER_LEN] + (payload + footer)
  {
    SliceOfTake(img, HEADER_LEN + |payload|, 0, HEADER_LEN);
    SliceOfTake(img, HEADER_LEN + |payload|, HEADER_LEN, HEADER_LEN + |payload|);
    assert img[..HEADER_LEN + |payload|] == img[..HEADER_LEN] + payload;
  }

  /** pkt_encode: copies the struct and encodes the copy, if there is a buffer and it is
      large enough. */
  method PktEncode(crc: Crc, pkt: array<uint8>, buf: array?<uint8>, len: Option<nat>, ghost p: Packet)
      returns (status: Status, outLen: Option<nat>)
    requires Represents(pkt[..], p) && |p.payload| == p.length && pkt.Length == STRUCT_LEN && pkt != buf
    requires buf != null && len.Some? ==> len.value <= buf.Length
    modifies buf
    ensures status == if buf != null && len.Some? && len.value >= PktLen(p.length) then PktOk else ENoMem
    ensures status == PktOk ==> outLen == Some(PktLen(p.length)) && buf[..PktLen(p.length)] == Wire(crc, p)
    ensures status == ENoMem ==> outLen == len && (buf != null ==> buf[..] == old(buf[..]))
  {
    if len.None? || buf == null { return ENoMem, len; }
    var target := PktLen(FromBE16(pkt[3], pkt[2]));
    if len.value < target { return ENoMem, len; }
    CopyAndEncode(crc, pkt, buf, target, p);
    return PktOk, Some(target);
  }

  /** memcpy of all but the footer, and the encoding in place. */
  method CopyAndEncode(crc: Crc, pkt: array<uint8>, buf: array<uint8>, target: nat, ghost p: Packet)
    requires Represents(pkt[..], p) && |p.payload| == p.length && pkt.Length == STRUCT_LEN && pkt != buf
    requires target == PktLen(p.length) <= buf.Length
    modifies buf
    ensures buf[..target] == Wire(crc, p)
  {
    forall i | 0 <= i < target - FOOTER_LEN { buf[i] := pkt[i]; }
    assert buf[4..8] == pkt[4..8];
    assert buf[HEADER_LEN..HEADER_LEN + |p.payload|] == pkt[HEADER_LEN..HEADER_LEN + |p.payload|];
    PktEncodeInline(crc, buf, p);
  }

  /** Clearing TR in place leaves the bytes that CRC1 covers, and CRC1. */
  lemma TrCleared(b: Bytes)
    requires |b| >= HEADER_LEN
    ensures var c := b[0 := WithTr(b[0], false)];
            c[..CRC1_OFFSET] == CoveredByCrc1(b) && c[CRC1_OFFSET..HEADER_LEN] == b[CRC1_OFFSET..HEADER_LEN]
  {
  }

  lemma TrTwice(x: uint8)
    ensures WithTr(WithTr(x, false), TrOf(x)) == x
  {
  }

  /** Putting TR back afterwards. */
  lemma TrRestored(b: Bytes, word: Bytes)
    requires |b| >= HEADER_LEN && |word| == 4
    ensures var d := WithCrc1(b[0 := WithTr(b[0], false)], word);
            d[0 := WithTr(d[0], TrOf(b[0]))] == WithCrc1(b, word)
  {
    TrTwice(b[0]);
  }

  /** The header half of pkt_decode_inline. A header that passes comes out with
      CRC1 in host order and is otherwise unchanged; TR is cleared only while the
      checksum is computed. */
  method DecodeHeader(crc: Crc, buf: array<uint8>) returns (status: Status)
    requires buf.Length == STRUCT_LEN
    modifies buf
    ensures status == HeaderCheck(crc, old(buf[..]))
    ensures status == PktOk ==> buf[..] == WithCrc1(old(buf[..]), LE32(crc(CoveredByCrc1(old(buf[..])))))
    ensures status == PktOk ==>
              buf[8] + 0x100 * (buf[9] as int) + 0x1_0000 * (buf[10] as int) + 0x100_0000 * (buf[11] as int)
              == crc(CoveredByCrc1(old(buf[..])))
  {
    ghost var b := buf[..];
    var typ, tr := TypOf(buf[0]), TrOf(buf[0]);
    if !ValidType(typ) { return ETyp; }
    if !ValidTr(typ, tr) { return ETr; }
    if FromBE16(buf[2], buf[3]) > MAX_PAYLOAD_SIZE { return ELength; }
    buf[0] := WithTr(buf[0], false);
    TrCleared(b);
    assert buf[..] == b[0 := WithTr(b[0], false)];
    var crc1 := FromBE32(buf[CRC1_OFFSET..HEADER_LEN]);
    if crc1 != crc(buf[..CRC1_OFFSET]) { return ECrc; }
    Put32(buf, CRC1_OFFSET, LE32(crc1));
    TrRestored(b, LE32(crc1));
    buf[0] := WithTr(buf[0], tr);
    assert buf[8..8 + 4] == LE32(crc1);
    WordInHostOrder(buf[..], 8, crc1);
    return PktOk;
  }

  /** The payload half of pkt_decode_inline. CRC2 goes to the last four bytes of
      the struct in host order, behind the largest payload. */
  method DecodePayload(crc: Crc, buf: array<uint8>, rlen: nat) returns (status: Status)
    requires buf.Length == STRUCT_LEN && HEADER_LEN <= rlen <= STRUCT_LEN
    requires FromBE16(buf[2], buf[3]) <= MAX_PAYLOAD_SIZE
    modifies buf
    ensures status == PayloadCheck(crc, old(buf[..rlen]))
    ensures buf[..CRC2_OFFSET] == old(buf[..CRC2_OFFSET])
    ensures status == PktOk && PayloadLen(rlen) != 0 ==>
              && HEADER_LEN + PayloadLen(rlen) <= rlen
              && buf[CRC2_OFFSET..] == LE32(crc(old(buf[HEADER_LEN..HEADER_LEN + PayloadLen(rlen)])))
  {
    ghost var b := buf[..rlen];
    var plen, payloadLen := FromBE16(buf[2], buf[3]), PayloadLen(rlen);
    if TypOf(buf[0]) == DATA {
      if (if TrOf(buf[0]) then payloadLen != 0 else plen != payloadLen) { return EUnconsistent; }
      if payloadLen != 0 {
        assert buf[rlen - FOOTER_LEN..rlen] == b[HEADER_LEN + payloadLen..];
        assert buf[HEADER_LEN..HEADER_LEN + payloadLen] == b[HEADER_LEN..HEADER_LEN + payloadLen];
        var crc2 := FromBE32(buf[rlen - FOOTER_LEN..rlen]);
        if crc2 != crc(buf[HEADER_LEN..HEADER_LEN + payloadLen]) { return ECrc; }
        Put32(buf, CRC2_OFFSET, LE32(crc2));
        assert buf[..CRC2_OFFSET] == old(buf[..CRC2_OFFSET]);
      }
    } else if payloadLen != 0 || plen != 0 {
      return EUnconsistent;
    }
    return PktOk;
  }

  lemma SamePayloadCheck(crc: Crc, b: Bytes, h: Bytes)
    requires HEADER_LEN <= |b| == |h| <= STRUCT_LEN && FromBE16(b[2], b[3]) <= MAX_PAYLOAD_SIZE
    requires h[0] == b[0] && h[2] == b[2] && h[3] == b[3] && b[HEADER_LEN..] == h[HEADER_LEN..]
    ensures PayloadCheck(crc, h) == PayloadCheck(crc, b)
  {
    var n := PayloadLen(|b|);
    if HEADER_LEN + n <= |b| {
      TakeOfDrop(b, HEADER_LEN, n);
      TakeOfDrop(h, HEADER_LEN, n);
    }
  }

  /** An accepted packet fits the struct, its payload where the bytes had it. */
  lemma DecodedFits(crc: Crc, b: Bytes)
    requires Decode(crc, b).Ok?
    ensures var p := Decode(crc, b).value;
            Fits(p) && |p.payload| == PayloadLen(|b|) && HEADER_LEN + |p.payload| <= |b|
  {
  }

  /** Storing the length in host order finishes the struct of an accepted packet. */
  lemma HostForm(crc: Crc, b: Bytes, img: Bytes)
    requires Decode(crc, b).Ok? && |img| == STRUCT_LEN
    requires img[..CRC1_OFFSET] == b[..CRC1_OFFSET]
    requires var n := |Decode(crc, b).value.payload|;
             n <= MAX_PAYLOAD_SIZE && img[HEADER_LEN..HEADER_LEN + n] == b[HEADER_LEN..HEADER_LEN + n]
    ensures var p := Decode(crc, b).value;
            Represents(img[2 := p.length % 256][3 := p.length / 256], p)
  {
    var p := Decode(crc, b).value;
    var host := img[2 := p.length % 256][3 := p.length / 256];
    DecodedFits(crc, b);
    SliceOfTake(img, CRC1_OFFSET, 4, 8);
    SliceOfTake(b, CRC1_OFFSET, 4, 8);
    FirstByteFields(p.typ, p.tr, p.window, b[0]);
    assert host[0] == img[..CRC1_OFFSET][0] && host[1] == img[..CRC1_OFFSET][1];
    assert host[4..8] == img[4..8];
    assert host[HEADER_LEN..HEADER_LEN + |p.payload|] == img[HEADER_LEN..HEADER_LEN + |p.payload|];
  }

  /** A word stored in host order. */
  lemma WordInHostOrder(img: Bytes, a: nat, x: uint32)
    requires a + 4 <= |img| && img[a..a + 4] == LE32(x)
    ensures img[a] + 0x100 * (img[a + 1] as int) + 0x1_0000 * (img[a + 2] as int)
            + 0x100_0000 * (img[a + 3] as int) == x
  {
    LE32Bytes(x);
    var word := img[a..a + 4];
    assert word[0] == img[a] && word[1] == img[a + 1] && word[2] == img[a + 2] && word[3] == img[a + 3];
  }

  /** The struct of a decoded packet: its fields, and both checksums in host order. */
  ghost predicate HostStruct(crc: Crc, img: Bytes, p: Packet) {
    && |img| == 528 && Represents(img, p)
    && img[8] + 0x100 * (img[9] as int) + 0x1_0000 * (img[10] as int) + 0x100_0000 * (img[11] as int)
       == crc(Header(p, false))
    && (p.payload != [] ==>
          img[524] + 0x100 * (img[525] as int) + 0x1_0000 * (img[526] as int) + 0x100_0000 * (img[527] as int)
          == crc(p.payload))
  }

  /** pkt_decode_inline: checks rlen received bytes and converts them to host form
      in place. */
  method PktDecodeInline(crc: Crc, buf: array<uint8>, rlen: nat) returns (status: Status)
    requires buf.Length == STRUCT_LEN && rlen <= STRUCT_LEN
    modifies buf
    ensures match Decode(crc, old(buf[..rlen]))
            case Ok(p) => status == PktOk && HostStruct(crc, buf[..], p)
            case Err(e) => status == e
  {
    if rlen < HEADER_LEN { return ENoHeader; }
    var plen := FromBE16(buf[2], buf[3]);
    ghost var b0 := buf[..];
    status := DecodeHeader(crc, buf);
    PrefixChecks(crc, b0, rlen);
    if status != PktOk { return; }
    ghost var b1 := buf[..];
    PrefixPayload(crc, b0, b1, rlen);
    status := DecodePayload(crc, buf, rlen);
    if status != PktOk { return; }
    FinishedFields(crc, b0, b1, buf[..], rlen);
    FinishedChecksums(crc, b0, b1, buf[..], rlen);
    buf[2], buf[3] := plen % 256, plen / 256;
  }

  /** What the two checksums of an accepted packet cover. */
  lemma Checksums(crc: Crc, b: Bytes)
    requires Decode(crc, b).Ok?
    ensures var p := Decode(crc, b).value; CoveredByCrc1(b) == Header(p, false)
  {
    var p := Decode(crc, b).value;
    DecodedFits(crc, b);
    HeaderExact(b, p);
  }

  /** Both halves of the decoder leave the checksums of an accepted packet in host order. */
  lemma FinishedChecksums(crc: Crc, img0: Bytes, img1: Bytes, img2: Bytes, rlen: nat)
    requires rlen <= |img0| == |img1| == |img2| == STRUCT_LEN && Decode(crc, img0[..rlen]).Ok?
    requires img1 == WithCrc1(img0, LE32(crc(CoveredByCrc1(img0)))) && img2[..CRC2_OFFSET] == img1[..CRC2_OFFSET]
    requires PayloadLen(rlen) != 0 ==>
               HEADER_LEN + PayloadLen(rlen) <= rlen
               && img2[CRC2_OFFSET..] == LE32(crc(img1[HEADER_LEN..HEADER_LEN + PayloadLen(rlen)]))
    ensures var p := Decode(crc, img0[..rlen]).value;
            var img := img2[2 := p.length % 256][3 := p.length / 256];
            Represents(img, p) ==> HostStruct(crc, img, p)
  {
    var b := img0[..rlen];
    var p := Decode(crc, b).value;
    Checksums(crc, b);
    DecodedFits(crc, b);
    assert CoveredByCrc1(b) == CoveredByCrc1(img0);
    SliceOfTake(img2, CRC2_OFFSET, CRC1_OFFSET, HEADER_LEN);
    SliceOfTake(img1, CRC2_OFFSET, CRC1_OFFSET, HEADER_LEN);
    var n := |p.payload|;
    TakeOfDrop(img1, HEADER_LEN, n);
    TakeOfDrop(img0, HEADER_LEN, n);
    SliceOfTake(img0, rlen, HEADER_LEN, HEADER_LEN + n);
    assert img1[HEADER_LEN..] == img0[HEADER_LEN..];
    var img := img2[2 := p.length % 256][3 := p.length / 256];
    assert img[8..8 + 4] == img2[CRC1_OFFSET..HEADER_LEN];
    WordInHostOrder(img, 8, crc(Header(p, false)));
    if n > 0 {
      assert img[524..524 + 4] == img2[CRC2_OFFSET..];
      WordInHostOrder(img, 524, crc(p.payload));
    }
  }

  /** The header checks look at the first twelve bytes only. */
  lemma PrefixChecks(crc: Crc, img: Bytes, rlen: nat)
    requires HEADER_LEN <= rlen <= |img|
    ensures HeaderCheck(crc, img[..rlen]) == HeaderCheck(crc, img)
  {
    assert img[..rlen][CRC1_OFFSET..HEADER_LEN] == img[CRC1_OFFSET..HEADER_LEN];
    assert img[..rlen][1..CRC1_OFFSET] == img[1..CRC1_OFFSET];
  }

  /** The payload checks give the same answer after the header was converted. */
  lemma PrefixPayload(crc: Crc, img: Bytes, img': Bytes, rlen: nat)
    requires HEADER_LEN <= rlen <= |img| == |img'| == STRUCT_LEN && FromBE16(img[2], img[3]) <= MAX_PAYLOAD_SIZE
    requires img'[..CRC1_OFFSET] == img[..CRC1_OFFSET] && img'[HEADER_LEN..] == img[HEADER_LEN..]
    ensures [img'[0], img'[2], img'[3]] == [img[0], img[2], img[3]]
    ensures PayloadCheck(crc, img'[..rlen]) == PayloadCheck(crc, img[..rlen])
  {
    var b, b' := img[..rlen], img'[..rlen];
    assert forall i :: 0 <= i < CRC1_OFFSET ==> img'[i] == img'[..CRC1_OFFSET][i] == img[..CRC1_OFFSET][i] == img[i];
    assert b[HEADER_LEN..] == img[HEADER_LEN..][..rlen - HEADER_LEN];
    assert b'[HEADER_LEN..] == img'[HEADER_LEN..][..rlen - HEADER_LEN];
    SamePayloadCheck(crc, b, b');
  }

  /** Neither half of the decoder touches the fields of an accepted packet. */
  lemma FinishedFields(crc: Crc, img0: Bytes, img1: Bytes, img2: Bytes, rlen: nat)
    requires rlen <= |img0| == |img1| == |img2| == STRUCT_LEN && Decode(crc, img0[..rlen]).Ok?
    requires img1[..CRC1_OFFSET] == img0[..CRC1_OFFSET] && img1[HEADER_LEN..] == img0[HEADER_LEN..]
    requires img2[..CRC2_OFFSET] == img1[..CRC2_OFFSET]
    ensures var p := Decode(crc, img0[..rlen]).value;
            Represents(img2[2 := p.length % 256][3 := p.length / 256], p)
  {
    var b := img0[..rlen];
    DecodedFits(crc, b);
    var n := |Decode(crc, b).value.payload|;
    SliceOfTake(img2, CRC2_OFFSET, 0, CRC1_OFFSET);
    SliceOfTake(img1, CRC2_OFFSET, 0, CRC1_OFFSET);
    SliceOfTake(img0, rlen, 0, CRC1_OFFSET);
    SliceOfTake(img2, CRC2_OFFSET, HEADER_LEN, HEADER_LEN + n);
    SliceOfTake(img1, CRC2_OFFSET, HEADER_LEN, HEADER_LEN + n);
    SliceOfTake(img0, rlen, HEADER_LEN, HEADER_LEN + n);
    TakeOfDrop(img1, HEADER_LEN, n);
    TakeOfDrop(img0, HEADER_LEN, n);
    HostForm(crc, b, img2);
  }
}
