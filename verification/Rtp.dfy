/** RTP packets as the sender builds them, byte by byte, and the receivers that RFC 3550,
    RFC 6184 and RFC 3640 describe. Masks and shifts of the source are written as division and
    remainder: b & 0x1F is b % 32, (b & 0x60) is b / 32 % 4 * 32, and a bitwise or of disjoint
    bits is a sum. */
module Rtp {
  import opened Common

  type byte = b: int | 0 <= b < 256

  const HEADER_SIZE := 12
  const MAX_PACKET := 1024
  const MAX_PAYLOAD := MAX_PACKET - HEADER_SIZE
  const MAX_FRAGMENT := MAX_PAYLOAD - 2
  const RTP_BUF := MAX_PACKET + 10
  const AAC_ROOM := RTP_BUF - HEADER_SIZE - 4
  const H264_TYPE := 96
  const AAC_TYPE := 97
  const TWO16 := 0x1_0000
  const TWO32 := 0x1_0000_0000

  // ---------------------------------------------------------------- fixed header

  function BigEndian16(n: nat): seq<byte> {
    [n / 256 % 256, n % 256]
  }

  function BigEndian32(n: nat): seq<byte> {
    BigEndian16(n / TWO16) + BigEndian16(n % TWO16)
  }

  function Int16(s: seq<byte>, at: nat): nat
    requires at + 2 <= |s|
  {
    256 * (s[at] as int) + s[at + 1] as int
  }

  function Int32(s: seq<byte>, at: nat): nat
    requires at + 4 <= |s|
  {
    TWO16 * Int16(s, at) + Int16(s, at + 2)
  }

  lemma TwoBytes(n: nat)
    ensures 256 * (n / 256 % 256) + n % 256 == n % TWO16
  {
    var m := n / 256;
    assert n == TWO16 * (m / 256) + (256 * (m % 256) + n % 256);
  }

  lemma Int16OfBigEndian(n: nat, s: seq<byte>, at: nat)
    requires at + 2 <= |s| && s[at..at + 2] == BigEndian16(n)
    ensures Int16(s, at) == n % TWO16
  {
    TwoBytes(n);
    assert s[at] == s[at..at + 2][0] && s[at + 1] == s[at..at + 2][1];
  }

  lemma Int32OfBigEndian(n: nat, s: seq<byte>, at: nat)
    requires n < TWO32 && at + 4 <= |s| && s[at..at + 4] == BigEndian32(n)
    ensures Int32(s, at) == n
  {
    var b := BigEndian32(n);
    assert s[at] == b[0] && s[at + 1] == b[1] && s[at + 2] == b[2] && s[at + 3] == b[3] by {
      assert s[at..at + 4][0] == b[0] && s[at..at + 4][1] == b[1]
             && s[at..at + 4][2] == b[2] && s[at..at + 4][3] == b[3];
    }
  }

  function Header(marker: bool, payloadType: nat, seqNo: nat, timestamp: nat, ssrc: nat): (h: seq<byte>)
    requires payloadType < 128
    ensures |h| == HEADER_SIZE
  {
    [0x80, (if marker then 128 else 0) + payloadType] + BigEndian16(seqNo) + BigEndian32(timestamp) + BigEndian32(ssrc)
  }

  datatype Packet = Packet(marker: bool, payloadType: nat, seqNo: nat, timestamp: nat, ssrc: nat, payload: seq<byte>)

  // Section 5.1 of RFC 3550: version 2 without padding, extension or contributing sources.
  function Parse(p: seq<byte>): Option<Packet> {
    if |p| < HEADER_SIZE || p[0] != 0x80 then None
    else Some(Packet(p[1] >= 128, p[1] % 128, Int16(p, 2), Int32(p, 4), Int32(p, 8), p[HEADER_SIZE..]))
  }

  lemma ParseHeader(marker: bool, payloadType: nat, seqNo: nat, timestamp: nat, ssrc: nat, payload: seq<byte>)
    requires payloadType < 128 && timestamp < TWO32 && ssrc < TWO32
    ensures Parse(Header(marker, payloadType, seqNo, timestamp, ssrc) + payload) ==
            Some(Packet(marker, payloadType, seqNo % TWO16, timestamp, ssrc, payload))
  {
    hide BigEndian32, Int32, BigEndian16, Int16, Header;
    var p := Header(marker, payloadType, seqNo, timestamp, ssrc) + payload;
    HeaderBytes(marker, payloadType, seqNo, timestamp, ssrc, payload);
    Int16OfBigEndian(seqNo, p, 2);
    Int32OfBigEndian(timestamp, p, 4);
    Int32OfBigEndian(ssrc, p, 8);
  }

  lemma HeaderBytes(marker: bool, payloadType: nat, seqNo: nat, timestamp: nat, ssrc: nat, payload: seq<byte>)
    requires payloadType < 128
    ensures var p := Header(marker, payloadType, seqNo, timestamp, ssrc) + payload;
            && p[0] == 0x80 && (p[1] >= 128 <==> marker) && p[1] % 128 == payloadType
            && p[2..4] == BigEndian16(seqNo) && p[4..8] == BigEndian32(timestamp) && p[8..12] == BigEndian32(ssrc)
            && p[HEADER_SIZE..] == payload
  {}

  // ---------------------------------------------------------------- sender

  datatype Sender = Sender(seqNo: nat, timestamp: nat, increment: nat, ssrc: nat)
  {
    predicate Ok() { timestamp < TWO32 && ssrc < TWO32 }

    function Tick(): Sender { this.(timestamp := (timestamp + increment) % TWO32) }
  }

  // The length of the start code at the front of an Annex B frame; 0 if there is none.
  function StartCode(p: seq<byte>): (n: nat)
    ensures n == 3 || n == 4 || n == 0
    ensures n <= |p|
  {
    if |p| >= 3 && p[0] == 0 && p[1] == 0 && p[2] == 1 then 3
    else if |p| >= 4 && p[0] == 0 && p[1] == 0 && p[2] == 0 && p[3] == 1 then 4
    else 0
  }

  // Every byte the start-code test and the type test look at is inside the frame.
  predicate Readable(p: seq<byte>) {
    && |p| >= 1
    && (p[0] == 0 ==> |p| >= 2)
    && (|p| >= 2 && p[0] == 0 && p[1] == 0 ==> |p| >= 3)
    && (|p| >= 3 && p[0] == 0 && p[1] == 0 && p[2] == 0 ==> |p| >= 4)
    && (StartCode(p) != 0 ==> |p| > StartCode(p))
  }

  function Min(a: int, b: int): int { if a < b then a else b }

  // F is dropped, NRI kept, type 28.
  function FuIndicator(header: byte): byte { header / 32 % 4 * 32 + 28 }

  // S, E, R = 0 and the type of the unit.
  function FuHeader(header: byte, first: bool, last: bool): byte {
    (if first then 128 else 0) + (if last then 64 else 0) + header % 32
  }

  function FuPayload(nal: seq<byte>, first: bool, last: bool, data: seq<byte>): seq<byte>
    requires nal != []
  {
    [FuIndicator(nal[0]), FuHeader(nal[0], first, last)] + data
  }

  // One FU-A packet: the piece of the NAL unit that starts at offset (its byte 0 is not sent).
  function Fragment(s: Sender, nal: seq<byte>, offset: nat): seq<byte>
    requires 1 <= offset < |nal|
  {
    var size := Min(MAX_FRAGMENT, |nal| - offset);
    var first, last := offset == 1, offset + size == |nal|;
    Header(last, H264_TYPE, s.seqNo, s.timestamp, s.ssrc) + FuPayload(nal, first, last, nal[offset..offset + size])
  }

  function Fragments(s: Sender, nal: seq<byte>, offset: nat): seq<seq<byte>>
    requires 1 <= offset && nal != []
    decreases |nal| - offset
  {
    if offset >= |nal| then []
    else [Fragment(s, nal, offset)]
         + Fragments(s.(seqNo := s.seqNo + 1), nal, offset + Min(MAX_FRAGMENT, |nal| - offset))
  }

  // What one call of send_h264 puts on the wire.
  function Packets264(s: Sender, p: seq<byte>): seq<seq<byte>> {
    var code := StartCode(p);
    var nal := p[code..];
    if code == 0 || nal == [] then []
    else if |nal| > MAX_PAYLOAD then Fragments(s, nal, 1)
    else [Header(true, H264_TYPE, s.seqNo, s.timestamp, s.ssrc) + nal]
  }

  // Parameter sets that fit one packet share the timestamp of the frame after them.
  predicate Ticks264(p: seq<byte>) {
    var code := StartCode(p);
    code != 0 && p[code..] != [] && (|p| - code > MAX_PAYLOAD || p[code] % 32 !in {7, 8})
  }

  function After264(s: Sender, p: seq<byte>): Sender {
    var s' := s.(seqNo := s.seqNo + |Packets264(s, p)|);
    if Ticks264(p) then s'.Tick() else s'
  }

  /** Which frames move the clock: all with a start code and a unit behind it, except a sequence or
      picture parameter set (types 7 and 8) that fits one packet. */
  predicate MovesClock(p: seq<byte>) {
    Framed(p) && !(|Nal(p)| <= 1012 && (Nal(p)[0] % 32 == 7 || Nal(p)[0] % 32 == 8))
  }

  lemma ClockLaw(s: Sender, p: seq<byte>)
    ensures var time := if MovesClock(p) then (s.timestamp + s.increment) % TWO32 else s.timestamp;
            After264(s, p) == s.(seqNo := s.seqNo + |Packets264(s, p)|, timestamp := time)
  {
    hide Packets264;
    if StartCode(p) != 0 && Nal(p) != [] { assert Nal(p)[0] == p[StartCode(p)]; }
  }

  /** What counts as a frame: a start code of either length with a unit behind it. */
  lemma FramedMeans(p: seq<byte>, nal: seq<byte>)
    ensures Framed(p) && Nal(p) == nal <==> nal != [] && (p == [0, 0, 1] + nal || p == [0, 0, 0, 1] + nal)
  {
    if nal != [] && p == [0, 0, 1] + nal {
      assert StartCode(p) == 3 && p[3..] == nal;
    }
    if nal != [] && p == [0, 0, 0, 1] + nal {
      assert StartCode(p) == 4 && p[4..] == nal;
    }
    if Framed(p) {
      var code := StartCode(p);
      assert p == p[..code] + Nal(p);
      assert p[..code] == [0, 0, 1] || p[..code] == [0, 0, 0, 1];
    }
  }

  /** Anything else sends nothing and changes nothing. */
  lemma RefusedFrame(s: Sender, p: seq<byte>)
    requires forall nal :: nal != [] ==> p != [0, 0, 1] + nal && p != [0, 0, 0, 1] + nal
    ensures Packets264(s, p) == [] && After264(s, p) == s
  {
    if Framed(p) { FramedMeans(p, Nal(p)); }
    ClockLaw(s, p);
  }

  // Packets byte by byte: a slice in one packet, an AAC frame, the two bytes of FU-A fragments.
  lemma WireExample()
    ensures var s := Sender(0x1234, 0x89ABCDEF, 3600, 0x01020304);
            && Packets264(s, [0, 0, 1, 0x65, 0x88]) ==
               [[0x80, 0xE0, 0x12, 0x34, 0x89, 0xAB, 0xCD, 0xEF, 1, 2, 3, 4, 0x65, 0x88]]
            && PacketAac(s, [0x21, 0x10]) ==
               [0x80, 0xE1, 0x12, 0x34, 0x89, 0xAB, 0xCD, 0xEF, 1, 2, 3, 4, 0, 0x10, 0, 0x10, 0x21, 0x10]
    ensures FuIndicator(0x65) == 0x7C && FuHeader(0x65, true, false) == 0x85
    ensures FuHeader(0x65, false, false) == 0x05 && FuHeader(0x65, false, true) == 0x45
  {
    var p: seq<byte> := [0, 0, 1, 0x65, 0x88];
    assert StartCode(p) == 3 && p[3..] == [0x65, 0x88];
    assert BigEndian32(0x89ABCDEF) == [0x89, 0xAB, 0xCD, 0xEF] && BigEndian32(0x01020304) == [1, 2, 3, 4];
    assert BigEndian16(0x1234) == [0x12, 0x34];
    assert Header(true, 96, 0x1234, 0x89ABCDEF, 0x01020304) + [0x65, 0x88]
        == [0x80, 0xE0, 0x12, 0x34, 0x89, 0xAB, 0xCD, 0xEF, 1, 2, 3, 4, 0x65, 0x88];
  }

  // The 13-bit AU size and 3-bit AU index of the single AU header.
  function AuHeader(size: nat): seq<byte> {
    [size / 32 % 256, size % 32 * 8]
  }

  function PacketAac(s: Sender, p: seq<byte>): seq<byte> {
    Header(true, AAC_TYPE, s.seqNo, s.timestamp, s.ssrc) + [0x00, 0x10] + AuHeader(|p|) + p
  }

  function AfterAac(s: Sender, p: seq<byte>): Sender {
    s.(seqNo := s.seqNo + 1).Tick()
  }

  // ---------------------------------------------------------------- RFC 6184 receiver

  // A fragmented NAL unit under reassembly, with the timestamp all its fragments must share.
  datatype Partial = Partial(timestamp: nat, data: seq<byte>)

  datatype Receiver = Receiver(expected: nat, partial: Option<Partial>, nals: seq<seq<byte>>)

  // Sections 5.6 and 5.8 of RFC 6184 for an in-order, loss-free stream. The receiver is strict: it
  // gives up on a sequence gap, a start-and-end fragment, a fragment that fits no unit, a change
  // of timestamp inside a unit, or a marker that is not on the last packet of a unit.
  function Accept264(r: Receiver, bytes: seq<byte>): Option<Receiver> {
    match Parse(bytes)
    case None => None
    case Some(p) =>
      if p.seqNo != r.expected || p.payloadType != H264_TYPE || p.payload == [] then None
      else
        var next := r.(expected := (r.expected + 1) % TWO16);
        var kind := NalType(p.payload[0]);
        if 1 <= kind <= 23 then
          if r.partial.None? && p.marker then Some(next.(nals := r.nals + [p.payload])) else None
        else if kind == 28 && |p.payload| >= 3 then AcceptFuA(next, p)
        else None
  }

  function NalType(header: byte): nat { header % 32 }
  predicate StartBit(fu: byte) { fu >= 128 }
  predicate EndBit(fu: byte) { fu / 64 % 2 == 1 }
  function UnitHeader(indicator: byte, fu: byte): byte { indicator / 32 * 32 + fu % 32 }

  lemma LowBits(t: nat, first: bool, last: bool)
    requires t < 32
    ensures var fu := (if first then 128 else 0) + (if last then 64 else 0) + t;
            (fu >= 128) == first && (fu / 64 % 2 == 1) == last && fu % 32 == t
  {
    if first { if last {} else {} } else { if last {} else {} }
  }

  lemma HighBits(header: byte)
    ensures (header / 32 % 4 * 32 + 28) / 32 * 32 == header / 32 % 4 * 32
    ensures (header / 32 % 4 * 32 + 28) % 32 == 28
    ensures header / 32 % 4 * 32 + header % 32 == header % 128
  {
    var q := header / 32 % 4;
    assert (q * 32 + 28) / 32 == q;
  }

  lemma FuBits(header: byte, first: bool, last: bool)
    ensures NalType(FuIndicator(header)) == 28
    ensures StartBit(FuHeader(header, first, last)) == first && EndBit(FuHeader(header, first, last)) == last
    ensures UnitHeader(FuIndicator(header), FuHeader(header, first, last)) == header % 128
  {
    LowBits(header % 32, first, last);
    HighBits(header);
  }

  function AcceptFuA(r: Receiver, p: Packet): Option<Receiver>
    requires |p.payload| >= 3
  {
    var fu := p.payload[1];
    var first, last := StartBit(fu), EndBit(fu);
    var header := UnitHeader(p.payload[0], fu);
    var data := p.payload[2..];
    if (first && last) || p.marker != last then None
    else if first then
      if r.partial.None? then Some(r.(partial := Some(Partial(p.timestamp, [header] + data)))) else None
    else if r.partial.None? || r.partial.value.timestamp != p.timestamp
            || r.partial.value.data == [] || r.partial.value.data[0] != header then None
    else
      var unit := r.partial.value.data + data;
      if last then Some(r.(partial := None, nals := r.nals + [unit]))
      else Some(r.(partial := Some(Partial(p.timestamp, unit))))
  }

  function Receive264(r: Receiver, packets: seq<seq<byte>>): Option<Receiver>
    decreases |packets|
  {
    if packets == [] then Some(r)
    else
      match Accept264(r, packets[0])
      case None => None
      case Some(r') => Receive264(r', packets[1..])
  }

  lemma {:induction false} ReceiveConcat(r: Receiver, a: seq<seq<byte>>, b: seq<seq<byte>>)
    requires Receive264(r, a).Some?
    ensures Receive264(r, a + b) == Receive264(Receive264(r, a).value, b)
    decreases |a|
  {
    if a == [] {
      assert a + b == b;
    } else {
      assert (a + b)[1..] == a[1..] + b;
      ReceiveConcat(Accept264(r, a[0]).value, a[1..], b);
    }
  }

  // A packet the receiver gives up on ends the stream.
  lemma {:induction false} ReceiveRefused(r: Receiver, a: seq<seq<byte>>, b: seq<seq<byte>>)
    requires Receive264(r, a).None?
    ensures Receive264(r, a + b).None?
    decreases |a|
  {
    hide Accept264;
    if a != [] {
      assert (a + b)[1..] == a[1..] + b;
      if Accept264(r, a[0]).Some? { ReceiveRefused(Accept264(r, a[0]).value, a[1..], b); }
    }
  }

  // The fragment's indicator drops the F bit.
  function ClearF(nal: seq<byte>): seq<byte>
    requires nal != []
  {
    nal[0 := nal[0] % 128]
  }

  // The state of a receiver that has taken the first offset bytes of a unit.
  function Midway(s: Sender, nal: seq<byte>, offset: nat, nals: seq<seq<byte>>): Receiver
    requires 1 <= offset <= |nal|
  {
    Receiver(s.seqNo % TWO16,
             if offset == 1 then None else Some(Partial(s.timestamp, ClearF(nal)[..offset])), nals)
  }

  lemma AcceptFuPayload(r: Receiver, p: Packet, nal: seq<byte>, offset: nat, end: nat)
    requires 1 <= offset < end <= |nal| && !(offset == 1 && end == |nal|)
    requires p.marker == (end == |nal|)
    requires p.payload == FuPayload(nal, offset == 1, end == |nal|, nal[offset..end])
    requires r.partial == if offset == 1 then None else Some(Partial(p.timestamp, ClearF(nal)[..offset]))
    ensures AcceptFuA(r, p) ==
            Some(if end == |nal| then r.(partial := None, nals := r.nals + [ClearF(nal)])
                 else r.(partial := Some(Partial(p.timestamp, ClearF(nal)[..end]))))
  {
    hide NalType, StartBit, EndBit, UnitHeader, FuIndicator, FuHeader, ClearF;
    FuBits(nal[0], offset == 1, end == |nal|);
    assert p.payload[2..] == nal[offset..end];
    ClearedPieces(nal, offset, end);
  }

  lemma ClearedPieces(nal: seq<byte>, offset: nat, end: nat)
    requires 1 <= offset < end <= |nal|
    ensures var c := ClearF(nal);
            c[..offset] + nal[offset..end] == c[..end] && c[..1] == [nal[0] % 128] && c[..|nal|] == c
            && c[..offset] != [] && c[..offset][0] == nal[0] % 128
  {}

  lemma SeqSucc(n: nat)
    ensures (n % TWO16 + 1) % TWO16 == (n + 1) % TWO16
  {}

  lemma AcceptFragment(s: Sender, nal: seq<byte>, offset: nat, nals: seq<seq<byte>>)
    requires s.Ok() && 1 <= offset < |nal| && |nal| > MAX_FRAGMENT + 1
    ensures
      var s' := s.(seqNo := s.seqNo + 1);
      var end := offset + Min(MAX_FRAGMENT, |nal| - offset);
      Accept264(Midway(s, nal, offset, nals), Fragment(s, nal, offset)) ==
      Some(if end == |nal| then Receiver(s'.seqNo % TWO16, None, nals + [ClearF(nal)]) else Midway(s', nal, end, nals))
  {
    hide NalType, StartBit, EndBit, UnitHeader, FuIndicator, FuHeader, Parse, Header, AcceptFuA, FuPayload, ClearF;
    var end := offset + Min(MAX_FRAGMENT, |nal| - offset);
    var first, last := offset == 1, end == |nal|;
    var payload := FuPayload(nal, first, last, nal[offset..end]);
    ParseHeader(last, H264_TYPE, s.seqNo, s.timestamp, s.ssrc, payload);
    var p := Packet(last, H264_TYPE, s.seqNo % TWO16, s.timestamp, s.ssrc, payload);
    var r := Midway(s, nal, offset, nals);
    PayloadStart(nal, first, last, nal[offset..end]);
    AcceptFuPayload(r.(expected := (r.expected + 1) % TWO16), p, nal, offset, end);
    SeqSucc(s.seqNo);
  }

  lemma PayloadStart(nal: seq<byte>, first: bool, last: bool, data: seq<byte>)
    requires nal != [] && data != []
    ensures |FuPayload(nal, first, last, data)| >= 3 && NalType(FuPayload(nal, first, last, data)[0]) == 28
  {
    FuBits(nal[0], first, last);
  }

  /** A fragmented unit is reassembled, except for its F bit. */
  lemma {:induction false} ReceiveFragments(s: Sender, nal: seq<byte>, offset: nat, nals: seq<seq<byte>>)
    requires s.Ok() && 1 <= offset < |nal| && |nal| > MAX_FRAGMENT + 1
    ensures
      var ps := Fragments(s, nal, offset);
      Receive264(Midway(s, nal, offset, nals), ps) ==
      Some(Receiver((s.seqNo + |ps|) % TWO16, None, nals + [ClearF(nal)]))
    decreases |nal| - offset
  {
    AcceptFragment(s, nal, offset, nals);
    hide Accept264;
    var end := offset + Min(MAX_FRAGMENT, |nal| - offset);
    var s' := s.(seqNo := s.seqNo + 1);
    var rest := Fragments(s', nal, end);
    assert Fragments(s, nal, offset)[1..] == rest;
    if end < |nal| {
      ReceiveFragments(s', nal, end, nals);
    } else {
      assert rest == [];
    }
  }

  // ---------------------------------------------------------------- round trips

  function Idle(s: Sender, nals: seq<seq<byte>>): Receiver {
    Receiver(s.seqNo % TWO16, None, nals)
  }

  function Nal(p: seq<byte>): seq<byte> { p[StartCode(p)..] }

  // A frame send_h264 accepts: a start code with something behind it.
  predicate Framed(p: seq<byte>) { StartCode(p) != 0 && Nal(p) != [] }

  // What the receiver needs of a unit to get it back: an FU-A packet has no room for the F bit,
  // and the types a single NAL unit packet can carry are 1 to 23.
  predicate Carriable(nal: seq<byte>) {
    nal != [] && if |nal| > MAX_PAYLOAD then nal[0] < 128 else 1 <= NalType(nal[0]) <= 23
  }

  lemma ReceiveOne(r: Receiver, p: seq<byte>)
    ensures Receive264(r, [p]) == Accept264(r, p)
  {
    if Accept264(r, p).Some? {
      assert [p][1..] == [];
    }
  }

  // What the receiver takes a unit for, and which units it takes.
  function Arriving(nal: seq<byte>): seq<byte>
    requires nal != []
  {
    if |nal| > MAX_PAYLOAD then ClearF(nal) else nal
  }

  predicate Acceptable(nal: seq<byte>) {
    nal != [] && (|nal| > MAX_PAYLOAD || 1 <= NalType(nal[0]) <= 23)
  }

  lemma CarriableArrives(nal: seq<byte>)
    requires nal != []
    ensures Carriable(nal) <==> Acceptable(nal) && Arriving(nal) == nal
  {
    ClearFKeeps(nal);
    hide ClearF;
  }

  lemma FrameReceived(s: Sender, p: seq<byte>, nals: seq<seq<byte>>)
    requires s.Ok() && Framed(p)
    ensures Receive264(Idle(s, nals), Packets264(s, p)) ==
            if Acceptable(Nal(p)) then Some(Idle(After264(s, p), nals + [Arriving(Nal(p))])) else None
  {
    hide Receive264, Fragments, Header, StartCode, NalType, ClearF;
    var nal := Nal(p);
    if |nal| > MAX_PAYLOAD {
      ReceiveFragments(s, nal, 1, nals);
    } else {
      SingleReceived(s, nal, nals);
    }
  }

  /** One frame comes back from its packets exactly when its unit is carriable. */
  lemma FrameRoundTrip(s: Sender, p: seq<byte>, nals: seq<seq<byte>>)
    requires s.Ok() && Framed(p)
    ensures Receive264(Idle(s, nals), Packets264(s, p)) == Some(Idle(After264(s, p), nals + [Nal(p)]))
            <==> Carriable(Nal(p))
  {
    hide Receive264, Packets264, After264, Carriable, Acceptable, Arriving, StartCode;
    var nal := Nal(p);
    FrameReceived(s, p, nals);
    CarriableArrives(nal);
    assert (nals + [Arriving(nal)])[|nals|] == Arriving(nal) && (nals + [nal])[|nals|] == nal;
  }

  lemma ClearFKeeps(nal: seq<byte>)
    requires nal != []
    ensures ClearF(nal) == nal <==> nal[0] < 128
  {
    assert ClearF(nal)[0] == nal[0] % 128;
  }

  lemma SingleReceived(s: Sender, nal: seq<byte>, nals: seq<seq<byte>>)
    requires s.Ok() && nal != []
    ensures Receive264(Idle(s, nals), [Header(true, H264_TYPE, s.seqNo, s.timestamp, s.ssrc) + nal]) ==
            if 1 <= NalType(nal[0]) <= 23 then Some(Receiver((s.seqNo + 1) % TWO16, None, nals + [nal])) else None
  {
    hide Parse, Header;
    var bytes := Header(true, H264_TYPE, s.seqNo, s.timestamp, s.ssrc) + nal;
    ReceiveOne(Idle(s, nals), bytes);
    ParseHeader(true, H264_TYPE, s.seqNo, s.timestamp, s.ssrc, nal);
    SeqSucc(s.seqNo);
  }

  function PacketsOf264(s: Sender, frames: seq<seq<byte>>): seq<seq<byte>>
    decreases |frames|
  {
    if frames == [] then [] else Packets264(s, frames[0]) + PacketsOf264(After264(s, frames[0]), frames[1..])
  }

  function Nals(frames: seq<seq<byte>>): seq<seq<byte>> {
    seq(|frames|, i requires 0 <= i < |frames| => Nal(frames[i]))
  }

  lemma AfterOk(s: Sender, p: seq<byte>)
    requires s.Ok()
    ensures After264(s, p).Ok()
  {}

  predicate AllFramed(frames: seq<seq<byte>>) {
    forall i :: 0 <= i < |frames| ==> Framed(frames[i])
  }

  predicate AllAcceptable(frames: seq<seq<byte>>) {
    forall i :: 0 <= i < |frames| ==> Acceptable(Nal(frames[i]))
  }

  predicate AllCarriable(frames: seq<seq<byte>>) {
    forall i :: 0 <= i < |frames| ==> Carriable(Nal(frames[i]))
  }

  function AllArriving(frames: seq<seq<byte>>): seq<seq<byte>>
    requires AllFramed(frames)
  {
    seq(|frames|, i requires 0 <= i < |frames| => Arriving(Nal(frames[i])))
  }

  lemma FramedFront(frames: seq<seq<byte>>)
    requires AllFramed(frames) && frames != []
    ensures Framed(frames[0]) && Nal(frames[0]) != [] && AllFramed(frames[1..])
    ensures AllAcceptable(frames) <==> Acceptable(Nal(frames[0])) && AllAcceptable(frames[1..])
    ensures AllArriving(frames) == [Arriving(Nal(frames[0]))] + AllArriving(frames[1..])
  {
    assert Nal(frames[0]) != [];
    hide Framed, Acceptable, Arriving, Nal;
    var rest := frames[1..];
    assert forall i :: 0 <= i < |rest| ==> rest[i] == frames[i + 1];
    if Acceptable(Nal(frames[0])) && AllAcceptable(rest) {
      forall i | 0 <= i < |frames| ensures Acceptable(Nal(frames[i])) {
        if i > 0 { assert frames[i] == rest[i - 1]; }
      }
    }
    if AllAcceptable(frames) {
      forall i | 0 <= i < |rest| ensures Acceptable(Nal(rest[i])) {
        assert rest[i] == frames[i + 1];
      }
    }
  }

  // What the receiver makes of a whole stream, whatever the units.
  lemma {:induction false} StreamReceived(s: Sender, frames: seq<seq<byte>>, nals: seq<seq<byte>>)
    requires s.Ok() && AllFramed(frames)
    ensures var r := Receive264(Idle(s, nals), PacketsOf264(s, frames));
            if AllAcceptable(frames) then r.Some? && r.value.partial.None? && r.value.nals == nals + AllArriving(frames)
            else r.None?
    decreases |frames|
  {
    hide Packets264, After264, Accept264, Sender.Ok, Framed, Acceptable, Arriving, Nal, AllAcceptable, AllFramed;
    if frames == [] {
      StreamEmpty(s, nals);
    } else {
      var f := frames[0];
      var s' := After264(s, f);
      FramedFront(frames);
      FrameReceived(s, f, nals);
      AfterOk(s, f);
      if Acceptable(Nal(f)) {
        StreamReceived(s', frames[1..], nals + [Arriving(Nal(f))]);
        ReceiveConcat(Idle(s, nals), Packets264(s, f), PacketsOf264(s', frames[1..]));
        assert nals + [Arriving(Nal(f))] + AllArriving(frames[1..]) == nals + AllArriving(frames);
      } else {
        ReceiveRefused(Idle(s, nals), Packets264(s, f), PacketsOf264(s', frames[1..]));
      }
    }
  }

  lemma StreamEmpty(s: Sender, nals: seq<seq<byte>>)
    ensures Receive264(Idle(s, nals), PacketsOf264(s, [])) == Some(Idle(s, nals))
    ensures AllFramed([]) && AllAcceptable([]) && nals + AllArriving([]) == nals
  {}

  lemma AllCarriableArrive(frames: seq<seq<byte>>)
    requires AllFramed(frames)
    ensures AllCarriable(frames) <==> AllAcceptable(frames) && AllArriving(frames) == Nals(frames)
  {
    hide Acceptable, Arriving, Carriable, StartCode;
    forall i | 0 <= i < |frames|
      ensures Carriable(Nal(frames[i])) <==> Acceptable(Nal(frames[i])) && AllArriving(frames)[i] == Nals(frames)[i]
    {
      CarriableArrives(Nal(frames[i]));
    }
  }

  /** Stream round trip: whatever mixture of single and fragmented units the sender sends, the
      receiver recovers exactly the list of units if and only if each of them is carriable. */
  lemma StreamRoundTrip(s: Sender, frames: seq<seq<byte>>, nals: seq<seq<byte>>)
    requires s.Ok() && AllFramed(frames)
    ensures var r := Receive264(Idle(s, nals), PacketsOf264(s, frames));
            r.Some? && r.value.nals == nals + Nals(frames) && r.value.partial.None? <==> AllCarriable(frames)
  {
    hide Receive264, PacketsOf264, AllCarriable, AllAcceptable, AllFramed, AllArriving, Nals;
    StreamReceived(s, frames, nals);
    AllCarriableArrive(frames);
    var a, b := nals + AllArriving(frames), nals + Nals(frames);
    assert a[|nals|..] == AllArriving(frames) && b[|nals|..] == Nals(frames);
  }

  // ---------------------------------------------------------------- shape of fragmented units

  function FragmentCount(size: nat): nat {
    (size + MAX_FRAGMENT - 1) / MAX_FRAGMENT
  }

  predicate WellFormed(p: seq<byte>, s: Sender, nal: seq<byte>, i: nat, n: nat)
    requires nal != []
  {
    |p| <= 1024 && Parse(p).Some? && WellFormedPacket(Parse(p).value, s, nal, i, n)
  }

  predicate WellFormedPacket(q: Packet, s: Sender, nal: seq<byte>, i: nat, n: nat)
    requires nal != []
  {
    && q.payloadType == H264_TYPE && q.timestamp == s.timestamp && q.ssrc == s.ssrc
    && q.seqNo == (s.seqNo + i) % TWO16
    && |q.payload| >= 3
    && q.payload[0] == FuIndicator(nal[0]) && NalType(q.payload[1]) == NalType(nal[0])
    && q.payload[0] < 128 && q.payload[1] / 32 % 2 == 0
    && StartBit(q.payload[1]) == (i == 0)
    && EndBit(q.payload[1]) == (i == n - 1) == q.marker
    && 1 + i * MAX_FRAGMENT < |nal|
    && q.payload[2..] == nal[1 + i * MAX_FRAGMENT..Min(|nal|, 1 + (i + 1) * MAX_FRAGMENT)]
  }

  lemma LastFragment(size: nat, i: nat, n: nat)
    requires n >= 2 && (n - 1) * MAX_FRAGMENT < size - 1 <= n * MAX_FRAGMENT && 1 + i * MAX_FRAGMENT < size
    ensures (Min(size, 1 + (i + 1) * MAX_FRAGMENT) == size) == (i == n - 1)
    ensures 1 + i * MAX_FRAGMENT + Min(MAX_FRAGMENT, size - (1 + i * MAX_FRAGMENT)) ==
            Min(size, 1 + (i + 1) * MAX_FRAGMENT)
    ensures 1 + i * MAX_FRAGMENT < Min(size, 1 + (i + 1) * MAX_FRAGMENT) <= size
  {}

  lemma FragmentPayloadShape(q: Packet, s: Sender, nal: seq<byte>, i: nat, n: nat, end: nat)
    requires 1 + i * MAX_FRAGMENT < |nal| && end == Min(|nal|, 1 + (i + 1) * MAX_FRAGMENT)
    requires n >= 2 && (n - 1) * MAX_FRAGMENT < |nal| - 1 <= n * MAX_FRAGMENT
    requires q == Packet(end == |nal|, H264_TYPE, (s.seqNo + i) % TWO16, s.timestamp, s.ssrc,
                         FuPayload(nal, i == 0, end == |nal|, nal[1 + i * MAX_FRAGMENT..end]))
    ensures WellFormedPacket(q, s, nal, i, n)
  {
    hide NalType, StartBit, EndBit, UnitHeader, FuIndicator, FuHeader, Min;
    LastFragment(|nal|, i, n);
    FuBits(nal[0], i == 0, end == |nal|);
    FuType(nal[0], i == 0, end == |nal|);
    assert q.payload[2..] == nal[1 + i * MAX_FRAGMENT..end];
  }

  lemma FragmentIs(s: Sender, nal: seq<byte>, i: nat, n: nat)
    requires 1 + i * MAX_FRAGMENT < |nal|
    requires n >= 2 && (n - 1) * MAX_FRAGMENT < |nal| - 1 <= n * MAX_FRAGMENT
    ensures var offset, end := 1 + i * MAX_FRAGMENT, Min(|nal|, 1 + (i + 1) * MAX_FRAGMENT);
            offset < end <= |nal| && end - offset <= MAX_FRAGMENT
            && Fragment(s, nal, offset) == Header(end == |nal|, H264_TYPE, s.seqNo, s.timestamp, s.ssrc)
                                           + FuPayload(nal, i == 0, end == |nal|, nal[offset..end])
  {
    LastFragment(|nal|, i, n);
    hide Header, FuPayload;
  }

  lemma FragmentShape(s: Sender, nal: seq<byte>, i: nat, n: nat)
    requires s.Ok() && 1 + i * MAX_FRAGMENT < |nal|
    requires n >= 2 && (n - 1) * MAX_FRAGMENT < |nal| - 1 <= n * MAX_FRAGMENT
    ensures WellFormed(Fragment(s.(seqNo := s.seqNo + i), nal, 1 + i * MAX_FRAGMENT), s, nal, i, n)
  {
    hide Parse, Header, WellFormedPacket, Fragment, FuPayload, Min;
    FragmentIs(s.(seqNo := s.seqNo + i), nal, i, n);
    var offset, end := 1 + i * MAX_FRAGMENT, Min(|nal|, 1 + (i + 1) * MAX_FRAGMENT);
    var payload := FuPayload(nal, i == 0, end == |nal|, nal[offset..end]);
    PayloadSize(nal, i == 0, end == |nal|, nal[offset..end]);
    ParseHeader(end == |nal|, H264_TYPE, s.seqNo + i, s.timestamp, s.ssrc, payload);
    FragmentPayloadShape(Packet(end == |nal|, H264_TYPE, (s.seqNo + i) % TWO16, s.timestamp, s.ssrc, payload),
                         s, nal, i, n, end);
  }

  lemma PayloadSize(nal: seq<byte>, first: bool, last: bool, data: seq<byte>)
    requires nal != []
    ensures |FuPayload(nal, first, last, data)| == 2 + |data|
  {}

  lemma FuType(header: byte, first: bool, last: bool)
    ensures NalType(FuHeader(header, first, last)) == NalType(header)
    ensures FuIndicator(header) < 128 && FuHeader(header, first, last) / 32 % 2 == 0
  {}

  lemma {:induction false} FragmentsFrom(s: Sender, nal: seq<byte>, i: nat, n: nat)
    requires s.Ok() && i <= n
    requires n >= 2 && (n - 1) * MAX_FRAGMENT < |nal| - 1 <= n * MAX_FRAGMENT
    ensures var ps := Fragments(s.(seqNo := s.seqNo + i), nal, 1 + i * MAX_FRAGMENT);
            |ps| == n - i && forall k :: 0 <= k < |ps| ==> WellFormed(ps[k], s, nal, i + k, n)
    decreases n - i
  {
    hide WellFormed, Fragment;
    var offset := 1 + i * MAX_FRAGMENT;
    if i < n {
      FragmentShape(s, nal, i, n);
      if i + 1 < n {
        FragmentsFrom(s, nal, i + 1, n);
        assert offset + Min(MAX_FRAGMENT, |nal| - offset) == 1 + (i + 1) * MAX_FRAGMENT;
        var ps := Fragments(s.(seqNo := s.seqNo + i), nal, offset);
        var rest := Fragments(s.(seqNo := s.seqNo + (i + 1)), nal, 1 + (i + 1) * MAX_FRAGMENT);
        assert ps == [Fragment(s.(seqNo := s.seqNo + i), nal, offset)] + rest;
        forall k | 0 <= k < |ps| ensures WellFormed(ps[k], s, nal, i + k, n) {
          if k > 0 {
            assert ps[k] == rest[k - 1];
            assert WellFormed(rest[k - 1], s, nal, i + 1 + (k - 1), n);
          }
        }
      }
    }
  }

  /** A unit too long for one packet becomes the rounded-up number of pieces of 1010 bytes, at
      least two; only the first packet has S, only the last has E and the marker, none has both;
      they share one timestamp, are numbered consecutively and stay within the packet size. */
  lemma FragmentsWellFormed(s: Sender, nal: seq<byte>)
    requires s.Ok() && |nal| > MAX_PAYLOAD
    ensures var ps := Fragments(s, nal, 1);
            && |ps| == (|nal| - 1 + 1009) / 1010 >= 2
            && forall i :: 0 <= i < |ps| ==> WellFormed(ps[i], s, nal, i, |ps|)
  {
    var n := FragmentCount(|nal| - 1);
    FragmentsFrom(s, nal, 0, n);
  }
}
