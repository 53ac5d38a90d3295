/** The AAC receiver of RFC 3640, and the header fields of a stream that mixes single packets,
    fragmented units and AAC frames. */
module RtpStream {
  import opened Common
  import opened Rtp

  // ---------------------------------------------------------------- RFC 3640 receiver

  // Mode AAC-hbr with one AU per packet: 16 bits of AU headers, a 13-bit size, AU index 0.
  function AcceptAac(expected: nat, bytes: seq<byte>): Option<seq<byte>> {
    match Parse(bytes)
    case None => None
    case Some(p) =>
      if p.seqNo != expected || p.payloadType != AAC_TYPE || !p.marker || |p.payload| < 4 then None
      else
        var au := Int16(p.payload, 2);
        if Int16(p.payload, 0) != 16 || au % 8 != 0 || au / 8 != |p.payload| - 4 then None
        else Some(p.payload[4..])
  }

  lemma AuHeaderCarries(n: nat)
    ensures Int16(AuHeader(n), 0) == 8 * (n % 8192)
  {
    assert n % 8192 == n / 32 % 256 * 32 + n % 32;
  }

  /** On the wire format alone: an AAC frame can be read back from its packet exactly when its
      length fits the 13-bit AU size. */
  lemma AacRoundTrip(s: Sender, p: seq<byte>)
    requires s.Ok()
    ensures AcceptAac(s.seqNo % TWO16, PacketAac(s, p)) == Some(p) <==> |p| < 8192
  {
    var payload: seq<byte> := [0x00, 0x10] + AuHeader(|p|) + p;
    assert PacketAac(s, p) == Header(true, AAC_TYPE, s.seqNo, s.timestamp, s.ssrc) + payload;
    ParseHeader(true, AAC_TYPE, s.seqNo, s.timestamp, s.ssrc, payload);
    AuHeaderCarries(|p|);
    assert payload[2] == AuHeader(|p|)[0] && payload[3] == AuHeader(|p|)[1];
    assert Int16(payload, 2) == 8 * (|p| % 8192);
    assert Int16(payload, 0) == 16;
    assert payload[4..] == p;
    hide Parse, Header, AuHeader, PacketAac, Int16;
  }

  /** The packet can be assembled in the sender's buffer and then comes back exactly when the
      frame has at most 1018 bytes. */
  lemma AacDelivery(s: Sender, p: seq<byte>)
    requires s.Ok()
    ensures |PacketAac(s, p)| <= RTP_BUF && AcceptAac(s.seqNo % TWO16, PacketAac(s, p)) == Some(p) <==> |p| <= 1018
  {
    AacRoundTrip(s, p);
    hide AcceptAac;
  }

  // ---------------------------------------------------------------- mixed streams

  datatype Send = H264(p: seq<byte>) | Aac(p: seq<byte>)

  // What the sender can take without reading or writing out of bounds.
  predicate Sendable(x: Send) {
    if x.H264? then Readable(x.p) else |x.p| <= AAC_ROOM
  }

  predicate AllSendable(xs: seq<Send>) {
    forall i :: 0 <= i < |xs| ==> Sendable(xs[i])
  }

  function Packets(s: Sender, x: Send): seq<seq<byte>> {
    if x.H264? then Packets264(s, x.p) else [PacketAac(s, x.p)]
  }

  function After(s: Sender, x: Send): Sender {
    if x.H264? then After264(s, x.p) else AfterAac(s, x.p)
  }

  predicate Ticks(x: Send) { x.H264? ==> MovesClock(x.p) }

  function Sent(s: Sender, xs: seq<Send>): seq<seq<byte>> {
    if xs == [] then []
    else var front := xs[..|xs| - 1]; Sent(s, front) + Packets(State(s, front), xs[|xs| - 1])
  }

  function State(s: Sender, xs: seq<Send>): Sender {
    if xs == [] then s else After(State(s, xs[..|xs| - 1]), xs[|xs| - 1])
  }

  // Accepted frames other than parameter sets that travel in one packet.
  function TickCount(xs: seq<Send>): nat {
    if xs == [] then 0 else TickCount(xs[..|xs| - 1]) + (if Ticks(xs[|xs| - 1]) then 1 else 0)
  }

  predicate HeaderIs(p: seq<byte>, seqNo: nat, timestamp: nat, ssrc: nat) {
    && Parse(p).Some?
    && Parse(p).value.seqNo == seqNo % TWO16
    && Parse(p).value.timestamp == timestamp
    && Parse(p).value.ssrc == ssrc
  }

  lemma PacketHeaders(s: Sender, x: Send)
    requires s.Ok()
    ensures forall k :: 0 <= k < |Packets(s, x)| ==> HeaderIs(Packets(s, x)[k], s.seqNo + k, s.timestamp, s.ssrc)
  {
    match x
    case Aac(p) =>
      var payload: seq<byte> := [0x00, 0x10] + AuHeader(|p|) + p;
      assert PacketAac(s, p) == Header(true, AAC_TYPE, s.seqNo, s.timestamp, s.ssrc) + payload;
      ParseHeader(true, AAC_TYPE, s.seqNo, s.timestamp, s.ssrc, payload);
    case H264(p) =>
      var nal := Nal(p);
      if Framed(p) && |nal| > MAX_PAYLOAD {
        FragmentsWellFormed(s, nal);
        hide Parse, Header, Fragments;
        var ps := Fragments(s, nal, 1);
        forall k | 0 <= k < |ps| ensures HeaderIs(ps[k], s.seqNo + k, s.timestamp, s.ssrc) {
          assert WellFormed(ps[k], s, nal, k, |ps|);
        }
      } else {
        ParseHeader(true, H264_TYPE, s.seqNo, s.timestamp, s.ssrc, nal);
        hide Parse, Header, Fragments;
      }
  }

  // Increment times the number of ticking frames, mod 2^32.
  function TimeAfter(s: Sender, ticks: nat): nat {
    (s.timestamp + s.increment * ticks) % TWO32
  }

  lemma TimeTicks(s: Sender, n: nat)
    ensures TimeAfter(s, n + 1) == (TimeAfter(s, n) + s.increment) % TWO32
  {
    Distribute(s.increment, n);
    var m := s.increment * n;
    assert (s.timestamp + m + s.increment) % TWO32 == ((s.timestamp + m) % TWO32 + s.increment) % TWO32;
  }

  lemma AfterIs(s: Sender, x: Send)
    requires s.Ok()
    ensures var e := After(s, x);
            && e.Ok() && e.ssrc == s.ssrc && e.increment == s.increment
            && e.seqNo == s.seqNo + |Packets(s, x)|
            && e.timestamp == if Ticks(x) then (s.timestamp + s.increment) % TWO32 else s.timestamp
  {
    hide Packets264, PacketAac, Ticks264, MovesClock;
    if x.H264? { ClockLaw(s, x.p); }
  }

  lemma SendablePrefix(xs: seq<Send>, n: nat)
    requires AllSendable(xs) && n <= |xs|
    ensures AllSendable(xs[..n])
  {}

  lemma {:induction false} StateIs(s: Sender, xs: seq<Send>)
    requires s.Ok() && AllSendable(xs)
    ensures var e := State(s, xs);
            && e.Ok() && e.ssrc == s.ssrc && e.increment == s.increment
            && e.seqNo == s.seqNo + |Sent(s, xs)|
            && e.timestamp == TimeAfter(s, TickCount(xs))
  {
    hide Packets, After, Ticks, AllSendable;
    if xs != [] {
      hide TimeAfter;
      var front, x := xs[..|xs| - 1], xs[|xs| - 1];
      SendablePrefix(xs, |xs| - 1);
      StateIs(s, front);
      AfterIs(State(s, front), x);
      TimeTicks(s, TickCount(front));
    }
  }

  // The packets of the last frame sent.
  lemma LastHeaders(s: Sender, xs: seq<Send>, k: nat)
    requires s.Ok() && xs != [] && AllSendable(xs)
    requires |Sent(s, xs[..|xs| - 1])| <= k < |Sent(s, xs)|
    ensures HeaderIs(Sent(s, xs)[k], s.seqNo + k, TimeAfter(s, TickCount(xs[..|xs| - 1])), s.ssrc)
  {
    hide Packets, HeaderIs, TimeAfter, AllSendable, After, Ticks, TickCount, Sender.Ok;
    var front, x := xs[..|xs| - 1], xs[|xs| - 1];
    SendablePrefix(xs, |xs| - 1);
    StateIs(s, front);
    PacketHeaders(State(s, front), x);
    assert Sent(s, xs)[k] == Packets(State(s, front), x)[k - |Sent(s, front)|];
  }

  lemma {:induction false} SentPrefix(s: Sender, xs: seq<Send>, n: nat)
    requires n <= |xs|
    ensures Sent(s, xs[..n]) <= Sent(s, xs)
  {
    if n == |xs| {
      assert xs[..n] == xs;
    } else {
      SentPrefix(s, xs[..|xs| - 1], n);
      assert xs[..|xs| - 1][..n] == xs[..n];
    }
  }

  /** Header law, for any mixture of frames the sender can take: the sequence numbers of the packets on the wire are
      consecutive mod 2^16, and every packet of a frame carries the time of its frame, increment
      times the number of ticking frames before it, mod 2^32. */
  lemma HeaderLaw(s: Sender, xs: seq<Send>, j: nat, k: nat)
    requires s.Ok() && AllSendable(xs) && j < |xs|
    requires |Sent(s, xs[..j])| <= k < |Sent(s, xs[..j + 1])|
    ensures k < |Sent(s, xs)|
    ensures HeaderIs(Sent(s, xs)[k], s.seqNo + k, TimeAfter(s, TickCount(xs[..j])), s.ssrc)
  {
    hide Sent, HeaderIs, TimeAfter, TickCount, AllSendable;
    SentPrefix(s, xs, j + 1);
    SendablePrefix(xs, j + 1);
    assert xs[..j + 1][..j] == xs[..j];
    LastHeaders(s, xs[..j + 1], k);
  }
}
