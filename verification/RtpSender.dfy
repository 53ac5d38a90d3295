/** The sending half of RtpRtcpHandler as an object: it assembles each packet in rtpBuf and
    hands rtpBuf's front to the socket, here a growing list of packets. */
module RtpSending {
  import opened Common
  import opened Rtp
  import opened RtpStream

  class RtpSender {
    const rtpBuf: array<byte>
    const timestampIncrement: nat
    const ssrc: nat
    var rtpSequenceNumber: nat
    var timestamp: nat
    var totalPayloadSize: nat
    var totalRtpPacketSent: nat
    ghost var wire: seq<seq<byte>>

    ghost function State(): Sender
      reads this
    {
      Sender(rtpSequenceNumber, timestamp, timestampIncrement, ssrc)
    }

    ghost predicate Valid()
      reads this
    {
      rtpBuf.Length == RTP_BUF && State().Ok()
    }

    constructor (timestampIncrement: nat, ssrc: nat)
      requires timestampIncrement < TWO32 && 1 <= ssrc < TWO32
      ensures Valid() && fresh(rtpBuf) && wire == [] && State() == Sender(0, 0, timestampIncrement, ssrc)
      ensures totalPayloadSize == totalRtpPacketSent == 0
    {
      rtpBuf := new byte[RTP_BUF](_ => 0);
      this.timestampIncrement, this.ssrc := timestampIncrement, ssrc;
      rtpSequenceNumber, timestamp := 0, 0;
      totalPayloadSize, totalRtpPacketSent := 0, 0;
      wire := [];
    }

    method SendTo(size: nat)
      requires size <= rtpBuf.Length
      modifies `wire
      ensures wire == old(wire) + [rtpBuf[..size]]
    {
      wire := wire + [rtpBuf[..size]];
    }

    /** Puts exactly the packets of the frame on the wire: none for a frame without start code,
        one if the unit fits, FU-A fragments otherwise. */
    method SendH264(payload: seq<byte>)
      requires Valid() && Readable(payload)
      modifies this, rtpBuf
      ensures Valid()
      ensures wire == old(wire) + Packets264(old(State()), payload)
      ensures State() == After264(old(State()), payload)
      ensures totalPayloadSize == old(totalPayloadSize)
      ensures totalRtpPacketSent ==
              if Framed(payload) then (old(totalRtpPacketSent) + 1) % TWO32 else old(totalRtpPacketSent)
    {
      hide Fragments, Header;
      var startCode;
      if payload[0] == 0 && payload[1] == 0 && payload[2] == 1 {
        startCode := 3;
      } else if payload[0] == 0 && payload[1] == 0 && payload[2] == 0 && payload[3] == 1 {
        startCode := 4;
      } else {
        return;
      }
      assert startCode == StartCode(payload);
      var nalUnitSize := |payload| - startCode;
      ghost var nal := Nal(payload);
      if nalUnitSize > MAX_PAYLOAD {
        SendFragments(payload, startCode);
        timestamp := (timestamp + timestampIncrement) % TWO32;
        totalRtpPacketSent := (totalRtpPacketSent + 1) % TWO32;
      } else {
        Put(rtpBuf, 0, Header(true, H264_TYPE, rtpSequenceNumber, timestamp, ssrc));
        rtpSequenceNumber := rtpSequenceNumber + 1;
        Put(rtpBuf, HEADER_SIZE, payload[startCode..]);
        SendTo(HEADER_SIZE + |payload| - startCode);
        assert wire[|wire| - 1] ==
               Header(true, H264_TYPE, old(rtpSequenceNumber), old(timestamp), ssrc) + nal;
        if payload[startCode] % 32 != 7 && payload[startCode] % 32 != 8 {
          timestamp := (timestamp + timestampIncrement) % TWO32;
        }
        totalRtpPacketSent := (totalRtpPacketSent + 1) % TWO32;
      }
    }

    // One turn of the fragmentation loop.
    method SendFragment(header: byte, firstFragment: bool, last: bool, data: seq<byte>)
      requires Valid() && |data| <= MAX_FRAGMENT
      modifies `wire, `rtpSequenceNumber, rtpBuf
      ensures rtpSequenceNumber == old(rtpSequenceNumber) + 1
      ensures wire == old(wire) + [Header(last, H264_TYPE, old(rtpSequenceNumber), timestamp, ssrc)
                                   + ([FuIndicator(header), FuHeader(header, firstFragment, last)] + data)]
    {
      hide Header, FuIndicator, FuHeader;
      var fuHeader := FuHeader(header, firstFragment, last);
      Put(rtpBuf, 0, Header(last, H264_TYPE, rtpSequenceNumber, timestamp, ssrc));
      rtpSequenceNumber := rtpSequenceNumber + 1;
      Put(rtpBuf, HEADER_SIZE, [FuIndicator(header)]);
      Put(rtpBuf, HEADER_SIZE + 1, [fuHeader]);
      Put(rtpBuf, HEADER_SIZE + 2, data);
      SendTo(HEADER_SIZE + 2 + |data|);
      assert wire[|wire| - 1] == Header(last, H264_TYPE, old(rtpSequenceNumber), timestamp, ssrc)
                                 + ([FuIndicator(header), fuHeader] + data);
    }

    // The fragmentation loop.
    method SendFragments(payload: seq<byte>, startCode: nat)
      requires Valid() && |payload| - startCode > MAX_PAYLOAD
      modifies this, rtpBuf
      ensures Valid()
      ensures wire == old(wire) + Fragments(old(State()), payload[startCode..], 1)
      ensures State() ==
              old(State()).(seqNo := old(rtpSequenceNumber) + |Fragments(old(State()), payload[startCode..], 1)|)
      ensures totalPayloadSize == old(totalPayloadSize) && totalRtpPacketSent == old(totalRtpPacketSent)
    {
      ghost var nal := payload[startCode..];
      ghost var all := Fragments(State(), nal, 1);
      var offset := startCode + 1;
      var firstFragment := true;
      while offset < |payload|
        invariant startCode + 1 <= offset <= |payload|
        invariant firstFragment == (offset == startCode + 1)
        invariant Valid() && timestamp == old(timestamp)
        invariant totalPayloadSize == old(totalPayloadSize) && totalRtpPacketSent == old(totalRtpPacketSent)
        invariant wire + Fragments(State(), nal, offset - startCode) == old(wire) + all
        invariant rtpSequenceNumber + |Fragments(State(), nal, offset - startCode)| == old(rtpSequenceNumber) + |all|
      {
        ghost var s := State();
        var fragmentSize := Min(MAX_PAYLOAD - 2, |payload| - offset);
        var last := offset + fragmentSize == |payload|;
        SendFragment(payload[startCode], firstFragment, last, payload[offset..offset + fragmentSize]);
        assert payload[offset..offset + fragmentSize] == nal[offset - startCode..offset - startCode + fragmentSize];
        assert wire[|wire| - 1] == Fragment(s, nal, offset - startCode);
        offset := offset + fragmentSize;
        firstFragment := false;
      }
    }

    method SendAac(payload: seq<byte>)
      requires Valid() && |payload| <= AAC_ROOM
      modifies this, rtpBuf
      ensures Valid()
      ensures wire == old(wire) + [PacketAac(old(State()), payload)]
      ensures State() == AfterAac(old(State()), payload)
      ensures totalPayloadSize == old(totalPayloadSize)
      ensures totalRtpPacketSent == (old(totalRtpPacketSent) + 1) % TWO32
    {
      Put(rtpBuf, 0, Header(true, AAC_TYPE, rtpSequenceNumber, timestamp, ssrc));
      rtpSequenceNumber := rtpSequenceNumber + 1;
      Put(rtpBuf, HEADER_SIZE, [0x00, 0x10] + AuHeader(|payload|));
      Put(rtpBuf, HEADER_SIZE + 4, payload);
      SendTo(HEADER_SIZE + 4 + |payload|);
      assert wire[|wire| - 1] == PacketAac(old(State()), payload);
      timestamp := (timestamp + timestampIncrement) % TWO32;
      totalRtpPacketSent := (totalRtpPacketSent + 1) % TWO32;
    }

    /** The packet count counts accepted frames; the octet count takes in start codes and the
        frames that were refused. */
    method SendRtpPacket(x: Send)
      requires Valid() && Sendable(x)
      modifies this, rtpBuf
      ensures Valid()
      ensures wire == old(wire) + Packets(old(State()), x) && State() == After(old(State()), x)
      ensures totalPayloadSize == (old(totalPayloadSize) + |x.p|) % TWO32
      ensures totalRtpPacketSent == if x.H264? && !Framed(x.p) then old(totalRtpPacketSent)
                                    else (old(totalRtpPacketSent) + 1) % TWO32
    {
      match x {
        case H264(p) => SendH264(p);
        case Aac(p) => SendAac(p);
      }
      totalPayloadSize := (totalPayloadSize + |x.p|) % TWO32;
    }
  }
}
