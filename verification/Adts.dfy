/** Cutting an ADTS file into AAC frames, and the way of those frames through RTP. */
module Adts {
  import opened Common
  import opened Rtp
  import opened RtpStream

  const ADTS_HEADER := 7

  // What is left of the file, and whether a read has come up short.
  datatype Input = Input(rest: seq<byte>, failed: bool)

  datatype Read = Frame(data: seq<byte>) | Error

  function FrameLength(h: seq<byte>): nat
    requires |h| >= ADTS_HEADER
  {
    (h[3] % 4 as int) * 2048 + (h[4] as int) * 8 + h[5] as int / 32
  }

  predicate Sync(h: seq<byte>)
    requires |h| >= ADTS_HEADER
  {
    h[0] == 0xFF && h[1] / 16 == 15
  }

  // One call of read_next_frame. Every header counts as 7 bytes long.
  function ReadFrame(s: Input): (r: (Read, Input))
    ensures r.0.Frame? ==> |r.1.rest| < |s.rest|
  {
    if s.failed then (Error, s)
    else if |s.rest| < ADTS_HEADER then (Error, Input([], true))
    else
      var rest := s.rest[ADTS_HEADER..];
      var size := FrameLength(s.rest) - ADTS_HEADER;
      if !Sync(s.rest) then (Error, Input(rest, false))
      else if size < 0 then (Error, Input(rest, true))
      else if |rest| < size then (Error, Input([], true))
      else (Frame(rest[..size]), Input(rest[size..], false))
  }

  // All frames until the producer stops: at the first error or empty frame.
  function Frames(s: Input): seq<seq<byte>>
    decreases |s.rest|
  {
    var (r, s') := ReadFrame(s);
    if r.Error? || r.data == [] then [] else [r.data] + Frames(s')
  }

  // The fields of the 7-byte ADTS header of ISO/IEC 13818-7 besides its sync word and its length.
  datatype Fields = Fields(flags: nat, profile: byte, channels: nat, fullness: nat, tail: byte)
  {
    predicate Ok() { flags < 16 && channels < 64 && fullness < 32 }
  }

  // Twelve sync bits; the 13 bits of the length are the last 2 of byte 3, byte 4, and the first 3
  // of byte 5.
  function AdtsHeader(f: Fields, length: nat): seq<byte>
    requires f.Ok() && length < 8192
  {
    [0xFF, 0xF0 + f.flags, f.profile, f.channels * 4 + length / 2048, length / 8 % 256,
     length % 8 * 32 + f.fullness, f.tail]
  }

  // A header announces a frame of n bytes; the length it carries counts the header too.
  ghost predicate Announces(h: seq<byte>, n: nat) {
    n + ADTS_HEADER < 8192 && exists f: Fields :: f.Ok() && h == AdtsHeader(f, n + ADTS_HEADER)
  }

  lemma LengthBits(length: nat, channels: nat, fullness: nat)
    requires length < 8192 && channels < 64 && fullness < 32
    ensures (channels * 4 + length / 2048) % 4 == length / 2048
    ensures (length % 8 * 32 + fullness) / 32 == length % 8
    ensures length / 2048 * 2048 + length / 8 % 256 * 8 + length % 8 == length
  {
    var m := length / 8;
    assert m / 256 == length / 2048 && m == 256 * (m / 256) + m % 256;
  }

  lemma SplitBits(b3: byte, b4: byte, b5: byte)
    ensures var length := b3 % 4 * 2048 + b4 * 8 + b5 / 32;
            && length < 8192 && b3 == b3 / 4 * 4 + length / 2048 && b4 == length / 8 % 256
            && b5 == length % 8 * 32 + b5 % 32
  {
    var length := b3 % 4 * 2048 + b4 * 8 + b5 / 32;
    assert b5 / 32 < 8;
    assert length % 8 == b5 / 32 && length / 8 == b3 % 4 * 256 + b4;
    assert (length / 8) / 256 == b3 % 4 && (length / 8) % 256 == b4;
  }

  /** The reader finds in every header exactly the length it carries, and takes no other bytes for
      a header. */
  lemma AnnouncesMeans(h: seq<byte>, n: nat)
    ensures Announces(h, n) <==> |h| == ADTS_HEADER && Sync(h) && FrameLength(h) == n + ADTS_HEADER
  {
    if Announces(h, n) {
      var f: Fields :| f.Ok() && h == AdtsHeader(f, n + ADTS_HEADER);
      HeaderIsRead(f, n + ADTS_HEADER);
    }
    if |h| == ADTS_HEADER && Sync(h) && FrameLength(h) == n + ADTS_HEADER {
      HeaderIsLaid(h);
    }
  }

  lemma HeaderIsRead(f: Fields, length: nat)
    requires f.Ok() && length < 8192
    ensures Sync(AdtsHeader(f, length)) && FrameLength(AdtsHeader(f, length)) == length
  {
    LengthBits(length, f.channels, f.fullness);
  }

  lemma HeaderIsLaid(h: seq<byte>)
    requires |h| == ADTS_HEADER && Sync(h)
    ensures FrameLength(h) < 8192 && exists f: Fields :: f.Ok() && h == AdtsHeader(f, FrameLength(h))
  {
    SplitBits(h[3], h[4], h[5]);
    var f := Fields(h[1] % 16, h[2], h[3] / 4, h[5] % 32, h[6]);
    assert f.Ok() && h == AdtsHeader(f, FrameLength(h));
  }

  // FF F1 50 80 2E 7F FC says 371 bytes in all.
  lemma HeaderExample()
    ensures Announces([0xFF, 0xF1, 0x50, 0x80, 0x2E, 0x7F, 0xFC], 364)
  {
    var h: seq<byte> := [0xFF, 0xF1, 0x50, 0x80, 0x2E, 0x7F, 0xFC];
    var f := Fields(1, 0x50, 0x20, 0x1F, 0xFC);
    assert f.Ok() && h == AdtsHeader(f, 364 + ADTS_HEADER);
  }

  ghost predicate AllAnnounced(hs: seq<seq<byte>>, fs: seq<seq<byte>>) {
    |hs| == |fs| && forall i :: 0 <= i < |fs| ==> fs[i] != [] && Announces(hs[i], |fs[i]|)
  }

  function Concat(hs: seq<seq<byte>>, fs: seq<seq<byte>>): seq<byte>
    requires |hs| == |fs|
  {
    if fs == [] then [] else hs[0] + fs[0] + Concat(hs[1..], fs[1..])
  }

  // Every length up to the 13-bit limit can be announced, and no other.
  lemma AnnouncedLengths(n: nat)
    ensures (exists h :: Announces(h, n)) <==> n + ADTS_HEADER < 8192
  {
    var m := n + ADTS_HEADER;
    if m < 8192 {
      var f := Fields(1, 0x50, 0x20, 0x1F, 0xFC);
      var h := AdtsHeader(f, m);
      assert f.Ok() && h == AdtsHeader(f, n + ADTS_HEADER);
      assert Announces(h, n);
    }
  }

  lemma ReadAnnounced(h: seq<byte>, f: seq<byte>, tail: seq<byte>)
    requires Announces(h, |f|)
    ensures ReadFrame(Input(h + f + tail, false)) == (Frame(f), Input(tail, false))
  {
    hide Announces;
    AnnouncesMeans(h, |f|);
    var all := h + f + tail;
    assert all[..ADTS_HEADER] == h;
    assert forall i :: 0 <= i < ADTS_HEADER ==> all[i] == h[i];
    assert all[ADTS_HEADER..] == f + tail;
  }

  /** One call of the reader, on any file at all: it returns a frame and leaves a rest exactly when
      the file is a header that announces that frame, the frame, and the rest; otherwise it fails. */
  lemma ReadsExactly(file: seq<byte>, f: seq<byte>, tail: seq<byte>)
    ensures ReadFrame(Input(file, false)) == (Frame(f), Input(tail, false))
            <==> exists h :: Announces(h, |f|) && file == h + f + tail
    ensures ReadFrame(Input(file, false)).0.Frame? ==> !ReadFrame(Input(file, false)).1.failed
  {
    if ReadFrame(Input(file, false)) == (Frame(f), Input(tail, false)) {
      var h := file[..ADTS_HEADER];
      AnnouncesMeans(h, |f|);
      assert file == h + f + tail;
    }
    if exists h :: Announces(h, |f|) && file == h + f + tail {
      var h :| Announces(h, |f|) && file == h + f + tail;
      ReadAnnounced(h, f, tail);
    }
  }

  // A file that does not begin with twelve one bits is refused.
  lemma NoSyncRefused(file: seq<byte>)
    requires |file| >= 2 && !(file[0] == 0xFF && file[1] >= 0xF0)
    ensures ReadFrame(Input(file, false)).0 == Error
  {}

  /** Reading back a file of ADTS frames yields exactly the frames, then whatever the rest of the
      file holds. */
  lemma {:induction false} SplitsFrames(hs: seq<seq<byte>>, fs: seq<seq<byte>>, tail: seq<byte>)
    requires AllAnnounced(hs, fs)
    ensures Frames(Input(Concat(hs, fs) + tail, false)) == fs + Frames(Input(tail, false))
    decreases |fs|
  {
    if fs == [] {
      assert Concat(hs, fs) + tail == tail;
      assert fs + Frames(Input(tail, false)) == Frames(Input(tail, false));
    } else {
      var rest := Concat(hs[1..], fs[1..]) + tail;
      var later := Frames(Input(tail, false));
      ConcatFront(hs, fs, tail);
      AnnouncedTail(hs, fs);
      hide Concat, AllAnnounced;
      FramesFront(hs[0], fs[0], rest);
      SplitsFrames(hs[1..], fs[1..], tail);
      hide Frames, Announces;
      assert fs == [fs[0]] + fs[1..];
      Assoc([fs[0]], fs[1..], later);
    }
  }

  lemma ConcatFront(hs: seq<seq<byte>>, fs: seq<seq<byte>>, tail: seq<byte>)
    requires |hs| == |fs| > 0
    ensures Concat(hs, fs) + tail == hs[0] + fs[0] + (Concat(hs[1..], fs[1..]) + tail)
  {
    Assoc(hs[0] + fs[0], Concat(hs[1..], fs[1..]), tail);
  }

  lemma AnnouncedTail(hs: seq<seq<byte>>, fs: seq<seq<byte>>)
    requires AllAnnounced(hs, fs) && fs != []
    ensures fs[0] != [] && Announces(hs[0], |fs[0]|) && AllAnnounced(hs[1..], fs[1..])
  {
    hide Announces;
  }

  lemma FramesFront(h: seq<byte>, f: seq<byte>, rest: seq<byte>)
    requires f != [] && Announces(h, |f|)
    ensures Frames(Input(h + f + rest, false)) == [f] + Frames(Input(rest, false))
  {
    ReadAnnounced(h, f, rest);
    hide ReadFrame, Announces;
  }

  // ---------------------------------------------------------------- to RTP and back

  function PacketsOfAac(s: Sender, fs: seq<seq<byte>>): seq<seq<byte>>
    decreases |fs|
  {
    if fs == [] then [] else [PacketAac(s, fs[0])] + PacketsOfAac(AfterAac(s, fs[0]), fs[1..])
  }

  function ReceiveAac(expected: nat, packets: seq<seq<byte>>): Option<seq<seq<byte>>>
    decreases |packets|
  {
    if packets == [] then Some([])
    else
      match (AcceptAac(expected, packets[0]), ReceiveAac((expected + 1) % TWO16, packets[1..]))
      case (Some(f), Some(fs)) => Some([f] + fs)
      case _ => None
  }

  predicate AllShort(fs: seq<seq<byte>>) {
    forall i :: 0 <= i < |fs| ==> |fs[i]| < 8192
  }

  lemma ShortTail(fs: seq<seq<byte>>)
    requires AllShort(fs) && fs != []
    ensures |fs[0]| < 8192 && AllShort(fs[1..])
  {}

  lemma {:induction false} AacStreamRoundTrip(s: Sender, fs: seq<seq<byte>>)
    requires s.Ok() && AllShort(fs)
    ensures ReceiveAac(s.seqNo % TWO16, PacketsOfAac(s, fs)) == Some(fs)
    decreases |fs|
  {
    if fs != [] {
      ShortTail(fs);
      hide AllShort;
      AacRoundTrip(s, fs[0]);
      var s' := AfterAac(s, fs[0]);
      NextAac(s, fs[0]);
      AacStreamRoundTrip(s', fs[1..]);
      ReceiveAacFront(s.seqNo % TWO16, PacketAac(s, fs[0]), PacketsOfAac(s', fs[1..]));
      assert PacketsOfAac(s, fs) == [PacketAac(s, fs[0])] + PacketsOfAac(s', fs[1..]);
      hide AcceptAac, PacketAac, AfterAac, ReceiveAac, PacketsOfAac;
      assert [fs[0]] + fs[1..] == fs;
    }
  }

  lemma NextAac(s: Sender, f: seq<byte>)
    requires s.Ok()
    ensures AfterAac(s, f).Ok() && AfterAac(s, f).seqNo % TWO16 == (s.seqNo % TWO16 + 1) % TWO16
  {}

  lemma ReceiveAacFront(expected: nat, p: seq<byte>, rest: seq<seq<byte>>)
    ensures ReceiveAac(expected, [p] + rest) ==
            match (AcceptAac(expected, p), ReceiveAac((expected + 1) % TWO16, rest))
            case (Some(f), Some(fs)) => Some([f] + fs)
            case _ => None
  {
    hide AcceptAac;
    assert ([p] + rest)[1..] == rest;
  }

  lemma FileFrames(hs: seq<seq<byte>>, fs: seq<seq<byte>>)
    requires AllAnnounced(hs, fs)
    ensures Frames(Input(Concat(hs, fs), false)) == fs
  {
    SplitsFrames(hs, fs, []);
    assert Concat(hs, fs) + [] == Concat(hs, fs) && fs + [] == fs;
  }

  lemma AnnouncedShort(hs: seq<seq<byte>>, fs: seq<seq<byte>>, from: nat, to: nat)
    requires AllAnnounced(hs, fs) && from <= to <= |fs|
    ensures AllShort(fs[from..to])
  {
    forall i | 0 <= i < |fs| ensures |fs[i]| < 8192 {
      AnnouncedLengths(|fs[i]|);
    }
  }

  predicate AllFit(fs: seq<seq<byte>>) {
    forall i :: 0 <= i < |fs| ==> |fs[i]| <= AAC_ROOM
  }

  // Every packet fits the buffer it is assembled in.
  predicate InRoom(packets: seq<seq<byte>>) {
    forall i :: 0 <= i < |packets| ==> |packets[i]| <= RTP_BUF
  }

  lemma {:induction false} PacketSizes(s: Sender, fs: seq<seq<byte>>)
    ensures |PacketsOfAac(s, fs)| == |fs|
    ensures forall i :: 0 <= i < |fs| ==> |PacketsOfAac(s, fs)[i]| == HEADER_SIZE + 4 + |fs[i]|
    decreases |fs|
  {
    if fs != [] {
      PacketSizes(AfterAac(s, fs[0]), fs[1..]);
      hide AfterAac;
      assert |PacketAac(s, fs[0])| == HEADER_SIZE + 4 + |fs[0]|;
    }
  }

  lemma RoomIsFit(s: Sender, fs: seq<seq<byte>>)
    ensures InRoom(PacketsOfAac(s, fs)) <==> AllFit(fs)
  {
    PacketSizes(s, fs);
    hide PacketsOfAac;
    var ps := PacketsOfAac(s, fs);
    assert forall i :: 0 <= i < |fs| ==> (|ps[i]| <= RTP_BUF <==> |fs[i]| <= AAC_ROOM);
  }

  /** From the file to the client: the frames of an ADTS file, sent one packet each, are received
      as they were, exactly when none of them has more than the 1018 bytes the sender's buffer has
      room for. Whatever length an ADTS header can announce, the AU header itself can carry. */
  lemma AdtsToRtp(s: Sender, hs: seq<seq<byte>>, fs: seq<seq<byte>>)
    requires s.Ok() && AllAnnounced(hs, fs)
    ensures var packets := PacketsOfAac(s, Frames(Input(Concat(hs, fs), false)));
            InRoom(packets) && ReceiveAac(s.seqNo % TWO16, packets) == Some(fs) <==> AllFit(fs)
    ensures forall i :: 0 <= i < |fs| ==> Int16(AuHeader(|fs[i]|), 0) == 8 * |fs[i]|
  {
    hide Frames, Concat, AllAnnounced, PacketsOfAac, ReceiveAac, InRoom, AllFit, AllShort, Sender.Ok;
    FileFrames(hs, fs);
    AnnouncedShort(hs, fs, 0, |fs|);
    assert fs[0..|fs|] == fs;
    AacStreamRoundTrip(s, fs);
    RoomIsFit(s, fs);
    ShortIsCarried(fs);
  }

  lemma ShortIsCarried(fs: seq<seq<byte>>)
    requires AllShort(fs)
    ensures forall i :: 0 <= i < |fs| ==> Int16(AuHeader(|fs[i]|), 0) == 8 * |fs[i]|
  {
    hide Int16;
    forall i | 0 <= i < |fs| ensures Int16(AuHeader(|fs[i]|), 0) == 8 * |fs[i]| {
      AuHeaderCarries(|fs[i]|);
    }
  }

  /** There are files of legal ADTS frames the sender has no room for: every announced length from
      1019 on is one. */
  lemma LegalButTooLong(s: Sender, n: nat) returns (h: seq<byte>, f: seq<byte>)
    requires AAC_ROOM < n && n + ADTS_HEADER < 8192
    ensures |f| == n && AllAnnounced([h], [f]) && Frames(Input(Concat([h], [f]), false)) == [f]
    ensures |PacketAac(s, f)| > RTP_BUF
  {
    AnnouncedLengths(n);
    h :| Announces(h, n);
    f := seq(n, _ => 0);
    FileFrames([h], [f]);
  }
}
