/** From the media file to the client: the splitter's frames, through the track's ring under any
    interleaving of producer and sessions, out of a session's RTP sender and into a receiver. */
module EndToEnd {
  import opened Ring
  import opened Lifecycle
  import opened SessionHandlers
  import Rtp
  import RtpStream
  import AnnexB
  import Adts

  // ---------------------------------------------------------------- a list of sends

  lemma {:induction false} SentFront(sender: Rtp.Sender, x: RtpStream.Send, xs: seq<RtpStream.Send>)
    ensures RtpStream.Sent(sender, [x] + xs) ==
            RtpStream.Packets(sender, x) + RtpStream.Sent(RtpStream.After(sender, x), xs)
    ensures RtpStream.State(sender, [x] + xs) == RtpStream.State(RtpStream.After(sender, x), xs)
  {
    hide RtpStream.Packets, RtpStream.After;
    var all := [x] + xs;
    if xs == [] {
      assert all[..0] == [];
    } else {
      var front := xs[..|xs| - 1];
      assert all[..|all| - 1] == [x] + front;
      SentFront(sender, x, front);
    }
  }

  lemma NothingSent(sender: Rtp.Sender, video: bool)
    ensures RtpStream.Sent(sender, AsSends(video, [])) == []
  {
    assert AsSends(video, []) == [];
  }

  lemma AsSendsFront(video: bool, fs: seq<Bytes>)
    requires fs != []
    ensures AsSends(video, fs) == [AsSend(video, fs[0])] + AsSends(video, fs[1..])
  {}

  lemma {:induction false} SentIs264(sender: Rtp.Sender, fs: seq<Bytes>)
    ensures RtpStream.Sent(sender, AsSends(true, fs)) == Rtp.PacketsOf264(sender, fs)
    decreases |fs|
  {
    hide AsSends, RtpStream.Sent, Rtp.Packets264, Rtp.After264;
    if fs == [] {
      NothingSent(sender, true);
    } else {
      AsSendsFront(true, fs);
      SentFront(sender, RtpStream.H264(fs[0]), AsSends(true, fs[1..]));
      SentIs264(Rtp.After264(sender, fs[0]), fs[1..]);
    }
  }

  lemma {:induction false} SentIsAac(sender: Rtp.Sender, fs: seq<Bytes>)
    ensures RtpStream.Sent(sender, AsSends(false, fs)) == Adts.PacketsOfAac(sender, fs)
    decreases |fs|
  {
    hide AsSends, RtpStream.Sent, Rtp.PacketAac, Rtp.AfterAac;
    if fs == [] {
      NothingSent(sender, false);
    } else {
      AsSendsFront(false, fs);
      SentFront(sender, RtpStream.Aac(fs[0]), AsSends(false, fs[1..]));
      SentIsAac(Rtp.AfterAac(sender, fs[0]), fs[1..]);
    }
  }

  // ---------------------------------------------------------------- H.264

  function UnitNals(units: seq<AnnexB.Unit>): seq<Bytes> {
    seq(|units|, i requires 0 <= i < |units| => units[i].nal)
  }

  lemma UnitIsFrame(u: AnnexB.Unit)
    requires u.Clean()
    ensures Rtp.Framed(u.Bytes()) && Rtp.Nal(u.Bytes()) == u.nal
    ensures Rtp.Readable(u.Bytes())
  {
    var p := u.Bytes();
    assert p[..|u.code|] == u.code;
    assert forall i :: 0 <= i < |u.code| ==> p[i] == u.code[i];
    assert Rtp.StartCode(p) == |u.code|;
    assert p[|u.code|..] == u.nal;
  }

  ghost predicate AllClean(units: seq<AnnexB.Unit>) {
    forall i :: 0 <= i < |units| ==> units[i].Clean()
  }

  // What the splitter cuts from a file of units.
  function FramesOf(units: seq<AnnexB.Unit>, max: nat): seq<Bytes>
    requires max >= 1
  {
    AnnexB.Frames(AnnexB.Input(AnnexB.Concat(units), false), max)
  }

  lemma CutIsPrefix(units: seq<AnnexB.Unit>, max: nat, frames: seq<Bytes>)
    requires AnnexB.CutOf(units, max, frames)
    ensures |frames| <= |units| && forall i :: 0 <= i < |frames| ==> frames[i] == units[i].Bytes()
  {}

  // A sender that is given frames of the file is given units.
  lemma GivenUnits(units: seq<AnnexB.Unit>, frames: seq<Bytes>, got: seq<Bytes>)
    requires AllClean(units) && (forall f :: f in got ==> f in frames)
    requires |frames| <= |units| && forall i :: 0 <= i < |frames| ==> frames[i] == units[i].Bytes()
    ensures Rtp.AllFramed(got)
    ensures (forall i :: 0 <= i < |units| ==> Rtp.Carriable(units[i].nal)) ==> Rtp.AllCarriable(got)
  {
    hide Rtp.Framed, Rtp.Carriable, Rtp.Nal, AnnexB.Unit.Clean;
    forall i | 0 <= i < |got|
      ensures Rtp.Framed(got[i])
      ensures (forall i :: 0 <= i < |units| ==> Rtp.Carriable(units[i].nal)) ==> Rtp.Carriable(Rtp.Nal(got[i]))
    {
      assert got[i] in frames;
      var j :| 0 <= j < |frames| && frames[j] == got[i];
      UnitIsFrame(units[j]);
    }
  }

  lemma NalsOfFrames(units: seq<AnnexB.Unit>, frames: seq<Bytes>)
    requires AllClean(units) && |frames| <= |units|
    requires forall i :: 0 <= i < |frames| ==> frames[i] == units[i].Bytes()
    ensures Rtp.Nals(frames) <= UnitNals(units)
  {
    hide Rtp.Framed, Rtp.Nal, AnnexB.Unit.Clean;
    forall i | 0 <= i < |frames| ensures Rtp.Nal(frames[i]) == units[i].nal {
      UnitIsFrame(units[i]);
    }
  }

  lemma StretchNals(frames: seq<Bytes>, got: seq<Bytes>, first: int, all: seq<Bytes>)
    requires Stretch(frames, got, first) && Rtp.Nals(frames) <= all
    ensures Stretch(all, Rtp.Nals(got), first)
  {
    hide Rtp.Nal;
    var nals := Rtp.Nals(got);
    assert forall i :: 0 <= i < |got| ==> nals[i] == Rtp.Nals(frames)[first + i];
  }

  // Consecutive frames carry consecutive units.
  lemma ConsecutiveNals(frames: seq<Bytes>, got: seq<Bytes>, first: int, lead: nat, all: seq<Bytes>)
    requires Consecutive(frames, got, first, lead) && Rtp.Nals(frames) <= all
    ensures Consecutive(all, Rtp.Nals(got), first, lead)
  {
    hide Rtp.Nals, Stretch;
    NalsSplit(got, if lead <= |got| then lead else |got|);
    if lead == 0 || |got| <= lead {
      StretchNals(frames, got, first, all);
    } else {
      StretchNals(frames, got[..lead], first, all);
      StretchNals(frames, got[lead..], 0, all);
    }
  }

  lemma NalsSplit(got: seq<Bytes>, n: nat)
    requires n <= |got|
    ensures |Rtp.Nals(got)| == |got|
    ensures Rtp.Nals(got)[..n] == Rtp.Nals(got[..n]) && Rtp.Nals(got)[n..] == Rtp.Nals(got[n..])
  {
    hide Rtp.Nal;
  }

  lemma ConsecutiveFront<F>(frames: seq<F>, got: seq<F>, first: int, lead: nat, k: nat)
    requires Consecutive(frames, got, first, lead) && k <= |got|
    ensures Consecutive(frames, got[..k], first, lead)
  {
    if lead == 0 || |got| <= lead {
    } else if k <= lead {
      assert got[..k] == got[..lead][..k];
    } else {
      assert got[..k][..lead] == got[..lead] && got[..k][lead..] == got[lead..][..k - lead];
    }
  }

  lemma ConsecutiveUnique<F>(frames: seq<F>, a: seq<F>, b: seq<F>, first: int, lead: nat)
    requires Consecutive(frames, a, first, lead) && Consecutive(frames, b, first, lead) && |a| == |b|
    ensures a == b
  {
    if lead != 0 && |a| > lead {
      assert a == a[..lead] + a[lead..] && b == b[..lead] + b[lead..];
    }
  }

  // The client rebuilds k units, consecutive ones of the file.
  ghost predicate Rebuilds(units: seq<AnnexB.Unit>, sender: Rtp.Sender, wire: seq<Bytes>,
                           first: int, lead: nat, k: nat) {
    var rx := Rtp.Receive264(Rtp.Idle(sender, []), wire);
    && rx.Some? && rx.value.partial.None? && |rx.value.nals| == k
    && Consecutive(UnitNals(units), rx.value.nals, first, lead)
  }

  lemma CutRoundTrip(units: seq<AnnexB.Unit>, max: nat, first: int, lead: nat, got: seq<Bytes>, sender: Rtp.Sender)
    requires units != [] && max >= 8 && AnnexB.Fits(units, max) && sender.Ok()
    requires Consecutive(FramesOf(units, max), got, first, lead)
    ensures Rebuilds(units, sender, RtpStream.Sent(sender, AsSends(true, got)), first, lead, |got|)
            <==> Rtp.AllCarriable(got)
    ensures (forall i :: 0 <= i < |units| ==> Rtp.Carriable(units[i].nal)) ==> Rtp.AllCarriable(got)
  {
    var frames := FramesOf(units, max);
    AnnexB.SplitsUnits(units, max);
    CutIsPrefix(units, max, frames);
    NalsOfFrames(units, frames);
    ConsecutiveIn(frames, got, first, lead);
    GivenUnits(units, frames, got);
    ConsecutiveNals(frames, got, first, lead, UnitNals(units));
    hide *;
    Received(sender, got);
    RebuildsIs(units, sender, got, first, lead);
  }

  lemma Received(sender: Rtp.Sender, got: seq<Bytes>)
    requires sender.Ok() && Rtp.AllFramed(got)
    ensures var rx := Rtp.Receive264(Rtp.Idle(sender, []), RtpStream.Sent(sender, AsSends(true, got)));
            rx.Some? && rx.value.partial.None? && rx.value.nals == Rtp.Nals(got) <==> Rtp.AllCarriable(got)
  {
    hide Rtp.AllFramed, Rtp.AllCarriable, Rtp.Nals, Rtp.Receive264, Rtp.PacketsOf264, RtpStream.Sent, AsSends;
    SentIs264(sender, got);
    Rtp.StreamRoundTrip(sender, got, []);
    assert [] + Rtp.Nals(got) == Rtp.Nals(got);
  }

  lemma RebuildsIs(units: seq<AnnexB.Unit>, sender: Rtp.Sender, got: seq<Bytes>, first: int, lead: nat)
    requires Consecutive(UnitNals(units), Rtp.Nals(got), first, lead)
    ensures var rx := Rtp.Receive264(Rtp.Idle(sender, []), RtpStream.Sent(sender, AsSends(true, got)));
            rx.Some? && rx.value.partial.None? && rx.value.nals == Rtp.Nals(got)
            <==> Rebuilds(units, sender, RtpStream.Sent(sender, AsSends(true, got)), first, lead, |got|)
  {
    hide Rtp.Receive264, RtpStream.Sent, AsSends, Consecutive, UnitNals, Rtp.Nals;
    NalsSplit(got, 0);
    var rx := Rtp.Receive264(Rtp.Idle(sender, []), RtpStream.Sent(sender, AsSends(true, got)));
    if Rebuilds(units, sender, RtpStream.Sent(sender, AsSends(true, got)), first, lead, |got|) {
      ConsecutiveUnique(UnitNals(units), rx.value.nals, Rtp.Nals(got), first, lead);
    }
  }

  /** Whatever the producer and any number of sessions have done on an H.264 track, the client of
      any registered session rebuilds, from the packets of the first k frames its sender thread was
      given, exactly k consecutive NAL units of the file, beginning with the first unit produced
      after the session registered, if and only if the packets can carry each of these units; so
      always if they can carry each unit of the file. */
  lemma H264EndToEnd(units: seq<AnnexB.Unit>, max: nat, cap: nat, dflt: Bytes, s: Track<Bytes>,
                     id: Id, sender: Rtp.Sender, k: nat)
    requires units != [] && max >= 8 && AnnexB.Fits(units, max) && sender.Ok() && cap >= 2
    requires Reachable(FramesOf(units, max), cap, dflt, s)
    requires id in s.book.readers && k <= |s.book.readers[id].got|
    ensures var r := s.book.readers[id];
            var wire := RtpStream.Sent(sender, AsSends(true, r.got[..k]));
            && (Rebuilds(units, sender, wire, FirstOf(s, r), LeadOf(s, r), k) <==> Rtp.AllCarriable(r.got[..k]))
            && ((forall i :: 0 <= i < |units| ==> Rtp.Carriable(units[i].nal)) ==> Rtp.AllCarriable(r.got[..k]))
  {
    hide *;
    var frames, r := FramesOf(units, max), s.book.readers[id];
    ReachableInv(frames, cap, dflt, s);
    GivenRun(frames, s, id);
    ConsecutiveFront(frames, r.got, FirstOf(s, r), LeadOf(s, r), k);
    CutRoundTrip(units, max, FirstOf(s, r), LeadOf(s, r), r.got[..k], sender);
  }

  /** The same said of the running program: at every turn of a session's sender thread, its client
      has rebuilt from what is on the wire one unit for every frame the session was given. */
  lemma ClientHasUnits(h: SessionHandler, units: seq<AnnexB.Unit>, max: nat)
    requires h.Valid() && h.video && h.origin.Ok()
    requires units != [] && max >= 8 && AnnexB.Fits(units, max)
    requires h.track.frames == FramesOf(units, max)
    ensures h.sessionId in h.track.book.readers
    ensures var s, r := h.track.State(), h.track.book.readers[h.sessionId];
            && (Rebuilds(units, h.origin, h.rtp.wire, FirstOf(s, r), LeadOf(s, r), |r.got|)
                <==> Rtp.AllCarriable(r.got))
            && ((forall i :: 0 <= i < |units| ==> Rtp.Carriable(units[i].nal)) ==> Rtp.AllCarriable(r.got))
  {
    hide Inv, AnnexB.Fits, RtpStream.Sent, RtpStream.State, AsSends, FramesOf, Rebuilds, Rtp.AllCarriable;
    hide Rtp.Carriable, FirstOf, LeadOf, Consecutive;
    var s, r := h.track.State(), h.track.book.readers[h.sessionId];
    GivenRun(h.track.frames, s, h.sessionId);
    CutRoundTrip(units, max, FirstOf(s, r), LeadOf(s, r), r.got, h.origin);
  }

  // The sender can take every frame of such a file.
  lemma UnitsCanBeSent(units: seq<AnnexB.Unit>, max: nat)
    requires units != [] && max >= 8 && AnnexB.Fits(units, max)
    ensures CanSend(true, FramesOf(units, max))
  {
    var frames := FramesOf(units, max);
    AnnexB.SplitsUnits(units, max);
    CutIsPrefix(units, max, frames);
    hide FramesOf, AnnexB.CutOf, Rtp.Readable;
    forall f | f in frames ensures RtpStream.Sendable(AsSend(true, f)) {
      var i :| 0 <= i < |frames| && frames[i] == f;
      UnitIsFrame(units[i]);
    }
  }

  // ---------------------------------------------------------------- AAC

  // What the client of an AAC session makes of these packets.
  ghost predicate Recovers(fs: seq<Bytes>, sender: Rtp.Sender, wire: seq<Bytes>,
                           first: int, lead: nat, k: nat) {
    var rx := Adts.ReceiveAac(sender.seqNo % Rtp.TWO16, wire);
    rx.Some? && |rx.value| == k && Consecutive(fs, rx.value, first, lead)
  }

  lemma AacRunRoundTrip(hs: seq<Bytes>, fs: seq<Bytes>, first: int, lead: nat, got: seq<Bytes>, sender: Rtp.Sender)
    requires Adts.AllAnnounced(hs, fs) && sender.Ok() && Consecutive(fs, got, first, lead)
    ensures Adts.InRoom(RtpStream.Sent(sender, AsSends(false, got))) <==> Adts.AllFit(got)
    ensures Recovers(fs, sender, RtpStream.Sent(sender, AsSends(false, got)), first, lead, |got|)
  {
    hide RtpStream.Sent, AsSends, Adts.AllAnnounced, Adts.ReceiveAac, Adts.PacketsOfAac, Adts.InRoom, Adts.AllFit;
    hide Consecutive;
    SentIsAac(sender, got);
    Adts.RoomIsFit(sender, got);
    GivenShort(hs, fs, first, lead, got);
    Adts.AacStreamRoundTrip(sender, got);
  }

  lemma GivenShort(hs: seq<Bytes>, fs: seq<Bytes>, first: int, lead: nat, got: seq<Bytes>)
    requires Adts.AllAnnounced(hs, fs) && Consecutive(fs, got, first, lead)
    ensures Adts.AllShort(got)
  {
    Adts.AnnouncedShort(hs, fs, 0, |fs|);
    ConsecutiveIn(fs, got, first, lead);
    hide Adts.AllAnnounced, Consecutive;
    forall i | 0 <= i < |got| ensures |got[i]| < 8192 {
      var j :| 0 <= j < |fs| && fs[j] == got[i];
      assert fs[0..|fs|][j] == fs[j];
    }
  }

  /** The same for an AAC track over an ADTS file: the sender's buffer has room for the packets of
      the frames a session was given exactly when none has more than 1018 bytes, and then the
      client recovers these frames, consecutive frames of the file. */
  lemma AacEndToEnd(hs: seq<Bytes>, fs: seq<Bytes>, cap: nat, dflt: Bytes, s: Track<Bytes>,
                    id: Id, sender: Rtp.Sender, k: nat)
    requires |hs| == |fs| && Adts.AllAnnounced(hs, fs) && sender.Ok() && cap >= 2
    requires Reachable(Adts.Frames(Adts.Input(Adts.Concat(hs, fs), false)), cap, dflt, s)
    requires id in s.book.readers && k <= |s.book.readers[id].got|
    ensures var r := s.book.readers[id];
            var wire := RtpStream.Sent(sender, AsSends(false, r.got[..k]));
            Adts.InRoom(wire) && Recovers(fs, sender, wire, FirstOf(s, r), LeadOf(s, r), k) <==> Adts.AllFit(r.got[..k])
  {
    hide *;
    Adts.FileFrames(hs, fs);
    var frames, r := Adts.Frames(Adts.Input(Adts.Concat(hs, fs), false)), s.book.readers[id];
    ReachableInv(frames, cap, dflt, s);
    GivenRun(frames, s, id);
    ConsecutiveFront(frames, r.got, FirstOf(s, r), LeadOf(s, r), k);
    AacRunRoundTrip(hs, fs, FirstOf(s, r), LeadOf(s, r), r.got[..k], sender);
  }

  /** And of the running program, whose sender only takes frames it has room for. */
  lemma ClientHasFrames(h: SessionHandler, hs: seq<Bytes>, fs: seq<Bytes>)
    requires h.Valid() && !h.video && h.origin.Ok()
    requires |hs| == |fs| && Adts.AllAnnounced(hs, fs)
    requires h.track.frames == Adts.Frames(Adts.Input(Adts.Concat(hs, fs), false))
    ensures h.sessionId in h.track.book.readers
    ensures var s, r := h.track.State(), h.track.book.readers[h.sessionId];
            Adts.InRoom(h.rtp.wire) && Recovers(fs, h.origin, h.rtp.wire, FirstOf(s, r), LeadOf(s, r), |r.got|)
  {
    hide Inv, Adts.Frames, Adts.Concat, Adts.AllAnnounced, RtpStream.Sent, RtpStream.State, AsSends, Recovers;
    hide Adts.InRoom, FirstOf, LeadOf, Consecutive;
    var s, r := h.track.State(), h.track.book.readers[h.sessionId];
    Adts.FileFrames(hs, fs);
    GivenRun(h.track.frames, s, h.sessionId);
    GivenAreFrames(h.track.frames, h.track.State(), h.sessionId);
    AacRunRoundTrip(hs, fs, FirstOf(s, r), LeadOf(s, r), r.got, h.origin);
    assert Adts.AllFit(r.got) by {
      forall i | 0 <= i < |r.got| ensures |r.got[i]| <= Rtp.AAC_ROOM {
        assert RtpStream.Sendable(AsSend(false, r.got[i]));
      }
    }
  }

  // The sender can take every frame of an ADTS file exactly when none is too long for it.
  lemma FramesCanBeSent(hs: seq<Bytes>, fs: seq<Bytes>)
    requires |hs| == |fs| && Adts.AllAnnounced(hs, fs)
    ensures CanSend(false, Adts.Frames(Adts.Input(Adts.Concat(hs, fs), false))) <==> Adts.AllFit(fs)
  {
    Adts.FileFrames(hs, fs);
    assert forall i :: 0 <= i < |fs| ==>
      fs[i] in fs && (RtpStream.Sendable(AsSend(false, fs[i])) <==> |fs[i]| <= Rtp.AAC_ROOM);
  }
}
