/** One media stream of a session: its sender thread takes frames from the track and puts their
    packets on the wire. A turn of the thread's loop is one method; other threads run between
    turns, and module Lifecycle says what they can do to the track meanwhile. */
module SessionHandlers {
  import opened Ring
  import opened Lifecycle
  import opened MediaTracks
  import opened RtpSending
  import Rtp
  import RtpStream

  type Bytes = seq<Rtp.byte>

  function AsSend(video: bool, f: Bytes): RtpStream.Send {
    if video then RtpStream.H264(f) else RtpStream.Aac(f)
  }

  function AsSends(video: bool, fs: seq<Bytes>): seq<RtpStream.Send> {
    seq(|fs|, i requires 0 <= i < |fs| => AsSend(video, fs[i]))
  }

  predicate CanSend(video: bool, fs: seq<Bytes>) {
    forall f :: f in fs ==> RtpStream.Sendable(AsSend(video, f))
  }

  // The sender and what it has put on the wire after a list of frames.
  ghost predicate HasSent(rtp: RtpSender, origin: Rtp.Sender, video: bool, fs: seq<Bytes>)
    reads rtp
  {
    && rtp.wire == RtpStream.Sent(origin, AsSends(video, fs))
    && rtp.State() == RtpStream.State(origin, AsSends(video, fs))
  }

  lemma SentGrows(origin: Rtp.Sender, video: bool, fs: seq<Bytes>, f: Bytes)
    ensures var xs, s := AsSends(video, fs + [f]), RtpStream.State(origin, AsSends(video, fs));
            && RtpStream.Sent(origin, xs) ==
               RtpStream.Sent(origin, AsSends(video, fs)) + RtpStream.Packets(s, AsSend(video, f))
            && RtpStream.State(origin, xs) == RtpStream.After(s, AsSend(video, f))
  {
    hide AsSend, RtpStream.Packets, RtpStream.After;
    assert AsSends(video, fs + [f])[..|fs|] == AsSends(video, fs);
  }

  // What asking for a frame does to the record of the session that asks.
  lemma GetFrameGives<F>(frames: seq<F>, s: Track<F>, t: Tid, id: Id)
    requires Inv(frames, s) && Enabled(frames, s, GetFrame(t, id))
    ensures Linked(s.ring, s.book) && id in s.book.readers && id in Next(frames, s, GetFrame(t, id)).book.readers
    ensures var r, r' := s.book.readers[id], Next(frames, s, GetFrame(t, id)).book.readers[id];
            var out := Step(s.ring, Consume(t, id)).1;
            r'.since == r.since && r'.got == if out.Got? then r.got + [out.x] else r.got
  {
    hide ReaderOk, Window, Slot, ConsumeStep, Protocol, Spared, FromFile;
  }

  lemma GivenAreFrames<F>(frames: seq<F>, s: Track<F>, id: Id)
    requires Inv(frames, s) && id in s.book.readers
    ensures forall f :: f in s.book.readers[id].got ==> f in frames
  {
    hide Inv, Linked;
    GivenRun(frames, s, id);
    var r := s.book.readers[id];
    ConsecutiveIn(frames, r.got, FirstOf(s, r), LeadOf(s, r));
  }

  lemma ConsecutiveIn<F>(frames: seq<F>, got: seq<F>, first: int, lead: nat)
    requires Consecutive(frames, got, first, lead)
    ensures forall f :: f in got ==> f in frames
  {
    if lead != 0 && |got| > lead {
      assert got == got[..lead] + got[lead..];
    }
  }

  /** No move of any other thread touches what a session was given or where it joined. */
  lemma OthersLeaveAlone<F>(frames: seq<F>, s: Track<F>, m: Move, id: Id)
    requires Inv(frames, s) && Enabled(frames, s, m) && id in s.book.readers
    requires m != UnregisterSession(id) && m != RegisterSession(id) && !(m.GetFrame? && m.id == id)
    ensures Linked(s.ring, s.book) && id in Next(frames, s, m).book.readers
    ensures var r, r' := s.book.readers[id], Next(frames, s, m).book.readers[id];
            r'.since == r.since && r'.got == r.got
  {
    hide Inv, ReaderOk, Window, Slot, Linked, ConsumeStep, ProduceStep, FollowConsume, FollowProduce, ReaderFor;
    InvMeans(frames, s);
    if s.producer.AtProduce? { WriteIsNotGiven(s.ring, s.book, s.producer.frame, id); }
  }

  datatype Turn = Sends | Waits | Ends

  class SessionHandler {
    const track: MediaTrack<Bytes>
    const rtp: RtpSender
    const sessionId: Id
    const thread: Tid
    const video: bool
    ghost const origin: Rtp.Sender

    // The session is registered with the track.
    ghost predicate Joined()
      reads this, track, track.queue, track.queue.buffer
    {
      && track.Valid() && thread != PRODUCER
      && sessionId in track.queue.consumerPositions && sessionId in track.book.readers
    }

    ghost predicate Valid()
      reads this, track, track.queue, track.queue.buffer, rtp
    {
      && Joined() && rtp.Valid() && CanSend(video, track.frames)
      && HasSent(rtp, origin, video, track.book.readers[sessionId].got)
    }

    // add_media_track, once the track is known and the sockets are there.
    constructor (track: MediaTrack<Bytes>, rtp: RtpSender, sessionId: Id, thread: Tid, video: bool)
      requires track.Valid() && rtp.Valid() && rtp.wire == [] && thread != PRODUCER && CanSend(video, track.frames)
      requires Enabled(track.frames, track.State(), RegisterSession(sessionId))
      modifies track, track.queue
      ensures Valid() && this.track == track && this.rtp == rtp && this.sessionId == sessionId && this.video == video
      ensures track.State() == Next(track.frames, old(track.State()), RegisterSession(sessionId))
      ensures origin == rtp.State() && track.book.readers[sessionId].got == []
    {
      hide Inv, ReaderOk, Window, Slot, Linked, RtpStream.Sendable, ProduceStep, ConsumeStep;
      hide FollowProduce, FollowConsume;
      this.track, this.rtp, this.sessionId, this.thread, this.video := track, rtp, sessionId, thread, video;
      origin := rtp.State();
      new;
      InvMeans(track.frames, track.State());
      track.RegisterSession(sessionId);
    }

    method Take() returns (out: Outcome<Bytes>)
      requires Joined()
      modifies track, track.queue
      ensures Joined() && track.State() == Next(track.frames, old(track.State()), GetFrame(thread, sessionId))
      ensures out == Step(old(track.queue.State()), Consume(thread, sessionId)).1
      ensures out.Got? ==> out.x in track.frames
      ensures old(track.producer) == Finished ==> out == Default
      ensures track.book.readers[sessionId].got ==
              if out.Got? then old(track.book.readers[sessionId].got) + [out.x]
              else old(track.book.readers[sessionId].got)
    {
      hide Inv, ReaderOk, Window, Slot, Linked, Next, Ring.Ok, Step;
      EndIsSeen();
      GetFrameGives(track.frames, track.State(), thread, sessionId);
      out := track.GetNextFrame(thread, sessionId);
      InvMeans(track.frames, track.State());
      if out.Got? { GivenAreFrames(track.frames, track.State(), sessionId); }
    }

    lemma EndIsSeen()
      requires Joined()
      ensures track.producer == Finished ==> Step(track.queue.State(), Consume(thread, sessionId)).1 == Default
    {
      hide Inv, ConsumeStep;
      InvMeans(track.frames, track.State());
      if track.producer == Finished { EndIsAnswered(track.frames, track.State(), thread, sessionId); }
    }

    method Forward(f: Bytes, ghost fs: seq<Bytes>)
      requires rtp.Valid() && HasSent(rtp, origin, video, fs) && RtpStream.Sendable(AsSend(video, f))
      modifies rtp, rtp.rtpBuf
      ensures rtp.Valid() && HasSent(rtp, origin, video, fs + [f])
    {
      hide RtpStream.Sendable, RtpStream.Sent, RtpStream.State, RtpStream.Packets, RtpStream.After, AsSends, AsSend;
      SentGrows(origin, video, fs, f);
      rtp.SendRtpPacket(AsSend(video, f));
    }

    /** One turn of the sender thread: it waits, or ends because it got no frame, or sends exactly
        the packets of the next frame; in all cases the packets on the wire are those of the
        frames the session was given, in order. */
    method SenderTurn() returns (turn: Turn)
      requires Valid()
      modifies track, track.queue, rtp, rtp.rtpBuf
      ensures Valid()
      ensures track.State() == Next(track.frames, old(track.State()), GetFrame(thread, sessionId))
      ensures turn == match Step(old(track.queue.State()), Consume(thread, sessionId)).1
                      case Got(_) => Sends
                      case Default => Ends
                      case _ => Waits
      ensures old(track.producer) == Finished ==> turn == Ends
    {
      hide HasSent, RtpStream.Sendable, RtpSender.Valid, Next, Step, Inv, Linked, Ring.Ok;
      ghost var got := track.book.readers[sessionId].got;
      var out := Take();
      if out.Got? {
        Forward(out.x, got);
        return Sends;
      }
      return if out.Default? then Ends else Waits;
    }
  }

  /** A session's handler stays valid through every step another thread makes on the track. */
  twostate lemma StaysValid(h: SessionHandler, m: Move)
    requires old(h.Valid()) && old(Enabled(h.track.frames, h.track.State(), m))
    requires m != UnregisterSession(h.sessionId) && m != RegisterSession(h.sessionId)
    requires !(m.GetFrame? && m.id == h.sessionId)
    requires unchanged(h.rtp) && h.track.Valid()
    requires old(Linked(h.track.queue.State(), h.track.book))
    requires h.track.State() == Next(h.track.frames, old(h.track.State()), m)
    ensures h.Valid()
  {
    hide Inv, Linked, Next, Enabled, ReaderOk, Window, Slot, RtpStream.Sendable, RtpSender.Valid, Ring.Ok;
    OthersLeaveAlone(h.track.frames, old(h.track.State()), m, h.sessionId);
    InvMeans(h.track.frames, h.track.State());
    assert h.rtp.wire == old(h.rtp.wire) && h.rtp.State() == old(h.rtp.State());
  }
}
