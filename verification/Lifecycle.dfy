/** A media track: its ring, its producer thread, and the start/stop protocol around them.
    The producer's steps interleave with everything, also with the sections of the thread that
    tears the last session down; start and unregister_session exclude each other. The file is
    the list of frames its reader would cut from the beginning to the first failed read. */
module Lifecycle {
  import opened Ring

  const PRODUCER: Tid := 0

  // Where the producer thread stands in run_producer.
  datatype Producer<F> = NoThread | AtTest | AtRead | AtProduce(frame: F) | AtExit | Finished
  {
    predicate Live() { AtTest? || AtRead? || AtProduce? || AtExit? }

    // How many more steps the thread takes once it finds the track inactive.
    function Rank(): nat {
      match this
      case AtRead => 4
      case AtProduce(_) => 3
      case AtTest => 2
      case AtExit => 1
      case _ => 0
    }
  }

  // Where unregister_session stands: nobody in it; after erasing the consumer; after finding no
  // consumer left; after clearing is_active_; in the join; after the join.
  datatype Phase = Quiet | Erased | Deserted | Cleared | Joining | Joined

  datatype Track<F> = Track(
    ring: Ring<F>, book: Book<F>, active: bool, producer: Producer<F>, phase: Phase,
    fileOpen: bool, next: nat,
    terminated: bool, // start replaced a thread that was never joined
    prev: nat,        // length of the history at the start before the last
    base: nat,        // length of the history at the last start
    late: nat)        // frames written since the running stop cleared is_active_

  datatype Move =
    | RegisterSession(id: Id)
    | UnregisterSession(id: Id)
    | StopStep
    | Start
    | ProducerStep
    | GetFrame(t: Tid, id: Id)
    | Spurious(t: Tid)

  function InitTrack<F>(cap: nat, dflt: F): Track<F> {
    Track(Init(cap, dflt), Book([], map[]), false, NoThread, Quiet, true, 0, false, 0, 0, 0)
  }

  // How many frames the producer writes if nobody stops it.
  ghost function Left<F>(frames: seq<F>, s: Track<F>): nat {
    var unread := if s.next <= |frames| then |frames| - s.next else 0;
    if s.producer.AtProduce? then unread + 1 else if s.producer.AtTest? || s.producer.AtRead? then unread else 0
  }

  // A session is registered before its sender asks for frames. Between the no-consumer check of
  // a stop and the clearing of is_active_ it can register only if the producer has less than a
  // ring of frames to write (module Races shows that this is just what keeps it from losing any).
  ghost predicate Enabled<F>(frames: seq<F>, s: Track<F>, m: Move) {
    match m
    case RegisterSession(_) => s.phase == Deserted ==> Left(frames, s) < |s.ring.buffer|
    case UnregisterSession(_) => s.phase == Quiet
    case StopStep => s.phase != Quiet && (s.phase == Joining ==> !s.producer.Live())
    case Start => s.phase == Quiet
    case ProducerStep => s.producer.Live() && PRODUCER !in s.ring.notFull
    case GetFrame(t, id) => id in s.ring.pos && t != PRODUCER
    case Spurious(_) => true
  }

  ghost function OnRing<F>(s: Track<F>, e: Event<F>): Track<F>
    requires Linked(s.ring, s.book)
  {
    s.(ring := Step(s.ring, e).0, book := Follow(s.ring, s.book, e))
  }

  ghost function StartStep<F>(s: Track<F>): Track<F>
    requires Linked(s.ring, s.book)
  {
    if s.active then s
    else
      (if s.ring.exit then OnRing(s, SetRun) else s).(
        active := true, fileOpen := true, next := if s.fileOpen then s.next else 0,
        terminated := s.terminated || s.producer != NoThread, producer := AtTest,
        prev := s.base, base := |s.book.history|)
  }

  ghost function ProducerMoves<F>(frames: seq<F>, s: Track<F>): Track<F>
    requires Linked(s.ring, s.book)
  {
    match s.producer
    case AtTest => s.(producer := if s.active then AtRead else AtExit)
    case AtRead =>
      if s.next < |frames| then s.(producer := AtProduce(frames[s.next]), next := s.next + 1)
      else s.(producer := AtExit)
    case AtProduce(f) =>
      var s' := OnRing(s, Produce(PRODUCER, f));
      if ProduceStep(s.ring, PRODUCER, f).1.Blocked? then s'
      else s'.(producer := AtTest, late := if s.active then s.late else s.late + 1)
    case AtExit => OnRing(s, SetExit).(producer := Finished)
    case _ => s
  }

  ghost function StopMoves<F>(s: Track<F>): Track<F>
    requires Linked(s.ring, s.book)
  {
    match s.phase
    case Quiet => s
    case Erased => s.(phase := if s.ring.pos == map[] then Deserted else Quiet)
    case Deserted => s.(active := false, late := 0, phase := Cleared)
    case Cleared => OnRing(s, SetExit).(phase := Joining)
    case Joining => s.(producer := NoThread, phase := Joined)
    case Joined => OnRing(s, SetExit).(fileOpen := false, phase := Quiet)
  }

  ghost function Next<F>(frames: seq<F>, s: Track<F>, m: Move): Track<F>
    requires Linked(s.ring, s.book)
  {
    match m
    case RegisterSession(id) => OnRing(s, Register(id))
    case UnregisterSession(id) => OnRing(s, Unregister(id)).(phase := Erased)
    case StopStep => StopMoves(s)
    case Start => StartStep(s)
    case ProducerStep => ProducerMoves(frames, s)
    case GetFrame(t, id) => OnRing(s, Consume(t, id))
    case Spurious(t) => OnRing(s, Wake(t))
  }

  // ---------------------------------------------------------------- invariant

  ghost predicate Protocol<F>(s: Track<F>) {
    && !s.terminated
    && (s.phase in {Quiet, Erased, Deserted} ==> (s.active <==> s.producer != NoThread))
    && (s.phase in {Cleared, Joining, Joined} ==> !s.active && s.late <= 1)
    && (s.phase in {Cleared, Joining} && (s.producer.AtRead? || s.producer.AtProduce?) ==> s.late == 0)
    && (s.phase == Joined ==> s.producer == NoThread)
    && (s.ring.exit && s.producer.Live() ==> s.phase == Joining)
    && (s.phase == Joining ==> s.ring.exit && s.ring.notFull == {})
    && s.ring.notFull <= {PRODUCER}
    && (s.ring.notFull != {} ==> s.producer.AtProduce?)
  }

  // The producer writes one more frame whatever happens.
  ghost predicate WillWrite<F>(frames: seq<F>, s: Track<F>) {
    s.producer.AtProduce? || (s.producer.AtRead? && s.next < |frames|)
  }

  // The most it can still write before the stop under way has joined it.
  ghost function Pending<F>(frames: seq<F>, s: Track<F>): nat {
    if s.phase == Deserted then Left(frames, s) else if WillWrite(frames, s) then 1 else 0
  }

  // During a stop every session has room in the ring for all that may still be written.
  ghost predicate Spared<F>(frames: seq<F>, s: Track<F>)
    requires s.ring.Ok()
  {
    s.phase in {Deserted, Cleared, Joining} ==>
      forall id :: id in s.ring.pos ==> s.ring.Backlog(id) + Pending(frames, s) < |s.ring.buffer|
  }

  ghost predicate FromFile<F>(frames: seq<F>, s: Track<F>) {
    && s.base <= |s.book.history| <= s.base + |frames|
    && s.book.history[s.base..] == frames[..|s.book.history| - s.base]
    && (s.producer != NoThread ==>
          s.next == |s.book.history| - s.base + (if s.producer.AtProduce? then 1 else 0) <= |frames|)
    && (s.producer.AtProduce? ==> s.producer.frame == frames[s.next - 1])
    && (s.producer == NoThread && s.phase != Joined && s.fileOpen ==> s.next == 0)
  }

  ghost predicate Core<F>(frames: seq<F>, s: Track<F>) {
    && |s.ring.buffer| >= 2 && Linked(s.ring, s.book) && Unskipped(s.book)
    && Protocol(s) && Spared(frames, s) && FromFile(frames, s)
  }

  lemma CoreMeans<F>(frames: seq<F>, s: Track<F>)
    requires Core(frames, s)
    ensures Linked(s.ring, s.book) && Unskipped(s.book) && s.ring.Ok() && s.ring.write <= |s.book.history|
    ensures s.base <= |s.book.history| <= s.base + |frames|
    ensures |s.ring.buffer| > 0 && s.ring.pos.Keys == s.book.readers.Keys
  {
    hide ReaderOk, Window, Protocol, Spared;
  }

  lemma ModesAreNotBooked<F>(s: Track<F>, e: Event<F>)
    requires Linked(s.ring, s.book) && (e == SetExit || e == SetRun)
    ensures OnRing(s, e) == s.(ring := Step(s.ring, e).0)
  {
    hide ReaderOk, Window, Slot;
  }

  lemma InitCore<F>(frames: seq<F>, cap: nat, dflt: F)
    requires cap >= 2
    ensures Core(frames, InitTrack(cap, dflt))
  {
    InitLinked(cap, dflt);
  }

  lemma OnRingLinked<F>(s: Track<F>, e: Event<F>)
    requires Linked(s.ring, s.book) && Unskipped(s.book)
    requires e.Produce? ==> !s.ring.exit || !s.ring.InUse(s.ring.Next())
    ensures var s' := OnRing(s, e);
            Linked(s'.ring, s'.book) && Unskipped(s'.book) && |s'.ring.buffer| == |s.ring.buffer|
  {
    StepLinked(s.ring, s.book, e);
    StepUnskipped(s.ring, s.book, e);
  }

  lemma RegisterCore<F>(frames: seq<F>, s: Track<F>, id: Id)
    requires Core(frames, s) && Enabled(frames, s, RegisterSession(id))
    ensures Core(frames, Next(frames, s, RegisterSession(id)))
  {
    hide ReaderOk, Window, Slot, Unskipped;
    OnRingLinked(s, Register(id));
  }

  lemma UnregisterCore<F>(frames: seq<F>, s: Track<F>, id: Id)
    requires Core(frames, s) && Enabled(frames, s, UnregisterSession(id))
    ensures Core(frames, Next(frames, s, UnregisterSession(id)))
  {
    hide ReaderOk, Window, Slot, Unskipped;
    OnRingLinked(s, Unregister(id));
  }

  lemma ConsumeKeeps<F>(s: Ring<F>, t: Tid, id: Id)
    requires s.Ok() && id in s.pos
    ensures var s' := ConsumeStep(s, t, id).0;
            && s'.exit == s.exit && s'.notFull <= s.notFull && s'.buffer == s.buffer && s'.write == s.write
            && (s.pos != map[] ==> s'.pos != map[])
            && forall i :: i in s'.pos ==> i in s.pos && s'.Ok() && s'.Backlog(i) <= s.Backlog(i)
  {
    assert id in ConsumeStep(s, t, id).0.pos;
  }

  lemma ConsumeOnRing<F>(s: Track<F>, t: Tid, id: Id)
    requires Linked(s.ring, s.book)
    ensures var s' := OnRing(s, Consume(t, id));
            && s' == s.(ring := s'.ring, book := s'.book)
            && s'.ring == ConsumeStep(s.ring, t, id).0 && s'.book.history == s.book.history
  {
    hide ReaderOk, Window, Slot, ConsumeStep, FollowConsume, ReaderFor;
  }

  // What a move on the ring alone has to respect.
  lemma RingMoveCore<F>(frames: seq<F>, s: Track<F>, s': Track<F>)
    requires Core(frames, s) && s' == s.(ring := s'.ring, book := s'.book)
    requires Linked(s'.ring, s'.book) && Unskipped(s'.book) && |s'.ring.buffer| == |s.ring.buffer|
    requires s'.book.history == s.book.history && s'.ring.exit == s.ring.exit && s'.ring.notFull <= s.ring.notFull
    requires s'.ring.write == s.ring.write
    requires forall id :: id in s'.ring.pos ==> id in s.ring.pos && s'.ring.Backlog(id) <= s.ring.Backlog(id)
    requires s.ring.pos == map[] ==> s'.ring.pos == map[]
    ensures Core(frames, s')
  {
    hide ReaderOk, Window, Slot, Unskipped;
  }

  lemma GetFrameCore<F>(frames: seq<F>, s: Track<F>, t: Tid, id: Id)
    requires Core(frames, s) && Enabled(frames, s, GetFrame(t, id))
    ensures Core(frames, Next(frames, s, GetFrame(t, id)))
  {
    hide ReaderOk, Window, Slot, Unskipped, ConsumeStep, OnRing, Protocol, Spared, FromFile, Linked, Ring.Ok, Core;
    hide StartStep, ProducerMoves, StopMoves, Step, Follow;
    CoreMeans(frames, s);
    OnRingLinked(s, Consume(t, id));
    ConsumeOnRing(s, t, id);
    ConsumeKeeps(s.ring, t, id);
    RingMoveCore(frames, s, OnRing(s, Consume(t, id)));
  }

  lemma SpuriousCore<F>(frames: seq<F>, s: Track<F>, t: Tid)
    requires Core(frames, s)
    ensures Core(frames, Next(frames, s, Spurious(t)))
  {
    OnRingLinked(s, Wake(t));
    hide ReaderOk, Window, Slot, Unskipped, Protocol, Spared, FromFile;
    RingMoveCore(frames, s, Next(frames, s, Spurious(t)));
  }

  lemma StartCore<F>(frames: seq<F>, s: Track<F>)
    requires Core(frames, s) && Enabled(frames, s, Start)
    ensures Core(frames, Next(frames, s, Start))
  {
    hide ReaderOk, Window, Slot, Unskipped;
    OnRingLinked(s, SetRun);
  }

  lemma StopCore<F>(frames: seq<F>, s: Track<F>)
    requires Core(frames, s) && Enabled(frames, s, StopStep)
    ensures Core(frames, Next(frames, s, StopStep))
  {
    hide ReaderOk, Window, Slot, Unskipped;
    OnRingLinked(s, SetExit);
  }

  // The frame a stopping producer still writes cannot reach a consumer's slot.
  lemma ProduceSpares<F>(frames: seq<F>, s: Track<F>)
    requires Core(frames, s) && s.producer.AtProduce?
    ensures s.ring.exit ==> !s.ring.InUse(s.ring.Next())
  {
    if s.ring.exit {
      forall id | id in s.ring.pos ensures s.ring.pos[id] != s.ring.Next() {
        assert s.ring.Backlog(id) + Pending(frames, s) < |s.ring.buffer|;
      }
    }
  }

  lemma WriteBacklogs<F>(s: Ring<F>, f: F)
    requires s.Ok() && !s.InUse(s.Next())
    ensures var s' := ProduceStep(s, PRODUCER, f).0;
            s'.Ok() && s'.pos == s.pos && forall id :: id in s.pos ==> s'.Backlog(id) == s.Backlog(id) + 1
  {
    forall id | id in s.pos ensures s.pos[id] != s.Next() {}
  }

  lemma WriteFromFile<F>(frames: seq<F>, s: Track<F>, s': Track<F>, f: F)
    requires FromFile(frames, s) && s.producer == AtProduce(f)
    requires s'.book.history == s.book.history + [f] && s'.producer == AtTest
    requires s'.base == s.base && s'.next == s.next
    ensures FromFile(frames, s')
  {
    var h, h' := s.book.history, s'.book.history;
    assert h'[s.base..] == h[s.base..] + [f];
    assert frames[..|h'| - s.base] == frames[..|h| - s.base] + [f];
  }

  lemma WriteSpared<F>(frames: seq<F>, s: Track<F>, s': Track<F>)
    requires s.ring.Ok() && s'.ring.Ok() && Spared(frames, s) && s.producer.AtProduce? && s'.producer == AtTest
    requires s'.phase == s.phase && s'.next == s.next && s'.ring.pos == s.ring.pos
    requires |s'.ring.buffer| == |s.ring.buffer|
    requires forall id :: id in s.ring.pos ==> s'.ring.Backlog(id) == s.ring.Backlog(id) + 1
    ensures Spared(frames, s')
  {
    forall id | s'.phase in {Deserted, Cleared, Joining} && id in s'.ring.pos
      ensures s'.ring.Backlog(id) + Pending(frames, s') < |s'.ring.buffer|
    {
      assert s.ring.Backlog(id) + Pending(frames, s) < |s.ring.buffer|;
    }
  }

  lemma WriteProtocol<F>(s: Track<F>, s': Track<F>)
    requires Protocol(s) && s.producer.AtProduce? && PRODUCER !in s.ring.notFull
    requires s' == s.(ring := s'.ring, book := s'.book, producer := AtTest,
                      late := if s.active then s.late else s.late + 1)
    requires s'.ring.exit == s.ring.exit && s'.ring.notFull == s.ring.notFull
    ensures Protocol(s')
  {}

  lemma WriteOnTrack<F>(frames: seq<F>, s: Track<F>, f: F)
    requires Linked(s.ring, s.book) && s.producer == AtProduce(f) && ProduceStep(s.ring, PRODUCER, f).1.Done?
    ensures ProducerMoves(frames, s) ==
            OnRing(s, Produce(PRODUCER, f)).(producer := AtTest, late := if s.active then s.late else s.late + 1)
    ensures OnRing(s, Produce(PRODUCER, f)) ==
            s.(ring := ProduceStep(s.ring, PRODUCER, f).0, book := FollowProduce(s.ring, s.book, f))
  {
    hide ReaderOk, Window, Slot, ProduceStep, FollowProduce;
  }

  lemma CoreParts<F>(frames: seq<F>, s: Track<F>)
    requires Core(frames, s)
    ensures |s.ring.buffer| >= 2 && s.ring.Ok() && Protocol(s) && Spared(frames, s) && FromFile(frames, s)
  {
    hide ReaderOk, Window, Slot, Unskipped, Protocol, FromFile;
  }

  lemma WriteCore<F>(frames: seq<F>, s: Track<F>, f: F)
    requires Core(frames, s) && s.producer == AtProduce(f) && PRODUCER !in s.ring.notFull
    requires ProduceStep(s.ring, PRODUCER, f).1.Done?
    ensures Linked(s.ring, s.book) && Core(frames, ProducerMoves(frames, s))
  {
    hide Unskipped, Linked, Protocol, Spared, FromFile, OnRing, ProducerMoves, Ring.Ok;
    CoreMeans(frames, s);
    CoreParts(frames, s);
    ProduceSpares(frames, s);
    OnRingLinked(s, Produce(PRODUCER, f));
    WriteOnTrack(frames, s, f);
    WriteBacklogs(s.ring, f);
    var s' := ProducerMoves(frames, s);
    WriteFromFile(frames, s, s', f);
    WriteSpared(frames, s, s');
    WriteProtocol(s, s');
  }

  lemma SleeperLinked<F>(r: Ring<F>, b: Book<F>, waiting: set<Tid>)
    requires Linked(r, b)
    ensures Linked(r.(notFull := waiting), b)
  {
    hide ReaderOk, Window, Slot;
  }

  lemma AsleepCore<F>(frames: seq<F>, s: Track<F>)
    requires Core(frames, s) && s.producer.AtProduce? && !s.ring.exit
    ensures Core(frames, s.(ring := s.ring.(notFull := s.ring.notFull + {PRODUCER})))
  {
    SleeperLinked(s.ring, s.book, s.ring.notFull + {PRODUCER});
    hide ReaderOk, Window, Slot, Unskipped;
  }

  lemma SleepCore<F>(frames: seq<F>, s: Track<F>, f: F)
    requires Core(frames, s) && s.producer == AtProduce(f)
    requires ProduceStep(s.ring, PRODUCER, f).1.Blocked?
    ensures Linked(s.ring, s.book) && Core(frames, ProducerMoves(frames, s))
  {
    hide ReaderOk, Window, Slot, Unskipped, Core;
    CoreMeans(frames, s);
    AsleepCore(frames, s);
  }

  lemma ProducerCore<F>(frames: seq<F>, s: Track<F>)
    requires Core(frames, s) && Enabled(frames, s, ProducerStep)
    ensures Core(frames, Next(frames, s, ProducerStep))
  {
    hide Core, Linked, Unskipped;
    CoreMeans(frames, s);
    match s.producer
    case AtProduce(f) =>
      if ProduceStep(s.ring, PRODUCER, f).1.Done? { WriteCore(frames, s, f); } else { SleepCore(frames, s, f); }
    case _ => TurnCore(frames, s);
  }

  lemma TurnCore<F>(frames: seq<F>, s: Track<F>)
    requires Core(frames, s) && s.producer.Live() && !s.producer.AtProduce?
    ensures Linked(s.ring, s.book) && Core(frames, ProducerMoves(frames, s))
  {
    hide ReaderOk, Window, Slot, Unskipped, ProduceStep, FollowProduce;
    OnRingLinked(s, SetExit);
  }

  lemma StepCore<F>(frames: seq<F>, s: Track<F>, m: Move)
    requires Core(frames, s) && Enabled(frames, s, m)
    ensures Core(frames, Next(frames, s, m))
  {
    hide ReaderOk, Window, Slot, Unskipped, Linked, Protocol, Spared, FromFile;
    match m
    case StopStep => StopCore(frames, s);
    case Start => StartCore(frames, s);
    case ProducerStep => ProducerCore(frames, s);
    case RegisterSession(id) => RegisterCore(frames, s, id);
    case UnregisterSession(id) => UnregisterCore(frames, s, id);
    case GetFrame(t, id) => GetFrameCore(frames, s, t, id);
    case Spurious(t) => SpuriousCore(frames, s, t);
  }

  // ---------------------------------------------------------------- who is served from where

  ghost predicate Since<F>(b: Book<F>, n: int) {
    forall id :: id in b.readers ==> b.readers[id].since >= n
  }

  // Between its last two starts a track wrote the beginning of the file. A session is registered
  // since the start before the last, and while the track is stopped, since the last.
  ghost predicate Recent<F>(frames: seq<F>, s: Track<F>) {
    && s.prev <= s.base <= |s.book.history| && s.base - s.prev <= |frames|
    && s.book.history[s.prev..s.base] == frames[..s.base - s.prev]
    && Since(s.book, s.prev)
    && (!s.active || s.phase == Deserted ==> Since(s.book, s.base))
  }

  lemma WriteSince<F>(r: Ring<F>, b: Book<F>, x: F, n: int)
    requires r.Ok() && Since(b, n)
    ensures Since(FollowProduce(r, b, x), n) && FollowProduce(r, b, x).history == b.history + [x]
    ensures b.readers == map[] ==> FollowProduce(r, b, x).readers == map[]
  {}

  lemma ReadSince<F>(r: Ring<F>, b: Book<F>, t: Tid, id: Id, n: int)
    requires r.Ok() && r.write <= |b.history| && id in b.readers
    ensures Since(Follow(r, b, Consume(t, id)), n) <==> Since(b, n)
    ensures Follow(r, b, Consume(t, id)).history == b.history && Follow(r, b, Consume(t, id)).readers != map[]
  {
    hide ConsumeStep;
    var b' := Follow(r, b, Consume(t, id));
    assert forall i :: i in b.readers ==> i in b'.readers && b'.readers[i].since == b.readers[i].since;
    assert id in b'.readers;
  }

  lemma PhasesMean<F>(frames: seq<F>, s: Track<F>)
    requires Core(frames, s)
    ensures Linked(s.ring, s.book) && s.ring.Ok() && s.ring.write <= |s.book.history| && s.base <= |s.book.history|
    ensures s.phase in {Quiet, Erased, Deserted} ==> (s.active <==> s.producer != NoThread)
    ensures s.phase in {Cleared, Joining, Joined} ==> !s.active
    ensures s.phase == Joined ==> s.producer == NoThread
    ensures s.producer.Live() ==> s.active || s.phase in {Cleared, Joining}
    ensures s.phase in {Cleared, Joining, Joined} ==> s.late <= 1
    ensures s.phase == Joining ==> s.ring.exit && s.ring.notFull == {}
    ensures s.phase == Erased && s.ring.pos == map[] ==> s.book.readers == map[]
    ensures |s.ring.buffer| >= 2 && (s.base <= |s.book.history| <= s.base + |frames|)
    ensures s.book.history[s.base..] == frames[..|s.book.history| - s.base]
  {
    hide ReaderOk, Window, Slot, Unskipped;
    CoreMeans(frames, s);
  }

  lemma WriteIsNotGiven<F>(s: Ring<F>, b: Book<F>, x: F, id: Id)
    requires s.Ok() && id in b.readers
    ensures id in FollowProduce(s, b, x).readers && FollowProduce(s, b, x).history == b.history + [x]
    ensures var r, r' := b.readers[id], FollowProduce(s, b, x).readers[id]; r'.since == r.since && r'.got == r.got
  {}

  lemma GetRecent<F>(frames: seq<F>, s: Track<F>, t: Tid, id: Id)
    requires Core(frames, s) && Recent(frames, s) && Enabled(frames, s, GetFrame(t, id))
    ensures Linked(s.ring, s.book) && Recent(frames, Next(frames, s, GetFrame(t, id)))
  {
    hide Core, Linked, Since, Step, Follow, ReaderOk, Window, Slot;
    CoreMeans(frames, s);
    ReadSince(s.ring, s.book, t, id, s.prev);
    ReadSince(s.ring, s.book, t, id, s.base);
  }

  lemma WriteRecent<F>(frames: seq<F>, s: Track<F>, f: F)
    requires Linked(s.ring, s.book) && s.producer == AtProduce(f) && Recent(frames, s)
    ensures Recent(frames, ProducerMoves(frames, s))
  {
    hide Linked, ReaderOk, Window, Slot, ProduceStep, FollowProduce, ConsumeStep, FollowConsume, ReaderFor;
    LinkedOk(s.ring, s.book);
    WriteSince(s.ring, s.book, f, s.prev);
    if Since(s.book, s.base) { WriteSince(s.ring, s.book, f, s.base); }
    assert (s.book.history + [f])[s.prev..s.base] == s.book.history[s.prev..s.base];
  }

  lemma ProducerRecent<F>(frames: seq<F>, s: Track<F>)
    requires Core(frames, s) && Recent(frames, s) && Enabled(frames, s, ProducerStep)
    ensures Linked(s.ring, s.book) && Recent(frames, Next(frames, s, ProducerStep))
  {
    hide Core, Linked, Since, OnRing, ProduceStep, FollowProduce, StartStep, StopMoves, Ring.Ok;
    PhasesMean(frames, s);
    match s.producer
    case AtProduce(f) => WriteRecent(frames, s, f);
    case AtExit => ModesAreNotBooked(s, SetExit);
    case _ =>
  }

  lemma JoinRecent<F>(frames: seq<F>, s: Track<F>, id: Id)
    requires Core(frames, s) && Recent(frames, s)
    ensures Linked(s.ring, s.book)
    ensures Recent(frames, OnRing(s, Register(id))) && Recent(frames, OnRing(s, Unregister(id)).(phase := Erased))
  {
    hide Core, Linked, Step;
    PhasesMean(frames, s);
  }

  lemma StartRecent<F>(frames: seq<F>, s: Track<F>)
    requires Core(frames, s) && Recent(frames, s) && s.phase == Quiet
    ensures Linked(s.ring, s.book) && Recent(frames, StartStep(s))
  {
    hide Core, Linked, Since, OnRing;
    PhasesMean(frames, s);
    ModesAreNotBooked(s, SetRun);
    if !s.active {
      var h := s.book.history;
      assert h[s.base..|h|] == h[s.base..];
    }
  }

  lemma StopRecent<F>(frames: seq<F>, s: Track<F>)
    requires Core(frames, s) && Recent(frames, s)
    ensures Linked(s.ring, s.book) && Recent(frames, StopMoves(s))
  {
    hide Core, Linked, OnRing;
    PhasesMean(frames, s);
    ModesAreNotBooked(s, SetExit);
  }

  lemma StepRecent<F>(frames: seq<F>, s: Track<F>, m: Move)
    requires Core(frames, s) && Recent(frames, s) && Enabled(frames, s, m)
    ensures Linked(s.ring, s.book) && Recent(frames, Next(frames, s, m))
  {
    hide Core, Linked, Since, ProducerMoves, StartStep, StopMoves, Step;
    PhasesMean(frames, s);
    match m
    case RegisterSession(id) => JoinRecent(frames, s, id);
    case UnregisterSession(id) => JoinRecent(frames, s, id);
    case StopStep => StopRecent(frames, s);
    case Start => StartRecent(frames, s);
    case GetFrame(t, id) => GetRecent(frames, s, t, id);
    case ProducerStep => ProducerRecent(frames, s);
    case Spurious(_) =>
  }

  // ---------------------------------------------------------------- how a run ends

  // In exit mode nobody sleeps. A producer that has ended, and a stop that waits for it, leave the
  // ring in exit mode; a producer ends by itself only after the whole file.
  ghost predicate Ended<F>(frames: seq<F>, s: Track<F>)
    requires s.base <= |s.book.history|
  {
    && (s.ring.exit ==> s.ring.notFull == {} && s.ring.notEmpty == map[])
    && (s.producer == Finished || s.phase in {Joining, Joined} ==> s.ring.exit)
    && (s.active && (s.producer == AtExit || s.producer == Finished) ==> s.book.history[s.base..] == frames)
  }

  lemma ConsumeEnded<F>(s: Ring<F>, t: Tid, id: Id)
    requires s.Ok()
    ensures var s' := ConsumeStep(s, t, id).0;
            s'.exit == s.exit && (s.exit ==> s'.notFull == s.notFull && s'.notEmpty == s.notEmpty)
  {}

  lemma GetEnded<F>(frames: seq<F>, s: Track<F>, t: Tid, id: Id)
    requires Core(frames, s) && s.base <= |s.book.history| && Ended(frames, s)
    ensures Linked(s.ring, s.book)
    ensures var s' := OnRing(s, Consume(t, id)); s'.base <= |s'.book.history| && Ended(frames, s')
  {
    hide Core, Linked, OnRing, ConsumeStep, Ring.Ok;
    CoreMeans(frames, s);
    ConsumeOnRing(s, t, id);
    ConsumeEnded(s.ring, t, id);
  }

  lemma FileAtEnd<F>(frames: seq<F>, s: Track<F>)
    requires Core(frames, s) && s.producer == AtRead && s.next >= |frames|
    ensures s.base <= |s.book.history| && s.book.history[s.base..] == frames
  {
    hide Linked, Unskipped, Protocol, Spared;
    assert frames[..|frames|] == frames;
  }

  lemma ProducerEnded<F>(frames: seq<F>, s: Track<F>)
    requires Core(frames, s) && s.base <= |s.book.history| && Ended(frames, s) && Enabled(frames, s, ProducerStep)
    ensures Linked(s.ring, s.book)
    ensures var s' := ProducerMoves(frames, s); s'.base <= |s'.book.history| && Ended(frames, s')
  {
    hide Core, Linked, Follow, FollowProduce;
    PhasesMean(frames, s);
    match s.producer
    case AtRead => if s.next >= |frames| { FileAtEnd(frames, s); }
    case AtProduce(f) =>
      if ProduceStep(s.ring, PRODUCER, f).1.Done? {
        WriteOnTrack(frames, s, f);
        LinkedOk(s.ring, s.book);
        assert FollowProduce(s.ring, s.book, f).history == s.book.history + [f] by { WriteSince(s.ring, s.book, f, 0); }
      } else {
        SleepsOnTrack(frames, s, f);
      }
    case AtExit => ModesAreNotBooked(s, SetExit);
    case _ =>
  }

  lemma SleepsOnTrack<F>(frames: seq<F>, s: Track<F>, f: F)
    requires Linked(s.ring, s.book) && s.producer == AtProduce(f) && ProduceStep(s.ring, PRODUCER, f).1.Blocked?
    ensures ProducerMoves(frames, s) == s.(ring := s.ring.(notFull := s.ring.notFull + {PRODUCER})) && !s.ring.exit
  {
    hide ReaderOk, Window, Slot;
  }

  lemma StopEnded<F>(frames: seq<F>, s: Track<F>)
    requires Core(frames, s) && s.base <= |s.book.history| && Ended(frames, s)
    ensures Linked(s.ring, s.book) && Ended(frames, StopMoves(s))
  {
    hide Core, Linked, OnRing;
    PhasesMean(frames, s);
    ModesAreNotBooked(s, SetExit);
  }

  lemma StartEnded<F>(frames: seq<F>, s: Track<F>)
    requires Core(frames, s) && s.base <= |s.book.history| && Ended(frames, s) && s.phase == Quiet
    ensures Linked(s.ring, s.book) && Ended(frames, StartStep(s))
  {
    hide Core, Linked, OnRing;
    PhasesMean(frames, s);
    ModesAreNotBooked(s, SetRun);
  }

  lemma StepEnded<F>(frames: seq<F>, s: Track<F>, m: Move)
    requires Core(frames, s) && s.base <= |s.book.history| && Ended(frames, s) && Enabled(frames, s, m)
    ensures Linked(s.ring, s.book)
    ensures var s' := Next(frames, s, m); s'.base <= |s'.book.history| && Ended(frames, s')
  {
    hide Core, Linked, ProducerMoves, StartStep, StopMoves, ConsumeStep, ProduceStep, FollowConsume, FollowProduce;
    PhasesMean(frames, s);
    match m
    case StopStep =>
      StopEnded(frames, s);
      SameHistory(s);
    case Start =>
      StartEnded(frames, s);
      SameHistory(s);
    case GetFrame(t, id) => GetEnded(frames, s, t, id);
    case ProducerStep => ProducerEnded(frames, s);
    case _ =>
  }

  lemma SameHistory<F>(s: Track<F>)
    requires Linked(s.ring, s.book) && s.base <= |s.book.history|
    ensures StopMoves(s).book == s.book && StopMoves(s).base == s.base
    ensures StartStep(s).book == s.book && StartStep(s).base <= |s.book.history|
  {
    hide OnRing, Linked;
    ModesAreNotBooked(s, SetExit);
    ModesAreNotBooked(s, SetRun);
  }

  // ---------------------------------------------------------------- the invariant of a track

  ghost predicate Inv<F>(frames: seq<F>, s: Track<F>) {
    Core(frames, s) && Recent(frames, s) && Ended(frames, s)
  }

  lemma InvMeans<F>(frames: seq<F>, s: Track<F>)
    requires Inv(frames, s)
    ensures Linked(s.ring, s.book) && Unskipped(s.book) && s.ring.Ok() && s.ring.write <= |s.book.history|
    ensures s.base <= |s.book.history| <= s.base + |frames|
    ensures |s.ring.buffer| > 0 && s.ring.pos.Keys == s.book.readers.Keys
  {
    hide Core, Linked, Unskipped, Recent, Ended;
    CoreMeans(frames, s);
  }

  lemma InitInv<F>(frames: seq<F>, cap: nat, dflt: F)
    requires cap >= 2
    ensures Inv(frames, InitTrack(cap, dflt))
  {
    hide Core;
    InitCore(frames, cap, dflt);
  }

  lemma StepInv<F>(frames: seq<F>, s: Track<F>, m: Move)
    requires Inv(frames, s) && Enabled(frames, s, m)
    ensures Linked(s.ring, s.book) && Inv(frames, Next(frames, s, m))
  {
    hide Core, Linked, Next, Enabled, Ended;
    CoreMeans(frames, s);
    StepCore(frames, s, m);
    StepRecent(frames, s, m);
    StepEnded(frames, s, m);
  }

  // ---------------------------------------------------------------- runs

  lemma NextLinked<F>(frames: seq<F>, s: Track<F>, m: Move)
    requires Linked(s.ring, s.book)
    ensures Linked(Next(frames, s, m).ring, Next(frames, s, m).book)
  {
    hide ReaderOk, Window, Slot;
    match m
    case RegisterSession(id) => StepLinked(s.ring, s.book, Register(id));
    case UnregisterSession(id) => StepLinked(s.ring, s.book, Unregister(id));
    case StopStep => StepLinked(s.ring, s.book, SetExit);
    case Start => StepLinked(s.ring, s.book, SetRun);
    case ProducerStep =>
      StepLinked(s.ring, s.book, SetExit);
      if s.producer.AtProduce? { StepLinked(s.ring, s.book, Produce(PRODUCER, s.producer.frame)); }
    case GetFrame(t, id) => StepLinked(s.ring, s.book, Consume(t, id));
    case Spurious(t) => StepLinked(s.ring, s.book, Wake(t));
  }

  ghost predicate Legal<F>(frames: seq<F>, s: Track<F>, ms: seq<Move>)
    requires Linked(s.ring, s.book)
    decreases |ms|
  {
    || ms == []
    || (Enabled(frames, s, ms[0]) && (NextLinked(frames, s, ms[0]); Legal(frames, Next(frames, s, ms[0]), ms[1..])))
  }

  ghost function Run<F>(frames: seq<F>, s: Track<F>, ms: seq<Move>): (r: Track<F>)
    requires Linked(s.ring, s.book) && Legal(frames, s, ms)
    ensures Linked(r.ring, r.book)
    decreases |ms|
  {
    if ms == [] then s else NextLinked(frames, s, ms[0]); Run(frames, Next(frames, s, ms[0]), ms[1..])
  }

  lemma {:induction false} RunInv<F>(frames: seq<F>, s: Track<F>, ms: seq<Move>)
    requires Linked(s.ring, s.book) && Inv(frames, s) && Legal(frames, s, ms)
    ensures Inv(frames, Run(frames, s, ms))
    decreases |ms|
  {
    hide Inv, Enabled, Next, Linked;
    if ms != [] {
      StepInv(frames, s, ms[0]);
      InvMeans(frames, Next(frames, s, ms[0]));
      RunInv(frames, Next(frames, s, ms[0]), ms[1..]);
    }
  }

  ghost predicate Reaches<F>(frames: seq<F>, s: Track<F>, e: Track<F>)
    requires Linked(s.ring, s.book)
  {
    exists ms :: Legal(frames, s, ms) && Run(frames, s, ms) == e
  }

  // The states a new track can get into.
  ghost predicate Reachable<F>(frames: seq<F>, cap: nat, dflt: F, s: Track<F>)
    requires cap >= 2
  {
    InitLinked(cap, dflt);
    Reaches(frames, InitTrack(cap, dflt), s)
  }

  lemma ReachesLinked<F>(frames: seq<F>, s: Track<F>, e: Track<F>)
    requires Linked(s.ring, s.book) && Reaches(frames, s, e)
    ensures Linked(e.ring, e.book)
  {
    hide Enabled, Next, Linked, Legal;
  }

  lemma ReachesInv<F>(frames: seq<F>, s: Track<F>, e: Track<F>)
    requires Linked(s.ring, s.book) && Inv(frames, s) && Reaches(frames, s, e)
    ensures Inv(frames, e) && Linked(e.ring, e.book)
  {
    hide Inv, Enabled, Next, Linked, Legal;
    var ms :| Legal(frames, s, ms) && Run(frames, s, ms) == e;
    RunInv(frames, s, ms);
  }

  lemma ReachesItself<F>(frames: seq<F>, s: Track<F>)
    requires Linked(s.ring, s.book)
    ensures Reaches(frames, s, s)
  {
    hide Enabled, Next, Linked;
    assert Legal(frames, s, []) && Run(frames, s, []) == s;
  }

  lemma {:induction false} OneMore<F>(frames: seq<F>, s: Track<F>, ms: seq<Move>, m: Move)
    requires Linked(s.ring, s.book) && Legal(frames, s, ms) && Enabled(frames, Run(frames, s, ms), m)
    ensures Legal(frames, s, ms + [m]) && Run(frames, s, ms + [m]) == Next(frames, Run(frames, s, ms), m)
    decreases |ms|
  {
    hide Enabled, Next, Linked;
    var all := ms + [m];
    if ms == [] {
      assert all == [m];
      NextLinked(frames, s, m);
      ReachesItself(frames, Next(frames, s, m));
    } else {
      NextLinked(frames, s, ms[0]);
      OneMore(frames, Next(frames, s, ms[0]), ms[1..], m);
      assert all[0] == ms[0] && all[1..] == ms[1..] + [m];
    }
  }

  lemma ReachesNext<F>(frames: seq<F>, s: Track<F>, e: Track<F>, m: Move)
    requires Linked(s.ring, s.book) && Reaches(frames, s, e) && Enabled(frames, e, m)
    ensures Linked(e.ring, e.book) && Reaches(frames, s, Next(frames, e, m))
    ensures Linked(Next(frames, e, m).ring, Next(frames, e, m).book)
  {
    hide Enabled, Next, Linked, Legal, Run;
    ReachesLinked(frames, s, e);
    var ms :| Legal(frames, s, ms) && Run(frames, s, ms) == e;
    OneMore(frames, s, ms, m);
    NextLinked(frames, e, m);
  }

  lemma ReachableInv<F>(frames: seq<F>, cap: nat, dflt: F, s: Track<F>)
    requires cap >= 2 && Reachable(frames, cap, dflt, s)
    ensures Inv(frames, s)
  {
    hide Inv;
    InitInv(frames, cap, dflt);
    ReachesInv(frames, InitTrack(cap, dflt), s);
  }

  ghost predicate Stretch<F>(frames: seq<F>, got: seq<F>, first: int) {
    0 <= first <= first + |got| <= |frames| && got == frames[first..first + |got|]
  }

  // These are consecutive frames of the file from number first on; but if lead is not 0, then
  // only lead of them, the last ones of a run that was being stopped, and what follows is the
  // file from its beginning.
  ghost predicate Consecutive<F>(frames: seq<F>, got: seq<F>, first: int, lead: nat) {
    if lead == 0 || |got| <= lead then Stretch(frames, got, first)
    else Stretch(frames, got[..lead], first) && Stretch(frames, got[lead..], 0)
  }

  // The frame a session began with, and how many it had to come before the last start.
  function FirstOf<F>(s: Track<F>, r: Reader<F>): int {
    if r.since >= s.base then r.since - s.base else r.since - s.prev
  }

  function LeadOf<F>(s: Track<F>, r: Reader<F>): nat {
    if r.since >= s.base then 0 else s.base - r.since
  }

  // A session has been given an unbroken run of the history from where it registered, which is a
  // run of the file's frames; it is less than a ring behind, and what it still has to read is in
  // the ring.
  ghost predicate Served<F>(frames: seq<F>, s: Track<F>, id: Id)
    requires id in s.book.readers && |s.ring.buffer| > 0
    requires s.base <= |s.book.history| <= s.base + |frames|
  {
    var h, r, cap := s.book.history, s.book.readers[id], |s.ring.buffer|;
    var n := r.since + |r.got|;
    && n <= |h| < n + cap
    && r.got == h[r.since..n]
    && Consecutive(frames, r.got, FirstOf(s, r), LeadOf(s, r))
    && (forall k :: n <= k < |h| ==> s.ring.buffer[k % cap] == h[k])
  }

  lemma GivenSlice<F>(s: Track<F>, id: Id)
    requires Linked(s.ring, s.book) && Unskipped(s.book) && id in s.book.readers
    ensures var h, r := s.book.history, s.book.readers[id];
            var n := r.since + |r.got|;
            n <= |h| < n + |s.ring.buffer| && r.got == h[r.since..n]
  {
    hide Window, Slot, Increasing;
    assert ReaderOk(s.book.history, s.book.readers[id], |s.ring.buffer|);
  }

  lemma SliceOfRun<F>(h: seq<F>, frames: seq<F>, base: nat, from: nat, to: nat)
    requires base <= from <= to <= |h| <= base + |frames| && h[base..] == frames[..|h| - base]
    ensures h[from..to] == frames[from - base..to - base]
  {
    forall k | from <= k < to ensures h[k] == frames[k - base] {
      assert h[base..][k - base] == frames[..|h| - base][k - base];
    }
  }

  lemma StillStored<F>(buffer: seq<F>, h: seq<F>, n: nat)
    requires |buffer| > 0 && Window(buffer, h) && |h| < n + |buffer|
    ensures forall k :: n <= k < |h| ==> buffer[k % |buffer|] == h[k]
  {
    forall k | n <= k < |h| ensures buffer[k % |buffer|] == h[k] {
      SlotIsRemainder(k, |buffer|);
    }
  }

  lemma SliceOfEarlier<F>(h: seq<F>, frames: seq<F>, prev: nat, base: nat, from: nat, to: nat)
    requires prev <= from <= to <= base <= |h| && base - prev <= |frames| && h[prev..base] == frames[..base - prev]
    ensures h[from..to] == frames[from - prev..to - prev]
  {
    forall k | from <= k < to ensures h[k] == frames[k - prev] {
      assert h[prev..base][k - prev] == frames[..base - prev][k - prev];
    }
  }

  lemma SliceSplit<F>(h: seq<F>, from: nat, at: nat, to: nat)
    requires from <= at <= to <= |h|
    ensures h[from..to][..at - from] == h[from..at] && h[from..to][at - from..] == h[at..to]
  {}

  // What was given from before the last start on.
  lemma GivenBefore<F>(h: seq<F>, frames: seq<F>, prev: nat, base: nat, since: nat, n: nat)
    requires prev <= since < base <= |h| <= base + |frames| && since <= n <= |h| && base - prev <= |frames|
    requires h[prev..base] == frames[..base - prev] && h[base..] == frames[..|h| - base]
    ensures Consecutive(frames, h[since..n], since - prev, base - since)
  {
    var got, lead := h[since..n], base - since;
    if n <= base {
      SliceOfEarlier(h, frames, prev, base, since, n);
    } else {
      SliceOfEarlier(h, frames, prev, base, since, base);
      SliceOfRun(h, frames, base, base, n);
      SliceSplit(h, since, base, n);
    }
  }

  lemma GivenSince<F>(h: seq<F>, frames: seq<F>, base: nat, since: nat, n: nat)
    requires base <= since <= n <= |h| <= base + |frames| && h[base..] == frames[..|h| - base]
    ensures Consecutive(frames, h[since..n], since - base, 0)
  {
    SliceOfRun(h, frames, base, since, n);
  }

  lemma GivenConsecutive<F>(frames: seq<F>, s: Track<F>, r: Reader<F>)
    requires Recent(frames, s) && r.since >= s.prev && r.since + |r.got| <= |s.book.history| <= s.base + |frames|
    requires r.got == s.book.history[r.since..r.since + |r.got|]
    requires s.book.history[s.base..] == frames[..|s.book.history| - s.base]
    ensures Consecutive(frames, r.got, FirstOf(s, r), LeadOf(s, r))
  {
    hide Consecutive, Since;
    var h, n := s.book.history, r.since + |r.got|;
    if r.since >= s.base {
      GivenSince(h, frames, s.base, r.since, n);
    } else {
      GivenBefore(h, frames, s.prev, s.base, r.since, n);
    }
  }

  lemma RunMeans<F>(frames: seq<F>, s: Track<F>)
    requires Inv(frames, s)
    ensures s.base <= |s.book.history| <= s.base + |frames|
    ensures s.book.history[s.base..] == frames[..|s.book.history| - s.base]
    ensures Recent(frames, s) && Since(s.book, s.prev)
    ensures |s.ring.buffer| > 0 && Window(s.ring.buffer, s.book.history)
  {
    hide ReaderOk, Window, Slot, Unskipped, Protocol, Spared;
  }

  lemma ServedHolds<F>(frames: seq<F>, s: Track<F>, id: Id)
    requires Inv(frames, s) && id in s.book.readers
    ensures |s.ring.buffer| > 0 && s.base <= |s.book.history| <= s.base + |frames|
    ensures Served(frames, s, id)
  {
    hide Inv, Linked, Window, Unskipped, Recent, Consecutive;
    InvMeans(frames, s);
    RunMeans(frames, s);
    var h, r := s.book.history, s.book.readers[id];
    GivenSlice(s, id);
    StillStored(s.ring.buffer, h, r.since + |r.got|);
    GivenConsecutive(frames, s, r);
  }

  /** In every state a track can get into: start has never replaced an unjoined thread, a stop has
      let at most one more frame through, the history since the last start is a prefix of the
      file's frames, and every registered session is served without loss. */
  lemma TrackKeepsSessions<F>(frames: seq<F>, cap: nat, dflt: F, s: Track<F>)
    requires cap >= 2 && Reachable(frames, cap, dflt, s)
    ensures !s.terminated
    ensures s.phase in {Cleared, Joining, Joined} ==> s.late <= 1
    ensures s.base <= |s.book.history| <= s.base + |frames|
    ensures s.book.history[s.base..] == frames[..|s.book.history| - s.base]
    ensures |s.ring.buffer| > 0 && s.ring.pos.Keys == s.book.readers.Keys
    ensures forall id :: id in s.book.readers ==> Served(frames, s, id)
  {
    ReachableInv(frames, cap, dflt, s);
    RunMeans(frames, s);
    hide Reachable, ReaderOk, Window, Slot, Unskipped, Spared, Served, Recent;
    forall id | id in s.book.readers ensures Served(frames, s, id) {
      ServedHolds(frames, s, id);
    }
  }

  /** A session is given consecutive frames of the file, starting with the first that is produced
      after it registers. */
  lemma GivenRun<F>(frames: seq<F>, s: Track<F>, id: Id)
    requires Inv(frames, s) && id in s.book.readers
    ensures var r := s.book.readers[id];
            r.since + |r.got| <= |s.book.history| && r.got == s.book.history[r.since..r.since + |r.got|]
            && Consecutive(frames, r.got, FirstOf(s, r), LeadOf(s, r))
  {
    hide Inv, Linked, Consecutive;
    ServedHolds(frames, s, id);
  }

  // ---------------------------------------------------------------- the end of the file

  lemma InvEnded<F>(frames: seq<F>, s: Track<F>)
    requires Inv(frames, s)
    ensures s.base <= |s.book.history| && Ended(frames, s)
  {
    hide Core;
  }

  /** Once its producer has ended, a track answers every session that asks with no frame, so that
      no sender thread waits for a film that is over; and as long as nobody stopped it, what it
      has produced since its start is the whole file. */
  lemma EndIsAnswered<F>(frames: seq<F>, s: Track<F>, t: Tid, id: Id)
    requires Inv(frames, s) && s.producer == Finished && Enabled(frames, s, GetFrame(t, id))
    ensures s.ring.Ok() && ConsumeStep(s.ring, t, id).1 == Default
    ensures s.ring.notFull == {} && s.ring.notEmpty == map[]
    ensures s.active ==> s.base <= |s.book.history| && s.book.history[s.base..] == frames
  {
    hide Inv;
    InvMeans(frames, s);
    InvEnded(frames, s);
  }

  // How many steps the producer of an active track still takes, waits apart: three for each frame
  // and three to find the end of the file and leave.
  ghost function Work<F>(frames: seq<F>, s: Track<F>): nat {
    var unread := if s.next <= |frames| then |frames| - s.next else 0;
    match s.producer
    case AtTest => 3 * unread + 3
    case AtRead => 3 * unread + 2
    case AtProduce(_) => 3 * unread + 4
    case AtExit => 1
    case _ => 0
  }

  /** The producer plays the file to its end: each of its steps either finds the ring full, with
      some session capacity - 1 frames behind, or brings it one step nearer to the end. */
  lemma ProducerProgress<F>(frames: seq<F>, s: Track<F>)
    requires Inv(frames, s) && s.active && Enabled(frames, s, ProducerStep)
    ensures Linked(s.ring, s.book) && |s.ring.buffer| > 0
    ensures var s' := Next(frames, s, ProducerStep);
            || Work(frames, s') + 1 == Work(frames, s)
            || (s'.producer == s.producer && s'.ring.notFull == {PRODUCER}
                && exists id :: id in s.ring.pos && s.ring.Backlog(id) == |s.ring.buffer| - 1)
  {
    hide Inv, Linked, Follow, FollowProduce;
    InvMeans(frames, s);
    ReadFits(frames, s);
    match s.producer
    case AtProduce(f) =>
      if ProduceStep(s.ring, PRODUCER, f).1.Done? {
        WriteOnTrack(frames, s, f);
      } else {
        SleepsOnTrack(frames, s, f);
        var id :| id in s.ring.pos && s.ring.pos[id] == s.ring.Next();
        assert s.ring.Backlog(id) == |s.ring.buffer| - 1;
      }
    case AtExit => ModesAreNotBooked(s, SetExit);
    case _ =>
  }

  lemma ReadFits<F>(frames: seq<F>, s: Track<F>)
    requires Inv(frames, s) && s.producer != NoThread
    ensures s.next <= |frames| && s.ring.notFull <= {PRODUCER}
    ensures Work(frames, s) == 0 <==> s.producer == Finished
  {
    hide Linked, Unskipped, Spared, Recent, Ended;
  }

  // ---------------------------------------------------------------- joining late

  // A session registers while a stop is under way and the producer may write before it is joined.
  ghost predicate Tardy<F>(frames: seq<F>, s: Track<F>, m: Move) {
    m.RegisterSession? && s.phase in {Deserted, Cleared, Joining} && Pending(frames, s) > 0
  }

  // Nobody is registered from before the last start, or for a frame of the run that is ending.
  ghost predicate Prompt<F>(frames: seq<F>, s: Track<F>) {
    && Since(s.book, s.base)
    && (!s.active || s.phase == Deserted ==> Since(s.book, |s.book.history|))
    && (s.phase in {Deserted, Cleared, Joining} && Pending(frames, s) > 0 ==> s.book.readers == map[])
  }

  lemma GetPrompt<F>(frames: seq<F>, s: Track<F>, t: Tid, id: Id)
    requires Inv(frames, s) && Enabled(frames, s, GetFrame(t, id)) && Prompt(frames, s)
    ensures Linked(s.ring, s.book) && Prompt(frames, Next(frames, s, GetFrame(t, id)))
  {
    hide Inv, Linked, Since, Step, Follow, ReaderOk, Window, Slot;
    InvMeans(frames, s);
    ReadSince(s.ring, s.book, t, id, s.base);
    ReadSince(s.ring, s.book, t, id, |s.book.history|);
  }

  lemma ProducerPrompt<F>(frames: seq<F>, s: Track<F>)
    requires Inv(frames, s) && Enabled(frames, s, ProducerStep) && Prompt(frames, s)
    ensures Linked(s.ring, s.book) && Prompt(frames, Next(frames, s, ProducerStep))
  {
    hide Core, Recent, Linked, Since, OnRing, ProduceStep, FollowProduce, StartStep, StopMoves, Ring.Ok;
    PhasesMean(frames, s);
    match s.producer
    case AtProduce(f) => WritePrompt(frames, s, f);
    case AtExit => ModesAreNotBooked(s, SetExit);
    case _ =>
  }

  lemma WritePrompt<F>(frames: seq<F>, s: Track<F>, f: F)
    requires Linked(s.ring, s.book) && s.producer == AtProduce(f) && Prompt(frames, s)
    requires s.active || s.phase in {Cleared, Joining}
    ensures Prompt(frames, ProducerMoves(frames, s))
  {
    hide Linked, ReaderOk, Window, Slot, ProduceStep, FollowProduce, ConsumeStep, FollowConsume, ReaderFor;
    LinkedOk(s.ring, s.book);
    WriteSince(s.ring, s.book, f, s.base);
  }

  lemma StepPrompt<F>(frames: seq<F>, s: Track<F>, m: Move)
    requires Inv(frames, s) && Enabled(frames, s, m) && Prompt(frames, s) && !Tardy(frames, s, m)
    ensures Linked(s.ring, s.book) && Prompt(frames, Next(frames, s, m))
  {
    hide Core, Recent, Linked, ReaderOk, Window, Slot, ProduceStep, FollowProduce, ConsumeStep, FollowConsume;
    hide ReaderFor;
    PhasesMean(frames, s);
    match m
    case GetFrame(t, id) => GetPrompt(frames, s, t, id);
    case ProducerStep => ProducerPrompt(frames, s);
    case _ =>
  }

  // Legal runs in which no session registers tardily.
  ghost predicate Timely<F>(frames: seq<F>, s: Track<F>, ms: seq<Move>)
    requires Linked(s.ring, s.book)
    decreases |ms|
  {
    || ms == []
    || (Enabled(frames, s, ms[0]) && !Tardy(frames, s, ms[0])
        && (NextLinked(frames, s, ms[0]); Timely(frames, Next(frames, s, ms[0]), ms[1..])))
  }

  /** In such a run every session stays registered since the last start: all it is ever given are
      frames of the present run of the producer. */
  lemma {:induction false} RunPrompt<F>(frames: seq<F>, s: Track<F>, ms: seq<Move>)
    requires Linked(s.ring, s.book) && Inv(frames, s) && Prompt(frames, s) && Timely(frames, s, ms)
    ensures Legal(frames, s, ms) && Prompt(frames, Run(frames, s, ms))
    ensures var e := Run(frames, s, ms); forall id :: id in e.book.readers ==> e.book.readers[id].since >= e.base
    decreases |ms|
  {
    hide Inv, Enabled, Next, Tardy, Linked;
    if ms != [] {
      StepInv(frames, s, ms[0]);
      InvMeans(frames, Next(frames, s, ms[0]));
      StepPrompt(frames, s, ms[0]);
      RunPrompt(frames, Next(frames, s, ms[0]), ms[1..]);
    }
  }

  // ---------------------------------------------------------------- the join

  ghost function Count(ms: seq<Move>): nat {
    if ms == [] then 0 else (if ms[0] == ProducerStep then 1 else 0) + Count(ms[1..])
  }

  /** The join of a stop terminates: whatever else happens meanwhile, the producer is never
      blocked while it lives, takes at most four more steps, and the join can then return. */
  lemma {:induction false} JoinTerminates<F>(frames: seq<F>, s: Track<F>, ms: seq<Move>)
    requires Inv(frames, s) && s.phase == Joining && Legal(frames, s, ms) && StopStep !in ms
    ensures var e := Run(frames, s, ms);
            && e.phase == Joining
            && Count(ms) + e.producer.Rank() <= s.producer.Rank() <= 4
            && (if e.producer.Live() then Enabled(frames, e, ProducerStep) else Enabled(frames, e, StopStep))
    decreases |ms|
  {
    hide ReaderOk, Window, Slot, Unskipped, Linked, Spared, FromFile;
    if ms != [] {
      StepInv(frames, s, ms[0]);
      JoinStep(frames, s, ms[0]);
      JoinTerminates(frames, Next(frames, s, ms[0]), ms[1..]);
    }
  }

  lemma JoinStep<F>(frames: seq<F>, s: Track<F>, m: Move)
    requires Inv(frames, s) && s.phase == Joining && Enabled(frames, s, m) && m != StopStep
    ensures var s' := Next(frames, s, m);
            && s'.phase == Joining
            && s'.producer.Rank() <= s.producer.Rank() - (if m == ProducerStep then 1 else 0)
  {
    assert s.ring.exit && !s.active;
    hide ReaderOk, Window, Slot, Unskipped, Spared, FromFile, Step, Follow;
  }
}
