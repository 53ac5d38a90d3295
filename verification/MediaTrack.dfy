/** A media track as an object that owns its queue. A method is one step of a thread between two
    points where others can run; the producer's loop and unregister_session are cut into such
    steps. Every step is the one module Lifecycle describes, and so keeps its invariant. */
module MediaTracks {
  import opened Ring
  import opened Lifecycle
  import opened Queue

  lemma StartIs<F>(frames: seq<F>, s: Track<F>)
    requires Linked(s.ring, s.book) && s.ring.Ok()
    ensures Next(frames, s, Move.Start) ==
            if s.active then s
            else s.(ring := if s.ring.exit then Step(s.ring, SetRun).0 else s.ring, active := true, fileOpen := true,
                    next := if s.fileOpen then s.next else 0, producer := AtTest,
                    prev := s.base, base := |s.book.history|,
                    terminated := s.terminated || s.producer != NoThread)
  {
    hide Linked, Step, OnRing, Ring.Ok;
    ModesAreNotBooked(s, SetRun);
  }

  class MediaTrack<F(==)> {
    const queue: CircularQueue<F>
    const frames: seq<F> // what the reader cuts from the file
    var isActive: bool
    var producer: Producer<F>
    var phase: Phase
    var fileOpen: bool
    var next: nat
    ghost var book: Book<F>
    ghost var terminated: bool
    ghost var prev: nat
    ghost var base: nat
    ghost var late: nat

    ghost function State(): Track<F>
      reads this, queue, queue.buffer
    {
      Track(queue.State(), book, isActive, producer, phase, fileOpen, next, terminated, prev, base, late)
    }

    ghost predicate Valid()
      reads this, queue, queue.buffer
    {
      queue.Valid() && Inv(frames, State())
    }

    constructor (frames: seq<F>, capacity: nat, dflt: F)
      requires capacity >= 2
      ensures Valid() && fresh(queue) && fresh(queue.buffer) && this.frames == frames
      ensures State() == InitTrack(capacity, dflt)
    {
      this.frames := frames;
      queue := new CircularQueue<F>(capacity, dflt);
      isActive, producer, phase, fileOpen, next := false, NoThread, Quiet, true, 0;
      book, terminated, prev, base, late := Book([], map[]), false, 0, 0, 0;
      new;
      InitInv(frames, capacity, dflt);
    }

    method RegisterSession(id: Id)
      requires Valid() && Enabled(frames, State(), Move.RegisterSession(id))
      modifies this, queue
      ensures Valid() && State() == Next(frames, old(State()), Move.RegisterSession(id))
    {
      hide Inv, ReaderOk, Window, Slot, ReaderFor, FollowConsume, FollowProduce, Linked;
      InvMeans(frames, State());
      StepInv(frames, State(), Move.RegisterSession(id));
      book := Follow(queue.State(), book, Register(id));
      queue.RegisterConsumer(id);
    }

    method GetNextFrame(t: Tid, id: Id) returns (out: Outcome<F>)
      requires Valid() && Enabled(frames, State(), GetFrame(t, id))
      modifies this, queue
      ensures Valid() && State() == Next(frames, old(State()), GetFrame(t, id))
      ensures out == Step(old(queue.State()), Consume(t, id)).1
    {
      hide Inv, ReaderOk, Window, Slot, ReaderFor, FollowConsume, FollowProduce, Linked;
      InvMeans(frames, State());
      StepInv(frames, State(), GetFrame(t, id));
      book := Follow(queue.State(), book, Consume(t, id));
      out := queue.Consume(t, id);
    }

    method Start()
      requires Valid() && Enabled(frames, State(), Move.Start)
      modifies this, queue
      ensures Valid() && State() == Next(frames, old(State()), Move.Start)
    {
      hide Inv, ReaderOk, Window, Slot, Linked, Step, Follow, OnRing, Next, Ring.Ok;
      InvMeans(frames, State());
      StartIs(frames, State());
      StepInv(frames, State(), Move.Start);
      if isActive { return; }
      isActive := true;
      var exiting := queue.IsExit();
      if exiting { queue.SetRun(); }
      if !fileOpen {
        fileOpen := true;
        next := 0;
      }
      terminated := terminated || producer != NoThread;
      producer := AtTest;
      prev, base := base, |book.history|;
    }

    method WriteFrame(f: F)
      requires Valid() && Enabled(frames, State(), ProducerStep) && producer == AtProduce(f)
      modifies this, queue, queue.buffer
      ensures Valid() && State() == Next(frames, old(State()), ProducerStep)
    {
      hide Inv, ReaderOk, Window, Slot, ReaderFor, FollowConsume, FollowProduce, Linked;
      InvMeans(frames, State());
      StepInv(frames, State(), ProducerStep);
      book := Follow(queue.State(), book, Produce(PRODUCER, f));
      hide Follow, Linked;
      var out := queue.Produce(PRODUCER, f);
      if out.Done? {
        producer := AtTest;
        late := if isActive then late else late + 1;
      }
    }

    // One step of run_producer.
    method RunProducer()
      requires Valid() && Enabled(frames, State(), ProducerStep)
      modifies this, queue, queue.buffer
      ensures Valid() && State() == Next(frames, old(State()), ProducerStep)
    {
      hide Inv, ReaderOk, Window, Slot, ReaderFor, FollowConsume, FollowProduce, Linked;
      InvMeans(frames, State());
      StepInv(frames, State(), ProducerStep);
      match producer {
        case AtTest => producer := if isActive then AtRead else AtExit;
        case AtRead =>
          if next < |frames| {
            producer := AtProduce(frames[next]);
            next := next + 1;
          } else {
            producer := AtExit;
          }
        case AtProduce(f) => WriteFrame(f);
        case AtExit =>
          queue.SetExit();
          producer := Finished;
      }
    }

    method UnregisterSession(id: Id)
      requires Valid() && Enabled(frames, State(), Move.UnregisterSession(id))
      modifies this, queue
      ensures Valid() && State() == Next(frames, old(State()), Move.UnregisterSession(id))
    {
      hide Inv, ReaderOk, Window, Slot, ReaderFor, FollowConsume, FollowProduce, Linked;
      InvMeans(frames, State());
      StepInv(frames, State(), Move.UnregisterSession(id));
      book := Follow(queue.State(), book, Unregister(id));
      queue.UnregisterConsumer(id);
      phase := Erased;
    }

    // The rest of unregister_session and the stop it may run, section by section.
    method Stop()
      requires Valid() && Enabled(frames, State(), StopStep)
      modifies this, queue
      ensures Valid() && State() == Next(frames, old(State()), StopStep)
    {
      hide Inv, ReaderOk, Window, Slot, ReaderFor, FollowConsume, FollowProduce, Linked, Step, Follow, OnRing;
      hide ProducerMoves, StartStep;
      InvMeans(frames, State());
      ModesAreNotBooked(State(), SetExit);
      StepInv(frames, State(), StopStep);
      match phase {
        case Quiet =>
        case Erased =>
          var deserted := queue.NoConsumer();
          assert deserted <==> queue.consumerPositions == map[];
          phase := if deserted then Deserted else Quiet;
        case Deserted =>
          isActive := false;
          late := 0;
          phase := Cleared;
        case Cleared =>
          queue.SetExit();
          phase := Joining;
        case Joining =>
          producer := NoThread;
          phase := Joined;
        case Joined =>
          queue.SetExit();
          fileOpen := false;
          phase := Quiet;
      }
    }
  }
}
