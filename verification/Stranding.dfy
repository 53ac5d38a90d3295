/** A track whose threads sleep forever: what the missing notification of unregister_consumer does
    to the teardown of the sessions that stay. */
module Stranding {
  import opened Ring
  import opened RingProgress
  import opened Lifecycle
  import opened Races

  // Thread t, the sender of session b, sleeps on an empty ring, and so does the producer on a
  // full one that is not full.
  ghost predicate Stranded<F>(s: Track<F>, b: Id, t: Tid) {
    && Stuck(s.ring) && s.active && s.phase in {Quiet, Erased} && s.producer.AtProduce?
    && s.ring.notFull == {PRODUCER} && t in s.ring.notEmpty && s.ring.notEmpty[t] == b && b in s.ring.pos
  }

  // Moves other than a spurious wake-up, a step of a thread that sleeps, and the unregistration
  // of session b, which Session::~Session only comes to after it has joined thread t.
  ghost predicate OfOthers<F>(s: Track<F>, m: Move, b: Id) {
    match m
    case Spurious(_) => false
    case UnregisterSession(id) => id != b
    case GetFrame(t, _) => t !in s.ring.notEmpty
    case _ => true
  }

  lemma StrandedStays<F>(frames: seq<F>, s: Track<F>, m: Move, b: Id, t: Tid)
    requires Linked(s.ring, s.book) && Stranded(s, b, t) && Enabled(frames, s, m) && OfOthers(s, m, b)
    ensures Stranded(Next(frames, s, m), b, t)
  {
    hide Linked, Follow, Step, Stuck;
    LinkedOk(s.ring, s.book);
    match m
    case RegisterSession(id) => StuckStays(s.ring, Register(id)); StillThere(s.ring, Register(id), b);
    case UnregisterSession(id) => StuckStays(s.ring, Unregister(id)); StillThere(s.ring, Unregister(id), b);
    case GetFrame(u, id) => StuckStays(s.ring, Consume(u, id)); StillThere(s.ring, Consume(u, id), b);
    case _ =>
  }

  lemma StillThere<F>(r: Ring<F>, e: Event<F>, b: Id)
    requires r.Ok() && b in r.pos && !(e.Unregister? && e.id == b)
    ensures b in Step(r, e).0.pos
  {}

  ghost predicate AllOfOthers<F>(frames: seq<F>, s: Track<F>, ms: seq<Move>, b: Id)
    requires Linked(s.ring, s.book)
    decreases |ms|
  {
    || ms == []
    || (OfOthers(s, ms[0], b)
        && (NextLinked(frames, s, ms[0]); AllOfOthers(frames, Next(frames, s, ms[0]), ms[1..], b)))
  }

  /** Such a track stays so: the thread never comes back from get_next_frame, and the join of it in
      Session::stop never returns. */
  lemma {:induction false} StrandedForever<F>(frames: seq<F>, s: Track<F>, ms: seq<Move>, b: Id, t: Tid)
    requires Linked(s.ring, s.book) && Legal(frames, s, ms)
    requires Stranded(s, b, t) && AllOfOthers(frames, s, ms, b)
    ensures Stranded(Run(frames, s, ms), b, t)
    decreases |ms|
  {
    hide Linked, Stranded, OfOthers, Enabled, Next;
    if ms != [] {
      NextLinked(frames, s, ms[0]);
      StrandedStays(frames, s, ms[0], b, t);
      StrandedForever(frames, Next(frames, s, ms[0]), ms[1..], b, t);
    }
  }

  /** It is reached when the slower of two sessions leaves while the producer waits for it. */
  lemma TeardownStrands<F>(x: F, y: F, d: F, a: Id, b: Id) returns (e: Track<F>)
    requires a != b
    ensures Reachable([x, y], 2, d, e) && Stranded(e, b, 1)
  {
    hide Linked, Reaches, Step, Follow, Next, Enabled, Stranded;
    InitLinked(2, d);
    ReachesItself([x, y], InitTrack(2, d));
    var s1 := BothJoin(x, y, d, a, b);
    var s2 := OneReads(x, y, d, a, b, s1);
    var s3 := BothSleep(x, y, d, a, b, s2);
    e := SlowerLeaves(x, y, d, a, b, s3);
  }

  // Two sessions, and the first frame in the producer's hand.
  lemma BothJoin<F>(x: F, y: F, d: F, a: Id, b: Id) returns (e: Track<F>)
    requires a != b
    requires Linked(InitTrack(2, d).ring, InitTrack(2, d).book) && Reaches([x, y], InitTrack(2, d), InitTrack(2, d))
    ensures Reaches([x, y], InitTrack(2, d), e)
    ensures e == Track(Ring([d, d], 0, map[a := 0, b := 0], false, {}, map[]),
                       Book([], map[a := Reader(0, [], [], 0), b := Reader(0, [], [], 0)]),
                       true, AtProduce(x), Quiet, true, 1, false, 0, 0, 0)
  {
    hide Linked, Reaches, Step, Follow, OnRing;
    var frames, s0 := [x, y], InitTrack(2, d);
    assert s0.ring == Ring([d, d], 0, map[], false, {}, map[]);
    ReachesNext(frames, s0, s0, RegisterSession(a));
    Registered(s0, a);
    var s1 := s0.(ring := s0.ring.(pos := map[a := 0]), book := Book([], map[a := Reader(0, [], [], 0)]));
    ReachesNext(frames, s0, s1, RegisterSession(b));
    Registered(s1, b);
    var s2 := s1.(ring := s0.ring.(pos := map[a := 0, b := 0]),
                  book := Book([], map[a := Reader(0, [], [], 0), b := Reader(0, [], [], 0)]));
    ReachesNext(frames, s0, s2, Start);
    var s3 := s2.(active := true, producer := AtTest);
    var s4, s5 := ReadsFrame(frames, s3);
    ReachesNext(frames, s0, s3, ProducerStep);
    ReachesNext(frames, s0, s4, ProducerStep);
    e := s5;
  }

  lemma WritesForBoth<F>(frames: seq<F>, s: Track<F>, x: F, d: F)
    requires Linked(s.ring, s.book) && s.producer == AtProduce(x) && s.active
    requires s.ring.buffer == [d, d] && s.ring.write == 0 && s.ring.notEmpty == map[]
    requires forall id :: id in s.ring.pos ==> s.ring.pos[id] == 0
    ensures ProducerMoves(frames, s) == s.(ring := s.ring.(buffer := [x, d], write := 1),
                                           book := s.book.(history := s.book.history + [x]), producer := AtTest)
  {
    hide ReaderOk, Window, Slot;
    assert !s.ring.InUse(1);
    assert FollowProduce(s.ring, s.book, x).readers == s.book.readers;
    assert s.ring.buffer[0 := x] == [x, d];
  }

  lemma OneReads<F>(x: F, y: F, d: F, a: Id, b: Id, s: Track<F>) returns (e: Track<F>)
    requires a != b
    requires Linked(InitTrack(2, d).ring, InitTrack(2, d).book) && Reaches([x, y], InitTrack(2, d), s)
    requires s == Track(Ring([d, d], 0, map[a := 0, b := 0], false, {}, map[]),
                        Book([], map[a := Reader(0, [], [], 0), b := Reader(0, [], [], 0)]),
                        true, AtProduce(x), Quiet, true, 1, false, 0, 0, 0)
    ensures Reaches([x, y], InitTrack(2, d), e)
    ensures e.ring == Ring([x, d], 1, map[a := 0, b := 1], false, {}, map[])
    ensures e.active && e.phase == Quiet && e.producer == AtProduce(y)
  {
    hide Linked, Reaches, Step, Follow, OnRing, ProducerMoves, Ring.Ok;
    var frames, s0 := [x, y], InitTrack(2, d);
    ReachesNext(frames, s0, s, ProducerStep);
    WritesForBoth(frames, s, x, d);
    var s1 := Next(frames, s, ProducerStep);
    ReachesNext(frames, s0, s1, GetFrame(1, b));
    Takes(s1, b, x);
    var s2 := Next(frames, s1, GetFrame(1, b));
    assert s1.ring.pos[b := 1] == map[a := 0, b := 1];
    var s3, s4 := ReadsFrame(frames, s2);
    ReachesNext(frames, s0, s2, ProducerStep);
    ReachesNext(frames, s0, s3, ProducerStep);
    e := s4;
  }

  // The producer waits for session a, the sender of session b for the producer.
  lemma BothSleep<F>(x: F, y: F, d: F, a: Id, b: Id, s: Track<F>) returns (e: Track<F>)
    requires a != b
    requires Linked(InitTrack(2, d).ring, InitTrack(2, d).book) && Reaches([x, y], InitTrack(2, d), s)
    requires s.ring == Ring([x, d], 1, map[a := 0, b := 1], false, {}, map[])
    requires s.active && s.phase == Quiet && s.producer == AtProduce(y)
    ensures Reaches([x, y], InitTrack(2, d), e)
    ensures e.ring == s.ring.(notFull := {PRODUCER}, notEmpty := map[1 := b])
    ensures e.active && e.phase == Quiet && e.producer == AtProduce(y)
  {
    hide Linked, Reaches;
    var frames, s0 := [x, y], InitTrack(2, d);
    assert s.ring.pos[a] == s.ring.Next();
    ReachesNext(frames, s0, s, ProducerStep);
    var s1 := Next(frames, s, ProducerStep);
    assert s1.ring == s.ring.(notFull := {PRODUCER});
    ReachesNext(frames, s0, s1, GetFrame(1, b));
    SleepsOnEmpty(s1.ring, b);
    e := Next(frames, s1, GetFrame(1, b));
  }

  lemma SlowerLeaves<F>(x: F, y: F, d: F, a: Id, b: Id, s: Track<F>) returns (e: Track<F>)
    requires a != b
    requires Linked(InitTrack(2, d).ring, InitTrack(2, d).book) && Reaches([x, y], InitTrack(2, d), s)
    requires s.ring == Ring([x, d], 1, map[a := 0, b := 1], false, {PRODUCER}, map[1 := b])
    requires s.active && s.phase == Quiet && s.producer == AtProduce(y)
    ensures Reaches([x, y], InitTrack(2, d), e) && Stranded(e, b, 1)
  {
    hide Linked, Reaches;
    var frames, s0 := [x, y], InitTrack(2, d);
    ReachesNext(frames, s0, s, UnregisterSession(a));
    var s1 := Next(frames, s, UnregisterSession(a));
    assert s1.ring == s.ring.(pos := s.ring.pos - {a});
    assert s1.ring.pos == map[b := 1] && b in s1.ring.pos;
    ReachesNext(frames, s0, s1, StopStep);
    e := Next(frames, s1, StopStep);
    assert e == s1.(phase := Quiet);
    assert Stuck(e.ring);
  }
}
