/** What a registration during a stop leads to: when it costs the session frames, and when it mixes
    two runs of the producer. */
module Races {
  import opened Ring
  import opened Lifecycle

  lemma RegistersAndStarts<F>(frames: seq<F>, a: Id, s: Track<F>) returns (s1: Track<F>, s2: Track<F>)
    requires Linked(s.ring, s.book) && !s.active && s.phase == Quiet && s.producer == NoThread && s.fileOpen
    requires s.ring.pos == map[] && s.book == Book([], map[]) && s.ring.write == 0 && !s.ring.exit && !s.terminated
    ensures Enabled(frames, s, RegisterSession(a))
    ensures s1 == Next(frames, s, RegisterSession(a)) && Linked(s1.ring, s1.book)
    ensures Enabled(frames, s1, Start) && s2 == Next(frames, s1, Start) && Linked(s2.ring, s2.book)
    ensures s2 == s.(active := true, producer := AtTest, prev := s.base, base := 0, ring := s.ring.(pos := map[a := 0]),
                     book := Book([], map[a := Reader(0, [], [], 0)]))
  {
    hide ReaderOk, Window, Slot, Linked, ProduceStep, ConsumeStep, FollowProduce, FollowConsume;
    NextLinked(frames, s, RegisterSession(a));
    s1 := Next(frames, s, RegisterSession(a));
    s2 := Next(frames, s1, Start);
  }

  lemma LeavesAlone<F>(frames: seq<F>, a: Id, s: Track<F>) returns (s': Track<F>)
    requires Linked(s.ring, s.book) && s.phase == Quiet && s.ring.pos.Keys == {a} == s.book.readers.Keys
    ensures Enabled(frames, s, UnregisterSession(a))
    ensures s' == Next(frames, s, UnregisterSession(a)) && Linked(s'.ring, s'.book)
    ensures s' == s.(phase := Erased, ring := s.ring.(pos := map[]), book := s.book.(readers := map[]))
  {
    hide ReaderOk, Window, Slot, Linked, ProduceStep, ConsumeStep, FollowProduce, FollowConsume;
    NextLinked(frames, s, UnregisterSession(a));
    s' := Next(frames, s, UnregisterSession(a));
    assert s.ring.pos - {a} == map[] && s.book.readers - {a} == map[];
  }

  lemma ReadsFrame<F>(frames: seq<F>, s: Track<F>) returns (s1: Track<F>, s2: Track<F>)
    requires Linked(s.ring, s.book) && s.producer == AtTest && s.active && s.next < |frames| && s.ring.notFull == {}
    ensures Enabled(frames, s, ProducerStep) && s1 == Next(frames, s, ProducerStep) && Linked(s1.ring, s1.book)
    ensures Enabled(frames, s1, ProducerStep) && s2 == Next(frames, s1, ProducerStep) && Linked(s2.ring, s2.book)
    ensures s1 == s.(producer := AtRead) && s2 == s.(producer := AtProduce(frames[s.next]), next := s.next + 1)
    ensures Enabled(frames, s2, ProducerStep)
  {
    hide Linked, Step, Follow;
    s1, s2 := s.(producer := AtRead), s.(producer := AtProduce(frames[s.next]), next := s.next + 1);
  }

  lemma RaisesExit<F>(frames: seq<F>, s: Track<F>) returns (s1: Track<F>, s2: Track<F>)
    requires Linked(s.ring, s.book) && s.phase == Deserted && s.producer.Live() && s.late == 0
    requires s.ring.notFull == {} && s.ring.notEmpty == map[]
    ensures Enabled(frames, s, StopStep) && s1 == Next(frames, s, StopStep) && Linked(s1.ring, s1.book)
    ensures Enabled(frames, s1, StopStep) && s2 == Next(frames, s1, StopStep) && Linked(s2.ring, s2.book)
    ensures s2 == s.(active := false, phase := Joining, ring := s.ring.(exit := true))
    ensures Enabled(frames, s2, ProducerStep)
  {
    hide ReaderOk, Window, Slot, Linked;
    s1 := s.(active := false, phase := Cleared);
    NextLinked(frames, s1, StopStep);
    s2 := Next(frames, s1, StopStep);
  }

  lemma WritesFreely<F>(frames: seq<F>, s: Track<F>, s': Track<F>, x: F, b: Id)
    requires Linked(s.ring, s.book) && s.active && s.producer == AtProduce(x)
    requires s.ring == Ring([x, x], 0, map[b := 0], false, {}, map[])
    requires s.book == Book([], map[b := Reader(0, [], [], 0)])
    requires s' == s.(producer := AtTest, ring := s.ring.(write := 1), book := s.book.(history := [x]))
    ensures Next(frames, s, ProducerStep) == s' && Linked(s'.ring, s'.book)
  {
    NextLinked(frames, s, ProducerStep);
    FreeWrite(s.ring, x);
    FreeWriteBook(s.ring, s.book, x, b);
    hide ReaderOk, Window, Slot, Linked, ProduceStep, FollowProduce;
  }

  lemma FreeWrite<F>(s: Ring<F>, x: F)
    requires s.Ok() && s.buffer == [x, x] && s.write == 0 && !s.InUse(1) && s.notEmpty == map[]
    ensures ProduceStep(s, PRODUCER, x) == (s.(write := 1), Done)
  {
    assert s.buffer[0 := x] == s.buffer;
  }

  lemma FreeWriteBook<F>(s: Ring<F>, b: Book<F>, x: F, id: Id)
    requires s.Ok() && |s.buffer| == 2 && s.write == 0 && !s.InUse(1)
    requires s.pos == map[id := 0] && b == Book([], map[id := Reader(0, [], [], 0)])
    ensures FollowProduce(s, b, x) == b.(history := [x])
  {
    assert FollowProduce(s, b, x).readers == b.readers;
  }

  // ---------------------------------------------------------------- a registration during the join

  // The producer finds the track inactive, the stop ends, and a session starts the track again.
  lemma Restarts<F>(frames: seq<F>, s0: Track<F>, s: Track<F>) returns (e: Track<F>)
    requires Linked(s0.ring, s0.book) && Inv(frames, s0) && Reaches(frames, s0, s)
    requires s.phase == Joining && s.producer == AtTest
    ensures Reaches(frames, s0, e) && Inv(frames, e) && Linked(e.ring, e.book)
    ensures e == s.(ring := s.ring.(exit := false, notEmpty := map[]), active := true, producer := AtTest,
                    phase := Quiet, fileOpen := true, next := 0, prev := s.base, base := |s.book.history|)
  {
    hide Core, Recent, Linked, Reaches, Step, Follow, OnRing;
    ReachesInv(frames, s0, s);
    PhasesMean(frames, s);
    ReachesNext(frames, s0, s, ProducerStep);
    var s1 := s.(producer := AtExit);
    AfterSetExit(s1);
    ReachesNext(frames, s0, s1, ProducerStep);
    var s2 := s1.(ring := s.ring.(notEmpty := map[]), producer := Finished);
    ReachesNext(frames, s0, s2, StopStep);
    var s3 := s2.(producer := NoThread, phase := Joined);
    AfterSetExit(s3);
    ReachesNext(frames, s0, s3, StopStep);
    var s4 := s3.(fileOpen := false, phase := Quiet);
    AfterSetRun(s4);
    ReachesNext(frames, s0, s4, Start);
    e := Next(frames, s4, Start);
    ReachesInv(frames, s0, e);
  }

  lemma AfterSetExit<F>(s: Track<F>)
    requires Linked(s.ring, s.book)
    ensures OnRing(s, SetExit) == s.(ring := s.ring.(exit := true, notFull := {}, notEmpty := map[]))
  {
    hide ReaderOk, Window, Slot;
  }

  lemma AfterSetRun<F>(s: Track<F>)
    requires Linked(s.ring, s.book)
    ensures OnRing(s, SetRun) == s.(ring := s.ring.(exit := false, notFull := {}))
  {
    hide ReaderOk, Window, Slot;
  }

  lemma WritesLate<F>(frames: seq<F>, s0: Track<F>, s: Track<F>, f: F) returns (e: Track<F>)
    requires Linked(s0.ring, s0.book) && Inv(frames, s0) && Reaches(frames, s0, s)
    requires s.phase == Joining && s.producer == AtProduce(f)
    ensures Linked(s.ring, s.book) && e == Next(frames, s, ProducerStep) && Reaches(frames, s0, e)
    ensures e == s.(ring := ProduceStep(s.ring, PRODUCER, f).0, book := FollowProduce(s.ring, s.book, f),
                    producer := AtTest, late := s.late + 1)
  {
    hide Core, Recent, Linked, Reaches, FollowProduce;
    ReachesInv(frames, s0, s);
    PhasesMean(frames, s);
    ReachesNext(frames, s0, s, ProducerStep);
    e := Next(frames, s, ProducerStep);
  }

  // Whatever it slept on, the producer may wake up.
  lemma Wakes<F>(frames: seq<F>, s0: Track<F>, s: Track<F>) returns (e: Track<F>)
    requires Linked(s0.ring, s0.book) && Reaches(frames, s0, s)
    ensures Reaches(frames, s0, e) && Linked(e.ring, e.book)
    ensures e == s.(ring := s.ring.(notFull := s.ring.notFull - {PRODUCER}, notEmpty := s.ring.notEmpty - {PRODUCER}))
  {
    hide Linked, Reaches, ReaderOk, Window, Slot;
    ReachesNext(frames, s0, s, Spurious(PRODUCER));
    LinkedOk(s.ring, s.book);
    e := Next(frames, s, Spurious(PRODUCER));
  }

  // A running producer that has frames left gets as far as having the next one in hand.
  lemma TakesInHand<F>(frames: seq<F>, s0: Track<F>, s: Track<F>) returns (e: Track<F>)
    requires Linked(s0.ring, s0.book) && Reaches(frames, s0, s)
    requires s.active && Left(frames, s) > 0 && PRODUCER !in s.ring.notFull
    ensures Reaches(frames, s0, e) && Linked(e.ring, e.book)
    ensures e == s.(producer := e.producer, next := e.next) && e.producer.AtProduce?
    ensures Left(frames, e) == Left(frames, s)
  {
    hide Linked, Reaches, Step, Follow, OnRing;
    ReachesLinked(frames, s0, s);
    e := s;
    if e.producer.AtTest? {
      ReachesNext(frames, s0, e, ProducerStep);
      e := e.(producer := AtRead);
    }
    if e.producer.AtRead? {
      ReachesNext(frames, s0, e, ProducerStep);
      e := e.(producer := AtProduce(frames[e.next]), next := e.next + 1);
    }
  }

  lemma Clears<F>(frames: seq<F>, s0: Track<F>, s: Track<F>) returns (e: Track<F>)
    requires Linked(s0.ring, s0.book) && Reaches(frames, s0, s) && s.phase == Deserted
    ensures Reaches(frames, s0, e) && Linked(e.ring, e.book)
    ensures e == s.(active := false, late := 0, phase := Cleared)
  {
    hide Linked, Reaches, Step, Follow, OnRing;
    ReachesNext(frames, s0, s, StopStep);
    e := Next(frames, s, StopStep);
  }

  lemma Raises<F>(frames: seq<F>, s0: Track<F>, s: Track<F>) returns (e: Track<F>)
    requires Linked(s0.ring, s0.book) && Reaches(frames, s0, s) && s.phase == Cleared
    ensures Reaches(frames, s0, e) && Linked(e.ring, e.book)
    ensures e == s.(ring := s.ring.(exit := true, notFull := {}, notEmpty := map[]), phase := Joining)
  {
    hide Linked, Reaches, Step, Follow, OnRing;
    ReachesNext(frames, s0, s, StopStep);
    AfterSetExit(s);
    e := Next(frames, s, StopStep);
  }

  // A stop under way goes on to the join while the producer has a frame to write.
  lemma ReachesJoin<F>(frames: seq<F>, s0: Track<F>) returns (e: Track<F>)
    requires Linked(s0.ring, s0.book) && Inv(frames, s0)
    requires s0.phase in {Deserted, Cleared, Joining} && Pending(frames, s0) > 0
    ensures Reaches(frames, s0, e) && e.phase == Joining && WillWrite(frames, e) && e.book == s0.book
  {
    hide Core, Recent, Linked, Reaches, Ring.Ok;
    ReachesItself(frames, s0);
    PhasesMean(frames, s0);
    e := s0;
    if e.phase == Deserted {
      e := Wakes(frames, s0, e);
      e := TakesInHand(frames, s0, e);
      e := Clears(frames, s0, e);
    }
    if e.phase == Cleared {
      e := Raises(frames, s0, e);
    }
  }

  /** After every tardy registration the run can go on so that the session stays registered from
      before the next start: only such a session can be given a frame of an earlier run. */
  lemma TardyFallsBehind<F>(frames: seq<F>, s: Track<F>, id: Id) returns (e: Track<F>)
    requires Inv(frames, s) && Enabled(frames, s, RegisterSession(id)) && Tardy(frames, s, RegisterSession(id))
    ensures Linked(s.ring, s.book)
    ensures var s0 := Next(frames, s, RegisterSession(id)); Linked(s0.ring, s0.book) && Reaches(frames, s0, e)
    ensures id in e.book.readers && e.book.readers[id].since == e.base - 1
  {
    hide Inv, Core, Recent, Linked, Reaches, ReaderOk, Window, Slot, ProduceStep, FollowProduce, ConsumeStep;
    InvMeans(frames, s);
    StepInv(frames, s, RegisterSession(id));
    var s0 := Next(frames, s, RegisterSession(id));
    InvMeans(frames, s0);
    Registered(s, id);
    var s1 := ReachesJoin(frames, s0);
    ReachesInv(frames, s0, s1);
    if s1.producer.AtRead? {
      StopLeavesAwake(frames, s1);
      ReachesNext(frames, s0, s1, ProducerStep);
      s1 := s1.(producer := AtProduce(frames[s1.next]), next := s1.next + 1);
    }
    var s2 := WritesLate(frames, s0, s1, s1.producer.frame);
    LinkedOk(s1.ring, s1.book);
    WriteIsNotGiven(s1.ring, s1.book, s1.producer.frame, id);
    e := Restarts(frames, s0, s2);
  }

  lemma StopLeavesAwake<F>(frames: seq<F>, s: Track<F>)
    requires Inv(frames, s) && s.phase == Joining
    ensures s.ring.notFull == {}
  {
    hide Core, Recent;
    PhasesMean(frames, s);
  }

  lemma Registered<F>(s: Track<F>, id: Id)
    requires Linked(s.ring, s.book)
    ensures OnRing(s, Register(id)) ==
            s.(ring := s.ring.(pos := s.ring.pos[id := s.ring.write]),
               book := s.book.(readers := s.book.readers[id := Reader(|s.book.history|, [], [], 0)]))
  {
    hide ReaderOk, Window, Slot;
  }

  /** Such a run, move by move from a new track: a session is given the last frame of a run that
      was being stopped and then the file from its beginning. */
  lemma TardyGetsLateFrame<F>(x: F, y: F, a: Id, b: Id) returns (e: Track<F>)
    ensures Reachable([x, y], 2, x, e)
    ensures b in e.book.readers && e.book.readers[b].since == 1 && e.base == 2
    ensures e.book.readers[b].got == [y, x]
  {
    hide Inv, Linked, Reaches, Next, Enabled, Step, Follow;
    var frames := [x, y];
    InitInv(frames, 2, x);
    InitLinked(2, x);
    var s0 := InitTrack(2, x);
    var s1 := StopsWhileWriting(x, y, a);
    var s2 := JoinsLate(x, y, b, s1);
    var s3 := Restarts(frames, s0, s2);
    var s4 := TakesLateFrame(x, y, b, s3);
    e := TakesFirstFrame(x, y, b, s4);
  }

  lemma StopsWhileWriting<F>(x: F, y: F, a: Id) returns (e: Track<F>)
    requires Linked(InitTrack(2, x).ring, InitTrack(2, x).book)
    ensures Reaches([x, y], InitTrack(2, x), e)
    ensures e == Track(Ring([x, x], 1, map[], true, {}, map[]), Book([x], map[]),
                       false, AtProduce(y), Joining, true, 2, false, 0, 0, 0)
  {
    hide Inv, Linked, Reaches, Next, Enabled, Ring.Ok;
    var frames := [x, y];
    var s0 := InitTrack(2, x);
    ReachesItself(frames, s0);
    assert s0.ring == Ring([x, x], 0, map[], false, {}, map[]);
    var s1, s2 := RegistersAndStarts(frames, a, s0);
    ReachesNext(frames, s0, s0, RegisterSession(a));
    ReachesNext(frames, s0, s1, Start);
    var s3, s4 := ReadsFrame(frames, s2);
    ReachesNext(frames, s0, s2, ProducerStep);
    ReachesNext(frames, s0, s3, ProducerStep);
    var s5 := s4.(producer := AtTest, ring := s4.ring.(write := 1), book := s4.book.(history := [x]));
    WritesFreely(frames, s4, s5, x, a);
    ReachesNext(frames, s0, s4, ProducerStep);
    var s6, s7 := ReadsFrame(frames, s5);
    ReachesNext(frames, s0, s5, ProducerStep);
    ReachesNext(frames, s0, s6, ProducerStep);
    e := StopsAlone(frames, s0, a, s7);
  }

  // The only session leaves, and the stop this starts gets as far as the join.
  lemma StopsAlone<F>(frames: seq<F>, s0: Track<F>, a: Id, s: Track<F>) returns (e: Track<F>)
    requires Linked(s0.ring, s0.book) && Reaches(frames, s0, s) && s.phase == Quiet && s.producer.Live() && s.late == 0
    requires s.ring.pos.Keys == {a} == s.book.readers.Keys && s.ring.notFull == {} && s.ring.notEmpty == map[]
    ensures Reaches(frames, s0, e)
    ensures e == s.(ring := s.ring.(pos := map[], exit := true), book := s.book.(readers := map[]),
                    active := false, phase := Joining)
  {
    hide Inv, Linked, Reaches, Step, Follow, OnRing, Ring.Ok;
    ReachesLinked(frames, s0, s);
    var s1 := LeavesAlone(frames, a, s);
    ReachesNext(frames, s0, s, UnregisterSession(a));
    ReachesNext(frames, s0, s1, StopStep);
    var s2 := s1.(phase := Deserted);
    var s3, s4 := RaisesExit(frames, s2);
    ReachesNext(frames, s0, s2, StopStep);
    ReachesNext(frames, s0, s3, StopStep);
    e := s4;
  }

  lemma JoinsLate<F>(x: F, y: F, b: Id, s: Track<F>) returns (e: Track<F>)
    requires Inv([x, y], InitTrack(2, x))
    requires Linked(InitTrack(2, x).ring, InitTrack(2, x).book) && Reaches([x, y], InitTrack(2, x), s)
    requires s == Track(Ring([x, x], 1, map[], true, {}, map[]), Book([x], map[]),
                        false, AtProduce(y), Joining, true, 2, false, 0, 0, 0)
    ensures Reaches([x, y], InitTrack(2, x), e)
    ensures e == s.(ring := Ring([x, y], 0, map[b := 1], true, {}, map[]),
                    book := Book([x, y], map[b := Reader(1, [], [], 0)]), producer := AtTest, late := 1)
  {
    hide Inv, Linked, Reaches, Step, Follow, OnRing;
    var frames, s0 := [x, y], InitTrack(2, x);
    ReachesLinked(frames, s0, s);
    ReachesNext(frames, s0, s, RegisterSession(b));
    Registered(s, b);
    var s1 := s.(ring := s.ring.(pos := map[b := 1]), book := Book([x], map[b := Reader(1, [], [], 0)]));
    e := WritesLate(frames, s0, s1, y);
    WritesLast(s1.ring, s1.book, y, b);
  }

  lemma WritesLast<F>(s: Ring<F>, b: Book<F>, y: F, id: Id)
    requires |s.buffer| == 2 && s.write == 1 && s.exit && s.notEmpty == map[]
    requires s.pos == map[id := 1] && b.readers == map[id := Reader(1, [], [], 0)]
    ensures s.Ok() && ProduceStep(s, PRODUCER, y).0 == s.(buffer := [s.buffer[0], y], write := 0)
    ensures FollowProduce(s, b, y) == b.(history := b.history + [y])
  {
    assert s.Ok();
    assert FollowProduce(s, b, y).readers == b.readers;
  }

  lemma Takes<F>(s: Track<F>, b: Id, out: F)
    requires Linked(s.ring, s.book) && !s.ring.exit && b in s.ring.pos && b in s.book.readers
    requires s.ring.notFull == {} && s.ring.pos[b] != s.ring.write && s.ring.buffer[s.ring.pos[b]] == out
    ensures var s' := OnRing(s, Consume(1, b));
            && s' == s.(ring := s.ring.(pos := s.ring.pos[b := After(s.ring.pos[b], |s.ring.buffer|)]),
                        book := s.book.(readers := s.book.readers[b := FollowConsume(s.book.readers[b], Got(out))]))
  {
    hide ReaderOk, Window, Slot;
  }

  lemma TakesLateFrame<F>(x: F, y: F, b: Id, s: Track<F>) returns (e: Track<F>)
    requires Linked(InitTrack(2, x).ring, InitTrack(2, x).book) && Reaches([x, y], InitTrack(2, x), s)
    requires s == Track(Ring([x, y], 0, map[b := 1], false, {}, map[]), Book([x, y], map[b := Reader(1, [], [], 0)]),
                        true, AtTest, Quiet, true, 0, false, 0, 2, 1)
    ensures Reaches([x, y], InitTrack(2, x), e)
    ensures e == s.(ring := s.ring.(pos := map[b := 0]), book := Book([x, y], map[b := Reader(1, [y], [1], 0)]))
  {
    hide Inv, Linked, Reaches, Step, Follow, OnRing, Ring.Ok;
    var frames, s0 := [x, y], InitTrack(2, x);
    ReachesLinked(frames, s0, s);
    ReachesNext(frames, s0, s, GetFrame(1, b));
    Takes(s, b, y);
    e := Next(frames, s, GetFrame(1, b));
    assert FollowConsume(s.book.readers[b], Got(y)) == Reader(1, [y], [1], 0);
    assert s.book.readers[b := Reader(1, [y], [1], 0)] == map[b := Reader(1, [y], [1], 0)];
    assert s.ring.pos[b := 0] == map[b := 0];
  }

  lemma TakesFirstFrame<F>(x: F, y: F, b: Id, s: Track<F>) returns (e: Track<F>)
    requires Linked(InitTrack(2, x).ring, InitTrack(2, x).book) && Reaches([x, y], InitTrack(2, x), s)
    requires s == Track(Ring([x, y], 0, map[b := 0], false, {}, map[]), Book([x, y], map[b := Reader(1, [y], [1], 0)]),
                        true, AtTest, Quiet, true, 0, false, 0, 2, 1)
    ensures Reaches([x, y], InitTrack(2, x), e) && e.base == 2
    ensures b in e.book.readers && e.book.readers[b] == Reader(1, [y, x], [1, 2], 0)
  {
    hide Inv, Linked, Reaches, Step, Follow, OnRing, ProduceStep, FollowProduce, ProducerMoves, Ring.Ok;
    var frames, s0 := [x, y], InitTrack(2, x);
    ReachesLinked(frames, s0, s);
    var s1, s2 := ReadsFrame(frames, s);
    ReachesNext(frames, s0, s, ProducerStep);
    ReachesNext(frames, s0, s1, ProducerStep);
    ReachesNext(frames, s0, s2, ProducerStep);
    WritesFirst(frames, s2, x, b);
    var s3 := Next(frames, s2, ProducerStep);
    ReachesNext(frames, s0, s3, GetFrame(1, b));
    Takes(s3, b, x);
    e := Next(frames, s3, GetFrame(1, b));
  }

  lemma WritesFirst<F>(frames: seq<F>, s: Track<F>, x: F, b: Id)
    requires Linked(s.ring, s.book) && s.producer == AtProduce(x) && s.active
    requires s.ring.buffer[0] == x && |s.ring.buffer| == 2 && s.ring.write == 0 && s.ring.notEmpty == map[]
    requires s.ring.pos == map[b := 0] && s.book.readers.Keys == {b} && s.book.readers[b].skipped == 0
    ensures ProducerMoves(frames, s) ==
            s.(ring := s.ring.(write := 1), book := s.book.(history := s.book.history + [x]), producer := AtTest)
  {
    hide ReaderOk, Window, Slot, Linked;
    LinkedOk(s.ring, s.book);
    assert s.ring.buffer[0 := x] == s.ring.buffer;
    assert !s.ring.InUse(1);
    assert FollowProduce(s.ring, s.book, x).readers == s.book.readers;
  }

  // ---------------------------------------------------------------- a registration before it

  // A session alone on a track whose stop is about to begin has n frames to read; the producer
  // has the next one in hand, and enough to fill the ring and write once more.
  ghost predicate Filling<F>(frames: seq<F>, s: Track<F>, id: Id, n: nat) {
    && s.phase == Deserted && s.active && s.producer.AtProduce? && PRODUCER !in s.ring.notFull
    && s.ring.Ok() && !s.ring.exit && s.ring.pos.Keys == {id} && s.ring.Backlog(id) == n
    && id in s.book.readers && s.book.readers[id].skipped == 0
    && Left(frames, s) + n >= |s.ring.buffer| >= 2
  }

  lemma WritesBeside<F>(s: Track<F>, f: F, id: Id)
    requires Linked(s.ring, s.book) && s.ring.pos.Keys == {id} && id in s.book.readers
    requires s.ring.Backlog(id) + 1 < |s.ring.buffer|
    ensures ProduceStep(s.ring, PRODUCER, f).1.Done?
    ensures var s' := OnRing(s, Produce(PRODUCER, f));
            && s' == s.(ring := s'.ring, book := s'.book)
            && s'.ring.Ok() && s'.ring.pos == s.ring.pos && s'.ring.Backlog(id) == s.ring.Backlog(id) + 1
            && |s'.ring.buffer| == |s.ring.buffer| && s'.ring.exit == s.ring.exit && s'.ring.notFull == s.ring.notFull
            && id in s'.book.readers && s'.book.readers[id] == s.book.readers[id]
  {
    hide ReaderOk, Window, Slot;
  }

  lemma WritesOne<F>(frames: seq<F>, s0: Track<F>, s: Track<F>, id: Id, n: nat) returns (e: Track<F>)
    requires Linked(s0.ring, s0.book) && Reaches(frames, s0, s) && Filling(frames, s, id, n) && n + 1 < |s.ring.buffer|
    ensures Reaches(frames, s0, e) && Filling(frames, e, id, n + 1) && |e.ring.buffer| == |s.ring.buffer|
  {
    hide Linked, Reaches, Step, Follow, OnRing, ProduceStep;
    ReachesLinked(frames, s0, s);
    WritesBeside(s, s.producer.frame, id);
    ReachesNext(frames, s0, s, ProducerStep);
    e := Next(frames, s, ProducerStep);
    e := TakesInHand(frames, s0, e);
  }

  lemma {:induction false} Fills<F>(frames: seq<F>, s0: Track<F>, s: Track<F>, id: Id, n: nat) returns (e: Track<F>)
    requires Linked(s0.ring, s0.book) && Reaches(frames, s0, s) && Filling(frames, s, id, n) && n < |s.ring.buffer|
    ensures |e.ring.buffer| == |s.ring.buffer| && Reaches(frames, s0, e)
    ensures Filling(frames, e, id, |e.ring.buffer| - 1)
    decreases |s.ring.buffer| - n
  {
    hide Linked, Reaches, Filling;
    if n + 1 == |s.ring.buffer| {
      e := s;
    } else {
      var s1 := WritesOne(frames, s0, s, id, n);
      e := Fills(frames, s0, s1, id, n + 1);
    }
  }

  lemma WritesOver<F>(s: Track<F>, f: F, id: Id)
    requires Linked(s.ring, s.book) && s.ring.exit && id in s.ring.pos && id in s.book.readers
    requires s.ring.Backlog(id) + 1 == |s.ring.buffer|
    ensures ProduceStep(s.ring, PRODUCER, f).1.Done?
    ensures var b := OnRing(s, Produce(PRODUCER, f)).book;
            id in b.readers && b.readers[id].skipped == s.book.readers[id].skipped + |s.ring.buffer|
  {
    hide ReaderOk, Window, Slot;
    LapExactly(s.ring, s.book, PRODUCER, f, id);
  }

  // Once the ring is full, the stop raises exit mode and the frame in hand goes over it.
  lemma Overruns<F>(frames: seq<F>, s0: Track<F>, s: Track<F>, id: Id) returns (e: Track<F>)
    requires Linked(s0.ring, s0.book) && Reaches(frames, s0, s)
    requires |s.ring.buffer| >= 2 && Filling(frames, s, id, |s.ring.buffer| - 1)
    ensures Reaches(frames, s0, e) && id in e.book.readers && e.book.readers[id].skipped == |s.ring.buffer|
  {
    hide Linked, Reaches, Step, Follow, OnRing, ProduceStep;
    var s1 := Clears(frames, s0, s);
    var s2 := Raises(frames, s0, s1);
    WritesOver(s2, s2.producer.frame, id);
    ReachesNext(frames, s0, s2, ProducerStep);
    e := Next(frames, s2, ProducerStep);
  }

  // With a ring of frames left, nobody is registered where the no-consumer check has just been.
  lemma NobodyThere<F>(frames: seq<F>, s: Track<F>)
    requires Inv(frames, s) && s.phase == Deserted && Left(frames, s) >= |s.ring.buffer|
    ensures Linked(s.ring, s.book) && s.ring.Ok() && |s.ring.buffer| >= 2
    ensures s.ring.pos == map[] && s.active && !s.ring.exit
  {
    hide ReaderOk, Window, Slot, Unskipped, FromFile, Recent;
    assert s.producer.Live();
    assert forall id :: id !in s.ring.pos;
  }

  lemma LapsAfter<F>(frames: seq<F>, s: Track<F>, id: Id) returns (e: Track<F>)
    requires Inv(frames, s) && s.phase == Deserted && Left(frames, s) >= |s.ring.buffer|
    ensures Linked(s.ring, s.book)
    ensures var s0 := OnRing(s, Register(id)); Linked(s0.ring, s0.book) && Reaches(frames, s0, e)
    ensures id in e.book.readers && e.book.readers[id].skipped == |s.ring.buffer|
  {
    hide Inv, Linked, Reaches, Step, Follow, OnRing;
    NobodyThere(frames, s);
    Registered(s, id);
    NextLinked(frames, s, RegisterSession(id));
    var s0 := OnRing(s, Register(id));
    ReachesItself(frames, s0);
    var s1 := Wakes(frames, s0, s0);
    var s2 := TakesInHand(frames, s0, s1);
    var s3 := Fills(frames, s0, s2, id, 0);
    e := Overruns(frames, s0, s3, id);
  }

  /** Exactly when a session may register after the no-consumer check of a stop, for every capacity
      and every state a track can be in: some run that goes on from there costs somebody frames if
      and only if the producer has a whole ring of frames left to write; the session then loses one
      ring of them. */
  lemma RegistrationLaps<F>(frames: seq<F>, s: Track<F>, id: Id)
    requires Inv(frames, s) && s.phase == Deserted
    ensures Linked(s.ring, s.book)
    ensures var s0 := OnRing(s, Register(id));
            && Linked(s0.ring, s0.book)
            && ((exists e :: Reaches(frames, s0, e) && !Unskipped(e.book)) <==> Left(frames, s) >= |s.ring.buffer|)
            && (Left(frames, s) >= |s.ring.buffer| ==>
                  exists e :: Reaches(frames, s0, e) && id in e.book.readers
                              && e.book.readers[id].skipped == |s.ring.buffer|)
  {
    hide Inv, Linked, Reaches, Step, Follow, OnRing;
    InvMeans(frames, s);
    NextLinked(frames, s, RegisterSession(id));
    var s0 := OnRing(s, Register(id));
    if Left(frames, s) >= |s.ring.buffer| {
      var e := LapsAfter(frames, s, id);
      assert !Unskipped(e.book);
    } else {
      StepInv(frames, s, RegisterSession(id));
      forall e | Reaches(frames, s0, e) ensures Unskipped(e.book) {
        ReachesInv(frames, s0, e);
        InvMeans(frames, e);
      }
    }
  }

  /** And such states are reached, for every capacity and every file with that many frames. */
  lemma RegisterDuringStopLaps<F>(frames: seq<F>, cap: nat, dflt: F, a: Id, b: Id) returns (s: Track<F>, e: Track<F>)
    requires |frames| >= cap >= 2
    ensures Reachable(frames, cap, dflt, s) && s.phase == Deserted && |s.ring.buffer| == cap
    ensures Linked(s.ring, s.book)
    ensures var s0 := OnRing(s, Register(b)); Linked(s0.ring, s0.book) && Reaches(frames, s0, e)
    ensures b in e.book.readers && e.book.readers[b].skipped == cap
  {
    hide Inv, Linked, Reaches, Step, Follow, OnRing;
    InitInv(frames, cap, dflt);
    InitLinked(cap, dflt);
    var s0 := InitTrack(cap, dflt);
    ReachesItself(frames, s0);
    var s1, s2 := RegistersAndStarts(frames, a, s0);
    ReachesNext(frames, s0, s0, RegisterSession(a));
    ReachesNext(frames, s0, s1, Start);
    var s3 := LeavesAlone(frames, a, s2);
    ReachesNext(frames, s0, s2, UnregisterSession(a));
    ReachesNext(frames, s0, s3, StopStep);
    s := Next(frames, s3, StopStep);
    ReachesInv(frames, s0, s);
    e := LapsAfter(frames, s, b);
  }
}
