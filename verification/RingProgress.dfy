/** Progress of the broadcast ring: who sleeps and why, which teardown strands a sleeper, and
    how many reads stand between a blocked producer and its next slot. */
module RingProgress {
  import opened Common
  import opened Ring

  // ---------------------------------------------------------------- wake-ups over runs

  ghost predicate NeverStrands<T>(s: Ring<T>, evs: seq<Event<T>>)
    requires s.Ok()
    decreases |evs|
  {
    evs == [] || (!Strands(s, evs[0]) && NeverStrands(Step(s, evs[0]).0, evs[1..]))
  }

  /** Over a whole run no wake-up is lost as long as no event moves or erases the cursor that
      a sleeper depends on. */
  lemma {:induction false} RunWake<T>(s: Ring<T>, b: Book<T>, evs: seq<Event<T>>)
    requires Linked(s, b) && WakeOk(s) && NeverStrands(s, evs)
    ensures WakeOk(Exec(s, b, evs).0)
    decreases |evs|
  {
    hide ReaderOk, Window, Slot, WakeOk, Strands;
    if evs != [] {
      StepLinked(s, b, evs[0]);
      StepWake(s, evs[0]);
      RunWake(Step(s, evs[0]).0, Follow(s, b, evs[0]), evs[1..]);
    }
  }

  /** Producer and consumers never all sleep on each other: a sleeping producer waits for a
      consumer that is awake and has exactly capacity - 1 items to read. */
  lemma SleepingProducerHasReader<T>(s: Ring<T>)
    requires s.Ok() && |s.buffer| >= 2 && WakeOk(s) && s.notFull != {}
    ensures exists id :: id in s.pos && s.Backlog(id) == |s.buffer| - 1 && id !in s.notEmpty.Values
  {
    var id :| id in s.pos && s.pos[id] == s.Next();
    assert s.Backlog(id) == |s.buffer| - 1;
    assert forall t :: t in s.notEmpty && s.notEmpty[t] == id ==> s.CursorOf(id) == s.write;
  }

  // The producer sleeps although its slot is free, and no consumer has anything to read.
  ghost predicate Stuck<T>(s: Ring<T>) {
    && s.Ok() && |s.buffer| >= 2 && !s.exit && s.notFull != {}
    && forall id :: id in s.pos ==> s.pos[id] == s.write
  }

  // What can still happen of its own accord: anything but a change of mode, a spurious wake-up,
  // a write (the only producer sleeps) and a step of a thread that sleeps itself.
  ghost predicate Outside<T>(s: Ring<T>, e: Event<T>) {
    match e
    case Consume(t, id) => t !in s.notEmpty && id in s.pos
    case Register(_) => true
    case Unregister(_) => true
    case _ => false
  }

  // Everybody asleep is still asleep on the same.
  ghost predicate SleepOn<T>(s: Ring<T>, s': Ring<T>) {
    && s'.notFull == s.notFull
    && forall t :: t in s.notEmpty ==> t in s'.notEmpty && s'.notEmpty[t] == s.notEmpty[t]
  }

  lemma StuckStays<T>(s: Ring<T>, e: Event<T>)
    requires Stuck(s) && Outside(s, e)
    ensures var s' := Step(s, e).0;
            Stuck(s') && SleepOn(s, s')
  {}

  ghost predicate AllOutside<T>(s: Ring<T>, evs: seq<Event<T>>)
    requires s.Ok()
    decreases |evs|
  {
    evs == [] || (Outside(s, evs[0]) && AllOutside(Step(s, evs[0]).0, evs[1..]))
  }

  /** Nobody who sleeps in such a state ever wakes again: not over any run of the others. */
  lemma {:induction false} StuckForever<T>(s: Ring<T>, b: Book<T>, evs: seq<Event<T>>)
    requires Linked(s, b) && Stuck(s) && AllOutside(s, evs)
    ensures var s' := Exec(s, b, evs).0;
            Stuck(s') && SleepOn(s, s')
    decreases |evs|
  {
    hide Linked, Outside, Stuck;
    if evs != [] {
      StepLinked(s, b, evs[0]);
      LinkedOk(s, b);
      StuckStays(s, evs[0]);
      StuckForever(Step(s, evs[0]).0, Follow(s, b, evs[0]), evs[1..]);
    }
  }

  /** Tearing down the slowest session can strand everybody else: the producer sleeps although
      its slot is free, the only other consumer sleeps because nothing new arrives, and nobody is
      left to wake either. */
  lemma UnregisterCanStrand(x: int, y: int, a: Id, b: Id)
    requires a != b
    ensures
      var s := Outcomes(2, 0, [Register(a), Register(b), Produce(0, x), Consume(1, b),
                               Produce(0, y), Consume(1, b), Unregister(a)]).0;
      && s.notFull == {0} && s.notEmpty == map[1 := b] && !s.exit
      && !s.InUse(s.Next()) && s.pos == map[b := s.write] && !WakeOk(s) && Stuck(s)
  {
    hide ReaderOk, Window, Slot, WakeOk, Strands;
    InitLinked(2, 0);
    var st := Stranding(x, y, a, b);
    ExecIs(st[0], Book([], map[]), [Register(a), Register(b), Produce(0, x), Consume(1, b),
                                    Produce(0, y), Consume(1, b), Unregister(a)], st);
    NotAwake(st[7]);
  }

  lemma NotAwake<T>(s: Ring<T>)
    requires s.Ok() && s.notFull != {} && !s.InUse(s.Next())
    ensures !WakeOk(s)
  {}

  // The states of that run.
  lemma Stranding(x: int, y: int, a: Id, b: Id) returns (st: seq<Ring<int>>)
    requires a != b
    ensures |st| == 8 && forall i :: 0 <= i < 8 ==> st[i].Ok()
    ensures st[0] == Init(2, 0) && st[1] == Step(st[0], Register(a)).0 && st[2] == Step(st[1], Register(b)).0
    ensures st[3] == Step(st[2], Produce(0, x)).0 && st[4] == Step(st[3], Consume(1, b)).0
    ensures st[5] == Step(st[4], Produce(0, y)).0 && st[6] == Step(st[5], Consume(1, b)).0
    ensures st[7] == Step(st[6], Unregister(a)).0
    ensures st[7] == Ring([x, 0], 1, map[b := 1], false, {0}, map[1 := b])
  {
    hide ProduceStep, ConsumeStep;
    var s0: Ring<int> := Init(2, 0);
    assert s0.buffer == [0, 0];
    var s1, s2 := s0.(pos := map[a := 0]), s0.(pos := map[a := 0, b := 0]);
    var s4 := FirstItem(x, a, b, s2);
    var s5, s6, s7 := BothSleep(y, a, b, s4);
    st := [s0, s1, s2, Step(s2, Produce(0, x)).0, s4, s5, s6, s7];
  }

  lemma FirstItem(x: int, a: Id, b: Id, s: Ring<int>) returns (s': Ring<int>)
    requires a != b && s == Ring([0, 0], 0, map[a := 0, b := 0], false, {}, map[])
    ensures s.Ok() && Step(s, Produce(0, x)).0.Ok() && s' == Step(Step(s, Produce(0, x)).0, Consume(1, b)).0
    ensures s' == Ring([x, 0], 1, map[a := 0, b := 1], false, {}, map[])
  {
    var s3 := s.(buffer := [x, 0], write := 1);
    assert Step(s, Produce(0, x)).0 == s3;
    s' := s3.(pos := map[a := 0, b := 1]);
    assert Step(s3, Consume(1, b)).0 == s';
  }

  lemma BothSleep(y: int, a: Id, b: Id, s: Ring<int>) returns (s5: Ring<int>, s6: Ring<int>, s7: Ring<int>)
    requires a != b && s.Ok() && s.pos == map[a := 0, b := 1] && s.write == 1 && |s.buffer| == 2
    requires !s.exit && s.notFull == {} && s.notEmpty == map[]
    ensures s5.Ok() && s6.Ok() && s7.Ok()
    ensures s5 == Step(s, Produce(0, y)).0 && s6 == Step(s5, Consume(1, b)).0 && s7 == Step(s6, Unregister(a)).0
    ensures s7 == s.(pos := map[b := 1], notFull := {0}, notEmpty := map[1 := b])
  {
    hide ProduceStep, ConsumeStep;
    s5 := s.(notFull := {0});
    SleepsOnFull(s, y, a);
    s6, s7 := s5.(notEmpty := map[1 := b]), s5.(notEmpty := map[1 := b], pos := map[b := 1]);
    SleepsOnEmpty(s5, b);
    assert s6.pos - {a} == s7.pos;
  }

  lemma SleepsOnFull<T>(s: Ring<T>, y: T, a: Id)
    requires s.Ok() && a in s.pos && s.pos[a] == s.Next() && !s.exit && s.notFull == {}
    ensures Step(s, Produce(0, y)).0 == s.(notFull := {0})
  {}

  lemma SleepsOnEmpty<T>(s: Ring<T>, b: Id)
    requires s.Ok() && b in s.pos && s.pos[b] == s.write && !s.exit && s.notEmpty == map[]
    ensures Step(s, Consume(1, b)).0 == s.(notEmpty := map[1 := b])
  {
    assert s.pos[b := s.write] == s.pos;
  }

  lemma {:induction false} ExecIs<T>(s: Ring<T>, b: Book<T>, evs: seq<Event<T>>, states: seq<Ring<T>>)
    requires Linked(s, b) && |states| == |evs| + 1 && states[0] == s
    requires forall i :: 0 <= i < |evs| ==> states[i].Ok() && states[i + 1] == Step(states[i], evs[i]).0
    ensures Exec(s, b, evs).0 == states[|evs|]
    decreases |evs|
  {
    hide ReaderOk, Window, Slot;
    if evs != [] {
      StepLinked(s, b, evs[0]);
      ExecIs(states[1], Follow(s, b, evs[0]), evs[1..], states[1..]);
    }
  }

  // ---------------------------------------------------------------- backlog measure

  ghost function Sum(m: map<Id, nat>): nat {
    if m == map[] then 0
    else
      var id :| id in m;
      m[id] + Sum(m - {id})
  }

  lemma {:induction false} SumTakes(m: map<Id, nat>, id: Id)
    requires id in m
    ensures Sum(m) == m[id] + Sum(m - {id})
  {
    var k :| k in m && Sum(m) == m[k] + Sum(m - {k});
    if k != id {
      SumTakes(m - {k}, id);
      SumTakes(m - {id}, k);
      assert m - {k} - {id} == m - {id} - {k};
    }
  }

  lemma {:induction false} SumPlusOne(m: map<Id, nat>, m': map<Id, nat>)
    requires m.Keys == m'.Keys && forall id :: id in m ==> m'[id] == m[id] + 1
    ensures Sum(m') == Sum(m) + |m|
  {
    if m != map[] {
      var id :| id in m;
      SumTakes(m, id);
      SumTakes(m', id);
      assert (m - {id}).Keys == m.Keys - {id};
      SumPlusOne(m - {id}, m' - {id});
    } else {
      assert m'.Keys == {};
    }
  }

  lemma {:induction false} SumBound(m: map<Id, nat>, bound: nat, n: nat)
    requires |m| == n && forall id :: id in m ==> m[id] <= bound
    ensures Sum(m) <= bound * n
    decreases n
  {
    if m != map[] {
      var id :| id in m;
      var rest := m - {id};
      assert Sum(m) == m[id] + Sum(rest) by { SumTakes(m, id); }
      assert |rest| == n - 1 by { assert rest.Keys == m.Keys - {id}; }
      SumBound(rest, bound, n - 1);
      Distribute(bound, n - 1);
    }
  }

  ghost function Backlogs<T>(s: Ring<T>): map<Id, nat>
    requires s.Ok()
  {
    map id | id in s.pos :: s.Backlog(id)
  }

  ghost function Total<T>(s: Ring<T>): nat
    requires s.Ok()
  {
    Sum(Backlogs(s))
  }

  /** A read takes one item off the total backlog. */
  lemma ReadDrops<T>(s: Ring<T>, t: Tid, id: Id)
    requires s.Ok() && id in s.pos && ConsumeStep(s, t, id).1.Got?
    ensures Total(Step(s, Consume(t, id)).0) == Total(s) - 1
  {
    var m, m' := Backlogs(s), Backlogs(Step(s, Consume(t, id)).0);
    SumTakes(m, id);
    SumTakes(m', id);
    assert m' - {id} == m - {id};
  }

  /** A write that laps nobody adds one item for every consumer. */
  lemma WriteAdds<T>(s: Ring<T>, t: Tid, x: T)
    requires s.Ok() && !s.InUse(s.Next())
    ensures Total(Step(s, Produce(t, x)).0) == Total(s) + |s.pos|
  {
    var m, m' := Backlogs(s), Backlogs(Step(s, Produce(t, x)).0);
    forall id | id in m ensures m'[id] == m[id] + 1 {
      assert s.pos[id] != s.Next();
    }
    SumPlusOne(m, m');
    assert m.Keys == s.pos.Keys;
  }

  lemma TotalBound<T>(s: Ring<T>)
    requires s.Ok()
    ensures Total(s) <= (|s.buffer| - 1) * |s.pos|
  {
    var m, bound := Backlogs(s), |s.buffer| - 1;
    assert m.Keys == s.pos.Keys;
    assert |m| == |s.pos|;
    assert forall id :: id in m ==> m[id] <= bound;
    hide *;
    SumBound(m, bound, |m|);
  }

  ghost predicate AllReads<T>(s: Ring<T>, evs: seq<Event<T>>)
    requires s.Ok()
    decreases |evs|
  {
    evs == [] || (&& evs[0].Consume? && evs[0].id in s.pos && Step(s, evs[0]).1.Got?
                  && AllReads(Step(s, evs[0]).0, evs[1..]))
  }

  ghost function Reads<T>(s: Ring<T>, evs: seq<Event<T>>): (r: Ring<T>)
    requires s.Ok()
    ensures r.Ok() && |r.buffer| == |s.buffer|
    decreases |evs|
  {
    if evs == [] then s else Reads(Step(s, evs[0]).0, evs[1..])
  }

  /** Consumers alone can read at most the total backlog, and a producer that is still blocked
      after n reads leaves at least capacity - 1 of it: more than Total - (capacity - 1) reads
      always enable it. */
  lemma {:induction false} ReadsUnblock<T>(s: Ring<T>, evs: seq<Event<T>>)
    requires s.Ok() && AllReads(s, evs)
    ensures Total(Reads(s, evs)) == Total(s) - |evs|
    ensures Reads(s, evs).InUse(Reads(s, evs).Next()) ==> |evs| + |s.buffer| - 1 <= Total(s)
    decreases |evs|
  {
    if evs == [] {
      if s.InUse(s.Next()) {
        var id :| id in s.pos && s.pos[id] == s.Next();
        SumTakes(Backlogs(s), id);
        assert Backlogs(s)[id] == |s.buffer| - 1;
      }
    } else {
      ReadDrops(s, evs[0].t, evs[0].id);
      ReadsUnblock(Step(s, evs[0]).0, evs[1..]);
    }
  }
}
