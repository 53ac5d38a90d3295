/** The broadcast ring: one write cursor, one cursor per registered session, two condition
    variables and an exit mode. Every mutex-protected section of the queue is one event; a
    thread that would sleep on a condition variable is put into that variable's wait set
    and issues its event again once it has been woken. */
module Ring {
  type Id = string
  type Tid = nat

  datatype Event<T> =
    | Produce(t: Tid, x: T)
    | Consume(t: Tid, id: Id)
    | Register(id: Id)
    | Unregister(id: Id)
    | SetExit
    | SetRun
    | Wake(t: Tid) // a spurious wake-up of a sleeping thread

  datatype Outcome<+T> = Blocked | Done | Default | Got(x: T)

  datatype Ring<T> = Ring(buffer: seq<T>, write: nat, pos: map<Id, nat>, exit: bool,
                          notFull: set<Tid>, notEmpty: map<Tid, Id>)
  {
    ghost predicate Ok() {
      && write < |buffer|
      && forall id :: id in pos ==> pos[id] < |buffer|
    }

    function Next(): nat
      requires write < |buffer|
    {
      After(write, |buffer|)
    }

    ghost predicate InUse(p: nat) {
      exists id :: id in pos && pos[id] == p
    }

    // Indexing a std::map with an absent key inserts the value 0.
    function CursorOf(id: Id): nat {
      if id in pos then pos[id] else 0
    }

    // The distance a consumer is behind the write cursor, seen from the modular cursors alone.
    function Backlog(id: Id): nat
      requires write < |buffer| && id in pos && pos[id] < |buffer|
    {
      if pos[id] <= write then write - pos[id] else write + |buffer| - pos[id]
    }
  }

  function After(slot: nat, cap: nat): (r: nat)
    requires slot < cap
    ensures r == if slot + 1 == cap then 0 else slot + 1
  {
    (slot + 1) % cap
  }

  function Init<T>(cap: nat, dflt: T): Ring<T> {
    Ring(seq(cap, _ => dflt), 0, map[], false, {}, map[])
  }

  ghost function ProduceStep<T>(s: Ring<T>, t: Tid, x: T): (Ring<T>, Outcome<T>)
    requires s.Ok()
  {
    if s.InUse(s.Next()) && !s.exit then
      (s.(notFull := s.notFull + {t}), Blocked)
    else
      (s.(buffer := s.buffer[s.write := x], write := s.Next(), notEmpty := map[]), Done)
  }

  ghost function ConsumeStep<T>(s: Ring<T>, t: Tid, id: Id): (Ring<T>, Outcome<T>)
    requires s.Ok()
  {
    var c := s.CursorOf(id);
    if c == s.write && !s.exit then
      (s.(pos := s.pos[id := c], notEmpty := s.notEmpty[t := id]), Blocked)
    else if s.exit then
      (s.(pos := s.pos[id := c]), Default)
    else
      (s.(pos := s.pos[id := After(c, |s.buffer|)], notFull := {}), Got(s.buffer[c]))
  }

  // What one critical section does to the queue and what it answers its thread.
  ghost function Step<T>(s: Ring<T>, e: Event<T>): (r: (Ring<T>, Outcome<T>))
    requires s.Ok()
    ensures r.0.Ok() && |r.0.buffer| == |s.buffer|
  {
    match e
    case Produce(t, x) => ProduceStep(s, t, x)
    case Consume(t, id) => ConsumeStep(s, t, id)
    case Register(id) => (s.(pos := s.pos[id := s.write]), Done)
    case Unregister(id) => (s.(pos := s.pos - {id}), Done)
    case SetExit => (s.(exit := true, notFull := {}, notEmpty := map[]), Done)
    case SetRun => (s.(exit := false, notFull := {}), Done)
    case Wake(t) => (s.(notFull := s.notFull - {t}, notEmpty := s.notEmpty - {t}), Done)
  }

  /** The record an observer keeps of a run: everything produced, and for each registered
      consumer where it joined, what it was given, which positions of the history those
      items came from, and how many items it was made to skip. */
  datatype Reader<T> = Reader(since: nat, got: seq<T>, at: seq<nat>, skipped: nat)
  {
    function Cursor(): nat { since + |got| + skipped }
  }

  datatype Book<T> = Book(history: seq<T>, readers: map<Id, Reader<T>>)

  // Producing while a consumer's cursor is the next slot (possible only in exit mode) makes
  // that consumer lose everything it had not read.
  ghost function Overrun<T>(r: Reader<T>, pos: nat, next: nat, cap: nat): Reader<T> {
    if pos == next then r.(skipped := r.skipped + cap) else r
  }

  ghost function FollowProduce<T>(s: Ring<T>, b: Book<T>, x: T): Book<T>
    requires s.Ok()
  {
    Book(b.history + [x],
         map id | id in b.readers :: Overrun(b.readers[id], s.CursorOf(id), s.Next(), |s.buffer|))
  }

  // A consumer nobody registered joins at the start of the current lap.
  ghost function ReaderFor<T>(s: Ring<T>, b: Book<T>, id: Id): Reader<T>
    requires s.write <= |b.history|
  {
    if id in b.readers then b.readers[id] else Reader(|b.history| - s.write, [], [], 0)
  }

  ghost function FollowConsume<T>(r: Reader<T>, out: Outcome<T>): Reader<T> {
    if out.Got? then r.(got := r.got + [out.x], at := r.at + [r.Cursor()]) else r
  }

  ghost function Follow<T>(s: Ring<T>, b: Book<T>, e: Event<T>): Book<T>
    requires s.Ok() && s.write <= |b.history|
  {
    match e
    case Produce(t, x) => if ProduceStep(s, t, x).1.Done? then FollowProduce(s, b, x) else b
    case Consume(t, id) =>
      b.(readers := b.readers[id := FollowConsume(ReaderFor(s, b, id), ConsumeStep(s, t, id).1)])
    case Register(id) => b.(readers := b.readers[id := Reader(|b.history|, [], [], 0)])
    case Unregister(id) => b.(readers := b.readers - {id})
    case _ => b
  }

  // ---------------------------------------------------------------- refinement

  ghost predicate Increasing(a: seq<nat>) {
    forall i, j :: 0 <= i < j < |a| ==> a[i] < a[j]
  }

  // What the record of one consumer says about the history.
  ghost predicate ReaderOk<T>(h: seq<T>, r: Reader<T>, cap: nat)
    requires cap > 0
  {
    && r.Cursor() <= |h| < r.Cursor() + cap
    && |r.at| == |r.got|
    && Increasing(r.at)
    && (forall k :: 0 <= k < |r.at| ==> r.since <= r.at[k] < r.Cursor())
    && (forall k :: 0 <= k < |r.at| ==> r.at[k] < |h| && r.got[k] == h[r.at[k]])
    && Slot(r.skipped, cap) == 0
    && (r.skipped == 0 ==> r.got == h[r.since..r.since + |r.got|])
  }

  ghost predicate Linked<T>(s: Ring<T>, b: Book<T>) {
    && s.Ok()
    && s.write == Slot(|b.history|, |s.buffer|)
    && s.pos.Keys == b.readers.Keys
    && (forall id :: id in b.readers ==> ReaderOk(b.history, b.readers[id], |s.buffer|))
    && (forall id :: id in b.readers ==> s.pos[id] == Slot(b.readers[id].Cursor(), |s.buffer|))
    && Window(s.buffer, b.history)
  }

  // The last |buffer| items of the history are still in their slots.
  ghost predicate Window<T>(buffer: seq<T>, h: seq<T>)
    requires |buffer| > 0
  {
    forall k :: 0 <= k < |h| <= k + |buffer| ==> buffer[Slot(k, |buffer|)] == h[k]
  }

  // ---------------------------------------------------------------- modular cursors

  // The slot of the n-th item ever produced.
  ghost function Slot(n: nat, cap: nat): (r: nat)
    requires cap > 0
    ensures r < cap && r <= n
  {
    if n < cap then n else Slot(n - cap, cap)
  }

  lemma {:induction false} SlotIsRemainder(n: nat, cap: nat)
    requires cap > 0
    ensures Slot(n, cap) == n % cap
  {
    if n >= cap {
      SlotIsRemainder(n - cap, cap);
      assert n - cap == cap * ((n - cap) / cap) + (n - cap) % cap;
      QuotientUnique(n, (n - cap) / cap + 1, (n - cap) % cap, cap);
    }
  }

  lemma QuotientUnique(x: nat, q: nat, r: nat, cap: nat)
    requires r < cap && x == cap * q + r
    ensures x / cap == q && x % cap == r
  {
    var q', r' := x / cap, x % cap;
    assert x == cap * q' + r';
    assert cap * q' - cap * q == cap * (q' - q);
    if q' > q {
      MulAtLeast(cap, q' - q);
    } else if q' < q {
      assert cap * (q' - q) == -(cap * (q - q'));
      MulAtLeast(cap, q - q');
    }
  }

  lemma MulAtLeast(cap: nat, d: nat)
    requires d >= 1
    ensures cap * d >= cap
  {}

  lemma {:induction false} SlotSucc(n: nat, cap: nat)
    requires cap > 0
    ensures Slot(n + 1, cap) == After(Slot(n, cap), cap)
  {
    if n >= cap { SlotSucc(n - cap, cap); }
  }

  // Two positions less than one capacity apart share a slot only when they are equal, and
  // the modular distance of their slots is their true distance.
  lemma {:induction false} SlotApart(a: nat, b: nat, cap: nat)
    requires a <= b < a + cap
    ensures var d := Slot(b, cap) - Slot(a, cap); b - a == if d >= 0 then d else d + cap
  {
    if a >= cap { SlotApart(a - cap, b - cap, cap); }
  }

  // A quotient that makes a position with slot w the end of a run starting at slot 0.
  lemma {:induction false} SlotZero(n: nat, cap: nat)
    requires cap > 0
    ensures Slot(n - Slot(n, cap), cap) == 0
  {
    if n >= cap { SlotZero(n - cap, cap); }
  }

  // ---------------------------------------------------------------- steps keep the link

  lemma InitLinked<T>(cap: nat, dflt: T)
    requires cap > 0
    ensures Linked(Init(cap, dflt), Book([], map[]))
  {}

  // The slot after the write cursor is a consumer's slot exactly when that consumer is
  // capacity - 1 items behind; the write cursor itself exactly when it has read everything.
  lemma SlotMeaning<T>(s: Ring<T>, b: Book<T>, id: Id)
    requires Linked(s, b) && id in s.pos
    ensures s.pos[id] == s.Next() <==> |b.history| - b.readers[id].Cursor() == |s.buffer| - 1
    ensures s.pos[id] == s.write <==> |b.history| == b.readers[id].Cursor()
    ensures s.Backlog(id) == |b.history| - b.readers[id].Cursor() < |s.buffer|
  {
    assert ReaderOk(b.history, b.readers[id], |s.buffer|);
    SlotApart(b.readers[id].Cursor(), |b.history|, |s.buffer|);
  }

  lemma ReaderWaits<T>(h: seq<T>, x: T, r: Reader<T>, cap: nat)
    requires cap > 0 && ReaderOk(h, r, cap) && |h| + 1 < r.Cursor() + cap
    ensures ReaderOk(h + [x], r, cap)
  {
    hide Slot;
    assert (h + [x])[r.since..r.since + |r.got|] == h[r.since..r.since + |r.got|];
  }

  lemma ReaderOverrun<T>(h: seq<T>, x: T, r: Reader<T>, cap: nat)
    requires cap > 0 && ReaderOk(h, r, cap) && |h| + 1 == r.Cursor() + cap
    ensures ReaderOk(h + [x], r.(skipped := r.skipped + cap), cap)
  {
    assert Slot(r.skipped + cap, cap) == Slot(r.skipped, cap);
  }

  lemma ReaderSeesProduce<T>(h: seq<T>, x: T, r: Reader<T>, write: nat, pos: nat, cap: nat)
    requires cap > 0 && ReaderOk(h, r, cap) && write == Slot(|h|, cap) && pos == Slot(r.Cursor(), cap)
    ensures var r' := Overrun(r, pos, After(write, cap), cap);
            ReaderOk(h + [x], r', cap) && pos == Slot(r'.Cursor(), cap)
  {
    assert r.Cursor() <= |h| < r.Cursor() + cap;
    hide ReaderOk;
    SlotApart(r.Cursor(), |h|, cap);
    if pos == After(write, cap) {
      ReaderOverrun(h, x, r, cap);
      assert Slot(r.Cursor() + cap, cap) == Slot(r.Cursor(), cap);
    } else {
      ReaderWaits(h, x, r, cap);
    }
  }

  lemma ReaderTakes<T>(h: seq<T>, r: Reader<T>, cap: nat)
    requires cap > 0 && ReaderOk(h, r, cap) && r.Cursor() < |h|
    ensures ReaderOk(h, FollowConsume(r, Got(h[r.Cursor()])), cap)
  {
    if r.skipped == 0 {
      assert h[r.since..r.since + |r.got| + 1] == h[r.since..r.since + |r.got|] + [h[r.Cursor()]];
    }
  }

  lemma WindowMoves<T>(buffer: seq<T>, h: seq<T>, x: T)
    requires |buffer| > 0 && Window(buffer, h)
    ensures Window(buffer[Slot(|h|, |buffer|) := x], h + [x])
  {
    var cap := |buffer|;
    forall k | 0 <= k < |h| + 1 <= k + cap
      ensures buffer[Slot(|h|, cap) := x][Slot(k, cap)] == (h + [x])[k]
    {
      SlotApart(k, |h|, cap);
    }
  }

  lemma ProduceLinked<T>(s: Ring<T>, b: Book<T>, t: Tid, x: T)
    requires Linked(s, b) && ProduceStep(s, t, x).1.Done?
    ensures Linked(ProduceStep(s, t, x).0, FollowProduce(s, b, x))
  {
    hide ReaderOk, Window, Slot;
    var b' := FollowProduce(s, b, x);
    forall id | id in b'.readers
      ensures ReaderOk(b'.history, b'.readers[id], |s.buffer|)
      ensures s.pos[id] == Slot(b'.readers[id].Cursor(), |s.buffer|)
    {
      ReaderSeesProduce(b.history, x, b.readers[id], s.write, s.pos[id], |s.buffer|);
    }
    SlotSucc(|b.history|, |s.buffer|);
    WindowMoves(s.buffer, b.history, x);
  }

  // A consumer that is given an item is given the one at its cursor in the history.
  lemma GotMeaning<T>(s: Ring<T>, b: Book<T>, t: Tid, id: Id)
    requires Linked(s, b) && id in s.pos && ConsumeStep(s, t, id).1.Got?
    ensures b.readers[id].Cursor() < |b.history|
    ensures ConsumeStep(s, t, id).1.x == b.history[b.readers[id].Cursor()]
  {
    SlotMeaning(s, b, id);
    assert ReaderOk(b.history, b.readers[id], |s.buffer|);
  }

  lemma BlockedMeaning<T>(s: Ring<T>, b: Book<T>, t: Tid, x: T)
    requires Linked(s, b)
    ensures ProduceStep(s, t, x).1.Blocked? <==>
              !s.exit && exists id :: id in b.readers && |b.history| - b.readers[id].Cursor() == |s.buffer| - 1
  {
    hide ReaderOk, Window, Slot;
    forall id | id in s.pos
      ensures s.pos[id] == s.Next() <==> |b.history| - b.readers[id].Cursor() == |s.buffer| - 1
    {
      SlotMeaning(s, b, id);
    }
  }

  lemma ConsumeMeaning<T>(s: Ring<T>, b: Book<T>, t: Tid, id: Id)
    requires Linked(s, b)
    ensures s.exit ==> ConsumeStep(s, t, id).1.Default?
    ensures id in b.readers && !s.exit ==>
              var c := b.readers[id].Cursor();
              var out := ConsumeStep(s, t, id).1;
              if c == |b.history| then out.Blocked? else c < |b.history| && out == Got(b.history[c])
  {
    hide ReaderOk, Window, Slot;
    if id in s.pos {
      SlotMeaning(s, b, id);
      if ConsumeStep(s, t, id).1.Got? { GotMeaning(s, b, t, id); }
    }
  }

  lemma ConsumeLinked<T>(s: Ring<T>, b: Book<T>, t: Tid, id: Id)
    requires Linked(s, b) && id in s.pos
    ensures Linked(ConsumeStep(s, t, id).0,
                   b.(readers := b.readers[id := FollowConsume(b.readers[id], ConsumeStep(s, t, id).1)]))
  {
    hide ReaderOk, Window, Slot;
    var r := b.readers[id];
    if ConsumeStep(s, t, id).1.Got? {
      GotMeaning(s, b, t, id);
      ReaderTakes(b.history, r, |s.buffer|);
      SlotSucc(r.Cursor(), |s.buffer|);
    }
  }

  lemma LapStart<T>(h: seq<T>, cap: nat)
    requires cap > 0
    ensures var r := Reader(|h| - Slot(|h|, cap), [], [], 0);
            ReaderOk(h, r, cap) && Slot(r.Cursor(), cap) == 0
  {
    SlotZero(|h|, cap);
  }

  // Indexing the cursor map with an unknown id is a registration at the start of the lap.
  lemma ImplicitJoinLinked<T>(s: Ring<T>, b: Book<T>, id: Id)
    requires Linked(s, b) && id !in s.pos
    ensures Linked(s.(pos := s.pos[id := 0]), b.(readers := b.readers[id := ReaderFor(s, b, id)]))
  {
    hide Window, ReaderOk, Slot;
    LapStart(b.history, |s.buffer|);
  }

  lemma JoinThenConsume<T>(s: Ring<T>, t: Tid, id: Id)
    requires s.Ok() && id !in s.pos
    ensures ConsumeStep(s.(pos := s.pos[id := 0]), t, id) == ConsumeStep(s, t, id)
  {
    var c := ConsumeStep(s, t, id).0.pos[id];
    assert s.pos[id := 0][id := c] == s.pos[id := c];
    assert s.pos[id := 0][id := 0] == s.pos[id := 0];
  }

  lemma FirstConsumeLinked<T>(s: Ring<T>, b: Book<T>, t: Tid, id: Id)
    requires Linked(s, b) && id !in s.pos
    ensures Linked(ConsumeStep(s, t, id).0,
                   b.(readers := b.readers[id := FollowConsume(ReaderFor(s, b, id), ConsumeStep(s, t, id).1)]))
  {
    hide ReaderOk, Window, Slot, ConsumeStep, FollowConsume, ReaderFor;
    ImplicitJoinLinked(s, b, id);
    JoinThenConsume(s, t, id);
    var s1, b1 := s.(pos := s.pos[id := 0]), b.(readers := b.readers[id := ReaderFor(s, b, id)]);
    ConsumeLinked(s1, b1, t, id);
    var r' := FollowConsume(b1.readers[id], ConsumeStep(s, t, id).1);
    assert b1.readers[id := r'] == b.readers[id := r'];
  }

  lemma RegisterLinked<T>(s: Ring<T>, b: Book<T>, id: Id)
    requires Linked(s, b)
    ensures Linked(s.(pos := s.pos[id := s.write]),
                   b.(readers := b.readers[id := Reader(|b.history|, [], [], 0)]))
  {
    hide Window;
  }

  /** Every event keeps the link between the modular cursors and the history, in exit mode
      as well as out of it, whether or not the consumer was registered. */
  lemma StepLinked<T>(s: Ring<T>, b: Book<T>, e: Event<T>)
    requires Linked(s, b)
    ensures Linked(Step(s, e).0, Follow(s, b, e))
  {
    hide ReaderOk, Window, Slot;
    match e
    case Produce(t, x) =>
      if ProduceStep(s, t, x).1.Done? { ProduceLinked(s, b, t, x); }
    case Consume(t, id) =>
      if id in s.pos { ConsumeLinked(s, b, t, id); } else { FirstConsumeLinked(s, b, t, id); }
    case Register(id) => RegisterLinked(s, b, id);
    case _ =>
  }

  // ---------------------------------------------------------------- runs

  ghost function Exec<T>(s: Ring<T>, b: Book<T>, evs: seq<Event<T>>): (r: (Ring<T>, Book<T>))
    requires Linked(s, b)
    ensures Linked(r.0, r.1) && |r.0.buffer| == |s.buffer|
    decreases |evs|
  {
    if evs == [] then (s, b)
    else StepLinked(s, b, evs[0]); Exec(Step(s, evs[0]).0, Follow(s, b, evs[0]), evs[1..])
  }

  // While its only producer sleeps, nothing moves the queue's write cursor: the slot a woken
  // producer computes again is the one it computed before it went to sleep.
  lemma {:induction false} OnlyProduceMoves<T>(s: Ring<T>, b: Book<T>, evs: seq<Event<T>>)
    requires Linked(s, b) && forall e :: e in evs ==> !e.Produce?
    ensures Exec(s, b, evs).0.write == s.write && Exec(s, b, evs).0.Next() == s.Next()
    decreases |evs|
  {
    hide ReaderOk, Window, Slot, Linked;
    if evs != [] {
      LinkedOk(s, b);
      StepLinked(s, b, evs[0]);
      OnlyProduceMoves(Step(s, evs[0]).0, Follow(s, b, evs[0]), evs[1..]);
    }
  }

  lemma LinkedOk<T>(s: Ring<T>, b: Book<T>)
    requires Linked(s, b)
    ensures s.Ok() && s.write <= |b.history|
  {
    hide ReaderOk, Window;
  }

  // A run from an empty queue, with the record of what its observer saw.
  ghost function Outcomes<T>(cap: nat, dflt: T, evs: seq<Event<T>>): (r: (Ring<T>, Book<T>))
    requires cap > 0
    ensures Linked(r.0, r.1) && |r.0.buffer| == cap
  {
    InitLinked(cap, dflt);
    Exec(Init(cap, dflt), Book([], map[]), evs)
  }

  ghost predicate Unskipped<T>(b: Book<T>) {
    forall id :: id in b.readers ==> b.readers[id].skipped == 0
  }

  // Out of exit mode no event makes a consumer lose items.
  lemma StepUnskipped<T>(s: Ring<T>, b: Book<T>, e: Event<T>)
    requires Linked(s, b) && Unskipped(b)
    requires e.Produce? ==> !s.exit || !s.InUse(s.Next())
    ensures Unskipped(Follow(s, b, e))
  {
    hide ReaderOk, Window, Slot;
    if e.Produce? {
      assert forall id :: id in b.readers ==> id in s.pos;
    }
  }

  lemma {:induction false} RunUnskipped<T>(s: Ring<T>, b: Book<T>, evs: seq<Event<T>>)
    requires Linked(s, b) && Unskipped(b) && !s.exit && SetExit !in evs
    ensures Unskipped(Exec(s, b, evs).1)
    decreases |evs|
  {
    hide ReaderOk, Window, Slot;
    if evs != [] {
      StepLinked(s, b, evs[0]);
      StepUnskipped(s, b, evs[0]);
      RunUnskipped(Step(s, evs[0]).0, Follow(s, b, evs[0]), evs[1..]);
    }
  }

  /** Whatever the threads do from an empty queue on, exit mode included: a consumer is given
      items of the history at strictly increasing positions, it has lost a whole number of
      capacities, it is less than one capacity behind, and everything it has not read is still
      in its slot. Without exit mode it has been given exactly the run of the history that
      starts where it joined. */
  lemma RingRefinesHistory<T>(cap: nat, dflt: T, evs: seq<Event<T>>, id: Id)
    requires cap > 0
    requires id in Outcomes(cap, dflt, evs).0.pos
    ensures
      var (s, b) := Outcomes(cap, dflt, evs);
      var h := b.history;
      && id in b.readers
      && var r := b.readers[id];
      && Increasing(r.at) && |r.at| == |r.got|
      && (forall k :: 0 <= k < |r.at| ==> r.since <= r.at[k] < |h| && r.got[k] == h[r.at[k]])
      && r.Cursor() == r.since + |r.got| + r.skipped && r.skipped % cap == 0
      && s.Backlog(id) == |h| - r.Cursor() < cap
      && s.write == |h| % cap && s.pos[id] == r.Cursor() % cap
      && (forall k :: r.Cursor() <= k < |h| ==> s.buffer[k % cap] == h[k])
      && (SetExit !in evs ==> r.skipped == 0 && r.got == h[r.since..r.since + |r.got|])
  {
    var (s, b) := Outcomes(cap, dflt, evs);
    var r := b.readers[id];
    assert ReaderOk(b.history, r, cap);
    SlotMeaning(s, b, id);
    SlotIsRemainder(r.skipped, cap);
    SlotIsRemainder(|b.history|, cap);
    SlotIsRemainder(r.Cursor(), cap);
    forall k | r.Cursor() <= k < |b.history| ensures s.buffer[k % cap] == b.history[k] {
      SlotIsRemainder(k, cap);
    }
    if SetExit !in evs {
      RunUnskipped(Init(cap, dflt), Book([], map[]), evs);
    }
  }

  /** A produce makes a consumer lose items exactly when the queue is in exit mode and that
      consumer is a full capacity - 1 items behind; it then loses one capacity. */
  lemma LapExactly<T>(s: Ring<T>, b: Book<T>, t: Tid, x: T, id: Id)
    requires Linked(s, b) && id in s.pos && ProduceStep(s, t, x).1.Done?
    ensures id in b.readers && id in Follow(s, b, Produce(t, x)).readers
    ensures var r, r' := b.readers[id], Follow(s, b, Produce(t, x)).readers[id];
            if s.exit && s.Backlog(id) == |s.buffer| - 1
            then r'.skipped == r.skipped + |s.buffer| && r'.Cursor() == |b.history| + 1
            else r' == r
  {
    SlotMeaning(s, b, id);
  }

  // ---------------------------------------------------------------- wake-ups

  /** No wake-up is lost: whoever sleeps would go back to sleep if it looked again. */
  ghost predicate WakeOk<T>(s: Ring<T>)
    requires s.Ok()
  {
    && (s.notFull != {} ==> !s.exit && s.InUse(s.Next()))
    && (forall t :: t in s.notEmpty ==> !s.exit && s.CursorOf(s.notEmpty[t]) == s.write)
  }

  // Moving the cursor of a live consumer, or erasing it, notifies nobody. That strands a
  // sleeper unless another consumer still holds the next slot (and, for an erased id, unless
  // nobody sleeps on it or the cursor it would be given next is again the write cursor).
  ghost predicate Strands<T>(s: Ring<T>, e: Event<T>)
    requires s.Ok()
  {
    match e
    case Unregister(id) =>
      || (s.notFull != {} && !exists other :: other in s.pos && other != id && s.pos[other] == s.Next())
      || (s.write != 0 && id in s.notEmpty.Values)
    case Register(id) =>
      && s.notFull != {} && id in s.pos && |s.buffer| > 1
      && !exists other :: other in s.pos && other != id && s.pos[other] == s.Next()
    case _ => false
  }

  /** Who is woken by what: producers by a read and by either change of mode, consumers by a write
      and by exit mode, and nobody by anything else; who is told to wait, and only he, falls asleep. */
  lemma WhoIsWoken<T>(s: Ring<T>, e: Event<T>)
    requires s.Ok()
    ensures var (s', out) := Step(s, e);
            && (out.Got? || e.SetExit? || e.SetRun? ==> s'.notFull == {})
            && ((e.Produce? && out.Done?) || e.SetExit? ==> s'.notEmpty == map[])
            && (e.Produce? && out.Blocked? ==> s'.notFull == s.notFull + {e.t} && s'.notEmpty == s.notEmpty)
            && (e.Consume? && out.Blocked? ==> s'.notEmpty == s.notEmpty[e.t := e.id] && s'.notFull == s.notFull)
            && (e.Register? || e.Unregister? || out.Default? ==> s'.notFull == s.notFull)
            && (e.Register? || e.Unregister? || e.SetRun? || out.Default? || out.Got? ==> s'.notEmpty == s.notEmpty)
            && (e.Produce? && out.Done? ==> s'.notFull == s.notFull)
  {}

  lemma ConsumeWakes<T>(s: Ring<T>, t: Tid, id: Id)
    requires s.Ok() && WakeOk(s)
    ensures WakeOk(ConsumeStep(s, t, id).0)
  {
    var s' := ConsumeStep(s, t, id).0;
    assert forall other :: other in s.pos && other != id ==> s'.pos[other] == s.pos[other];
  }

  lemma RegisterWakes<T>(s: Ring<T>, id: Id)
    requires s.Ok() && WakeOk(s)
    ensures WakeOk(s.(pos := s.pos[id := s.write])) <==> !Strands(s, Register(id))
  {
    var s' := s.(pos := s.pos[id := s.write]);
    assert forall other :: other in s.pos && other != id ==> s'.pos[other] == s.pos[other];
    assert s'.pos[id] == s.write;
  }

  lemma UnregisterWakes<T>(s: Ring<T>, id: Id)
    requires s.Ok() && WakeOk(s)
    ensures WakeOk(s.(pos := s.pos - {id})) <==> !Strands(s, Unregister(id))
  {
    var s' := s.(pos := s.pos - {id});
    assert forall other :: other in s.pos && other != id ==> other in s'.pos && s'.pos[other] == s.pos[other];
    assert forall t :: t in s.notEmpty ==> s.notEmpty[t] in s.notEmpty.Values;
  }

  /** An event keeps every sleeper wakeable if and only if it does not strand one. */
  lemma StepWake<T>(s: Ring<T>, e: Event<T>)
    requires s.Ok() && WakeOk(s)
    ensures WakeOk(Step(s, e).0) <==> !Strands(s, e)
  {
    match e
    case Consume(t, id) => ConsumeWakes(s, t, id);
    case Register(id) => RegisterWakes(s, id);
    case Unregister(id) => UnregisterWakes(s, id);
    case _ =>
  }
}
