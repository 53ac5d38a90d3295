/** CircularQueue.h as an object. Every method is one critical section: a section that would
    wait on a condition variable joins its wait set and answers Blocked. Its methods do exactly
    what the events of module Ring do; what a run of them guarantees is proved there. */
module Queue {
  import opened Ring

  class CircularQueue<T(==)> {
    const buffer: array<T>
    var writePosition: nat
    var consumerPositions: map<Id, nat>
    var exit: bool
    var notFull: set<Tid>
    var notEmpty: map<Tid, Id>

    ghost function State(): Ring<T>
      reads this, buffer
    {
      Ring(buffer[..], writePosition, consumerPositions, exit, notFull, notEmpty)
    }

    ghost predicate Valid()
      reads this, buffer
    {
      State().Ok()
    }

    constructor (capacity: nat, dflt: T)
      requires capacity > 0
      ensures Valid() && fresh(buffer) && buffer.Length == capacity
      ensures State() == Init(capacity, dflt)
    {
      buffer := new T[capacity](_ => dflt);
      writePosition, consumerPositions, exit := 0, map[], false;
      notFull, notEmpty := {}, map[];
      new;
      assert buffer[..] == Init(capacity, dflt).buffer;
    }

    method SetExit()
      requires Valid()
      modifies this
      ensures Valid() && State() == Step(old(State()), Event.SetExit).0
    {
      exit := true;
      notEmpty := map[];
      notFull := {};
    }

    method IsExit() returns (r: bool)
      ensures r == exit
    {
      r := exit;
    }

    method SetRun()
      requires Valid()
      modifies this
      ensures Valid() && State() == Step(old(State()), Event.SetRun).0
    {
      exit := false;
      notFull := {};
    }

    method IsPositionInUse(position: nat) returns (r: bool)
      ensures r <==> exists id :: id in consumerPositions && consumerPositions[id] == position
    {
      var rest := consumerPositions.Keys;
      while rest != {}
        invariant rest <= consumerPositions.Keys
        invariant forall id :: id in consumerPositions && id !in rest ==> consumerPositions[id] != position
      {
        var id :| id in rest;
        if consumerPositions[id] == position { return true; }
        rest := rest - {id};
      }
      return false;
    }

    // Blocks while a consumer still has to read the slot after the write cursor.
    method Produce(t: Tid, item: T) returns (out: Outcome<T>)
      requires Valid()
      modifies this, buffer
      ensures Valid() && (State(), out) == Step(old(State()), Event.Produce(t, item))
    {
      ghost var s := State();
      var nextPosition := (writePosition + 1) % buffer.Length;
      assert nextPosition == s.Next();
      var inUse := IsPositionInUse(nextPosition);
      assert inUse == s.InUse(s.Next());
      if inUse && !exit {
        notFull := notFull + {t};
        return Blocked;
      }
      buffer[writePosition] := item;
      writePosition := nextPosition;
      notEmpty := map[];
      return Done;
    }

    // Blocks while the consumer has read everything; in exit mode it answers the default
    // value whatever is left to read.
    method Consume(t: Tid, id: Id) returns (out: Outcome<T>)
      requires Valid()
      modifies this
      ensures Valid() && (State(), out) == Step(old(State()), Event.Consume(t, id))
    {
      if id !in consumerPositions {
        consumerPositions := consumerPositions[id := 0];
      }
      assert consumerPositions == old(consumerPositions)[id := old(State()).CursorOf(id)];
      if consumerPositions[id] == writePosition && !exit {
        notEmpty := notEmpty[t := id];
        return Blocked;
      }
      if exit {
        return Default;
      }
      var item := buffer[consumerPositions[id]];
      consumerPositions := consumerPositions[id := (consumerPositions[id] + 1) % buffer.Length];
      assert consumerPositions == old(consumerPositions)[id := After(old(State()).CursorOf(id), buffer.Length)];
      notFull := {};
      return Got(item);
    }

    method RegisterConsumer(id: Id)
      requires Valid()
      modifies this
      ensures Valid() && State() == Step(old(State()), Event.Register(id)).0
    {
      consumerPositions := consumerPositions[id := writePosition];
    }

    method UnregisterConsumer(id: Id)
      requires Valid()
      modifies this
      ensures Valid() && State() == Step(old(State()), Event.Unregister(id)).0
    {
      consumerPositions := consumerPositions - {id};
    }

    method NoConsumer() returns (r: bool)
      ensures r <==> forall id :: id !in consumerPositions
    {
      r := consumerPositions == map[];
      assert consumerPositions == map[] <==> consumerPositions.Keys == {};
    }
  }
}
