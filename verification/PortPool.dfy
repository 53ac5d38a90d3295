/** The pool of port pairs: a queue of even offsets, handed out at the front and given back at
    the end. A pair is named by its first port. */
module PortPools {
  datatype Pool = Pool(free: seq<int>, out: set<int>)

  datatype Call = Allocate | Release(pair: int)

  function Pairs(first: int, last: int): seq<int>
    decreases last - first + 2
  {
    if first > last then [] else [first] + Pairs(first + 2, last)
  }

  // An empty pool answers -1; whatever is released joins the queue.
  function Step(s: Pool, c: Call): (Pool, int) {
    match c
    case Allocate =>
      if s.free == [] then (s, -1) else (Pool(s.free[1..], s.out + {s.free[0]}), s.free[0])
    case Release(p) => (Pool(s.free + [p], s.out - {p}), p)
  }

  predicate IsPair(first: int, last: int, p: int) {
    first <= p <= last && (p - first) % 2 == 0
  }

  // Every pair is in exactly one place, and once.
  ghost predicate Whole(s: Pool, first: int, last: int) {
    && (forall i, j :: 0 <= i < j < |s.free| ==> s.free[i] != s.free[j])
    && (forall p :: !(p in s.free && p in s.out))
    && (forall p :: p in s.free || p in s.out <==> IsPair(first, last, p))
  }

  lemma {:induction false} FreshPoolWhole(first: int, last: int)
    ensures Whole(Pool(Pairs(first, last), {}), first, last)
    decreases last - first + 2
  {
    var all := Pairs(first, last);
    if first <= last {
      var rest := Pairs(first + 2, last);
      FreshPoolWhole(first + 2, last);
      forall p ensures p in all <==> IsPair(first, last, p) {
        assert p in all <==> p == first || p in rest;
        assert p in Pool(rest, {}).free || p in Pool(rest, {}).out <==> IsPair(first + 2, last, p);
      }
      forall i, j | 0 <= i < j < |all| ensures all[i] != all[j] {
        assert all[j] == rest[j - 1];
        if i == 0 {
          assert all[j] in Pool(rest, {}).free && IsPair(first + 2, last, all[j]);
        } else {
          assert all[i] == rest[i - 1];
        }
      }
    }
  }

  /** The pool stays whole through a call exactly when the call does not release a pair that is
      not out (such as the -1 an empty pool answers). */
  lemma StepWhole(s: Pool, first: int, last: int, c: Call)
    requires Whole(s, first, last)
    ensures Whole(Step(s, c).0, first, last) <==> !(c.Release? && c.pair !in s.out)
  {
    var s' := Step(s, c).0;
    match c
    case Allocate =>
      if s.free != [] {
        assert s.free == [s.free[0]] + s'.free;
        forall p ensures p in s'.free || p in s'.out <==> p in s.free || p in s.out {}
        assert s.free[0] !in s'.free by { assert forall i :: 0 <= i < |s'.free| ==> s'.free[i] == s.free[i + 1]; }
      }
    case Release(p) =>
      if p in s.out {
        assert s'.free[|s.free|] == p;
        forall q ensures q in s'.free || q in s'.out <==> q in s.free || q in s.out {}
      } else if p in s.free {
        var i :| 0 <= i < |s.free| && s.free[i] == p;
        assert s'.free[i] == s'.free[|s.free|];
      } else {
        assert !IsPair(first, last, p) && p in s'.free;
      }
  }

  // Callers release only what is out.
  ghost predicate Honest(s: Pool, cs: seq<Call>)
    decreases |cs|
  {
    cs == [] || ((cs[0].Release? ==> cs[0].pair in s.out) && Honest(Step(s, cs[0]).0, cs[1..]))
  }

  function Run(s: Pool, cs: seq<Call>): Pool
    decreases |cs|
  {
    if cs == [] then s else Run(Step(s, cs[0]).0, cs[1..])
  }

  lemma {:induction false} RunWhole(s: Pool, first: int, last: int, cs: seq<Call>)
    requires Whole(s, first, last) && Honest(s, cs)
    ensures Whole(Run(s, cs), first, last)
    decreases |cs|
  {
    if cs != [] {
      StepWhole(s, first, last, cs[0]);
      RunWhole(Step(s, cs[0]).0, first, last, cs[1..]);
    }
  }

  /** After any honest history the pairs that are out share no port, and the next allocation
      either finds all pairs out or hands out a pair that was not. */
  lemma PairsStayApart(first: int, last: int, cs: seq<Call>)
    requires Honest(Pool(Pairs(first, last), {}), cs)
    ensures var s := Run(Pool(Pairs(first, last), {}), cs);
            && (forall p, q :: p in s.out && q in s.out && p != q ==> {p, p + 1} !! {q, q + 1})
            && (var p := Step(s, Allocate).1;
                if s.free == [] then p == -1 && forall q :: q in s.out <==> IsPair(first, last, q)
                else IsPair(first, last, p) && p !in s.out)
  {
    hide Whole, Honest, Run, IsPair, Pairs;
    FreshPoolWhole(first, last);
    RunWhole(Pool(Pairs(first, last), {}), first, last, cs);
    var s := Run(Pool(Pairs(first, last), {}), cs);
    forall p, q | p in s.out && q in s.out && p != q ensures {p, p + 1} !! {q, q + 1} {
      OutAreApart(s, first, last, p, q);
    }
    NextIsFree(s, first, last);
  }

  lemma OutAreApart(s: Pool, first: int, last: int, p: int, q: int)
    requires Whole(s, first, last) && p in s.out && q in s.out && p != q
    ensures {p, p + 1} !! {q, q + 1}
  {
    assert IsPair(first, last, p) && IsPair(first, last, q);
  }

  lemma NextIsFree(s: Pool, first: int, last: int)
    requires Whole(s, first, last)
    ensures if s.free == [] then forall q :: q in s.out <==> IsPair(first, last, q)
            else IsPair(first, last, s.free[0]) && s.free[0] !in s.out
  {
    hide IsPair;
    if s.free != [] { assert s.free[0] in s.free; }
  }

  // The answers of n allocations in a row.
  function Answers(s: Pool, n: nat): seq<int>
    decreases n
  {
    if n == 0 then [] else [Step(s, Allocate).1] + Answers(Step(s, Allocate).0, n - 1)
  }

  lemma {:induction false} AnswersInOrder(s: Pool, n: nat)
    requires n <= |s.free|
    ensures Answers(s, n) == s.free[..n]
    decreases n
  {
    if n > 0 {
      AnswersInOrder(Step(s, Allocate).0, n - 1);
      assert s.free[..n] == [s.free[0]] + s.free[1..][..n - 1];
    }
  }

  lemma {:induction false} PairAt(first: int, last: int, k: nat)
    requires first + 2 * k <= last
    ensures k < |Pairs(first, last)| && Pairs(first, last)[k] == first + 2 * k
    decreases k
  {
    if k > 0 { PairAt(first + 2, last, k - 1); }
  }

  /** First in, first out: a fresh pool hands out its pairs from the lowest port up, and a pair
      that is given back comes after all that were free. */
  lemma FirstInFirstOut(first: int, last: int, k: nat, s: Pool, p: int)
    ensures first + 2 * k <= last ==>
              |Answers(Pool(Pairs(first, last), {}), k + 1)| == k + 1
              && Answers(Pool(Pairs(first, last), {}), k + 1)[k] == first + 2 * k
    ensures Answers(Step(s, Release(p)).0, |s.free| + 1) == Answers(s, |s.free|) + [p]
  {
    if first + 2 * k <= last {
      PairAt(first, last, k);
      AnswersInOrder(Pool(Pairs(first, last), {}), k + 1);
    }
    AnswersInOrder(Step(s, Release(p)).0, |s.free| + 1);
    AnswersInOrder(s, |s.free|);
  }

  class PortPool {
    var availablePorts: seq<int>
    ghost var out: set<int>

    ghost function State(): Pool
      reads this
    {
      Pool(availablePorts, out)
    }

    constructor (startPort: int, endPort: int)
      ensures State() == Pool(Pairs(startPort, endPort), {})
    {
      availablePorts, out := [], {};
      new;
      var i := startPort;
      while i <= endPort
        invariant availablePorts + Pairs(i, endPort) == Pairs(startPort, endPort)
        invariant out == {}
        decreases endPort - i + 2
      {
        availablePorts := availablePorts + [i];
        i := i + 2;
      }
    }

    method AllocatePortPair() returns (pair: int)
      modifies this
      ensures (State(), pair) == Step(old(State()), Allocate)
    {
      if availablePorts == [] { return -1; }
      pair := availablePorts[0];
      availablePorts := availablePorts[1..];
      out := out + {pair};
    }

    method ReleasePortPair(pair: int)
      modifies this
      ensures State() == Step(old(State()), Release(pair)).0
    {
      availablePorts := availablePorts + [pair];
      out := out - {pair};
    }
  }
}
