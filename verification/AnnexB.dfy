/** Cutting an Annex B H.264 file into frames, one window of at most max bytes at a time. */
module AnnexB {
  import opened Common
  import opened Rtp

  predicate CodeAt(w: seq<byte>, i: nat) {
    || (i + 2 < |w| && w[i] == 0 && w[i + 1] == 0 && w[i + 2] == 1)
    || (i + 3 < |w| && w[i] == 0 && w[i + 1] == 0 && w[i + 2] == 0 && w[i + 3] == 1)
  }

  // The first start code of the window at or after from; the window's length if there is none.
  function FirstCode(w: seq<byte>, from: nat): (r: nat)
    requires from <= |w|
    ensures from <= r <= |w|
    ensures r < |w| ==> CodeAt(w, r)
    ensures forall i :: from <= i < r ==> !CodeAt(w, i)
    decreases |w| - from
  {
    if from == |w| || CodeAt(w, from) then from else FirstCode(w, from + 1)
  }

  // What is left of the file, and whether a read has hit its end.
  datatype Input = Input(rest: seq<byte>, eof: bool)
  {
    function Size(): nat { |rest| + if eof then 0 else 1 }
  }

  datatype Read = Frame(data: seq<byte>) | End

  // One call of read_next_frame. A window without a second start code is dropped; a frame found
  // in the window that hit the end of the file leaves the stream there.
  function ReadFrame(s: Input, max: nat): (r: (Read, Input))
    requires max >= 1
    ensures r.0.Frame? ==> |r.0.data| >= 3 && r.1.Size() < s.Size()
    decreases s.Size()
  {
    if s.eof then (End, s)
    else
      var w := s.rest[..Min(max, |s.rest|)];
      var eof := |s.rest| < max;
      var i := FirstCode(w, Min(3, |w|));
      if i < |w| then (Frame(w[..i]), Input(if eof then [] else s.rest[i..], eof))
      else ReadFrame(Input(s.rest[|w|..], eof), max)
  }

  // All frames until the first failed call.
  function Frames(s: Input, max: nat): seq<seq<byte>>
    requires max >= 1
    decreases s.Size()
  {
    var (r, s') := ReadFrame(s, max);
    if r.End? then [] else [r.data] + Frames(s', max)
  }

  // ---------------------------------------------------------------- files made of units

  datatype Unit = Unit(code: seq<byte>, nal: seq<byte>)
  {
    function Bytes(): seq<byte> { code + nal }

    // A start code, then a unit without 00 00 01 that does not end in a zero byte.
    predicate Clean() {
      && (code == [0, 0, 1] || code == [0, 0, 0, 1])
      && nal != [] && nal[|nal| - 1] != 0
      && forall i :: 0 <= i < |nal| - 2 ==> !(nal[i] == 0 && nal[i + 1] == 0 && nal[i + 2] == 1)
    }
  }

  function Concat(units: seq<Unit>): seq<byte> {
    if units == [] then [] else units[0].Bytes() + Concat(units[1..])
  }

  // Every unit fits one window together with the start code behind it.
  predicate Fits(units: seq<Unit>, max: nat) {
    && (forall j :: 0 <= j < |units| ==> units[j].Clean())
    && (forall j :: 0 <= j < |units| - 1 ==> |units[j].Bytes()| + |units[j + 1].code| <= max)
  }

  // No start code begins inside a unit, at or after its fourth byte, whatever follows it.
  lemma NoCodeInside(u: Unit, tail: seq<byte>, i: nat)
    requires u.Clean() && 3 <= i < |u.Bytes()|
    ensures !CodeAt(u.Bytes() + tail, i)
  {
    var w := u.Bytes() + tail;
    var k := i - |u.code|;
    assert k >= 0 ==> w[i] == u.nal[k] && (k + 1 < |u.nal| ==> w[i + 1] == u.nal[k + 1])
                      && (k + 2 < |u.nal| ==> w[i + 2] == u.nal[k + 2])
                      && (k + 3 < |u.nal| ==> w[i + 3] == u.nal[k + 3]);
    if k >= 0 && k + 3 < |u.nal| {
      assert !(u.nal[k + 1] == 0 && u.nal[k + 2] == 0 && u.nal[k + 3] == 1);
    }
  }

  lemma ConcatOne(units: seq<Unit>)
    requires |units| == 1
    ensures Concat(units) == units[0].Bytes()
  {
    var none := units[1..];
    assert none == [];
    assert Concat(none) == [];
    assert Concat(units) == units[0].Bytes() + Concat(none);
  }

  lemma ConcatTwo(units: seq<Unit>)
    requires |units| >= 2
    ensures Concat(units) == units[0].Bytes() + (units[1].code + (units[1].nal + Concat(units[1..][1..])))
  {
    assert Concat(units[1..]) == units[1].Bytes() + Concat(units[1..][1..]);
    Assoc(units[1].code, units[1].nal, Concat(units[1..][1..]));
  }

  lemma NextCode(units: seq<Unit>, w: seq<byte>)
    requires |units| >= 2 && units[0].Clean() && units[1].Clean()
    requires w <= Concat(units) && |units[0].Bytes()| + |units[1].code| <= |w|
    ensures FirstCode(w, 3) == |units[0].Bytes()|
  {
    var u, c, n := units[0].Bytes(), units[1].code, |units[0].Bytes()|;
    var all := Concat(units);
    ConcatTwo(units);
    assert w[..n + |c|] == all[..n + |c|] == u + c;
    assert w == u + w[n..] by { assert w[..n] == u; }
    assert forall k :: 0 <= k < |c| ==> w[n + k] == c[k] by {
      assert forall k :: 0 <= k < |c| ==> w[..n + |c|][n + k] == c[k];
    }
    assert CodeAt(w, n);
    forall i | 3 <= i < n ensures !CodeAt(w, i) {
      NoCodeInside(units[0], w[n..], i);
    }
  }

  // A stretch of one unit that starts anywhere holds no start code after its third byte.
  lemma NoCodeInTail(u: Unit, from: nat, to: nat, i: nat)
    requires u.Clean() && from <= to <= |u.Bytes()| && 3 <= i
    ensures !CodeAt(u.Bytes()[from..to], i)
  {
    var w, all := u.Bytes()[from..to], u.Bytes() + [];
    assert forall k :: 0 <= k < |w| ==> w[k] == all[from + k];
    assert CodeAt(w, i) ==> CodeAt(all, from + i);
    if from + i < |u.Bytes()| {
      NoCodeInside(u, [], from + i);
    }
  }

  lemma NoneFound(u: Unit, from: nat, to: nat)
    requires u.Clean() && from <= to <= |u.Bytes()|
    ensures var w := u.Bytes()[from..to]; FirstCode(w, Min(3, |w|)) == |w|
  {
    var w := u.Bytes()[from..to];
    var i := FirstCode(w, Min(3, |w|));
    if i < |w| {
      NoCodeInTail(u, from, to, i);
    }
  }

  lemma {:induction false} LastUnitLost(u: Unit, from: nat, eof: bool, max: nat)
    requires u.Clean() && from <= |u.Bytes()| && max >= 1
    ensures ReadFrame(Input(u.Bytes()[from..], eof), max).0 == End
    decreases |u.Bytes()| - from + if eof then 0 else 1
  {
    hide FirstCode, CodeAt;
    var all := u.Bytes();
    var rest := all[from..];
    if !eof {
      var n := Min(max, |rest|);
      NoneFound(u, from, from + n);
      assert rest[..n] == all[from..from + n] && rest[n..] == all[from + n..];
      LastUnitLost(u, from + n, |rest| < max, max);
    }
  }

  // The first call on a file of units: the first unit, unless it is also the last.
  lemma FirstUnit(units: seq<Unit>, max: nat)
    requires |units| >= 2 && max >= 8 && Fits(units, max)
    ensures var all := Concat(units);
            ReadFrame(Input(all, false), max) ==
            (Frame(units[0].Bytes()), Input(if |all| < max then [] else Concat(units[1..]), |all| < max))
  {
    var all, u := Concat(units), units[0].Bytes();
    var w := all[..Min(max, |all|)];
    ConcatTwo(units);
    NextCode(units, w);
    assert all[|u|..] == Concat(units[1..]) && w[..|u|] == u;
  }

  lemma FramesStep(units: seq<Unit>, max: nat)
    requires |units| >= 2 && max >= 8 && Fits(units, max)
    ensures var all := Concat(units);
            Frames(Input(all, false), max) ==
            if |all| < max then [units[0].Bytes()]
            else [units[0].Bytes()] + Frames(Input(Concat(units[1..]), false), max)
  {
    FirstUnit(units, max);
    assert Frames(Input([], true), max) == [];
  }

  // The units in order, one for every unit that starts while at least max bytes remain and then
  // one more, but never the last unit of the file.
  ghost predicate CutOf(units: seq<Unit>, max: nat, fs: seq<seq<byte>>) {
    && |fs| <= |units| - 1
    && (forall j :: 0 <= j < |fs| ==> fs[j] == units[j].Bytes())
    && (forall j :: 0 <= j < |fs| - 1 ==> |Concat(units[j..])| >= max)
    && (|fs| < |units| - 1 ==> |fs| >= 1 && |Concat(units[|fs| - 1..])| < max)
  }

  lemma CutOfCons(units: seq<Unit>, max: nat, gs: seq<seq<byte>>)
    requires |units| >= 2 && CutOf(units[1..], max, gs) && |Concat(units)| >= max
    ensures CutOf(units, max, [units[0].Bytes()] + gs)
  {
    hide Concat;
    var rest, fs := units[1..], [units[0].Bytes()] + gs;
    assert units[0..] == units;
    forall j | 0 <= j < |fs| ensures fs[j] == units[j].Bytes() {
      if j > 0 { assert fs[j] == gs[j - 1] && rest[j - 1] == units[j]; }
    }
    forall j | 0 <= j < |fs| - 1 ensures |Concat(units[j..])| >= max {
      if j > 0 { assert rest[j - 1..] == units[j..]; }
    }
    if |gs| >= 1 { assert rest[|gs| - 1..] == units[|fs| - 1..]; }
  }

  /** The whole run over a file of units. (A call that hits the end of the file does not seek
      back, so everything after the frame it returns is lost.) */
  lemma {:induction false} SplitsUnits(units: seq<Unit>, max: nat)
    requires units != [] && max >= 8 && Fits(units, max)
    ensures CutOf(units, max, Frames(Input(Concat(units), false), max))
    decreases |units|
  {
    if |units| == 1 {
      SplitsOne(units, max);
    } else {
      FramesStep(units, max);
      FitsRest(units, max);
      var fs := Frames(Input(Concat(units), false), max);
      if |Concat(units)| < max {
        CutAtEnd(units, max, fs);
      } else {
        SplitsUnits(units[1..], max);
        CutOfCons(units, max, Frames(Input(Concat(units[1..]), false), max));
      }
      hide *;
    }
  }

  lemma SplitsOne(units: seq<Unit>, max: nat)
    requires |units| == 1 && max >= 8 && Fits(units, max)
    ensures CutOf(units, max, Frames(Input(Concat(units), false), max))
  {
    ConcatOne(units);
    assert units[0].Bytes()[0..] == units[0].Bytes();
    LastUnitLost(units[0], 0, false, max);
  }

  lemma CutAtEnd(units: seq<Unit>, max: nat, fs: seq<seq<byte>>)
    requires |units| >= 2 && |Concat(units)| < max && fs == [units[0].Bytes()]
    ensures CutOf(units, max, fs)
  {
    assert units[0..] == units;
  }

  lemma FitsRest(units: seq<Unit>, max: nat)
    requires |units| >= 2 && Fits(units, max)
    ensures Fits(units[1..], max)
  {
    var rest := units[1..];
    assert forall j :: 0 <= j < |rest| ==> rest[j] == units[j + 1];
  }

  // ---------------------------------------------------------------- any file

  // The bytes a call drops before it finds a frame: whole windows.
  function Dropped(s: Input, max: nat): nat
    requires max >= 1
    decreases s.Size()
  {
    if s.eof then 0
    else
      var w := s.rest[..Min(max, |s.rest|)];
      if FirstCode(w, Min(3, |w|)) < |w| then 0 else |w| + Dropped(Input(s.rest[|w|..], |s.rest| < max), max)
  }

  // A frame found in the first window.
  lemma WindowPartition(rest: seq<byte>, w: seq<byte>, i: nat)
    requires w <= rest && |w| >= 3 && i == FirstCode(w, 3) && i < |w|
    ensures CodeAt(rest[i..], 0) && forall k :: 3 <= k < i ==> !CodeAt(rest[..i], k)
  {
    assert CodeAt(w, i);
    assert forall k :: 0 <= k < |w| ==> w[k] == rest[k];
    forall k | 3 <= k < i ensures !CodeAt(rest[..i], k) {
      assert !CodeAt(w, k);
    }
  }

  ghost predicate Partitioned(s: Input, r: Read, s': Input, at: nat) {
    r.Frame? && !s'.eof ==>
      && at + |r.data| <= |s.rest|
      && r.data == s.rest[at..at + |r.data|] && s'.rest == s.rest[at + |r.data|..]
      && CodeAt(s'.rest, 0)
      && forall i :: 3 <= i < |r.data| ==> !CodeAt(r.data, i)
  }

  /** For any file at all: a frame returned before the end of the file is the stretch of the file
      right before the new cursor, preceded by nothing but whole windows that held no second
      start code; it has no start code of its own after its third byte, and one follows it. */
  lemma {:induction false} ReadPartition(s: Input, max: nat)
    requires max >= 8
    ensures Partitioned(s, ReadFrame(s, max).0, ReadFrame(s, max).1, Dropped(s, max))
    decreases s.Size()
  {
    if !s.eof {
      var w := s.rest[..Min(max, |s.rest|)];
      if FirstCode(w, Min(3, |w|)) < |w| {
        FoundPartition(s, max);
      } else {
        var s1 := Input(s.rest[|w|..], |s.rest| < max);
        ReadPartition(s1, max);
        DroppedPartition(s, s1, max);
      }
    }
  }

  lemma DroppedPartition(s: Input, s1: Input, max: nat)
    requires max >= 8 && !s.eof && Partitioned(s1, ReadFrame(s1, max).0, ReadFrame(s1, max).1, Dropped(s1, max))
    requires var w := s.rest[..Min(max, |s.rest|)];
             FirstCode(w, Min(3, |w|)) == |w| && s1 == Input(s.rest[|w|..], |s.rest| < max)
    ensures Partitioned(s, ReadFrame(s, max).0, ReadFrame(s, max).1, Dropped(s, max))
  {
    hide CodeAt, FirstCode, Partitioned;
    PartitionShift(s, s1, ReadFrame(s1, max).0, ReadFrame(s1, max).1, Dropped(s1, max), max);
  }

  lemma FoundPartition(s: Input, max: nat)
    requires max >= 8 && !s.eof
    requires var w := s.rest[..Min(max, |s.rest|)]; FirstCode(w, Min(3, |w|)) < |w|
    ensures Partitioned(s, ReadFrame(s, max).0, ReadFrame(s, max).1, 0)
  {
    if |s.rest| >= max {
      var w := s.rest[..max];
      var i := FirstCode(w, 3);
      WindowPartition(s.rest, w, i);
      assert w[..i] == s.rest[..i];
      hide CodeAt, FirstCode;
      assert ReadFrame(s, max) == (Frame(s.rest[..i]), Input(s.rest[i..], false));
    } else {
      assert ReadFrame(s, max).1.eof;
    }
  }

  lemma PartitionShift(s: Input, s1: Input, r: Read, s': Input, d: nat, max: nat)
    requires Partitioned(s1, r, s', d)
    requires if |s.rest| < max then s1.eof else s1.rest == s.rest[max..]
    requires s1.eof ==> r.End?
    ensures Partitioned(s, r, s', Min(max, |s.rest|) + d)
  {
    if r.Frame? && !s'.eof {
      var at := d;
      assert s1.rest[at..at + |r.data|] == s.rest[max + at..max + at + |r.data|];
      assert s1.rest[at + |r.data|..] == s.rest[max + at + |r.data|..];
      hide CodeAt;
    }
  }

  // ---------------------------------------------------------------- frames without a unit

  // Frames behind whose end the sender would read.
  const STUBS: set<seq<byte>> := {[0, 0, 0], [0, 0, 1], [0, 0, 0, 1]}

  /** Of all frames the splitter can cut, the sender can take all but three. */
  lemma UnreadableFrames(s: Input, max: nat)
    requires max >= 1 && ReadFrame(s, max).0.Frame?
    ensures Readable(ReadFrame(s, max).0.data) <==> ReadFrame(s, max).0.data !in STUBS
  {
    var p := ReadFrame(s, max).0.data;
    hide ReadFrame;
    assert |p| >= 3;
    if |p| == 3 {
      assert p == [p[0], p[1], p[2]];
    } else if |p| == 4 {
      assert p == [p[0], p[1], p[2], p[3]];
    }
  }

  /** So it can take all frames of a file exactly when none is one of them. */
  lemma {:induction false} ReadableFile(s: Input, max: nat)
    requires max >= 1
    ensures (forall f :: f in Frames(s, max) ==> Readable(f)) <==> (forall f :: f in STUBS ==> f !in Frames(s, max))
    decreases s.Size()
  {
    hide ReadFrame, Readable;
    var (r, s') := ReadFrame(s, max);
    if r.Frame? {
      UnreadableFrames(s, max);
      ReadableFile(s', max);
      var fs, rest := Frames(s, max), Frames(s', max);
      assert forall f :: f in fs <==> f == r.data || f in rest;
    }
  }

  /** All three do occur. */
  lemma StubsOccur(max: nat)
    requires max >= 8
    ensures ReadFrame(Input([0, 0, 0, 0, 0, 1, 0x65, 9], false), max).0 == Frame([0, 0, 0])
    ensures ReadFrame(Input([0, 0, 1, 0, 0, 1, 0x65, 9], false), max).0 == Frame([0, 0, 1])
    ensures ReadFrame(Input([0, 0, 0, 1, 0, 0, 1, 0x65], false), max).0 == Frame([0, 0, 0, 1])
  {
    CutsAt([0, 0, 0, 0, 0, 1, 0x65, 9], 3, max);
    CutsAt([0, 0, 1, 0, 0, 1, 0x65, 9], 3, max);
    CutsAt([0, 0, 0, 1, 0, 0, 1, 0x65], 4, max);
  }

  lemma CutsAt(w: seq<byte>, i: nat, max: nat)
    requires 3 <= i < |w| <= max && CodeAt(w, i) && forall j :: 3 <= j < i ==> !CodeAt(w, j)
    ensures ReadFrame(Input(w, false), max).0 == Frame(w[..i])
  {
    hide CodeAt;
    assert w[..|w|] == w;
    assert FirstCode(w, 3) == i;
  }
}
