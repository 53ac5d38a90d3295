/** The RTCP side of RtpRtcpHandler as an object: the report table under its mutex, and the
    buffer the sender report is assembled in. */
module RtcpPeers {
  import opened Common
  import opened Rtp
  import opened Rtcp

  class RtcpPeer {
    var reportBlocks: Table

    ghost predicate Valid()
      reads this
    {
      forall k :: k in reportBlocks ==> |reportBlocks[k]| == BLOCK
    }

    constructor ()
      ensures Valid() && reportBlocks == map[]
    {
      reportBlocks := map[];
    }

    method ParseRtcpPacket(buffer: Bytes, received: int) returns (ok: bool)
      requires Valid() && |buffer| == SR_BUFFER
      modifies this
      ensures Valid() && ok == AcceptsRr(buffer, received)
      ensures reportBlocks == TableAfter(old(reportBlocks), buffer, received)
    {
      if received < 4 { return false; }
      if buffer[0] / 64 != 2 || buffer[1] != RR_TYPE { return false; }
      var length := Int16(buffer, 2);
      if received < 4 + length * 4 { return false; }
      var i, count := 0, buffer[0] % 32;
      while i < count
        invariant i <= count && Valid()
        invariant Store(reportBlocks, buffer, i, count) == Store(old(reportBlocks), buffer, 0, count)
      {
        var rb := buffer[8 + i * BLOCK..8 + (i + 1) * BLOCK];
        reportBlocks := reportBlocks[Key(rb) := rb];
        i := i + 1;
      }
      return true;
    }

    method PutBlock(buffer: array<byte>, i: nat, block: Bytes)
      requires |block| == BLOCK && SR_SIZE + (i + 1) * BLOCK <= buffer.Length
      modifies buffer
      ensures buffer[..SR_SIZE + (i + 1) * BLOCK] == old(buffer[..SR_SIZE + i * BLOCK]) + block
    {
      Put(buffer, SR_SIZE + i * BLOCK, block);
    }

    // The copying loop.
    method PutBlocks(buffer: array<byte>, ghost fixed: Bytes) returns (ghost walk: seq<Bytes>)
      requires Valid() && |fixed| == SR_SIZE && SR_SIZE + |reportBlocks| * BLOCK <= buffer.Length
      requires buffer[..SR_SIZE] == fixed
      modifies buffer
      ensures IsWalk(walk, reportBlocks) && |walk| == |reportBlocks|
      ensures buffer[..SR_SIZE + |reportBlocks| * BLOCK] == fixed + Flatten(Echo(walk, reportBlocks))
    {
      hide Flatten, IsWalk, PartWalk, Echo, AllBlocks;
      walk := [];
      WalkBegins(reportBlocks);
      EchoNothing(reportBlocks);
      var i := 0;
      var left := reportBlocks.Keys;
      while left != {}
        invariant PartWalk(walk, reportBlocks, left) && i == |walk| && i + |left| == |reportBlocks|
        invariant AllBlocks(Echo(walk, reportBlocks))
        invariant buffer[..SR_SIZE + i * BLOCK] == fixed + Flatten(Echo(walk, reportBlocks))
      {
        var k :| k in left;
        PartWalkGrows(walk, reportBlocks, left, k);
        assert i + 1 <= |reportBlocks|;
        PutBlock(buffer, i, reportBlocks[k]);
        EchoGrows(walk, reportBlocks, k);
        Assoc(fixed, Flatten(Echo(walk, reportBlocks)), reportBlocks[k]);
        left := left - {k};
        walk := walk + [k];
        i := i + 1;
      }
      WalkDone(walk, reportBlocks);
    }

    /** Assembles the sender report with every block of the table in it, once. */
    method BuildSenderReport(info: SenderInfo, buffer: array<byte>) returns (size: nat)
      requires Valid() && info.Ok() && buffer.Length == SR_BUFFER && SR_SIZE + |reportBlocks| * BLOCK <= SR_BUFFER
      modifies buffer
      ensures size <= buffer.Length
      ensures exists walk :: IsWalk(walk, reportBlocks) && |walk| == |reportBlocks|
                && buffer[..size] == SenderReport(info, Echo(walk, reportBlocks))
    {
      var fixed := FixedPart(info, |reportBlocks|);
      FixedSize(info, |reportBlocks|);
      hide FixedPart, Flatten;
      Put(buffer, 0, fixed);
      ghost var walk := PutBlocks(buffer, fixed);
      size := SR_SIZE + |reportBlocks| * BLOCK;
      assert buffer[..size] == SenderReport(info, Echo(walk, reportBlocks));
    }
  }

  // The keys already visited and the keys left to visit.
  ghost predicate PartWalk(walk: seq<Bytes>, t: Table, left: set<Bytes>)
    ensures PartWalk(walk, t, left) ==> forall k :: k in walk ==> k in t
  {
    && left <= t.Keys
    && (forall k :: k in walk <==> k in t && k !in left)
    && (forall a, b :: 0 <= a < b < |walk| ==> walk[a] != walk[b])
  }

  lemma WalkBegins(t: Table)
    ensures PartWalk([], t, t.Keys)
  {}

  lemma PartWalkGrows(walk: seq<Bytes>, t: Table, left: set<Bytes>, k: Bytes)
    requires PartWalk(walk, t, left) && k in left
    ensures k in t && PartWalk(walk + [k], t, left - {k}) && |left - {k}| == |left| - 1
  {}

  lemma WalkDone(walk: seq<Bytes>, t: Table)
    requires PartWalk(walk, t, {})
    ensures IsWalk(walk, t)
  {}

  lemma FixedSize(info: SenderInfo, n: nat)
    ensures |FixedPart(info, n)| == SR_SIZE
  {}

  lemma EchoNothing(t: Table)
    ensures Flatten(Echo([], t)) == [] && AllBlocks(Echo([], t))
  {}

  lemma EchoGrows(walk: seq<Bytes>, t: Table, k: Bytes)
    requires k in t && |t[k]| == BLOCK && (forall w :: w in walk ==> w in t) && AllBlocks(Echo(walk, t))
    ensures forall w :: w in walk + [k] ==> w in t
    ensures AllBlocks(Echo(walk + [k], t)) && Flatten(Echo(walk + [k], t)) == Flatten(Echo(walk, t)) + t[k]
  {
    assert Echo(walk + [k], t) == Echo(walk, t) + [t[k]];
    FlattenGrows(Echo(walk, t), t[k]);
  }

  lemma {:induction false} FlattenGrows(blocks: seq<Bytes>, b: Bytes)
    ensures Flatten(blocks + [b]) == Flatten(blocks) + b
  {
    if blocks == [] {
      assert blocks + [b] == [b] && [b][1..] == [];
    } else {
      assert (blocks + [b])[1..] == blocks[1..] + [b];
      FlattenGrows(blocks[1..], b);
    }
  }
}
