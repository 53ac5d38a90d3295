/** RTCP: the table of report blocks a client's receiver reports fill, the sender report that
    echoes it, and the NTP time stamp of that report. A report block is its 24 raw bytes, keyed
    by the first four; the program never converts them. */
module Rtcp {
  import opened Common
  import opened Rtp

  type Bytes = seq<byte>
  type Table = map<Bytes, Bytes>

  const BLOCK := 24
  const SR_SIZE := 28
  const SR_BUFFER := 4096
  const RR_TYPE := 201
  const SR_TYPE := 200

  function Key(block: Bytes): Bytes
    requires |block| >= 4
  {
    block[..4]
  }

  // ---------------------------------------------------------------- receiver reports

  function BlockAt(buffer: Bytes, start: nat, i: nat): Bytes
    requires start + (i + 1) * BLOCK <= |buffer|
  {
    buffer[start + i * BLOCK..start + (i + 1) * BLOCK]
  }

  function Store(t: Table, buffer: Bytes, from: nat, count: nat): Table
    requires from <= count && 8 + count * BLOCK <= |buffer|
    decreases count - from
  {
    if from == count then t
    else var b := BlockAt(buffer, 8, from); Store(t[Key(b) := b], buffer, from + 1, count)
  }

  predicate AcceptsRr(buffer: Bytes, received: int)
    requires |buffer| >= 4
  {
    && received >= 4
    && buffer[0] / 64 == 2 && buffer[1] == RR_TYPE
    && received >= 4 + Int16(buffer, 2) * 4
  }

  /** A packet is taken for a receiver report exactly if it has its four header bytes, is of version
      2 and type 201, and was received as far as its length field says. */
  lemma AcceptsExactly(buffer: Bytes, received: int)
    requires |buffer| == SR_BUFFER
    ensures AcceptsRr(buffer, received) <==>
              && 128 <= buffer[0] < 192 && buffer[1] == 201
              && received >= 4 * (1 + 256 * (buffer[2] as int) + buffer[3] as int) && received >= 4
  {}

  /** Every other packet leaves the table alone. */
  lemma RefusedReport(t: Table, buffer: Bytes, received: int)
    requires |buffer| == SR_BUFFER
    requires buffer[0] / 64 != 2 || buffer[1] != 201 || received < 4 * (1 + 256 * (buffer[2] as int) + buffer[3] as int)
    ensures !AcceptsRr(buffer, received) && TableAfter(t, buffer, received) == t
  {}

  // What parse_rtcp_packet does to the table. The buffer is always the whole receive buffer.
  function TableAfter(t: Table, buffer: Bytes, received: int): Table
    requires |buffer| >= 8 + 31 * BLOCK
  {
    if AcceptsRr(buffer, received) then Store(t, buffer, 0, buffer[0] % 32) else t
  }

  function Flatten(blocks: seq<Bytes>): Bytes {
    if blocks == [] then [] else blocks[0] + Flatten(blocks[1..])
  }

  predicate AllBlocks(blocks: seq<Bytes>) {
    forall i :: 0 <= i < |blocks| ==> |blocks[i]| == BLOCK
  }

  // Section 6.4.2 of RFC 3550.
  function ReceiverReport(ssrc: nat, blocks: seq<Bytes>): Bytes
    requires |blocks| <= 31
  {
    [0x80 + |blocks|, RR_TYPE] + BigEndian16(1 + 6 * |blocks|) + BigEndian32(ssrc) + Flatten(blocks)
  }

  lemma {:induction false} FlattenAt(blocks: seq<Bytes>, i: nat)
    requires AllBlocks(blocks) && i < |blocks|
    ensures |Flatten(blocks)| == BLOCK * |blocks|
    ensures Flatten(blocks)[i * BLOCK..(i + 1) * BLOCK] == blocks[i]
    decreases |blocks|
  {
    FlattenLength(blocks);
    if i > 0 {
      BlocksTail(blocks);
      FlattenAt(blocks[1..], i - 1);
      var f := Flatten(blocks[1..]);
      assert Flatten(blocks)[i * BLOCK..(i + 1) * BLOCK] == f[(i - 1) * BLOCK..i * BLOCK];
    }
  }

  lemma BlocksTail(blocks: seq<Bytes>)
    requires AllBlocks(blocks) && blocks != []
    ensures |blocks[0]| == BLOCK && AllBlocks(blocks[1..])
  {}

  lemma {:induction false} FlattenLength(blocks: seq<Bytes>)
    requires AllBlocks(blocks)
    ensures |Flatten(blocks)| == BLOCK * |blocks|
    decreases |blocks|
  {
    if blocks != [] {
      BlocksTail(blocks);
      FlattenLength(blocks[1..]);
    }
  }

  // The table holds the last block of every source and nothing else.
  ghost predicate LastPerSource(t: Table, blocks: seq<Bytes>)
    requires AllBlocks(blocks)
  {
    && (forall i :: 0 <= i < |blocks| ==> Key(blocks[i]) in t)
    && (forall k :: k in t ==> exists i :: LastOf(blocks, k, i) && t[k] == blocks[i])
  }

  ghost predicate LastOf(blocks: seq<Bytes>, k: Bytes, i: int)
    requires AllBlocks(blocks)
  {
    && 0 <= i < |blocks| && Key(blocks[i]) == k
    && forall j :: i < j < |blocks| ==> Key(blocks[j]) != k
  }

  lemma AddBlock(t: Table, blocks: seq<Bytes>, b: Bytes)
    requires AllBlocks(blocks) && |b| == BLOCK && LastPerSource(t, blocks)
    ensures LastPerSource(t[Key(b) := b], blocks + [b])
  {
    var all, t' := blocks + [b], t[Key(b) := b];
    forall k | k in t' ensures exists i :: LastOf(all, k, i) && t'[k] == all[i] {
      if k == Key(b) {
        assert LastOf(all, k, |blocks|);
      } else {
        var i :| LastOf(blocks, k, i) && t[k] == blocks[i];
        assert LastOf(all, k, i);
      }
    }
  }

  lemma {:induction false} StoreAdds(t: Table, seen: seq<Bytes>, buffer: Bytes, blocks: seq<Bytes>, from: nat)
    requires AllBlocks(seen) && AllBlocks(blocks) && from <= |blocks|
    requires 8 + |blocks| * BLOCK <= |buffer| && forall i :: 0 <= i < |blocks| ==> BlockAt(buffer, 8, i) == blocks[i]
    requires LastPerSource(t, seen + blocks[..from])
    ensures LastPerSource(Store(t, buffer, from, |blocks|), seen + blocks)
    decreases |blocks| - from
  {
    if from == |blocks| {
      assert blocks[..from] == blocks;
    } else {
      var b := blocks[from];
      AddBlock(t, seen + blocks[..from], b);
      assert seen + blocks[..from] + [b] == seen + blocks[..from + 1];
      hide LastPerSource;
      StoreAdds(t[Key(b) := b], seen, buffer, blocks, from + 1);
    }
  }

  datatype Report = Report(ssrc: nat, blocks: seq<Bytes>)
  {
    predicate Ok() { ssrc < TWO32 && |blocks| <= 31 && AllBlocks(blocks) }
  }

  // A receive buffer whose front is the report and whose rest is left over from earlier.
  predicate Holds(buffer: Bytes, received: int, r: Report)
    requires r.Ok()
  {
    var p := ReceiverReport(r.ssrc, r.blocks);
    received == |p| && |buffer| == SR_BUFFER && p <= buffer
  }

  lemma ReportIsStored(t: Table, seen: seq<Bytes>, buffer: Bytes, received: int, r: Report)
    requires r.Ok() && Holds(buffer, received, r) && AllBlocks(seen) && LastPerSource(t, seen)
    ensures LastPerSource(TableAfter(t, buffer, received), seen + r.blocks)
  {
    var n, p := |r.blocks|, ReceiverReport(r.ssrc, r.blocks);
    FlattenLength(r.blocks);
    assert |p| == 8 + n * BLOCK;
    assert forall k :: 0 <= k < |p| ==> buffer[k] == p[k];
    assert AcceptsRr(buffer, received) && buffer[0] % 32 == n;
    forall i | 0 <= i < n ensures BlockAt(buffer, 8, i) == r.blocks[i] {
      FlattenAt(r.blocks, i);
      assert buffer[8 + i * BLOCK..8 + (i + 1) * BLOCK] == Flatten(r.blocks)[i * BLOCK..(i + 1) * BLOCK];
    }
    assert seen + r.blocks[..0] == seen;
    StoreAdds(t, seen, buffer, r.blocks, 0);
  }

  function AllOf(reports: seq<Report>): seq<Bytes> {
    if reports == [] then [] else AllOf(reports[..|reports| - 1]) + reports[|reports| - 1].blocks
  }

  predicate Buffers(packets: seq<(Bytes, int)>) {
    forall i :: 0 <= i < |packets| ==> |packets[i].0| == SR_BUFFER
  }

  function TableOf(packets: seq<(Bytes, int)>): Table
    requires Buffers(packets)
  {
    if packets == [] then map[]
    else TableAfter(TableOf(packets[..|packets| - 1]), packets[|packets| - 1].0, packets[|packets| - 1].1)
  }

  // The packets received are these reports, all well-formed.
  predicate Carry(packets: seq<(Bytes, int)>, reports: seq<Report>) {
    && |packets| == |reports|
    && forall i :: 0 <= i < |packets| ==> reports[i].Ok() && Holds(packets[i].0, packets[i].1, reports[i])
  }

  lemma CarryFront(packets: seq<(Bytes, int)>, reports: seq<Report>)
    requires Carry(packets, reports) && reports != []
    ensures var n := |reports| - 1;
            && |packets| == |reports| && Buffers(packets) && Carry(packets[..n], reports[..n])
            && reports[n].Ok() && Holds(packets[n].0, packets[n].1, reports[n])
  {}

  lemma NoReports(packets: seq<(Bytes, int)>, reports: seq<Report>)
    requires Carry(packets, reports) && reports == []
    ensures Buffers(packets) && AllBlocks(AllOf(reports)) && LastPerSource(TableOf(packets), AllOf(reports))
  {}

  /** After any sequence of well-formed receiver reports the table holds the last block that was
      reported for each source, and nothing else. */
  lemma {:induction false} ReportsFillTable(packets: seq<(Bytes, int)>, reports: seq<Report>)
    requires Carry(packets, reports)
    ensures Buffers(packets) && AllBlocks(AllOf(reports)) && LastPerSource(TableOf(packets), AllOf(reports))
    decreases |reports|
  {
    hide LastPerSource, Holds, TableAfter, Carry, ReceiverReport, Store, BlockAt, Flatten;
    if reports == [] {
      NoReports(packets, reports);
    } else {
      CarryFront(packets, reports);
      var n := |reports| - 1;
      ReportsFillTable(packets[..n], reports[..n]);
      ReportIsStored(TableOf(packets[..n]), AllOf(reports[..n]), packets[n].0, packets[n].1, reports[n]);
    }
  }

  // ---------------------------------------------------------------- sender report

  datatype SenderInfo = SenderInfo(ssrc: nat, ntpHigh: nat, ntpLow: nat, rtpTime: nat, packets: nat, octets: nat)
  {
    predicate Ok() {
      ssrc < TWO32 && ntpHigh < TWO32 && ntpLow < TWO32 && rtpTime < TWO32 && packets < TWO32 && octets < TWO32
    }
  }

  // The report is built from the table in the order its map is walked.
  ghost predicate IsWalk(walk: seq<Bytes>, t: Table) {
    && (forall k :: k in walk <==> k in t)
    && (forall i, j :: 0 <= i < j < |walk| ==> walk[i] != walk[j])
  }

  function Echo(walk: seq<Bytes>, t: Table): seq<Bytes>
    requires forall k :: k in walk ==> k in t
  {
    seq(|walk|, i requires 0 <= i < |walk| => t[walk[i]])
  }

  function FixedPart(info: SenderInfo, n: nat): Bytes {
    [0x80 + n % 32, SR_TYPE] + BigEndian16(6 + 6 * n) + BigEndian32(info.ssrc) + BigEndian32(info.ntpHigh)
    + BigEndian32(info.ntpLow) + BigEndian32(info.rtpTime) + BigEndian32(info.packets) + BigEndian32(info.octets)
  }

  function SenderReport(info: SenderInfo, blocks: seq<Bytes>): Bytes {
    FixedPart(info, |blocks|) + Flatten(blocks)
  }

  // Section 6.4.1 of RFC 3550: the packet ends where its length field says, and holds the number
  // of blocks its count field says.
  function ParseSr(p: Bytes): Option<(SenderInfo, seq<Bytes>)> {
    if |p| < SR_SIZE || p[0] / 64 != 2 || p[1] != SR_TYPE then None
    else
      var n := p[0] % 32;
      if |p| != 4 * (Int16(p, 2) + 1) || |p| != SR_SIZE + n * BLOCK then None
      else Some((SenderInfo(Int32(p, 4), Int32(p, 8), Int32(p, 12), Int32(p, 16), Int32(p, 20), Int32(p, 24)),
                 seq(n, i requires 0 <= i < n => BlockAt(p, SR_SIZE, i))))
  }

  // The fixed part of a report without blocks, word by word.
  lemma ReportExample()
    ensures var p := FixedPart(SenderInfo(1, 0x02030405, 3, 4, 5, 6), 0) + [];
            && |p| == 28 && p[..4] == [0x80, 200, 0, 6] && p[4..8] == [0, 0, 0, 1] && p[8..12] == [2, 3, 4, 5]
            && p[12..16] == [0, 0, 0, 3] && p[16..20] == [0, 0, 0, 4]
            && p[20..24] == [0, 0, 0, 5] && p[24..28] == [0, 0, 0, 6]
  {
    hide FixedPart;
    FixedWords(SenderInfo(1, 0x02030405, 3, 4, 5, 6), 0, []);
    assert BigEndian32(0x02030405) == [2, 3, 4, 5];
    assert BigEndian16(6) == [0, 6];
    SmallWord(1);
    SmallWord(3);
    SmallWord(4);
    SmallWord(5);
    SmallWord(6);
  }

  lemma SmallWord(n: nat)
    requires n < 256
    ensures BigEndian32(n) == [0, 0, 0, n]
  {}

  lemma FixedWords(info: SenderInfo, n: nat, tail: Bytes)
    ensures var p := FixedPart(info, n) + tail;
            && |FixedPart(info, n)| == SR_SIZE
            && p[..4] == [0x80 + n % 32, SR_TYPE] + BigEndian16(6 + 6 * n)
            && p[4..8] == BigEndian32(info.ssrc) && p[8..12] == BigEndian32(info.ntpHigh)
            && p[12..16] == BigEndian32(info.ntpLow) && p[16..20] == BigEndian32(info.rtpTime)
            && p[20..24] == BigEndian32(info.packets) && p[24..28] == BigEndian32(info.octets)
  {}

  lemma SixteenBits(x: nat)
    ensures x / 256 % 256 * 256 + x % 256 == x % TWO16
  {}

  lemma FirstWord(n: nat, p: Bytes)
    requires |p| >= 4 && p[..4] == [0x80 + n % 32, SR_TYPE] + BigEndian16(6 + 6 * n)
    ensures p[0] == 0x80 + n % 32 && p[1] == SR_TYPE && Int16(p, 2) == (6 + 6 * n) % TWO16
  {
    assert p[0] == p[..4][0] && p[1] == p[..4][1] && p[2] == p[..4][2] && p[3] == p[..4][3];
    SixteenBits(6 + 6 * n);
  }

  lemma FixedPartIs(info: SenderInfo, n: nat, tail: Bytes)
    requires info.Ok()
    ensures var p := FixedPart(info, n) + tail;
            && |FixedPart(info, n)| == SR_SIZE
            && p[0] == 0x80 + n % 32 && p[1] == SR_TYPE && Int16(p, 2) == (6 + 6 * n) % TWO16
            && Int32(p, 4) == info.ssrc && Int32(p, 8) == info.ntpHigh && Int32(p, 12) == info.ntpLow
            && Int32(p, 16) == info.rtpTime && Int32(p, 20) == info.packets && Int32(p, 24) == info.octets
  {
    var p := FixedPart(info, n) + tail;
    FixedWords(info, n, tail);
    hide Int32, Int16, BigEndian32, BigEndian16, FixedPart;
    FirstWord(n, p);
    Int32OfBigEndian(info.ssrc, p, 4);
    Int32OfBigEndian(info.ntpHigh, p, 8);
    Int32OfBigEndian(info.ntpLow, p, 12);
    Int32OfBigEndian(info.rtpTime, p, 16);
    Int32OfBigEndian(info.packets, p, 20);
    Int32OfBigEndian(info.octets, p, 24);
  }

  lemma CountBits(n: nat)
    ensures (0x80 + n % 32) / 64 == 2 && (0x80 + n % 32) % 32 == n % 32
  {}

  lemma EchoedBlocks(fixed: Bytes, blocks: seq<Bytes>)
    requires |fixed| == SR_SIZE && AllBlocks(blocks)
    ensures var p := fixed + Flatten(blocks);
            && |p| == SR_SIZE + |blocks| * BLOCK
            && seq(|blocks|, i requires 0 <= i < |blocks| => BlockAt(p, SR_SIZE, i)) == blocks
  {
    var n, p := |blocks|, fixed + Flatten(blocks);
    FlattenLength(blocks);
    forall i | 0 <= i < n ensures BlockAt(p, SR_SIZE, i) == blocks[i] {
      FlattenAt(blocks, i);
      assert p[SR_SIZE + i * BLOCK..SR_SIZE + (i + 1) * BLOCK] == Flatten(blocks)[i * BLOCK..(i + 1) * BLOCK];
    }
  }

  /** The report is a well-formed packet carrying exactly these blocks if and only if the 5-bit
      count can hold their number; it fits the send buffer if and only if there are at most 169,
      and its length field then gives its true size. */
  lemma SenderReportRoundTrip(info: SenderInfo, blocks: seq<Bytes>)
    requires info.Ok() && AllBlocks(blocks)
    ensures ParseSr(SenderReport(info, blocks)) == Some((info, blocks)) <==> |blocks| <= 31
    ensures var p := SenderReport(info, blocks);
            && |p| >= 4 && p[1] == 200
            && (|p| <= 4096 <==> |blocks| <= 169)
            && (|p| <= 4096 ==> |p| == 4 * (Int16(p, 2) + 1))
  {
    hide Int32, Int16, FixedPart, Flatten, BlockAt, ParseSr;
    var p, n := SenderReport(info, blocks), |blocks|;
    FixedPartIs(info, n, Flatten(blocks));
    EchoedBlocks(FixedPart(info, n), blocks);
    if n <= 31 { ParsesExactly(p, info, blocks); } else { ParsesNever(p, n); }
    assert n <= 169 ==> (6 + 6 * n) % TWO16 == 6 + 6 * n;
  }

  lemma ParsesExactly(p: Bytes, info: SenderInfo, blocks: seq<Bytes>)
    requires |blocks| <= 31 && |p| == SR_SIZE + |blocks| * BLOCK
    requires p[0] == 0x80 + |blocks| && p[1] == SR_TYPE && Int16(p, 2) == 6 + 6 * |blocks|
    requires info == SenderInfo(Int32(p, 4), Int32(p, 8), Int32(p, 12), Int32(p, 16), Int32(p, 20), Int32(p, 24))
    requires seq(|blocks|, i requires 0 <= i < |blocks| => BlockAt(p, SR_SIZE, i)) == blocks
    ensures ParseSr(p) == Some((info, blocks))
  {
    hide Int32, Int16, BlockAt;
    CountBits(|blocks|);
  }

  lemma ParsesNever(p: Bytes, n: nat)
    requires n > 31 && |p| == SR_SIZE + n * BLOCK && p[0] == 0x80 + n % 32
    ensures ParseSr(p).None?
  {
    hide Int32, Int16, BlockAt;
    CountBits(n);
    assert p[0] % 32 != n;
  }

  // ---------------------------------------------------------------- too many sources

  // The report block of source number i, and a receive buffer with a report of just that block.
  function SourceBlock(i: nat): Bytes {
    BigEndian32(i) + seq(BLOCK - 4, _ => 0)
  }

  function OneReport(i: nat): Report {
    Report(0, [SourceBlock(i)])
  }

  function ReceivedReport(i: nat): (Bytes, int) {
    var p := ReceiverReport(0, [SourceBlock(i)]);
    (p + seq(SR_BUFFER - 32, _ => 0), 32)
  }

  lemma SourceIsNumber(i: nat)
    requires i < TWO32
    ensures |SourceBlock(i)| == BLOCK && Int32(Key(SourceBlock(i)), 0) == i
  {
    assert Key(SourceBlock(i)) == BigEndian32(i);
    assert BigEndian32(i)[0..4] == BigEndian32(i);
    Int32OfBigEndian(i, BigEndian32(i), 0);
  }

  lemma ReportHolds(i: nat)
    ensures OneReport(i).Ok() && Holds(ReceivedReport(i).0, ReceivedReport(i).1, OneReport(i))
  {
    var blocks := [SourceBlock(i)];
    assert AllBlocks(blocks);
    FlattenLength(blocks);
    assert |ReceiverReport(0, blocks)| == 32;
  }

  function Reports(n: nat): seq<Report> { seq(n, i requires 0 <= i < n => OneReport(i)) }

  function Receipts(n: nat): seq<(Bytes, int)> { seq(n, i requires 0 <= i < n => ReceivedReport(i)) }

  function Sources(n: nat): set<Bytes> { set i | 0 <= i < n :: Key(SourceBlock(i)) }

  lemma {:induction false} SourceCount(n: nat)
    requires n <= TWO32
    ensures |Sources(n)| == n
  {
    if n > 0 {
      hide SourceBlock, Int32;
      SourceCount(n - 1);
      var k := Key(SourceBlock(n - 1));
      forall i | 0 <= i < n - 1 ensures Key(SourceBlock(i)) != k {
        SourceIsNumber(i);
        SourceIsNumber(n - 1);
      }
      assert Sources(n) == Sources(n - 1) + {k};
    }
  }

  lemma {:induction false} BlocksReported(n: nat)
    ensures AllOf(Reports(n)) == seq(n, i requires 0 <= i < n => SourceBlock(i))
  {
    hide SourceBlock;
    if n > 0 {
      BlocksReported(n - 1);
      assert Reports(n)[..n - 1] == Reports(n - 1);
      assert AllOf(Reports(n)) == AllOf(Reports(n - 1)) + [SourceBlock(n - 1)];
    }
  }

  /** A client can fill the table with any number of sources the wire format can tell apart: after
      these n well-formed receiver reports the table has n entries. */
  lemma TableGrows(n: nat)
    requires n <= TWO32
    ensures Carry(Receipts(n), Reports(n)) && Buffers(Receipts(n)) && |TableOf(Receipts(n))| == n
  {
    hide Holds, TableAfter, ReceivedReport, SourceBlock, Report.Ok;
    forall i | 0 <= i < n ensures Reports(n)[i].Ok() && Holds(Receipts(n)[i].0, Receipts(n)[i].1, Reports(n)[i]) {
      ReportHolds(i);
    }
    ReportsFillTable(Receipts(n), Reports(n));
    BlocksReported(n);
    var t, blocks := TableOf(Receipts(n)), AllOf(Reports(n));
    assert forall i :: 0 <= i < n ==> Key(blocks[i]) in t && blocks[i] == SourceBlock(i);
    assert t.Keys == Sources(n);
    SourceCount(n);
    assert |t| == |t.Keys|;
  }

  lemma {:induction false} WalkSize(walk: seq<Bytes>, keys: set<Bytes>)
    requires (forall k :: k in walk <==> k in keys) && forall i, j :: 0 <= i < j < |walk| ==> walk[i] != walk[j]
    ensures |walk| == |keys|
    decreases |walk|
  {
    if walk != [] {
      var k, rest := walk[0], walk[1..];
      forall x | x in rest ensures x in keys - {k} {
        var i :| 0 <= i < |rest| && rest[i] == x;
        assert walk[i + 1] == x;
      }
      forall x | x in keys - {k} ensures x in rest {
        var i :| 0 <= i < |walk| && walk[i] == x;
        assert rest[i - 1] == x;
      }
      WalkSize(rest, keys - {k});
    } else {
      assert keys == {};
    }
  }

  /** So a client can make the server send reports nobody can read, and reports larger than its
      buffer: whatever order the table is walked in, the report of a table filled by n sources
      reads back if and only if n is at most 31, and has room if and only if n is at most 169. */
  lemma SourcesBreakReport(n: nat, walk: seq<Bytes>, info: SenderInfo)
    requires n <= TWO32 && info.Ok() && Buffers(Receipts(n)) && IsWalk(walk, TableOf(Receipts(n)))
    ensures var blocks := Echo(walk, TableOf(Receipts(n)));
            && (ParseSr(SenderReport(info, blocks)) == Some((info, blocks)) <==> n <= 31)
            && (|SenderReport(info, blocks)| <= SR_BUFFER <==> n <= 169)
  {
    hide SenderReport, ParseSr, Holds, TableAfter, Receipts, Reports, Report.Ok;
    var t := TableOf(Receipts(n));
    TableGrows(n);
    WalkSize(walk, t.Keys);
    ReportsFillTable(Receipts(n), Reports(n));
    EchoIsBlocks(walk, t, AllOf(Reports(n)));
    SenderReportRoundTrip(info, Echo(walk, t));
  }

  lemma EchoIsBlocks(walk: seq<Bytes>, t: Table, seen: seq<Bytes>)
    requires AllBlocks(seen) && LastPerSource(t, seen) && forall k :: k in walk ==> k in t
    ensures AllBlocks(Echo(walk, t))
  {}

  // ---------------------------------------------------------------- NTP time stamp

  const NTP_EPOCH: nat := 2208988800

  // The 64-bit fixed-point time of the source, with the truncations of its 64-bit arithmetic.
  function NtpTime(sec: nat, usec: nat): nat {
    ((sec + NTP_EPOCH) % TWO32 * TWO32 + usec * TWO32 / 1000000) % (TWO32 * TWO32)
  }

  function NtpHigh(sec: nat, usec: nat): nat { NtpTime(sec, usec) / TWO32 }
  function NtpLow(sec: nat, usec: nat): nat { NtpTime(sec, usec) % TWO32 }

  // Rounding the fraction up to whole microseconds.
  function Micros(fraction: nat): nat {
    (fraction * 1000000 + TWO32 - 1) / TWO32
  }

  /** For every microsecond count below a second the fraction never carries into the seconds, the
      seconds are right mod 2^32, the microseconds can be recovered exactly, and later
      microseconds give larger fractions. */
  lemma NtpExact(sec: nat, usec: nat, later: nat)
    requires usec < 1000000
    ensures NtpHigh(sec, usec) == (sec + 2208988800) % TWO32
    ensures NtpLow(sec, usec) == usec * TWO32 / 1000000
    ensures Micros(NtpLow(sec, usec)) == usec
    ensures usec < later < 1000000 ==> NtpLow(sec, usec) < NtpLow(sec, later)
  {
    NtpSplit(sec, usec);
    if later < 1000000 { NtpSplit(sec, later); }
  }

  lemma NtpSplit(sec: nat, usec: nat)
    requires usec < 1000000
    ensures NtpHigh(sec, usec) == (sec + NTP_EPOCH) % TWO32
    ensures NtpLow(sec, usec) == usec * TWO32 / 1000000
  {
    var high, low := (sec + NTP_EPOCH) % TWO32, usec * TWO32 / 1000000;
    assert low < TWO32;
    assert high * TWO32 + low < TWO32 * TWO32;
  }
}
