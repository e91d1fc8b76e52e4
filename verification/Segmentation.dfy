/** Cutting an oversized packet to the tunnel's MTU: TCP by sequence space, everything else by IP fragmentation. */
module Segmentation {
  import opened Bytes
  import opened Packet
  import IPv4
  import IPv6

  const FIN := 0x01
  const SYN := 0x02
  const PSH := 0x08
  const CWR := 0x80
  const MIN_MTU := 576

  datatype Cut = Fail | Parts(ps: seq<seq<byte>>, split: bool)

  // ---------- TCP ----------

  /** The flags of a segment that is not the last: FIN, PSH and CWR cleared. */
  function Inner(flags: byte): (f: byte)
    ensures f % 2 == 0 && f / 8 % 2 == 0 && f / 128 == 0
    ensures f / 2 % 4 == flags / 2 % 4 && f / 16 % 8 == flags / 16 % 8
  {
    flags / 16 % 8 * 16 + flags / 2 % 4 * 2
  }

  /** Where the TCP header starts and ends in a packet that can be cut, and its payload's share per segment. */
  datatype Layout = Layout(version: nat, l4: nat, hdr: nat, max: nat)

  predicate Cuttable(b: seq<byte>, mtu: int) {
    && mtu >= MIN_MTU && Parse(b).Ok?
    && var p := Parse(b).p;
       && p.proto == TCP && p.l4 + 20 <= |b|
       && var hdr := p.l4 + b[p.l4 + 12] as int / 16 * 4;
          p.l4 + 20 <= hdr < |b| && mtu > hdr && b[p.l4 + 13] as int / 2 % 2 == 0
  }

  function LayoutOf(b: seq<byte>, mtu: int): (y: Layout)
    requires Cuttable(b, mtu)
  {
    var p := Parse(b).p;
    var hdr := p.l4 + b[p.l4 + 12] as int / 16 * 4;
    Layout(p.version, p.l4, hdr, mtu - hdr)
  }

  predicate Sane(y: Layout, b: seq<byte>) {
    && ((y.version == 4 && y.l4 >= 20) || (y.version == 6 && y.l4 >= 40))
    && y.l4 + 20 <= y.hdr < |b| && y.max > 0
  }

  function PatchTcp(b: seq<byte>, l4: nat, seqNo: uint32, flags: byte): (s: seq<byte>)
    requires l4 + 20 <= |b|
    ensures |s| == |b|
  {
    Put32(b, l4 + 4, seqNo)[l4 + 13 := flags][l4 + 16 := 0][l4 + 17 := 0]
  }

  /** One segment: the headers with new sequence number, flags and length, checksums zeroed, then the payload. */
  function Segment(b: seq<byte>, y: Layout, seqNo: uint32, flags: byte, data: seq<byte>): (s: seq<byte>)
    requires Sane(y, b)
    ensures |s| == y.hdr + |data|
  {
    var s := PatchTcp(b[..y.hdr] + data, y.l4, seqNo, flags);
    if y.version == 4 then Put16(s, 2, |s| % 0x1_0000)[10 := 0][11 := 0] else Put16(s, 4, (|s| - 40) % 0x1_0000)
  }

  function Min(a: nat, b: nat): (m: nat) { if a < b then a else b }

  /** The segment that carries the payload from `off` on. */
  function SegmentAt(b: seq<byte>, y: Layout, off: nat): (s: seq<byte>)
    requires Sane(y, b)
    requires off < |b| - y.hdr
  {
    var end := Min(|b| - y.hdr, off + y.max);
    Segment(b, y, (Get32(b, y.l4 + 4) + off) % 0x1_0000_0000,
            if end != |b| - y.hdr then Inner(b[y.l4 + 13]) else b[y.l4 + 13], b[y.hdr + off..y.hdr + end])
  }

  function SegmentsFrom(b: seq<byte>, y: Layout, off: nat): (ss: seq<seq<byte>>)
    requires Sane(y, b)
    decreases |b| - off
  {
    if off >= |b| - y.hdr then [] else [SegmentAt(b, y, off)] + SegmentsFrom(b, y, off + y.max)
  }

  lemma CuttableIsSane(b: seq<byte>, mtu: int)
    requires Cuttable(b, mtu)
    ensures Sane(LayoutOf(b, mtu), b) && LayoutOf(b, mtu).hdr + LayoutOf(b, mtu).max == mtu
  {
    hide Parse;
    HeaderFacts(b, Parse(b).p);
  }

  lemma SegmentsStep(b: seq<byte>, y: Layout, off: nat, out: seq<seq<byte>>)
    requires Sane(y, b) && off < |b| - y.hdr
    ensures out + SegmentsFrom(b, y, off) == (out + [SegmentAt(b, y, off)]) + SegmentsFrom(b, y, off + y.max)
  {
    hide SegmentAt;
  }

  method CutOne(b: seq<byte>, y: Layout, off: nat) returns (seg: seq<byte>)
    requires Sane(y, b) && off < |b| - y.hdr
    ensures seg == SegmentAt(b, y, off)
  {
    hide Segment, Inner;
    var payload := b[y.hdr..];
    var end := off + y.max;
    if end > |payload| {
      end := |payload|;
    }
    assert payload[off..end] == b[y.hdr + off..y.hdr + end];
    var flags := b[y.l4 + 13];
    if end != |payload| {
      flags := Inner(flags);
    }
    seg := Segment(b, y, (Get32(b, y.l4 + 4) + off) % 0x1_0000_0000, flags, payload[off..end]);
  }

  method CutTcp(b: seq<byte>, y: Layout) returns (out: seq<seq<byte>>)
    requires Sane(y, b)
    ensures out == SegmentsFrom(b, y, 0)
  {
    hide SegmentAt;
    out := [];
    var off := 0;
    while off < |b| - y.hdr
      invariant 0 <= off && out + SegmentsFrom(b, y, off) == SegmentsFrom(b, y, 0)
      decreases |b| - y.hdr - off
    {
      var seg := CutOne(b, y, off);
      SegmentsStep(b, y, off, out);
      out := out + [seg];
      off := off + y.max;
    }
  }

  /** A segment would not fit its length field: only possible with an MTU beyond 64 KiB. */
  predicate TooLong(y: Layout, len: nat) {
    if y.version == 4 then len > 65535 else len - 40 > 65535
  }

  /** What an oversized packet must be to be cut, field by field: TCP with a complete header, a payload, no SYN, and
      headers that leave room in the MTU. */
  ghost predicate IsDataSegment(b: seq<byte>, mtu: int) {
    && Parse(b).Ok? && Parse(b).p.proto == 6 && Parse(b).p.l4 + 20 <= |b|
    && var l4 := Parse(b).p.l4;
       var hdr := l4 + b[l4 + 12] as int / 16 * 4;
       && b[l4 + 12] / 16 >= 5 && hdr < |b| && hdr < mtu && b[l4 + 13] / 2 % 2 == 0
  }

  method SplitForMTU(b: seq<byte>, mtu: int) returns (r: Cut)
    ensures 576 <= mtu <= 65535 && |b| > mtu ==> (r.Parts? <==> IsDataSegment(b, mtu))
    ensures mtu >= MIN_MTU && |b| <= mtu ==> r == Parts([b], false)
    ensures |b| > mtu || mtu < MIN_MTU ==>
      if !Cuttable(b, mtu) || TooLong(LayoutOf(b, mtu), mtu) then r == Fail
      else Sane(LayoutOf(b, mtu), b) && r == Parts(SegmentsFrom(b, LayoutOf(b, mtu), 0), true)
  {
    if mtu < MIN_MTU {
      return Fail;
    }
    if |b| <= mtu {
      return Parts([b], false);
    }
    hide Parse, SegmentsFrom;
    var c := Parse(b);
    if !c.Ok? || c.p.proto != TCP || c.p.l4 + 20 > |b| {
      return Fail;
    }
    var tcpLen := b[c.p.l4 + 12] as int / 16 * 4;
    if tcpLen < 20 || c.p.l4 + tcpLen >= |b| || mtu <= c.p.l4 + tcpLen || b[c.p.l4 + 13] as int / 2 % 2 != 0 {
      return Fail;
    }
    CuttableIsSane(b, mtu);
    var y := LayoutOf(b, mtu);
    if TooLong(y, mtu) {
      return Fail;
    }
    var out := CutTcp(b, y);
    r := Parts(out, true);
  }

  // ---------- The byte stream survives ----------

  /** What the receiver reads back from one segment `s`. */
  ghost predicate Reads(s: seq<byte>, b: seq<byte>, y: Layout, seqNo: uint32, flags: byte, data: seq<byte>)
    requires Sane(y, b)
  {
    && |s| == y.hdr + |data|
    && Get32(s, y.l4 + 4) == seqNo && Get32(s, y.l4 + 8) == Get32(b, y.l4 + 8)
    && s[y.l4 + 13] == flags && s[y.l4 + 12] == b[y.l4 + 12] && s[y.hdr..] == data
    && Get16(s, y.l4) == Get16(b, y.l4) && Get16(s, y.l4 + 2) == Get16(b, y.l4 + 2)
    && (if y.version == 4 then Get16(s, 2) == |s| else Get16(s, 4) == |s| - 40)
    && (forall j | 0 <= j < y.l4 && !LengthOrSum(y.version, j) :: s[j] == b[j])
    && forall j | y.l4 <= j < y.hdr && !Renewed(j - y.l4) :: s[j] == b[j]
  }

  /** The TCP header bytes that differ between segments: sequence number, flags and checksum. */
  predicate Renewed(j: int) {
    4 <= j < 8 || j == 13 || j == 16 || j == 17
  }

  /** The header bytes that differ between segments: length, and in IPv4 the header checksum. */
  predicate LengthOrSum(version: nat, j: int) {
    if version == 4 then j == 2 || j == 3 || j == 10 || j == 11 else j == 4 || j == 5
  }

  lemma PatchReads(b: seq<byte>, l4: nat, seqNo: uint32, flags: byte)
    requires l4 + 20 <= |b|
    ensures var s := PatchTcp(b, l4, seqNo, flags);
      && Get32(s, l4 + 4) == seqNo && s[l4 + 13] == flags
      && forall j | 0 <= j < |b| && !Renewed(j - l4) :: s[j] == b[j]
  {
  }

  lemma SegmentReads(b: seq<byte>, y: Layout, seqNo: uint32, flags: byte, data: seq<byte>)
    requires Sane(y, b) && !TooLong(y, y.hdr + |data|)
    ensures Reads(Segment(b, y, seqNo, flags, data), b, y, seqNo, flags, data)
  {
    hide PatchTcp;
    var whole := b[..y.hdr] + data;
    PatchReads(whole, y.l4, seqNo, flags);
    var t, s := PatchTcp(whole, y.l4, seqNo, flags), Segment(b, y, seqNo, flags, data);
    OnlyLengthDiffers(b, y, seqNo, flags, data);
    hide Segment;
    assert forall j | 0 <= j < y.hdr :: whole[j] == b[j];
    assert s[y.hdr..] == data;
  }

  lemma OnlyLengthDiffers(b: seq<byte>, y: Layout, seqNo: uint32, flags: byte, data: seq<byte>)
    requires Sane(y, b) && !TooLong(y, y.hdr + |data|)
    ensures var t := PatchTcp(b[..y.hdr] + data, y.l4, seqNo, flags); var s := Segment(b, y, seqNo, flags, data);
      && (forall j | 0 <= j < |s| && !LengthOrSum(y.version, j) :: s[j] == t[j])
      && (if y.version == 4 then Get16(s, 2) == |s| else Get16(s, 4) == |s| - 40)
  {
    hide PatchTcp;
  }

  lemma Frame4(b: seq<byte>, s: seq<byte>, p: Parsed)
    requires Parse(b) == Ok(p) && p.version == 4 && p.proto == TCP && p.l4 + 20 <= |s| && Get16(s, 2) == |s|
    requires forall j | 0 <= j < p.l4 && j < |b| && !LengthOrSum(4, j) :: s[j] == b[j]
    ensures Parse(s) == Ok(Parsed(4, TCP, p.src, p.dst, Get16(s, p.l4), Get16(s, p.l4 + 2), p.l4, |s|))
  {
    HeaderFacts(b, p);
    assert s[12..16] == b[12..16] && s[16..20] == b[16..20];
    assert Get16(b, 6) % 0x4000 == 0;
  }

  lemma Frame6(b: seq<byte>, s: seq<byte>, p: Parsed)
    requires Parse(b) == Ok(p) && p.version == 6 && p.proto == TCP && p.l4 + 20 <= |s| && Get16(s, 4) == |s| - 40
    requires forall j | 0 <= j < p.l4 && j < |b| && !LengthOrSum(6, j) :: s[j] == b[j]
    ensures Parse(s) == Ok(Parsed(6, TCP, p.src, p.dst, Get16(s, p.l4), Get16(s, p.l4 + 2), p.l4, |s|))
  {
    hide Walk;
    HeaderFacts(b, p);
    assert s[8..24] == b[8..24] && s[24..40] == b[24..40];
    WalkSame(b, s, Total6(b), |s|, b[6], 40);
  }

  /** Each segment parses to the packet's own protocol, addresses and ports, and as a whole TCP packet. */
  ghost predicate ReadsAs(s: seq<byte>, b: seq<byte>, p: Parsed, hlen: nat, seqNo: uint32, flags: byte, data: seq<byte>)
    requires p.l4 + 20 <= |b|
  {
    && Parse(s) == Ok(Parsed(p.version, TCP, p.src, p.dst, Get16(b, p.l4), Get16(b, p.l4 + 2), p.l4, |s|))
    && ParseTcp(s) == Some(TcpInfo(hlen, seqNo, Get32(b, p.l4 + 8), flags, data))
  }

  lemma ReadsParses(s: seq<byte>, b: seq<byte>, mtu: int, seqNo: uint32, flags: byte, data: seq<byte>)
    requires Cuttable(b, mtu) && Sane(LayoutOf(b, mtu), b) && Reads(s, b, LayoutOf(b, mtu), seqNo, flags, data)
    ensures ReadsAs(s, b, Parse(b).p, LayoutOf(b, mtu).hdr - LayoutOf(b, mtu).l4, seqNo, flags, data)
  {
    hide Parse, Get32, LengthOrSum, Renewed;
    var y, p := LayoutOf(b, mtu), Parse(b).p;
    HeaderFacts(b, p);
    if p.version == 4 {
      Frame4(b, s, p);
    } else {
      Frame6(b, s, p);
    }
    assert s[y.hdr..|s|] == s[y.hdr..];
  }

  /** Payloads of a list of TCP packets, one after the other. */
  ghost function Payloads(ss: seq<seq<byte>>): (d: seq<byte>) {
    if ss == [] then [] else (if ParseTcp(ss[0]).Some? then ParseTcp(ss[0]).value.payload else []) + Payloads(ss[1..])
  }

  /** The segment for offset `off` of the stream: sequence number base plus offset modulo 2^32, FIN,
      PSH and CWR only if it is the last, and no longer than the MTU. */
  ghost predicate Right(b: seq<byte>, mtu: int, off: nat, s: seq<byte>)
    requires Cuttable(b, mtu) && Sane(LayoutOf(b, mtu), b)
  {
    var y := LayoutOf(b, mtu);
    && off < |b| - y.hdr && |s| <= mtu
    && var end := Min(|b| - y.hdr, off + y.max);
       var seqNo := (Get32(b, y.l4 + 4) + off) % 0x1_0000_0000;
       var flags := if end == |b| - y.hdr then b[y.l4 + 13] else Inner(b[y.l4 + 13]);
       var data := b[y.hdr + off..y.hdr + end];
       && Reads(s, b, y, seqNo, flags, data)
       && ReadsAs(s, b, Parse(b).p, y.hdr - y.l4, seqNo, flags, data)
  }

  /** `ss` are the right segments for offsets `off`, `off + max`, and so on. */
  ghost predicate AllRight(b: seq<byte>, mtu: int, off: nat, ss: seq<seq<byte>>)
    requires Cuttable(b, mtu) && Sane(LayoutOf(b, mtu), b)
    decreases |ss|
  {
    ss != [] ==> Right(b, mtu, off, ss[0]) && AllRight(b, mtu, off + LayoutOf(b, mtu).max, ss[1..])
  }

  lemma SegmentParses(b: seq<byte>, mtu: int, y: Layout, seqNo: uint32, flags: byte, data: seq<byte>)
    requires Cuttable(b, mtu) && y == LayoutOf(b, mtu) && Sane(y, b) && !TooLong(y, y.hdr + |data|)
    ensures Reads(Segment(b, y, seqNo, flags, data), b, y, seqNo, flags, data)
    ensures ReadsAs(Segment(b, y, seqNo, flags, data), b, Parse(b).p, y.hdr - y.l4, seqNo, flags, data)
  {
    hide Parse, ParseTcp, Segment, Reads, ReadsAs;
    SegmentReads(b, y, seqNo, flags, data);
    ReadsParses(Segment(b, y, seqNo, flags, data), b, mtu, seqNo, flags, data);
  }

  lemma SegmentIsRight(b: seq<byte>, mtu: int, y: Layout, off: nat)
    requires Cuttable(b, mtu) && y == LayoutOf(b, mtu) && !TooLong(y, mtu) && Sane(y, b) && off < |b| - y.hdr
    ensures Right(b, mtu, off, SegmentAt(b, y, off))
  {
    hide Parse, Segment, Reads, ReadsAs, Inner, Get32;
    var end := Min(|b| - y.hdr, off + y.max);
    SegmentParses(b, mtu, y, (Get32(b, y.l4 + 4) + off) % 0x1_0000_0000,
      if end == |b| - y.hdr then b[y.l4 + 13] else Inner(b[y.l4 + 13]), b[y.hdr + off..y.hdr + end]);
  }

  lemma RightCarries(b: seq<byte>, mtu: int, y: Layout, off: nat, s: seq<byte>)
    requires Cuttable(b, mtu) && y == LayoutOf(b, mtu) && Sane(y, b) && Right(b, mtu, off, s)
    ensures ParseTcp(s).Some? && ParseTcp(s).value.payload == b[y.hdr + off..y.hdr + Min(|b| - y.hdr, off + y.max)]
  {
    hide Parse, ParseTcp, Cuttable, LayoutOf, Get32, Inner, Reads;
  }

  lemma {:induction false} SegmentsAreRight(b: seq<byte>, mtu: int, y: Layout, off: nat)
    requires Cuttable(b, mtu) && !TooLong(LayoutOf(b, mtu), mtu) && y == LayoutOf(b, mtu) && Sane(y, b)
    ensures AllRight(b, mtu, off, SegmentsFrom(b, y, off))
    decreases |b| - off
  {
    hide Parse, SegmentAt, Cuttable, LayoutOf, Right;
    if off < |b| - y.hdr {
      SegmentIsRight(b, mtu, y, off);
      SegmentsAreRight(b, mtu, y, off + y.max);
      assert SegmentsFrom(b, y, off)[1..] == SegmentsFrom(b, y, off + y.max);
    }
  }

  lemma PayloadsGrow(seg: seq<byte>, rest: seq<seq<byte>>)
    ensures Payloads([seg] + rest) == (if ParseTcp(seg).Some? then ParseTcp(seg).value.payload else []) + Payloads(rest)
  {
    hide ParseTcp;
    assert ([seg] + rest)[1..] == rest;
  }

  lemma SliceJoins(b: seq<byte>, i: nat, j: nat)
    requires i <= j <= |b|
    ensures b[i..j] + b[j..] == b[i..]
  {
  }

  lemma {:induction false} SegmentsJoin(b: seq<byte>, mtu: int, y: Layout, off: nat)
    requires Cuttable(b, mtu) && !TooLong(LayoutOf(b, mtu), mtu) && y == LayoutOf(b, mtu) && Sane(y, b)
    ensures Payloads(SegmentsFrom(b, y, off)) == if off <= |b| - y.hdr then b[y.hdr + off..] else []
    decreases |b| - off
  {
    hide ParseTcp, SegmentAt, Cuttable, LayoutOf, Right, TooLong;
    if off < |b| - y.hdr {
      var end := Min(|b| - y.hdr, off + y.max);
      var seg, rest := SegmentAt(b, y, off), SegmentsFrom(b, y, off + y.max);
      SegmentIsRight(b, mtu, y, off);
      RightCarries(b, mtu, y, off, seg);
      SegmentsJoin(b, mtu, y, off + y.max);
      PayloadsGrow(seg, rest);
      hide Payloads;
      SliceJoins(b, y.hdr + off, y.hdr + end);
    }
  }

  /** Segmentation preserves the byte stream: the segments are right one by one and their payloads join up to
      the payload. */
  lemma StreamSurvives(b: seq<byte>, mtu: int)
    requires Cuttable(b, mtu) && !TooLong(LayoutOf(b, mtu), mtu)
    ensures var y := LayoutOf(b, mtu);
      Sane(y, b) && AllRight(b, mtu, 0, SegmentsFrom(b, y, 0)) && Payloads(SegmentsFrom(b, y, 0)) == b[y.hdr..]
  {
    hide Cuttable, LayoutOf, SegmentsFrom, AllRight, Payloads;
    CuttableIsSane(b, mtu);
    SegmentsAreRight(b, mtu, LayoutOf(b, mtu), 0);
    SegmentsJoin(b, mtu, LayoutOf(b, mtu), 0);
  }

  // ---------- Everything else ----------

  /** An oversized packet is cut exactly when its own family's fragmenter accepts it, and then into
      that fragmenter's pieces; otherwise it fails, or shrinks to its declared length. */
  ghost predicate Fragmented(b: seq<byte>, mtu: int, counter: uint32, r: Cut)
    requires b != []
  {
    if b[0] / 16 == 4 then
      && (r.Parts? && r.split <==> IPv4.Fragmentable(b, mtu))
      && (IPv4.Fragmentable(b, mtu) ==>
            |b| >= 20 && 20 <= IPv4.HeaderLen(b) <= IPv4.TotalLen(b) && IPv4.MaxPayload(b, mtu) > 0
            && r.ps == IPv4.FragsFrom(b, IPv4.HeaderLen(b), IPv4.TotalLen(b), IPv4.NextId(b, counter).0,
                                      IPv4.MaxPayload(b, mtu), 0))
      && (r.Parts? && !r.split ==> |b| >= 20 && r.ps == [b[..IPv4.TotalLen(b)]])
      && (r.Parts? && !r.split <==>
            |b| >= 20 && 5 <= b[0] % 16 && b[0] as int % 16 * 4 <= |b| && IPv4.Declared(b) <= mtu)
    else if b[0] / 16 == 6 then
      && (r.Parts? && r.split <==> IPv6.Fragmentable(b, mtu))
      && (IPv6.Fragmentable(b, mtu) ==>
            && |b| >= 40 && IPv6.TotalLen(b) <= |b| && IPv6.SpotOf(b).Spot?
            && 40 <= IPv6.SpotOf(b).insert <= IPv6.TotalLen(b)
            && IPv6.SpotOf(b).prevNext < IPv6.SpotOf(b).insert && IPv6.MaxPayload(IPv6.SpotOf(b), mtu) > 0
            && r.ps == IPv6.FragsFrom(b, IPv6.SpotOf(b), IPv6.TotalLen(b), IPv6.NextId(counter),
                                      IPv6.MaxPayload(IPv6.SpotOf(b), mtu), 0))
      && (r.Parts? && !r.split ==> |b| >= 40 && IPv6.TotalLen(b) <= |b| && r.ps == [b[..IPv6.TotalLen(b)]])
      && (r.Parts? && !r.split <==>
            |b| >= 40 && (b[4] != 0 || b[5] != 0) && IPv6.Declared(b) <= |b| && IPv6.Declared(b) <= mtu)
    else r == Fail
  }

  /** The identification counter moves only when a packet is cut and needs a number. */
  ghost function CounterAfter(b: seq<byte>, mtu: int, counter: uint32): (next: uint32) {
    if mtu < MIN_MTU || |b| <= mtu then counter
    else if b[0] / 16 == 4 && IPv4.Fragmentable(b, mtu) then IPv4.NextId(b, counter).1
    else if b[0] / 16 == 6 && IPv6.Fragmentable(b, mtu) then IPv6.NextId(counter)
    else counter
  }

  /** IP fragmentation for whatever TCP segmentation does not handle. */
  method FragmentForMTU(b: seq<byte>, mtu: int, counter: uint32) returns (r: Cut, next: uint32)
    ensures mtu < MIN_MTU ==> r == Fail
    ensures mtu >= MIN_MTU && |b| <= mtu ==> r == Parts([b], false)
    ensures mtu >= MIN_MTU && |b| > mtu ==> Fragmented(b, mtu, counter, r)
    ensures next == CounterAfter(b, mtu, counter)
    ensures r.Parts? ==> forall i | 0 <= i < |r.ps| :: |r.ps[i]| <= mtu
  {
    hide IPv4.FragsFrom, IPv6.FragsFrom, IPv4.NextId, IPv6.NextId, IPv6.SpotOf;
    if mtu < MIN_MTU {
      return Fail, counter;
    }
    if |b| <= mtu {
      return Parts([b], false), counter;
    }
    if b[0] / 16 == 4 {
      var c;
      c, next := IPv4.Fragment4(b, mtu, counter);
      match c
      case Fail => r := Fail;
      case Whole(p) => r := Parts([p], false);
      case Fragments(fs) =>
        Sizes4(b, IPv4.HeaderLen(b), IPv4.TotalLen(b), IPv4.NextId(b, counter).0, IPv4.MaxPayload(b, mtu), 0);
        r := Parts(fs, true);
    } else if b[0] / 16 == 6 {
      var c;
      c, next := IPv6.Fragment6(b, mtu, counter);
      match c
      case Fail => r := Fail;
      case Whole(p) => r := Parts([p], false);
      case Fragments(fs) =>
        Sizes6(b, IPv6.SpotOf(b), IPv6.TotalLen(b), IPv6.NextId(counter), IPv6.MaxPayload(IPv6.SpotOf(b), mtu), 0);
        r := Parts(fs, true);
    } else {
      return Fail, counter;
    }
  }

  lemma {:induction false} Sizes4(b: seq<byte>, ihl: nat, total: nat, id: uint16, max: nat, off: nat)
    requires 20 <= ihl <= total <= |b| && max > 0
    ensures var fs := IPv4.FragsFrom(b, ihl, total, id, max, off); forall i | 0 <= i < |fs| :: |fs[i]| <= ihl + max
    decreases total - ihl - off
  {
    hide IPv4.FragHeader;
    if off < total - ihl {
      var rest := off + IPv4.Min(total - ihl - off, max);
      Sizes4(b, ihl, total, id, max, rest);
      assert |IPv4.FragAt(b, ihl, total, id, max, off)| <= ihl + max;
      hide IPv4.FragAt;
      assert IPv4.FragsFrom(b, ihl, total, id, max, off)
          == [IPv4.FragAt(b, ihl, total, id, max, off)] + IPv4.FragsFrom(b, ihl, total, id, max, rest);
    }
  }

  lemma {:induction false} Sizes6(b: seq<byte>, s: IPv6.Spot, total: nat, id: uint32, max: nat, off: nat)
    requires s.Spot? && 40 <= s.insert <= total <= |b| && s.prevNext < s.insert && max > 0
    ensures var fs := IPv6.FragsFrom(b, s, total, id, max, off);
      forall i | 0 <= i < |fs| :: |fs[i]| <= s.insert + 8 + max
    decreases total - s.insert - off
  {
    hide IPv6.FragHeader, IPv6.Prefix;
    if off < total - s.insert {
      var rest := off + IPv6.Min(total - s.insert - off, max);
      Sizes6(b, s, total, id, max, rest);
      assert |IPv6.FragAt(b, s, total, id, max, off)| <= s.insert + 8 + max;
      hide IPv6.FragAt;
      assert IPv6.FragsFrom(b, s, total, id, max, off)
          == [IPv6.FragAt(b, s, total, id, max, off)] + IPv6.FragsFrom(b, s, total, id, max, rest);
    }
  }

  lemma {:induction false} SizesTcp(b: seq<byte>, y: Layout, off: nat)
    requires Sane(y, b)
    ensures var ss := SegmentsFrom(b, y, off); forall i | 0 <= i < |ss| :: |ss[i]| <= y.hdr + y.max
    decreases |b| - off
  {
    hide Segment;
    if off < |b| - y.hdr {
      SizesTcp(b, y, off + y.max);
      assert |SegmentAt(b, y, off)| <= y.hdr + y.max;
      hide SegmentAt;
      assert SegmentsFrom(b, y, off) == [SegmentAt(b, y, off)] + SegmentsFrom(b, y, off + y.max);
    }
  }

  /** Checksum calculation by the driver: it may fail, and it keeps the length. */
  ghost predicate KeepsLength(sum: seq<byte> -> Option<seq<byte>>) {
    forall b: seq<byte> :: sum(b).Some? ==> |sum(b).value| == |b|
  }

  /** `out` are the packets of `ps`, each with its checksums filled in. */
  ghost predicate Summed(sum: seq<byte> -> Option<seq<byte>>, ps: seq<seq<byte>>, out: seq<seq<byte>>) {
    |out| == |ps| && forall i | 0 <= i < |ps| :: sum(ps[i]) == Some(out[i])
  }

  /** What the engine hands to the tunnel for a packet: for every MTU the configuration admits, no
      packet in the result is longer than the MTU, so none trips the size test of SendPacket. */
  method PrepareTunnelPackets(cp: seq<byte>, p: Parsed, mtu: int, counter: uint32, sum: seq<byte> -> Option<seq<byte>>)
    returns (r: Cut, next: uint32)
    requires KeepsLength(sum) && 576 <= mtu <= 9000
    ensures r.Parts? ==> forall i | 0 <= i < |r.ps| :: |r.ps[i]| <= mtu
    ensures |cp| <= mtu ==> r == if sum(cp).Some? then Parts([sum(cp).value], false) else Fail
    ensures r.Parts? && |cp| > mtu && p.proto == TCP ==>
      && Cuttable(cp, mtu) && Sane(LayoutOf(cp, mtu), cp)
      && Summed(sum, SegmentsFrom(cp, LayoutOf(cp, mtu), 0), r.ps)
    ensures |cp| > mtu && p.proto == TCP ==>
      (r.Parts? <==> IsDataSegment(cp, mtu) && Sane(LayoutOf(cp, mtu), cp)
                     && forall i | 0 <= i < |SegmentsFrom(cp, LayoutOf(cp, mtu), 0)| ::
                          sum(SegmentsFrom(cp, LayoutOf(cp, mtu), 0)[i]).Some?)
    ensures |cp| > mtu && p.proto != TCP ==>
      if sum(cp).None? then r == Fail
      else sum(cp).value != [] && Fragmented(sum(cp).value, mtu, counter, r)
    ensures next == if |cp| > mtu && p.proto != TCP && sum(cp).Some? then CounterAfter(sum(cp).value, mtu, counter)
                    else counter
  {
    hide Cuttable, SegmentsFrom, LayoutOf, Fragmented, CounterAfter;
    next := counter;
    if |cp| <= mtu {
      return if sum(cp).None? then Fail else Parts([sum(cp).value], false), counter;
    }
    if p.proto == TCP {
      r := SplitForMTU(cp, mtu);
      if r.Fail? {
        return;
      }
      assert forall i | 0 <= i < |r.ps| :: |r.ps[i]| <= mtu by {
        CuttableIsSane(cp, mtu);
        SizesTcp(cp, LayoutOf(cp, mtu), 0);
      }
      var out: seq<seq<byte>> := [];
      for n := 0 to |r.ps|
        invariant Summed(sum, r.ps[..n], out) && forall i | 0 <= i < n :: |out[i]| <= mtu
      {
        var s := sum(r.ps[n]);
        if s.None? {
          return Fail, counter;
        }
        out := out + [s.value];
      }
      assert r.ps[..|r.ps|] == r.ps;
      r := Parts(out, r.split);
    } else {
      if sum(cp).None? {
        return Fail, counter;
      }
      r, next := FragmentForMTU(sum(cp).value, mtu, counter);
    }
  }
}
