/** Parsing an IP packet down to its ports, and rewriting addresses and ports in place. */
module Packet {
  import opened Bytes
  import opened Chains
  import IPv4
  import IPv6

  const TCP := 6
  const UDP := 17

  datatype Addr = NoAddr | V4(bytes: seq<byte>) | V6(bytes: seq<byte>)

  /** An IPv4 address written in its IPv6-mapped form becomes the plain IPv4 address. */
  function Unmap(a: Addr): (u: Addr) {
    if a.V6? && |a.bytes| == 16 && (forall i | 0 <= i < 10 :: a.bytes[i] == 0)
       && a.bytes[10] == 255 && a.bytes[11] == 255
    then V4(a.bytes[12..]) else a
  }

  /** Exactly the mapped form is rewritten: ten zero bytes, two of 255, and then the IPv4 address. */
  lemma UnmapExactly(a: Addr, x: seq<byte>)
    requires |x| == 4
    ensures Unmap(V6([0, 0, 0, 0, 0, 0, 0, 0, 0, 0, 255, 255] + x)) == V4(x)
    ensures Unmap(a) == a || (Unmap(a).V4? && a == V6([0, 0, 0, 0, 0, 0, 0, 0, 0, 0, 255, 255] + Unmap(a).bytes))
  {
    var m := [0, 0, 0, 0, 0, 0, 0, 0, 0, 0, 255, 255];
    assert (m + x)[12..] == x;
    if Unmap(a) != a {
      assert a.bytes == m + a.bytes[12..];
    }
  }

  datatype Parsed = Parsed(version: nat, proto: byte, src: Addr, dst: Addr,
                           srcPort: uint16, dstPort: uint16, l4: nat, total: nat)

  datatype ParseResult = Bad | IsFragment | Ok(p: Parsed)

  predicate HasPorts(proto: byte, l4: nat, total: nat) {
    (proto == TCP || proto == UDP) && l4 + 4 <= total
  }

  function Finish(b: seq<byte>, version: nat, proto: byte, src: Addr, dst: Addr, l4: nat, total: nat): (r: ParseResult)
    requires total <= |b|
  {
    if HasPorts(proto, l4, total) then
      Ok(Parsed(version, proto, src, dst, Get16(b, l4), Get16(b, l4 + 2), l4, total))
    else Ok(Parsed(version, proto, src, dst, 0, 0, l4, total))
  }

  function Total4(b: seq<byte>, ihl: nat): (n: nat)
    requires |b| >= 20
    ensures n <= |b|
  {
    if Get16(b, 2) < ihl || Get16(b, 2) > |b| then |b| else Get16(b, 2)
  }

  function Parse4(b: seq<byte>): (r: ParseResult) {
    if |b| < 20 then Bad
    else
      var ihl := IPv4.HeaderLen(b);
      if ihl < 20 || |b| < ihl then Bad
      else if Get16(b, 6) % 0x4000 != 0 then IsFragment
      else Finish(b, 4, b[9], V4(b[12..16]), V4(b[16..20]), ihl, Total4(b, ihl))
  }

  function Total6(b: seq<byte>): (n: nat)
    requires |b| >= 40
    ensures n <= |b|
  {
    var plen := Get16(b, 4);
    if (plen == 0 && |b| > 40) || 40 + plen > |b| then |b| else 40 + plen
  }

  datatype Chain = Broken | Fragmented | Upper(proto: byte, l4: nat)

  /** The extension header chain down to the transport header. */
  function Walk(b: seq<byte>, total: nat, next: byte, off: nat): (c: Chain)
    requires total <= |b|
    ensures c.Upper? ==> off <= c.l4 && (off <= total ==> c.l4 <= total)
    decreases total - off
  {
    if IPv6.Options(next) || next == IPv6.AUTHENTICATION then
      if off + 2 > total then Broken
      else
        var n := IPv6.ExtLen(next, b[off + 1]);
        if off + n > total then Broken else Walk(b, total, b[off], off + n)
    else if next == IPv6.FRAGMENT then Fragmented
    else Upper(next, off)
  }

  function Parse6(b: seq<byte>): (r: ParseResult) {
    if |b| < 40 then Bad
    else
      match Walk(b, Total6(b), b[6], 40)
      case Broken => Bad
      case Fragmented => IsFragment
      case Upper(proto, l4) => Finish(b, 6, proto, V6(b[8..24]), V6(b[24..40]), l4, Total6(b))
  }

  function Parse(b: seq<byte>): (r: ParseResult) {
    if |b| < 1 then Bad
    else if b[0] / 16 == 4 then Parse4(b)
    else if b[0] / 16 == 6 then Parse6(b)
    else Bad
  }

  method WalkChain(b: seq<byte>, total: nat) returns (c: Chain)
    requires 40 <= total <= |b|
    ensures c == Walk(b, total, b[6], 40)
  {
    var next, off := b[6], 40;
    while true
      invariant 40 <= off <= total && Walk(b, total, next, off) == Walk(b, total, b[6], 40)
      decreases total - off
    {
      if next == 0 || next == 43 || next == 60 || next == 51 {
        if off + 2 > total {
          return Broken;
        }
        var n := if next == 51 then (b[off + 1] as int + 2) * 4 else (b[off + 1] as int + 1) * 8;
        if off + n > total {
          return Broken;
        }
        next, off := b[off], off + n;
      } else if next == 44 {
        return Fragmented;
      } else {
        return Upper(next, off);
      }
    }
  }

  // ---------- What the bytes say ----------

  /** Both ports, if the packet is TCP or UDP and long enough. */
  ghost function PortsAt(b: seq<byte>, proto: byte, l4: nat, total: nat): (p: (uint16, uint16))
    requires total <= |b|
  {
    if (proto == 6 || proto == 17) && l4 + 4 <= total
    then (b[l4] as int * 256 + b[l4 + 1] as int, b[l4 + 2] as int * 256 + b[l4 + 3] as int) else (0, 0)
  }

  /** An IPv4 packet, field by field. */
  lemma ParsesExactly4(b: seq<byte>)
    requires |b| >= 1 && b[0] / 16 == 4
    ensures Parse(b)
         == if |b| < 20 || b[0] % 16 < 5 || b[0] as int % 16 * 4 > |b| then Bad
            else if b[6] % 64 != 0 || b[7] != 0 then IsFragment
            else
              var n, ihl := b[2] as int * 256 + b[3] as int, b[0] as int % 16 * 4;
              var total := if n < ihl || n > |b| then |b| else n;
              var ports := PortsAt(b, b[9], ihl, total);
              Ok(Parsed(4, b[9], V4(b[12..16]), V4(b[16..20]), ports.0, ports.1, ihl, total))
  {
    if |b| >= 20 {
      LowBits(b[6], b[7]);
    }
  }

  lemma LowBits(hi: byte, lo: byte)
    ensures (hi as int * 256 + lo as int) % 0x4000 == 0 <==> hi % 64 == 0 && lo == 0
  {
  }

  /** The walk to the transport header follows the trace of the chain. */
  lemma {:induction false} WalkAlong(b: seq<byte>, total: nat, offs: seq<nat>, i: nat)
    requires Trace(b, total, offs) && i < |offs|
    ensures Walk(b, total, b[6], 40) == Walk(b, total, KindAt(b, offs, i), offs[i])
  {
    hide Walk, Goes;
    if i > 0 {
      WalkAlong(b, total, offs, i - 1);
      assert Goes(b, total, KindAt(b, offs, i - 1), offs[i - 1], offs[i - 1 + 1]);
      WalkOne(b, total, KindAt(b, offs, i - 1), offs[i - 1], offs[i]);
    }
  }

  lemma WalkOne(b: seq<byte>, total: nat, kind: byte, off: nat, next: nat)
    requires total <= |b| && Goes(b, total, kind, off, next)
    ensures off < |b| && Walk(b, total, kind, off) == Walk(b, total, b[off], next)
  {
  }

  /** The length of an IPv6 packet: what it says, or all there is when it says nothing or claims more. */
  ghost function Length6(b: seq<byte>): (n: nat)
    requires |b| >= 40
    ensures 40 <= n <= |b|
  {
    var n := b[4] as int * 256 + b[5] as int;
    if n == 0 || 40 + n > |b| then |b| else 40 + n
  }

  /** An IPv6 packet whose chain of headers is `offs`, field by field. */
  lemma ParsesExactly6(b: seq<byte>, offs: seq<nat>)
    requires |b| >= 40 && b[0] / 16 == 6 && Complete(b, Length6(b), offs)
    ensures Parse(b)
         == if BreaksOff(b, Length6(b), offs) then Bad
            else if EndKind(b, offs) == 44 then IsFragment
            else
              var ports := PortsAt(b, EndKind(b, offs), End(offs), Length6(b));
              Ok(Parsed(6, EndKind(b, offs), V6(b[8..24]), V6(b[24..40]), ports.0, ports.1, End(offs), Length6(b)))
  {
    WalkAlong(b, Length6(b), offs, |offs| - 1);
    assert Total6(b) == Length6(b);
  }

  /** Nothing else parses. */
  lemma NothingElseParses(b: seq<byte>)
    requires |b| < 1 || (b[0] / 16 != 4 && b[0] / 16 != 6) || (b[0] / 16 == 6 && |b| < 40)
    ensures Parse(b) == Bad
  {
  }

  // ---------- Rewriting ----------

  function Overwrite(b: seq<byte>, at: nat, v: seq<byte>): (r: seq<byte>)
    requires at + |v| <= |b|
    ensures |r| == |b|
  {
    b[..at] + v + b[at + |v|..]
  }

  /** An address as it stands in a packet of its own family. */
  predicate Fits(a: Addr, version: nat) {
    (version == 4 && a.V4? && |a.bytes| == 4) || (version == 6 && a.V6? && |a.bytes| == 16)
  }

  function SrcAt(version: nat): (n: nat) { if version == 4 then 12 else 8 }
  function DstAt(version: nat): (n: nat) { if version == 4 then 16 else 24 }

  function WithSrc(b: seq<byte>, p: Parsed, a: Addr): (r: seq<byte>)
    requires Parse(b) == Ok(p) && Fits(a, p.version)
    ensures |r| == |b|
  {
    Overwrite(b, SrcAt(p.version), a.bytes)
  }

  function WithDst(b: seq<byte>, p: Parsed, a: Addr): (r: seq<byte>)
    requires Parse(b) == Ok(p) && Fits(a, p.version)
    ensures |r| == |b|
  {
    Overwrite(b, DstAt(p.version), a.bytes)
  }

  method CopyInto(b: array<byte>, at: nat, v: seq<byte>)
    requires at + |v| <= b.Length
    modifies b
    ensures b[..] == Overwrite(old(b[..]), at, v)
  {
    for i := 0 to |v|
      invariant forall j | 0 <= j < b.Length :: b[j] == if at <= j < at + i then v[j - at] else old(b[j])
    {
      b[at + i] := v[i];
    }
    assert b[..] == Overwrite(old(b[..]), at, v);
  }

  /** The walk depends only on the bytes it passes, not on how much follows. */
  lemma {:induction false} WalkSame(b: seq<byte>, c: seq<byte>, total: nat, limit: nat, next: byte, off: nat)
    requires off <= total <= |b| && limit <= |c| && Walk(b, total, next, off).Upper?
    requires Walk(b, total, next, off).l4 <= limit
    requires forall j | off <= j < Walk(b, total, next, off).l4 :: c[j] == b[j]
    ensures Walk(c, limit, next, off) == Walk(b, total, next, off)
    decreases total - off
  {
    if (IPv6.Options(next) || next == IPv6.AUTHENTICATION) && off + 2 <= total {
      var n := IPv6.ExtLen(next, b[off + 1]);
      WalkSame(b, c, total, limit, b[off], off + n);
    }
  }

  /** Packets that agree outside addresses and transport parse alike there. */
  ghost predicate SameFrame(b: seq<byte>, c: seq<byte>, p: Parsed) {
    && |b| == |c| && p.l4 <= |b|
    && (forall j | 0 <= j < SrcAt(p.version) && j < |b| :: c[j] == b[j])
    && (forall j | DstAt(p.version) + (if p.version == 4 then 4 else 16) <= j < p.l4 :: c[j] == b[j])
  }

  lemma SameFrameParses(b: seq<byte>, c: seq<byte>, p: Parsed)
    requires Parse(b) == Ok(p) && SameFrame(b, c, p)
    ensures p.version == 4 ==> Parse(c) == Finish(c, 4, p.proto, V4(c[12..16]), V4(c[16..20]), p.l4, p.total)
    ensures p.version == 6 ==> Parse(c) == Finish(c, 6, p.proto, V6(c[8..24]), V6(c[24..40]), p.l4, p.total)
    ensures p.version == 4 || p.version == 6
  {
    hide Finish, Walk;
    assert p.version == 4 || p.version == 6 by { HeaderFacts(b, p); }
    HeaderFacts(b, p);
    if p.version == 6 {
      WalkSame(b, c, Total6(b), Total6(b), b[6], 40);
    }
  }

  lemma HeaderFacts(b: seq<byte>, p: Parsed)
    requires Parse(b) == Ok(p)
    ensures p.total <= |b| && p.l4 <= |b|
    ensures p.version == 4 ==>
      && |b| >= 20 && b[0] / 16 == 4 && 20 <= p.l4 == IPv4.HeaderLen(b) && p.total == Total4(b, p.l4)
      && p.proto == b[9] && p.src == V4(b[12..16]) && p.dst == V4(b[16..20])
    ensures p.version == 6 ==>
      && |b| >= 40 && b[0] / 16 == 6 && 40 <= p.l4 && p.total == Total6(b)
      && Walk(b, Total6(b), b[6], 40) == Upper(p.proto, p.l4)
      && p.src == V6(b[8..24]) && p.dst == V6(b[24..40])
    ensures p.version == 4 || p.version == 6
    ensures HasPorts(p.proto, p.l4, p.total) ==> p.srcPort == Get16(b, p.l4) && p.dstPort == Get16(b, p.l4 + 2)
    ensures !HasPorts(p.proto, p.l4, p.total) ==> p.srcPort == 0 && p.dstPort == 0
  {
    hide Walk;
  }

  lemma OverwriteReads(b: seq<byte>, at: nat, v: seq<byte>)
    requires at + |v| <= |b|
    ensures var c := Overwrite(b, at, v);
      && c[at..at + |v|] == v && forall j | 0 <= j < |b| && !(at <= j < at + |v|) :: c[j] == b[j]
  {
  }

  /** Changing nothing but bytes of the source address changes nothing but the parsed source. */
  lemma ParseWithSrc(b: seq<byte>, p: Parsed, a: Addr)
    requires Parse(b) == Ok(p) && Fits(a, p.version)
    ensures Parse(WithSrc(b, p, a)) == Ok(p.(src := a))
  {
    hide Parse, Overwrite;
    HeaderFacts(b, p);
    OverwriteReads(b, SrcAt(p.version), a.bytes);
    var c := WithSrc(b, p, a);
    SameFrameParses(b, c, p);
    if p.version == 4 {
      assert c[16..20] == b[16..20];
    } else {
      assert c[24..40] == b[24..40];
    }
  }

  lemma ParseWithDst(b: seq<byte>, p: Parsed, a: Addr)
    requires Parse(b) == Ok(p) && Fits(a, p.version)
    ensures Parse(WithDst(b, p, a)) == Ok(p.(dst := a))
  {
    hide Parse, Overwrite;
    HeaderFacts(b, p);
    OverwriteReads(b, DstAt(p.version), a.bytes);
    var c := WithDst(b, p, a);
    SameFrameParses(b, c, p);
    if p.version == 4 {
      assert c[12..16] == b[12..16];
    } else {
      assert c[8..24] == b[8..24];
    }
  }

  /** Changing a port of a packet that has both ports changes nothing but that parsed port. */
  lemma ParseWithPort(b: seq<byte>, p: Parsed, port: uint16, dst: bool)
    requires Parse(b) == Ok(p) && HasPorts(p.proto, p.l4, p.total) && p.total <= |b|
    ensures Parse(Put16(b, if dst then p.l4 + 2 else p.l4, port))
         == Ok(if dst then p.(dstPort := port) else p.(srcPort := port))
  {
    hide Parse;
    HeaderFacts(b, p);
    var at := if dst then p.l4 + 2 else p.l4;
    var c := Put16(b, at, port);
    assert forall j | 0 <= j < p.l4 :: c[j] == b[j];
    assert Get16(c, at) == port;
    assert if dst then Get16(c, p.l4) == Get16(b, p.l4) else Get16(c, p.l4 + 2) == Get16(b, p.l4 + 2);
    SameFrameParses(b, c, p);
    if p.version == 4 {
      assert c[12..16] == b[12..16] && c[16..20] == b[16..20];
    } else {
      assert c[8..24] == b[8..24] && c[24..40] == b[24..40];
    }
  }

  // ---------- In place ----------

  /** What rewriting an address does to the buffer; `None` when the packet does not parse or the
      address is of the other family. */
  function Readdressed(b: seq<byte>, a: Addr, dst: bool): (r: Option<seq<byte>>) {
    match Parse(b)
    case Ok(p) =>
      if !Fits(a, p.version) then None
      else Some(if dst then WithDst(b, p, a) else WithSrc(b, p, a))
    case _ => None
  }

  /** The same for a port of a TCP or UDP packet long enough to hold it. */
  function Reported(b: seq<byte>, port: uint16, dst: bool): (r: Option<seq<byte>>) {
    match Parse(b)
    case Ok(p) =>
      var at := if dst then p.l4 + 2 else p.l4;
      if (p.proto != TCP && p.proto != UDP) || at + 2 > |b| then None else Some(Put16(b, at, port))
    case _ => None
  }

  method RewriteAddr(b: array<byte>, a: Addr, dst: bool) returns (ok: bool)
    modifies b
    ensures ok == Readdressed(old(b[..]), a, dst).Some?
    ensures b[..] == if ok then Readdressed(old(b[..]), a, dst).value else old(b[..])
  {
    hide Parse, Overwrite;
    var r := Parse(b[..]);
    if !r.Ok? || !Fits(a, r.p.version) {
      return false;
    }
    HeaderFacts(b[..], r.p);
    CopyInto(b, if dst then DstAt(r.p.version) else SrcAt(r.p.version), a.bytes);
    ok := true;
  }

  method RewritePort(b: array<byte>, port: uint16, dst: bool) returns (ok: bool)
    modifies b
    ensures ok == Reported(old(b[..]), port, dst).Some?
    ensures b[..] == if ok then Reported(old(b[..]), port, dst).value else old(b[..])
  {
    hide Parse;
    var r := Parse(b[..]);
    if !r.Ok? || (r.p.proto != TCP && r.p.proto != UDP) {
      return false;
    }
    var at := if dst then r.p.l4 + 2 else r.p.l4;
    if at + 2 > b.Length {
      return false;
    }
    b[at] := port / 256;
    b[at + 1] := port % 256;
    assert b[..] == Put16(old(b[..]), at, port);
    ok := true;
  }

  /** Address first, then the port if it differs; a failure leaves what was done before it. */
  function Rewritten(b: seq<byte>, a: Addr, port: uint16, was: uint16, dst: bool): (r: (bool, seq<byte>)) {
    match Readdressed(b, a, dst)
    case None => (false, b)
    case Some(c) =>
      if port == was then (true, c)
      else match Reported(c, port, dst) case None => (false, c) case Some(d) => (true, d)
  }

  method RewriteBoth(b: array<byte>, a: Addr, port: uint16, was: uint16, dst: bool) returns (ok: bool)
    modifies b
    ensures (ok, b[..]) == Rewritten(old(b[..]), a, port, was, dst)
  {
    hide Readdressed, Reported;
    ok := RewriteAddr(b, a, dst);
    if ok && port != was {
      ok := RewritePort(b, port, dst);
    }
  }

  /** An IPv4 address of 4 bytes for version 4, an IPv6 address of 16 bytes for version 6. */
  ghost predicate WellFormed(a: Addr, version: nat) {
    if version == 4 then a.V4? && |a.bytes| == 4 else version == 6 && a.V6? && |a.bytes| == 16
  }

  /** Rewriting a packet that has both ports to an address of its family changes nothing but the parsed
      address and port on that side. */
  lemma RewrittenParses(b: seq<byte>, p: Parsed, a: Addr, port: uint16, dst: bool)
    requires Parse(b) == Ok(p) && WellFormed(a, p.version) && (p.proto == 6 || p.proto == 17) && p.l4 + 4 <= p.total
    ensures var r := Rewritten(b, a, port, if dst then p.dstPort else p.srcPort, dst);
      && r.0
      && Parse(r.1) == Ok(if dst then p.(dst := a, dstPort := port) else p.(src := a, srcPort := port))
  {
    hide Parse;
    HeaderFacts(b, p);
    if dst {
      ParseWithDst(b, p, a);
      ParseWithPort(WithDst(b, p, a), p.(dst := a), port, true);
    } else {
      ParseWithSrc(b, p, a);
      ParseWithPort(WithSrc(b, p, a), p.(src := a), port, false);
    }
  }

  /** And no other byte of the packet changes, whatever happens. */
  lemma RewrittenKeepsRest(b: seq<byte>, p: Parsed, a: Addr, port: uint16, was: uint16, dst: bool, j: nat)
    requires Parse(b) == Ok(p) && j < |b|
    requires var at := if dst then p.l4 + 2 else p.l4; j != at && j != at + 1
    requires if p.version == 4 then (if dst then !(16 <= j < 20) else !(12 <= j < 16))
             else if dst then !(24 <= j < 40) else !(8 <= j < 24)
    ensures |Rewritten(b, a, port, was, dst).1| == |b| && Rewritten(b, a, port, was, dst).1[j] == b[j]
  {
    hide Parse, Overwrite;
    HeaderFacts(b, p);
    if Fits(a, p.version) {
      OverwriteReads(b, if dst then DstAt(p.version) else SrcAt(p.version), a.bytes);
      if dst {
        ParseWithDst(b, p, a);
      } else {
        ParseWithSrc(b, p, a);
      }
    }
  }

  // ---------- TCP ----------

  datatype TcpInfo = TcpInfo(headerLen: nat, seqNo: uint32, ack: uint32, flags: byte, payload: seq<byte>)

  /** Header fields and payload of a complete TCP packet. */
  function ParseTcp(b: seq<byte>): (r: Option<TcpInfo>) {
    match Parse(b)
    case Ok(p) =>
      HeaderFacts(b, p);
      if p.proto != TCP || p.l4 + 20 > p.total then None
      else
        var hlen := b[p.l4 + 12] as int / 16 * 4;
        if hlen < 20 || p.l4 + hlen > p.total then None
        else
          Some(TcpInfo(hlen, Get32(b, p.l4 + 4), Get32(b, p.l4 + 8), b[p.l4 + 13], b[p.l4 + hlen..p.total]))
    case _ => None
  }
}
