/** IPv6 fragmentation and reassembly (section 4.5 of RFC 8200). */
module IPv6 {
  import opened Bytes
  import opened Pieces
  import opened Reassembly
  import opened ReassemblyTable
  import opened Chains

  const HOP_BY_HOP := 0
  const ROUTING := 43
  const FRAGMENT := 44
  const AUTHENTICATION := 51
  const DESTINATION := 60

  datatype Key = Key(src: seq<byte>, dst: seq<byte>, id: uint32, next: byte)

  /** The bytes before the Fragment header, where the Next Header byte that names it is, and the
      header it stands in front of. */
  datatype Head = Head(prefix: seq<byte>, prevNext: nat, next: byte)

  function TotalLen(b: seq<byte>): (n: nat)
    requires |b| >= 40
  {
    40 + Get16(b, 4) as int
  }

  // ---------- Header chains ----------

  /** Options headers: length in 8-byte units, not counting the first. */
  predicate Options(kind: byte) { kind == HOP_BY_HOP || kind == ROUTING || kind == DESTINATION }

  function ExtLen(kind: byte, len: byte): (n: nat)
    ensures n >= 8
  {
    if kind == AUTHENTICATION then (len as int + 2) * 4 else (len as int + 1) * 8
  }

  datatype Found = Broken | Absent | Present(off: nat, prevNext: nat)

  /** The receiver's walk: skips every extension header up to a Fragment header. */
  function Find(pkt: seq<byte>, total: nat, next: byte, prevNext: nat, off: nat): (r: Found)
    requires total <= |pkt|
    ensures r.Present? ==> off <= r.off
    decreases total - off
  {
    if Options(next) || next == AUTHENTICATION then
      if off + 2 > total then Broken
      else
        var n := ExtLen(next, pkt[off + 1]);
        if off + n > total then Broken else Find(pkt, total, pkt[off], off, off + n)
    else if next == FRAGMENT then Present(off, prevNext)
    else Absent
  }

  datatype Spot = NoSpot | Spot(insert: nat, prevNext: nat, next: byte)

  /** The sender's walk: stops in front of the fragmentable part, so before authentication and
      before destination options that do not lead to a routing header. */
  function InsertAt(b: seq<byte>, total: nat, next: byte, prevNext: nat, off: nat): (r: Spot)
    requires total <= |b|
    decreases total - off
  {
    if Options(next) then
      if off + 2 > total then NoSpot
      else
        var n := ExtLen(next, b[off + 1]);
        if off + n > total then NoSpot
        else if next == DESTINATION && b[off] != ROUTING then Spot(off, prevNext, next)
        else InsertAt(b, total, b[off], off, off + n)
    else if next == FRAGMENT then NoSpot
    else Spot(off, prevNext, next)
  }

  /** The receiver's walk follows the trace of the chain, */
  lemma {:induction false} FindAlong(b: seq<byte>, total: nat, offs: seq<nat>, i: nat)
    requires Trace(b, total, offs) && i < |offs|
    ensures Find(b, total, b[6], 6, 40) == Find(b, total, KindAt(b, offs, i), PrevAt(offs, i), offs[i])
  {
    hide Find, Goes;
    if i > 0 {
      FindAlong(b, total, offs, i - 1);
      assert Goes(b, total, KindAt(b, offs, i - 1), offs[i - 1], offs[i - 1 + 1]);
      FindOne(b, total, KindAt(b, offs, i - 1), PrevAt(offs, i - 1), offs[i - 1], offs[i]);
    }
  }

  lemma FindOne(b: seq<byte>, total: nat, kind: byte, prev: nat, off: nat, next: nat)
    requires total <= |b| && Goes(b, total, kind, off, next)
    ensures off < |b| && Find(b, total, kind, prev, off) == Find(b, total, b[off], off, next)
  {
  }

  /** and its answer is what stands at the end of it: a Fragment header, another header, or a break. */
  lemma FindExactly(b: seq<byte>, total: nat, offs: seq<nat>)
    requires Complete(b, total, offs)
    ensures Find(b, total, b[6], 6, 40)
         == if BreaksOff(b, total, offs) then Broken
            else if EndKind(b, offs) == 44 then Present(End(offs), PrevAt(offs, |offs| - 1))
            else Absent
  {
    FindAlong(b, total, offs, |offs| - 1);
  }

  /** What the unfragmentable part may hold before header `i`: hop-by-hop options, routing headers, and destination
      options in front of a routing header. */
  ghost predicate Unfragmentable(b: seq<byte>, offs: seq<nat>) {
    forall i: nat {:trigger KindAt(b, offs, i)} | i < |offs| - 1 ::
      KindAt(b, offs, i) != 51 && (KindAt(b, offs, i) == 60 ==> offs[i] < |b| && b[offs[i]] == 43)
  }

  /** Something at the end of the trace that belongs to the fragmentable part. */
  ghost predicate StartsFragmentable(b: seq<byte>, total: nat, offs: seq<nat>)
    requires Trace(b, total, offs)
  {
    var k := EndKind(b, offs);
    || k == 51 || (!Extension(k) && k != 44)
    || (k == 60 && Inside(b, total, k, End(offs)) && b[End(offs)] != 43)
  }

  lemma {:induction false} InsertAlong(b: seq<byte>, total: nat, offs: seq<nat>, i: nat)
    requires Trace(b, total, offs) && Unfragmentable(b, offs) && i < |offs|
    ensures InsertAt(b, total, b[6], 6, 40) == InsertAt(b, total, KindAt(b, offs, i), PrevAt(offs, i), offs[i])
  {
    hide InsertAt, Goes;
    if i > 0 {
      InsertAlong(b, total, offs, i - 1);
      assert Goes(b, total, KindAt(b, offs, i - 1), offs[i - 1], offs[i - 1 + 1]);
      InsertOne(b, total, KindAt(b, offs, i - 1), PrevAt(offs, i - 1), offs[i - 1], offs[i]);
    }
  }

  lemma InsertOne(b: seq<byte>, total: nat, kind: byte, prev: nat, off: nat, next: nat)
    requires total <= |b| && Goes(b, total, kind, off, next) && kind != 51 && (kind == 60 ==> b[off] == 43)
    ensures off < |b| && InsertAt(b, total, kind, prev, off) == InsertAt(b, total, b[off], off, next)
  {
  }

  /** The sender's walk stops exactly where the unfragmentable part ends: a Fragment header goes in at the first
      header that is neither hop-by-hop, nor routing, nor destination options for a routing header. */
  lemma SpotAt(b: seq<byte>, total: nat, offs: seq<nat>)
    requires Trace(b, total, offs) && Unfragmentable(b, offs) && StartsFragmentable(b, total, offs)
    ensures InsertAt(b, total, b[6], 6, 40) == Spot(End(offs), PrevAt(offs, |offs| - 1), EndKind(b, offs))
  {
    InsertAlong(b, total, offs, |offs| - 1);
  }

  lemma {:induction false} SpotComesFrom(b: seq<byte>, total: nat, offs: seq<nat>) returns (all: seq<nat>)
    requires Trace(b, total, offs) && Unfragmentable(b, offs) && InsertAt(b, total, b[6], 6, 40).Spot?
    ensures Trace(b, total, all) && Unfragmentable(b, all) && StartsFragmentable(b, total, all)
    decreases total - End(offs)
  {
    InsertAlong(b, total, offs, |offs| - 1);
    if StartsFragmentable(b, total, offs) {
      all := offs;
    } else {
      var next := End(offs) + LengthOf(b, EndKind(b, offs), End(offs));
      assert Goes(b, total, EndKind(b, offs), End(offs), next);
      assert EndKind(b, offs) != 51 && (EndKind(b, offs) == 60 ==> b[End(offs)] == 43);
      hide Goes, InsertAt, LengthOf, StartsFragmentable;
      Extended(b, total, offs, next);
      UnfragmentableGrows(b, offs, next);
      all := SpotComesFrom(b, total, offs + [next]);
    }
  }

  lemma UnfragmentableGrows(b: seq<byte>, offs: seq<nat>, next: nat)
    requires |offs| > 0 && Unfragmentable(b, offs) && End(offs) < |b|
    requires EndKind(b, offs) != 51 && (EndKind(b, offs) == 60 ==> b[End(offs)] == 43)
    ensures Unfragmentable(b, offs + [next])
  {
    hide KindAt;
    var more := offs + [next];
    forall i: nat | i < |more| - 1
      ensures KindAt(b, more, i) != 51 && (KindAt(b, more, i) == 60 ==> more[i] < |b| && b[more[i]] == 43)
    {
      KindStays(b, offs, next, i);
    }
  }

  /** Both directions: there is an insert point if and only if such a trace exists. */
  lemma SpotExactly(b: seq<byte>, total: nat)
    requires 40 <= total <= |b|
    ensures InsertAt(b, total, b[6], 6, 40).Spot?
       <==> exists offs :: Trace(b, total, offs) && Unfragmentable(b, offs) && StartsFragmentable(b, total, offs)
  {
    if InsertAt(b, total, b[6], 6, 40).Spot? {
      var all := SpotComesFrom(b, total, [40]);
    }
    if offs :| Trace(b, total, offs) && Unfragmentable(b, offs) && StartsFragmentable(b, total, offs) {
      SpotAt(b, total, offs);
    }
  }

  method FindFragment(pkt: seq<byte>, total: nat) returns (r: Found)
    requires 40 <= total <= |pkt|
    ensures r == Find(pkt, total, pkt[6], 6, 40)
  {
    var next, prevNext, off := pkt[6], 6, 40;
    while true
      invariant 40 <= off <= total
      invariant Find(pkt, total, next, prevNext, off) == Find(pkt, total, pkt[6], 6, 40)
      decreases total - off
    {
      if next == HOP_BY_HOP || next == ROUTING || next == DESTINATION || next == AUTHENTICATION {
        if off + 2 > total {
          return Broken;
        }
        var n := if next == AUTHENTICATION then (pkt[off + 1] as int + 2) * 4 else (pkt[off + 1] as int + 1) * 8;
        if off + n > total {
          return Broken;
        }
        next, prevNext, off := pkt[off], off, off + n;
      } else if next == FRAGMENT {
        return Present(off, prevNext);
      } else {
        return Absent;
      }
    }
  }

  method FindInsertPoint(b: seq<byte>, total: nat) returns (r: Spot)
    requires 40 <= total <= |b|
    ensures r == InsertAt(b, total, b[6], 6, 40)
  {
    var next, prevNext, off := b[6], 6, 40;
    while true
      invariant 40 <= off <= total
      invariant InsertAt(b, total, next, prevNext, off) == InsertAt(b, total, b[6], 6, 40)
      decreases total - off
    {
      if next == HOP_BY_HOP || next == ROUTING || next == DESTINATION {
        if off + 2 > total {
          return NoSpot;
        }
        var n := (b[off + 1] as int + 1) * 8;
        if off + n > total {
          return NoSpot;
        }
        if next == DESTINATION && b[off] != ROUTING {
          return Spot(off, prevNext, next);
        }
        next, prevNext, off := b[off], off, off + n;
      } else if next == FRAGMENT {
        return NoSpot;
      } else {
        return Spot(off, prevNext, next);
      }
    }
  }

  // ---------- Receiving ----------

  datatype Class = PassOn(packet: seq<byte>) | Bad | Piecewise(f: Fragment<Key, Head>)

  function Classify(pkt: seq<byte>): (c: Class) {
    if |pkt| < 1 || pkt[0] / 16 != 6 then PassOn(pkt)
    else if |pkt| < 40 || Get16(pkt, 4) == 0 || TotalLen(pkt) > |pkt| then Bad
    else
      match Find(pkt, TotalLen(pkt), pkt[6], 6, 40)
      case Broken => Bad
      case Absent => PassOn(pkt[..TotalLen(pkt)])
      case Present(at, prevNext) => ClassifyAt(pkt, at, prevNext)
  }

  /** Reads the Fragment header at `at`. */
  function ClassifyAt(pkt: seq<byte>, at: nat, prevNext: nat): (c: Class)
    requires 40 <= |pkt| && TotalLen(pkt) <= |pkt|
  {
    var total := TotalLen(pkt);
    if at + 8 > total then Bad
    else
      var fv := Get16(pkt, at + 2);
      var off, more, data := fv / 8 * 8, fv % 2 == 1, pkt[at + 8..total];
      if (|data| == 0 && more) || (more && |data| % 8 != 0) || off + |data| > 65535 then Bad
      else
        Piecewise(Fragment(Key(pkt[8..24], pkt[24..40], Get32(pkt, at + 4), pkt[at]),
                           Some(Head(pkt[..at], prevNext, pkt[at])),
                           Piece(off, data), more, total))
  }

  // What the bytes say, spelled out.

  ghost predicate IsV6(pkt: seq<byte>) { |pkt| >= 1 && pkt[0] / 16 == 6 }

  /** Too short, a jumbogram, or less than the length field says. */
  ghost predicate BadHeader(pkt: seq<byte>)
    requires IsV6(pkt)
  {
    || |pkt| < 40 || (pkt[4] == 0 && pkt[5] == 0)
    || 40 + pkt[4] as int * 256 + pkt[5] as int > |pkt|
  }

  ghost function Declared(pkt: seq<byte>): (n: nat)
    requires |pkt| >= 40
  {
    40 + pkt[4] as int * 256 + pkt[5] as int
  }

  /** The fragment that the Fragment header at `at` announces. */
  ghost function PieceIn(pkt: seq<byte>, at: nat, prevNext: nat): (f: Fragment<Key, Head>)
    requires 40 <= |pkt| && at + 8 <= Declared(pkt) <= |pkt|
  {
    var off := (pkt[at + 2] as int * 256 + pkt[at + 3] as int) / 8 * 8;
    Fragment(Key(pkt[8..24], pkt[24..40], Get32(pkt, at + 4), pkt[at]), Some(Head(pkt[..at], prevNext, pkt[at])),
             Piece(off, pkt[at + 8..Declared(pkt)]), pkt[at + 3] % 2 == 1, Declared(pkt))
  }

  /** Not a multiple of eight, or empty, although more follow; or past the largest payload. An empty last
      fragment is let through. */
  ghost predicate BadPiece(f: Fragment<Key, Head>) {
    (f.more && (|f.piece.data| == 0 || |f.piece.data| % 8 != 0)) || f.piece.off + |f.piece.data| > 65535
  }

  /** What becomes of a packet whose chain of headers is `offs`. */
  ghost function ClassBy(pkt: seq<byte>, offs: seq<nat>): (c: Class)
    requires IsV6(pkt) && !BadHeader(pkt) && Complete(pkt, Declared(pkt), offs)
  {
    if BreaksOff(pkt, Declared(pkt), offs) then Bad
    else if EndKind(pkt, offs) != 44 then PassOn(pkt[..Declared(pkt)])
    else if End(offs) + 8 > Declared(pkt) then Bad
    else
      var f := PieceIn(pkt, End(offs), PrevAt(offs, |offs| - 1));
      if BadPiece(f) then Bad else Piecewise(f)
  }

  lemma ClassifyExactly(pkt: seq<byte>)
    ensures !IsV6(pkt) ==> Classify(pkt) == PassOn(pkt)
    ensures IsV6(pkt) && BadHeader(pkt) ==> Classify(pkt) == Bad
  {
  }

  lemma ClassifyAlong(pkt: seq<byte>, offs: seq<nat>)
    requires IsV6(pkt) && !BadHeader(pkt) && Complete(pkt, Declared(pkt), offs)
    ensures Classify(pkt) == ClassBy(pkt, offs)
  {
    hide Find;
    FindExactly(pkt, Declared(pkt), offs);
    if !BreaksOff(pkt, Declared(pkt), offs) && EndKind(pkt, offs) == 44 && End(offs) + 8 <= Declared(pkt) {
      LastBit(pkt[End(offs) + 2], pkt[End(offs) + 3]);
    }
  }

  lemma LastBit(hi: byte, lo: byte)
    ensures (hi as int * 256 + lo as int) % 2 == lo as int % 2
  {
  }

  /** The prefix with its Next Header byte put back, the payload, and the length set. */
  function Build(h: Head, payload: seq<byte>): (out: Option<seq<byte>>)
    ensures out.Some? ==> |out.value| == |h.prefix| + |payload| <= 65575
  {
    if |h.prefix| < 40 || h.prevNext >= |h.prefix| || |h.prefix| + |payload| - 40 > 65535 then None
    else
      Some(Put16((h.prefix + payload)[h.prevNext := h.next], 4, |h.prefix| + |payload| - 40))
  }

  /** The rebuilt packet, byte by byte: the length counts what follows the fixed header, the byte that named the
      Fragment header names what it stood before, and all others are those of prefix and payload. */
  lemma RebuiltBytes(h: Head, payload: seq<byte>, j: nat)
    requires |h.prefix| >= 40 && h.prevNext < |h.prefix| && (h.prevNext == 6 || h.prevNext >= 40)
    ensures Build(h, payload).Some? <==> |h.prefix| + |payload| <= 65575
    ensures Build(h, payload).Some? && j < |h.prefix| + |payload| ==>
      var out := Build(h, payload).value;
      && |out| == |h.prefix| + |payload| && out[4] as int * 256 + out[5] as int == |out| - 40
      && out[h.prevNext] == h.next
      && (j != 4 && j != 5 && j != h.prevNext ==> out[j] == (h.prefix + payload)[j])
  {
  }

  predicate SameChain(a: Head, b: Head) {
    a.prevNext == b.prevNext && |a.prefix| == |b.prefix|
  }

  function RulesFor(l: Limits): (r: Rules<Head>) {
    Rules(l, SameChain, Build)
  }

  /** A fragment whose Fragment header sits elsewhere, or is named from elsewhere, than in the fragments held is
      refused, and they are dropped with it. */
  lemma OtherChainIsRefused(l: Limits, s: State<Key, Head>, f: Fragment<Key, Head>, now: int)
    requires f.key in s.m && s.m[f.key].head.Some? && f.head.Some?
    ensures var h, g := s.m[f.key].head.value, f.head.value; var o := Insert(RulesFor(l), s, f, now);
      && (o.1 == Refused(Inconsistent) <==> h.prevNext != g.prevNext || |h.prefix| != |g.prefix|)
      && (o.1 == Refused(Inconsistent) ==> f.key !in o.0.m)
  {
  }

  datatype Pushed = Passed(packet: seq<byte>) | Malformed | Tabled(o: Outcome)

  function EventOf(pkt: seq<byte>, now: int): (e: Event<Key, Head>) {
    match Classify(pkt) case Piecewise(f) => Arrive(f, now) case _ => Ignore
  }

  class Reassembler {
    const table: Table<Key, Head>

    constructor (l: Limits)
      ensures table.Valid() && fresh(table) && table.rules == RulesFor(l) && table.View() == Empty()
    {
      table := new Table(RulesFor(l));
    }

    method PushInfo(pkt: seq<byte>, now: int) returns (p: Pushed)
      requires table.Valid()
      modifies table
      ensures table.Valid()
      ensures table.View() == Step(table.rules, old(table.View()), EventOf(pkt, now)).0
      ensures match Classify(pkt)
        case PassOn(q) => p == Passed(q)
        case Bad => p == Malformed
        case Piecewise(f) => p == Tabled(Step(table.rules, old(table.View()), Arrive(f, now)).1)
      ensures !IsV6(pkt) ==> p == Passed(pkt) && table.View() == old(table.View())
      ensures IsV6(pkt) && BadHeader(pkt) ==> p == Malformed && table.View() == old(table.View())
      ensures IsV6(pkt) && !BadHeader(pkt) ==>
        forall offs | Complete(pkt, Declared(pkt), offs) ::
          match ClassBy(pkt, offs)
          case PassOn(q) => p == Passed(q) && table.View() == old(table.View())
          case Bad => p == Malformed && table.View() == old(table.View())
          case Piecewise(f) => p.Tabled? && (table.View(), p.o) == Step(table.rules, old(table.View()), Arrive(f, now))
    {
      hide Insert;
      ClassifyExactly(pkt);
      if IsV6(pkt) && !BadHeader(pkt) {
        forall offs | Complete(pkt, Declared(pkt), offs)
          ensures Classify(pkt) == ClassBy(pkt, offs)
        {
          ClassifyAlong(pkt, offs);
        }
      }
      if |pkt| < 1 || pkt[0] / 16 != 6 {
        return Passed(pkt);
      }
      if |pkt| < 40 || Get16(pkt, 4) == 0 || TotalLen(pkt) > |pkt| {
        return Malformed;
      }
      var total := TotalLen(pkt);
      var found := FindFragment(pkt, total);
      match found
      case Broken => p := Malformed;
      case Absent => p := Passed(pkt[..total]);
      case Present(at, prevNext) =>
        match ClassifyAt(pkt, at, prevNext)
        case PassOn(q) => p := Passed(q);
        case Bad => p := Malformed;
        case Piecewise(f) =>
          var o := table.Push(f, now);
          p := Tabled(o);
    }
  }

  // ---------- Sending ----------

  datatype CutResult = Fail | Whole(packet: seq<byte>) | Fragments(fs: seq<seq<byte>>)

  function Min(a: nat, b: nat): (m: nat) { if a < b then a else b }

  /** The unfragmentable part as it appears in a fragment of `len` bytes. */
  function Prefix(b: seq<byte>, s: Spot, len: nat): (p: seq<byte>)
    requires s.Spot? && 40 <= s.insert <= |b| && s.prevNext < s.insert
    ensures |p| == s.insert
  {
    Put16(b[..s.insert][s.prevNext := FRAGMENT], 4, (len - 40) % 0x1_0000)
  }

  function FragHeader(next: byte, off: nat, more: bool, id: uint32): (h: seq<byte>)
    ensures |h| == 8 && h[0] == next && h[1] == 0
  {
    Put32(Put16([next, 0, 0, 0, 0, 0, 0, 0], 2, (off / 8 * 8 + if more then 1 else 0) % 0x1_0000), 4, id)
  }

  function FragAt(b: seq<byte>, s: Spot, total: nat, id: uint32, max: nat, off: nat): (f: seq<byte>)
    requires s.Spot? && 40 <= s.insert <= total <= |b| && s.prevNext < s.insert && off < total - s.insert
  {
    var n := Min(total - s.insert - off, max);
    Prefix(b, s, s.insert + 8 + n) + FragHeader(s.next, off, total - s.insert - off > max, id)
      + b[s.insert + off..s.insert + off + n]
  }

  function FragsFrom(b: seq<byte>, s: Spot, total: nat, id: uint32, max: nat, off: nat): (fs: seq<seq<byte>>)
    requires s.Spot? && 40 <= s.insert <= total <= |b| && s.prevNext < s.insert && max > 0
    decreases total - s.insert - off
  {
    if off >= total - s.insert then []
    else [FragAt(b, s, total, id, max, off)]
         + FragsFrom(b, s, total, id, max, off + Min(total - s.insert - off, max))
  }

  function NextId(counter: uint32): (id: uint32)
    ensures id != 0 && id == if counter == 0xffff_ffff then 1 else counter + 1
  {
    var c := (counter + 1) % 0x1_0000_0000;
    if c == 0 then 1 else c
  }

  function SpotOf(b: seq<byte>): (s: Spot)
    requires |b| >= 40 && TotalLen(b) <= |b|
  {
    InsertAt(b, TotalLen(b), b[6], 6, 40)
  }

  function MaxPayload(s: Spot, mtu: int): (n: int)
    requires s.Spot?
  {
    (mtu - s.insert - 8) / 8 * 8
  }

  predicate Fragmentable(b: seq<byte>, mtu: int) {
    && |b| >= 40 && Get16(b, 4) != 0 && mtu < TotalLen(b) <= |b|
    && Find(b, TotalLen(b), b[6], 6, 40) == Absent
    && SpotOf(b).Spot? && MaxPayload(SpotOf(b), mtu) >= 8
  }

  /** Which packets are cut, said of the bytes: longer than the MTU and truthful about it, a whole chain without a
      Fragment header, and room for eight bytes after the unfragmentable part and the Fragment header. */
  lemma FragmentableExactly(b: seq<byte>, mtu: int, offs: seq<nat>)
    requires |b| >= 40 && (Declared(b) <= |b| ==> Complete(b, Declared(b), offs))
    ensures Fragmentable(b, mtu) <==>
      && (b[4] != 0 || b[5] != 0) && mtu < Declared(b) <= |b|
      && !BreaksOff(b, Declared(b), offs) && EndKind(b, offs) != 44
      && exists pre :: Trace(b, Declared(b), pre) && Unfragmentable(b, pre)
                       && StartsFragmentable(b, Declared(b), pre) && End(pre) + 16 <= mtu
  {
    hide Find, InsertAt, Unfragmentable, StartsFragmentable, BreaksOff;
    if Declared(b) <= |b| {
      FindExactly(b, Declared(b), offs);
      SpotExactly(b, Declared(b));
      forall pre | Trace(b, Declared(b), pre) && Unfragmentable(b, pre) && StartsFragmentable(b, Declared(b), pre)
        ensures SpotOf(b).Spot? && SpotOf(b).insert == End(pre)
      {
        SpotAt(b, Declared(b), pre);
      }
    }
  }

  /** Where the sender's walk can end. */
  lemma {:induction false} SpotBounds(b: seq<byte>, total: nat, next: byte, prevNext: nat, off: nat)
    requires total <= |b| && prevNext < off <= total && next == b[prevNext]
    ensures var r := InsertAt(b, total, next, prevNext, off);
      r.Spot? ==>
        && off <= r.insert <= total && r.prevNext < r.insert
        && (r.prevNext == prevNext || off <= r.prevNext) && r.next == b[r.prevNext]
    decreases total - off
  {
    if Options(next) && off + 2 <= total {
      var n := ExtLen(next, b[off + 1]);
      if off + n <= total {
        SpotBounds(b, total, b[off], off, off + n);
      }
    }
  }

  lemma SpotOfBounds(b: seq<byte>)
    requires |b| >= 40 && TotalLen(b) <= |b|
    ensures var s := SpotOf(b);
      s.Spot? ==>
        && 40 <= s.insert <= TotalLen(b) && s.prevNext < s.insert
        && (s.prevNext == 6 || 40 <= s.prevNext) && s.next == b[s.prevNext]
  {
    SpotBounds(b, TotalLen(b), b[6], 6, 40);
  }

  lemma HeaderInPlace(p: seq<byte>, h: seq<byte>, v: uint16, id: uint32)
    requires |h| == 8
    ensures Put32(Put16(p + h, |p| + 2, v), |p| + 4, id) == p + Put32(Put16(h, 2, v), 4, id)
  {
    hide Put16;
    PutBack(p, h, 2, v);
    PutBack(p, Put16(h, 2, v), 4, id / 0x1_0000);
    PutBack(p, Put16(Put16(h, 2, v), 4, id / 0x1_0000), 6, id % 0x1_0000);
  }

  /** Builds one fragment: prefix, Fragment header field by field, payload, and the length last. */
  method BuildFragment(b: seq<byte>, s: Spot, off: nat, more: bool, id: uint32, data: seq<byte>)
    returns (frag: seq<byte>)
    requires s.Spot? && 40 <= s.insert <= |b| && s.prevNext < s.insert
    requires s.prevNext == 6 || 40 <= s.prevNext
    ensures frag == Prefix(b, s, s.insert + 8 + |data|) + FragHeader(s.next, off, more, id) + data
  {
    var at := s.insert;
    var p := b[..at][s.prevNext := FRAGMENT];
    var h: seq<byte> := [s.next, 0, 0, 0, 0, 0, 0, 0];
    var v := (off / 8 * 8 + if more then 1 else 0) % 0x1_0000;
    frag := p + h;
    HeaderInPlace(p, h, v, id);
    frag := Put16(frag, at + 2, v);
    frag := Put32(frag, at + 4, id);
    ghost var header := FragHeader(s.next, off, more, id);
    assert frag == p + header;
    hide FragHeader, Put16;
    frag := frag + data;
    assert frag == p + (header + data);
    var len := (|frag| - 40) % 0x1_0000;
    PutFront(p, header + data, 4, len);
    frag := Put16(frag, 4, len);
    assert frag == Put16(p, 4, len) + header + data;
  }


  method CutOne(b: seq<byte>, s: Spot, total: nat, id: uint32, max: nat, off: nat) returns (frag: seq<byte>, n: nat)
    requires s.Spot? && 40 <= s.insert <= total <= |b| && s.prevNext < s.insert && off < total - s.insert
    requires s.prevNext == 6 || 40 <= s.prevNext
    ensures n == Min(total - s.insert - off, max) && frag == FragAt(b, s, total, id, max, off)
  {
    hide Prefix, FragHeader;
    n := total - s.insert - off;
    var more := n > max;
    if more {
      n := max;
    }
    frag := BuildFragment(b, s, off, more, id, b[s.insert + off..s.insert + off + n]);
  }

  lemma FragsStep(b: seq<byte>, s: Spot, total: nat, id: uint32, max: nat, off: nat, out: seq<seq<byte>>)
    requires s.Spot? && 40 <= s.insert <= total <= |b| && s.prevNext < s.insert && max > 0
    requires off < total - s.insert
    ensures out + FragsFrom(b, s, total, id, max, off)
         == (out + [FragAt(b, s, total, id, max, off)])
            + FragsFrom(b, s, total, id, max, off + Min(total - s.insert - off, max))
  {
    hide FragAt;
  }

  method CutAll(b: seq<byte>, s: Spot, total: nat, id: uint32, max: nat) returns (out: seq<seq<byte>>)
    requires s.Spot? && 40 <= s.insert <= total <= |b| && s.prevNext < s.insert && max > 0
    requires s.prevNext == 6 || 40 <= s.prevNext
    ensures out == FragsFrom(b, s, total, id, max, 0)
  {
    hide FragAt;
    out := [];
    var off := 0;
    while off < total - s.insert
      invariant 0 <= off
      invariant out + FragsFrom(b, s, total, id, max, off) == FragsFrom(b, s, total, id, max, 0)
    {
      var frag, n := CutOne(b, s, total, id, max, off);
      FragsStep(b, s, total, id, max, off, out);
      out := out + [frag];
      off := off + n;
    }
  }

  method PickId(counter: uint32) returns (next: uint32)
    ensures next == NextId(counter)
  {
    next := (counter + 1) % 0x1_0000_0000;
    if next == 0 {
      next := (next + 1) % 0x1_0000_0000;
    }
  }

  method Fragment6(b: seq<byte>, mtu: int, counter: uint32) returns (r: CutResult, next: uint32)
    requires mtu >= 576
    ensures r.Fragments? <==> Fragmentable(b, mtu)
    ensures r.Fragments? ==>
      && next == NextId(counter) && 40 <= SpotOf(b).insert <= TotalLen(b) && SpotOf(b).prevNext < SpotOf(b).insert
      && r.fs == FragsFrom(b, SpotOf(b), TotalLen(b), NextId(counter), MaxPayload(SpotOf(b), mtu), 0)
    ensures r.Whole? ==> |b| >= 40 && TotalLen(b) <= |b| && TotalLen(b) <= mtu && r.packet == b[..TotalLen(b)]
    ensures !r.Fragments? ==> next == counter
    ensures r.Whole? <==> |b| >= 40 && (b[4] != 0 || b[5] != 0) && Declared(b) <= |b| && Declared(b) <= mtu
  {
    hide Find, InsertAt, FragsFrom, NextId;
    if |b| < 40 || Get16(b, 4) == 0 || TotalLen(b) > |b| {
      return Fail, counter;
    }
    var total := TotalLen(b);
    if total <= mtu {
      return Whole(b[..total]), counter;
    }
    var found := FindFragment(b, total);
    var s := FindInsertPoint(b, total);
    SpotOfBounds(b);
    if found != Absent || s.NoSpot? {
      return Fail, counter;
    }
    var max := (mtu - s.insert - 8) / 8 * 8;
    if max < 8 {
      return Fail, counter;
    }
    next := PickId(counter);
    var out := CutAll(b, s, total, next, max);
    r := Fragments(out);
  }
}
