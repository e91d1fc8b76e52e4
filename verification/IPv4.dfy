/** IPv4 fragmentation and reassembly (section 3.2 of RFC 791). */
module IPv4 {
  import opened Bytes
  import opened Pieces
  import opened Reassembly
  import opened ReassemblyTable
  import opened Checksum

  const MORE := 0x2000
  const DONT := 0x4000
  const RESERVED := 0x8000

  datatype Key = Key(src: seq<byte>, dst: seq<byte>, proto: byte, id: uint16)

  type Header = seq<byte>

  function HeaderLen(b: seq<byte>): (n: nat)
    requires |b| > 0
  {
    b[0] as int % 16 * 4
  }

  /** The Total Length field, or the buffer length when the field is zero or too large. */
  function TotalLen(b: seq<byte>): (n: nat)
    requires |b| >= 20
    ensures n <= |b|
  {
    var t := Get16(b, 2);
    if t == 0 || t > |b| then |b| else t
  }

  // ---------- Receiving ----------

  datatype Class = PassOn(packet: seq<byte>) | Bad | Piecewise(f: Fragment<Key, Header>)

  /** What PushInfo makes of a packet before it takes the lock. */
  function Classify(pkt: seq<byte>): (c: Class) {
    if |pkt| < 1 || pkt[0] / 16 != 4 then PassOn(pkt)
    else if |pkt| < 20 then Bad
    else
      var ihl, total := HeaderLen(pkt), TotalLen(pkt);
      if ihl < 20 || ihl > |pkt| || total < ihl then Bad
      else
        var fv := Get16(pkt, 6);
        var off, more := fv % MORE * 8, fv / MORE % 2 == 1;
        if off == 0 && !more then PassOn(pkt[..total])
        else
          var data := pkt[ihl..total];
          if |data| == 0 || (more && |data| % 8 != 0) || off + |data| > 65535 - ihl then Bad
          else
            Piecewise(Fragment(Key(pkt[12..16], pkt[16..20], pkt[9], Get16(pkt, 4)),
                               if off == 0 then Some(pkt[..ihl]) else None,
                               Piece(off, data), more, total))
  }

  // What the bytes say, spelled out.

  ghost predicate IsV4(pkt: seq<byte>) { |pkt| >= 1 && pkt[0] / 16 == 4 }

  /** The Total Length field, or all there is when it is 0 or claims more. */
  ghost function Declared(pkt: seq<byte>): (n: nat)
    requires |pkt| >= 20
  {
    var n := pkt[2] as int * 256 + pkt[3] as int;
    if n == 0 || n > |pkt| then |pkt| else n
  }

  ghost predicate BadHeader(pkt: seq<byte>)
    requires IsV4(pkt)
  {
    || |pkt| < 20 || pkt[0] % 16 < 5 || pkt[0] as int % 16 * 4 > |pkt|
    || Declared(pkt) < pkt[0] as int % 16 * 4
  }

  /** More fragments to come, or a fragment offset. */
  ghost predicate IsPiece(pkt: seq<byte>)
    requires |pkt| >= 20
  {
    pkt[6] % 64 != 0 || pkt[7] != 0
  }

  /** The fragment a packet carries: offset in units of eight bytes, and the header only at offset 0. */
  ghost function PieceIn(pkt: seq<byte>): (f: Fragment<Key, Header>)
    requires IsV4(pkt) && !BadHeader(pkt)
  {
    var ihl, total := pkt[0] as int % 16 * 4, Declared(pkt);
    var off := (pkt[6] as int % 32 * 256 + pkt[7] as int) * 8;
    Fragment(Key(pkt[12..16], pkt[16..20], pkt[9], pkt[4] as int * 256 + pkt[5] as int),
             if off == 0 then Some(pkt[..ihl]) else None,
             Piece(off, pkt[ihl..total]), pkt[6] / 32 % 2 == 1, total)
  }

  /** Empty, not a multiple of eight although more follow, or past the largest datagram. */
  ghost predicate BadPiece(pkt: seq<byte>)
    requires IsV4(pkt) && !BadHeader(pkt)
  {
    var f := PieceIn(pkt);
    || |f.piece.data| == 0 || (f.more && |f.piece.data| % 8 != 0)
    || f.piece.off + |f.piece.data| + pkt[0] as int % 16 * 4 > 65535
  }

  lemma ClassifyExactly(pkt: seq<byte>)
    ensures Classify(pkt)
         == if !IsV4(pkt) then PassOn(pkt)
            else if BadHeader(pkt) then Bad
            else if !IsPiece(pkt) then PassOn(pkt[..Declared(pkt)])
            else if BadPiece(pkt) then Bad
            else Piecewise(PieceIn(pkt))
  {
    if IsV4(pkt) && !BadHeader(pkt) {
      FragmentField(pkt[6], pkt[7]);
    }
  }

  lemma FragmentField(hi: byte, lo: byte)
    ensures var fv := hi as int * 256 + lo as int;
      && fv % 0x2000 == hi as int % 32 * 256 + lo as int && (fv / 0x2000 % 2 == 1 <==> hi / 32 % 2 == 1)
      && ((fv % 0x2000 == 0 && fv / 0x2000 % 2 != 1) <==> (hi % 64 == 0 && lo == 0))
  {
    var fv := hi as int * 256 + lo as int;
    assert fv == (hi as int / 32) * 0x2000 + (hi as int % 32 * 256 + lo as int);
    assert fv / 0x2000 == hi as int / 32;
  }

  /** Header and payload joined: MF and offset cleared, length set, checksum zeroed. */
  function Build(h: Header, payload: seq<byte>): (out: Option<seq<byte>>)
    ensures out.Some? ==> |out.value| == |h| + |payload| <= 65535
  {
    if |h| < 20 || |h| + |payload| > 65535 then None
    else
      var out := h + payload;
      var fv := Get16(out, 6);
      Some(Put16(Put16(out, 6, fv / DONT * DONT), 2, |out|)[10 := 0][11 := 0])
  }

  /** The rebuilt packet, byte by byte: its length, only the reserved and DF bits of the fragment field, a zero
      checksum, and all other bytes as in header and payload. */
  lemma RebuiltBytes(h: Header, payload: seq<byte>, j: nat)
    requires |h| >= 20
    ensures Build(h, payload).Some? <==> |h| + |payload| <= 65535
    ensures Build(h, payload).Some? && j < |h| + |payload| ==>
      var out := Build(h, payload).value;
      && |out| == |h| + |payload| && out[2] as int * 256 + out[3] as int == |out|
      && out[6] == h[6] / 64 * 64 && out[7] == 0 && out[10] == 0 && out[11] == 0
      && (!(2 <= j <= 3) && !(6 <= j <= 7) && !(10 <= j <= 11) ==> out[j] == (h + payload)[j])
  {
    TopBits(h[6], h[7]);
  }

  lemma TopBits(hi: byte, lo: byte)
    ensures var v := (hi as int * 256 + lo as int) / 0x4000 * 0x4000; v / 256 == hi / 64 * 64 && v % 256 == 0
  {
    assert (hi as int * 256 + lo as int) / 0x4000 == hi / 64;
  }

  function RulesFor(l: Limits): (r: Rules<Header>) {
    Rules(l, (a, b) => true, Build)
  }

  datatype Pushed = Passed(packet: seq<byte>) | Malformed | Tabled(o: Outcome)

  function EventOf(pkt: seq<byte>, now: int): (e: Event<Key, Header>) {
    match Classify(pkt) case Piecewise(f) => Arrive(f, now) case _ => Ignore
  }

  class Reassembler {
    const table: Table<Key, Header>

    constructor (l: Limits)
      ensures table.Valid() && fresh(table) && table.rules == RulesFor(l) && table.View() == Empty()
    {
      table := new Table(RulesFor(l));
    }

    method PushInfo(pkt: seq<byte>, now: int) returns (p: Pushed)
      requires table.Valid()
      modifies table
      ensures table.Valid()
      ensures table.View() == Step(table.rules, old(table.View()), EventOf(pkt, now)).0
      ensures match Classify(pkt)
        case PassOn(q) => p == Passed(q)
        case Bad => p == Malformed
        case Piecewise(f) => p == Tabled(Step(table.rules, old(table.View()), Arrive(f, now)).1)
      ensures if !IsV4(pkt) then p == Passed(pkt) && table.View() == old(table.View())
              else if BadHeader(pkt) then p == Malformed && table.View() == old(table.View())
              else if !IsPiece(pkt) then p == Passed(pkt[..Declared(pkt)]) && table.View() == old(table.View())
              else if BadPiece(pkt) then p == Malformed && table.View() == old(table.View())
              else
                var o := Step(table.rules, old(table.View()), Arrive(PieceIn(pkt), now));
                table.View() == o.0 && p == Tabled(o.1)
    {
      hide Insert;
      ClassifyExactly(pkt);
      match Classify(pkt)
      case PassOn(q) => p := Passed(q);
      case Bad => p := Malformed;
      case Piecewise(f) =>
        var o := table.Push(f, now);
        p := Tabled(o);
    }
  }

  // ---------- One header per datagram ----------

  /** A fragment carries a header exactly when it starts the payload, and it is never empty. */
  ghost predicate Front(f: Fragment<Key, Header>) {
    |f.piece.data| > 0 && (f.head.Some? <==> f.piece.off == 0)
  }

  lemma ReceivedIsFront(pkt: seq<byte>)
    ensures Classify(pkt).Piecewise? ==> Front(Classify(pkt).f)
  {
  }

  lemma FrontStays(d: Datagram<Header>, f: Fragment<Key, Header>, now: int)
    requires Front(f) && (d.head.Some? ==> Covered(d.pieces, 0))
    ensures Extend(d, f, now).head.Some? ==> Covered(Extend(d, f, now).pieces, 0)
  {
    var ps := d.pieces + [f.piece];
    if d.head.Some? {
      var i :| 0 <= i < |d.pieces| && d.pieces[i].Covers(0);
      assert ps[i].Covers(0);
    } else if f.head.Some? {
      assert ps[|d.pieces|].Covers(0);
    }
  }

  lemma {:induction false} HeaderMeansFront(l: Limits, es: seq<Event<Key, Header>>, k: Key)
    requires forall i | 0 <= i < |es| && es[i].Arrive? :: Front(es[i].f)
    ensures var s := Run(RulesFor(l), Empty(), es); k in s.m && s.m[k].head.Some? ==> Covered(s.m[k].pieces, 0)
  {
    hide Step, Swept;
    if es != [] {
      var n, r := |es| - 1, RulesFor(l);
      var s := Run(r, Empty(), es[..n]);
      HeaderMeansFront(l, es[..n], k);
      if k in Run(r, Empty(), es).m {
        if es[n].Arrive? && es[n].f.key == k {
          FrontStep(r, s, es[n].f, es[n].now);
        } else {
          OthersStay(r, s, es[n], k);
        }
      }
    }
  }

  lemma FrontStep(r: Rules<Header>, s: State<Key, Header>, f: Fragment<Key, Header>, now: int)
    requires Front(f) && (f.key in s.m && s.m[f.key].head.Some? ==> Covered(s.m[f.key].pieces, 0))
    ensures var t := Step(r, s, Arrive(f, now)).0;
      f.key in t.m && t.m[f.key].head.Some? ==> Covered(t.m[f.key].pieces, 0)
  {
    hide Insert, Covered;
    var t := Swept(s, r.limits.ttl, now);
    if f.key in Insert(r, t, f, now).0.m {
      FrontStays(Found(t, f.key, now), f, now);
      StillHere(r, t, f, now);
    }
  }

  /** What reaches the reassembler: any packet at any time, or a sweep. */
  datatype Input = Received(pkt: seq<byte>, now: int) | Tick(now: int)

  function EventFor(x: Input): (e: Event<Key, Header>) {
    match x case Received(pkt, now) => EventOf(pkt, now) case Tick(now) => Event.Sweep(now)
  }

  function Events(xs: seq<Input>): (es: seq<Event<Key, Header>>) {
    seq(|xs|, i requires 0 <= i < |xs| => EventFor(xs[i]))
  }

  /** Whatever packets came before, a second header never gets in: its fragment overlaps the first one. So a
      table that keeps the first header and one that stores the latest cannot be told apart. */
  lemma SecondHeaderOverlaps(l: Limits, xs: seq<Input>, pkt: seq<byte>, now: int)
    requires Classify(pkt).Piecewise? && Classify(pkt).f.head.Some?
    ensures var f := Classify(pkt).f; var s := Swept(Run(RulesFor(l), Empty(), Events(xs)), l.ttl, now);
      f.key in s.m && s.m[f.key].head.Some? ==> Refusal(RulesFor(l), s.bytes, s.m[f.key], f) == Some(Overlapping)
  {
    hide Classify, Run;
    var f, es := Classify(pkt).f, Events(xs);
    var s := Swept(Run(RulesFor(l), Empty(), es), l.ttl, now);
    ReceivedIsFront(pkt);
    forall i | 0 <= i < |es| && es[i].Arrive?
      ensures Front(es[i].f)
    {
      ReceivedIsFront(xs[i].pkt);
    }
    HeaderMeansFront(l, es, f.key);
    if f.key in s.m && s.m[f.key].head.Some? {
      FrontOverlaps(s.m[f.key].pieces, f.piece);
    }
  }

  lemma FrontOverlaps(ps: seq<Piece>, p: Piece)
    requires Covered(ps, 0) && p.off == 0 && |p.data| > 0
    ensures OverlapsAny(ps, p)
  {
    var i :| 0 <= i < |ps| && ps[i].Covers(0);
    assert ps[i].Overlaps(p);
  }

  // ---------- Sending ----------

  datatype CutResult = Fail | Whole(packet: seq<byte>) | Fragments(fs: seq<seq<byte>>)

  /** Bit-or of one flag into a 16-bit field. */
  function WithFlag(v: uint16, flag: uint16, on: bool): (r: uint16)
    requires flag == MORE || flag == RESERVED
  {
    if on && v / flag % 2 == 0 then (v + flag) % 0x1_0000 else v
  }

  function FlagsAndOffset(b: seq<byte>, off: nat, more: bool): (v: uint16)
    requires |b| >= 20
  {
    WithFlag(WithFlag(off / 8 % 0x1_0000, RESERVED, Get16(b, 6) / RESERVED == 1), MORE, more)
  }

  /** The header of a fragment with its checksum field still zero. */
  function Unsummed(h: Header, len: nat, id: uint16, flags: uint16): (r: Header)
    requires |h| >= 20
    ensures |r| == |h| && Get16(r, 10) == 0
  {
    Put16(Put16(Put16(h, 2, len % 0x1_0000), 4, id), 6, flags)[10 := 0][11 := 0]
  }

  function FragHeader(h: Header, len: nat, id: uint16, flags: uint16): (r: Header)
    requires |h| >= 20
    ensures |r| == |h|
  {
    var u := Unsummed(h, len, id, flags);
    Put16(u, 10, HeaderChecksum(u))
  }

  function Min(a: nat, b: nat): (m: nat) { if a < b then a else b }

  /** The fragment that starts at payload offset `off`. */
  function FragAt(b: seq<byte>, ihl: nat, total: nat, id: uint16, max: nat, off: nat): (f: seq<byte>)
    requires 20 <= ihl <= total <= |b| && off < total - ihl
  {
    var n := Min(total - ihl - off, max);
    FragHeader(b[..ihl], ihl + n, id, FlagsAndOffset(b, off, total - ihl - off > max))
      + b[ihl + off..ihl + off + n]
  }

  /** All fragments from offset `off` on. */
  function FragsFrom(b: seq<byte>, ihl: nat, total: nat, id: uint16, max: nat, off: nat): (fs: seq<seq<byte>>)
    requires 20 <= ihl <= total <= |b| && max > 0
    decreases total - ihl - off
  {
    if off >= total - ihl then []
    else [FragAt(b, ihl, total, id, max, off)]
         + FragsFrom(b, ihl, total, id, max, off + Min(total - ihl - off, max))
  }

  /** The identification to use: the packet's own, or the next non-zero value of the counter. */
  function NextId(b: seq<byte>, counter: uint32): (r: (uint16, uint32))
    requires |b| >= 20
    ensures Get16(b, 4) != 0 ==> r == (Get16(b, 4), counter)
    ensures r.0 != 0
    ensures Get16(b, 4) == 0 ==>
      r.0 == r.1 % 0x1_0000 && r.1 == (counter + if counter % 0x1_0000 == 0xffff then 2 else 1) % 0x1_0000_0000
  {
    var c1 := (counter + 1) % 0x1_0000_0000;
    var c2 := (counter + 2) % 0x1_0000_0000;
    if Get16(b, 4) != 0 then (Get16(b, 4), counter)
    else if c1 % 0x1_0000 != 0 then (c1 % 0x1_0000, c1)
    else (c2 % 0x1_0000, c2)
  }

  predicate Fragmentable(b: seq<byte>, mtu: int) {
    && |b| >= 20 && 20 <= HeaderLen(b) <= |b|
    && TotalLen(b) > mtu
    && Get16(b, 6) % RESERVED == 0
    && MaxPayload(b, mtu) >= 8
  }

  function MaxPayload(b: seq<byte>, mtu: int): (n: int)
    requires |b| > 0
  {
    (mtu - HeaderLen(b)) / 8 * 8
  }

  /** Patching the fields in the whole buffer patches the header alone. */
  lemma UnsummedInPlace(h: Header, d: seq<byte>, len: nat, id: uint16, flags: uint16)
    requires |h| >= 20
    ensures Put16(Put16(Put16(h + d, 2, len % 0x1_0000), 4, id), 6, flags)[10 := 0][11 := 0]
         == Unsummed(h, len, id, flags) + d
  {
    var h1 := Put16(h, 2, len % 0x1_0000);
    var h2 := Put16(h1, 4, id);
    PutFront(h, d, 2, len % 0x1_0000);
    PutFront(h1, d, 4, id);
    PutFront(h2, d, 6, flags);
    var h3 := Put16(h2, 6, flags);
    assert (h3 + d)[10 := 0][11 := 0] == h3[10 := 0][11 := 0] + d;
  }

  /** Builds one fragment in a buffer, header fields last. */
  method BuildFragment(h: Header, d: seq<byte>, id: uint16, flags: uint16) returns (frag: seq<byte>)
    requires 20 <= |h| <= 60
    ensures frag == FragHeader(h, |h| + |d|, id, flags) + d
  {
    frag := h + d;
    var len := |frag| % 0x1_0000;
    UnsummedInPlace(h, d, |frag|, id, flags);
    frag := Put16(Put16(Put16(frag, 2, len), 4, id), 6, flags)[10 := 0][11 := 0];
    ghost var u := Unsummed(h, |h| + |d|, id, flags);
    var sum := Compute(frag[..|h|]);
    assert frag[..|h|] == u;
    PutFront(u, d, 10, sum);
    frag := Put16(frag, 10, sum);
  }

  lemma FragsStep(b: seq<byte>, ihl: nat, total: nat, id: uint16, max: nat, off: nat, out: seq<seq<byte>>)
    requires 20 <= ihl <= total <= |b| && max > 0 && off < total - ihl
    ensures out + FragsFrom(b, ihl, total, id, max, off)
         == (out + [FragAt(b, ihl, total, id, max, off)])
            + FragsFrom(b, ihl, total, id, max, off + Min(total - ihl - off, max))
  {
  }

  method CutOne(b: seq<byte>, ihl: nat, total: nat, id: uint16, max: nat, off: nat)
    returns (frag: seq<byte>, n: nat)
    requires 20 <= ihl <= 60 && ihl <= total <= |b| && off < total - ihl
    ensures n == Min(total - ihl - off, max) && frag == FragAt(b, ihl, total, id, max, off)
  {
    n := total - ihl - off;
    var more := n > max;
    if more {
      n := max;
    }
    frag := BuildFragment(b[..ihl], b[ihl + off..ihl + off + n], id, FlagsAndOffset(b, off, more));
  }

  method CutAll(b: seq<byte>, ihl: nat, total: nat, id: uint16, max: nat) returns (out: seq<seq<byte>>)
    requires 20 <= ihl <= 60 && ihl <= total <= |b| && max > 0
    ensures out == FragsFrom(b, ihl, total, id, max, 0)
  {
    hide FragAt;
    out := [];
    var off := 0;
    while off < total - ihl
      invariant 0 <= off
      invariant out + FragsFrom(b, ihl, total, id, max, off) == FragsFrom(b, ihl, total, id, max, 0)
    {
      var frag, n := CutOne(b, ihl, total, id, max, off);
      FragsStep(b, ihl, total, id, max, off, out);
      out := out + [frag];
      off := off + n;
    }
  }

  method PickId(b: seq<byte>, counter: uint32) returns (id: uint16, next: uint32)
    requires |b| >= 20
    ensures (id, next) == NextId(b, counter)
  {
    id, next := Get16(b, 4), counter;
    if id == 0 {
      next := (next + 1) % 0x1_0000_0000;
      id := next % 0x1_0000;
      if id == 0 {
        next := (next + 1) % 0x1_0000_0000;
        id := next % 0x1_0000;
      }
    }
  }

  lemma FlagBits(fv: uint16)
    ensures fv % RESERVED == 0 <==> fv % DONT == 0 && fv / DONT % 2 == 0
    ensures fv % RESERVED == 0 <==> fv / 256 % 128 == 0 && fv % 256 == 0
  {
  }

  method Fragment4(b: seq<byte>, mtu: int, counter: uint32) returns (r: CutResult, next: uint32)
    requires mtu >= 576
    ensures r.Fragments? <==> Fragmentable(b, mtu)
    ensures r.Fragments? ==>
      && next == NextId(b, counter).1
      && r.fs == FragsFrom(b, HeaderLen(b), TotalLen(b), NextId(b, counter).0, MaxPayload(b, mtu), 0)
    ensures r.Whole? ==> |b| >= 20 && TotalLen(b) <= mtu && r.packet == b[..TotalLen(b)]
    ensures !r.Fragments? ==> next == counter
    ensures var ok := |b| >= 20 && 5 <= b[0] % 16 && b[0] as int % 16 * 4 <= |b|;
      && (r.Fragments? <==> ok && Declared(b) > mtu && b[6] % 128 == 0 && b[7] == 0)
      && (r.Whole? <==> ok && Declared(b) <= mtu)
  {
    hide FragsFrom, NextId;
    if |b| < 20 || HeaderLen(b) < 20 || HeaderLen(b) > |b| {
      return Fail, counter;
    }
    var ihl, total := HeaderLen(b), TotalLen(b);
    if total <= mtu {
      return Whole(b[..total]), counter;
    }
    var fv := Get16(b, 6);
    FlagBits(fv);
    if fv % DONT != 0 || fv / DONT % 2 != 0 {
      return Fail, counter;
    }
    var id;
    id, next := PickId(b, counter);
    var out := CutAll(b, ihl, total, id, (mtu - ihl) / 8 * 8);
    r := Fragments(out);
  }
}
