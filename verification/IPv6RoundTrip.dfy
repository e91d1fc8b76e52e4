/** Reassembling what the IPv6 fragmenter emits gives back the packet byte for byte. */
module IPv6RoundTrip {
  import opened Bytes
  import opened Pieces
  import opened Reassembly
  import opened Delivery
  import opened IPv6

  /** `pkt` has the header chain of `b` up to `s`, except that the chain now names a Fragment header there. */
  ghost predicate Marked(pkt: seq<byte>, b: seq<byte>, s: Spot) {
    && s.Spot? && 40 <= s.insert <= |b| && s.insert <= |pkt| && s.prevNext < s.insert
    && pkt[s.prevNext] == FRAGMENT
    && pkt[6] == (if s.prevNext == 6 then FRAGMENT else b[6])
    && forall j | 40 <= j < s.insert && j != s.prevNext :: pkt[j] == b[j]
  }

  /** The receiver's walk over a fragment ends where the sender's walk over the packet ended. */
  lemma {:induction false} WalksAgree(pkt: seq<byte>, t: nat, b: seq<byte>, total: nat, next: byte, prevNext: nat,
                                      off: nat)
    requires total <= |b| && prevNext < off <= total && next == b[prevNext] && 40 <= off
    requires var s := InsertAt(b, total, next, prevNext, off); s.Spot? && Marked(pkt, b, s) && s.insert <= t <= |pkt|
    ensures var s := InsertAt(b, total, next, prevNext, off);
      Find(pkt, t, if s.prevNext == prevNext then FRAGMENT else next, prevNext, off) == Present(s.insert, s.prevNext)
    decreases total - off
  {
    if Options(next) && !(next == DESTINATION && b[off] != ROUTING) {
      var n := ExtLen(next, b[off + 1]);
      SpotBounds(b, total, b[off], off, off + n);
      assert pkt[off + 1] == b[off + 1];
      WalksAgree(pkt, t, b, total, b[off], off, off + n);
    }
  }

  ghost predicate Cuttable(b: seq<byte>, mtu: int) {
    mtu >= 576 && Fragmentable(b, mtu) && b[0] / 16 == 6
  }

  /** The facts about the numbers the fragmenter works with. */
  ghost predicate Cutting(b: seq<byte>, s: Spot, total: nat, max: nat) {
    && |b| >= 40 && b[0] / 16 == 6 && total == TotalLen(b) <= |b|
    && s == SpotOf(b) && s.Spot? && 40 <= s.insert < total
    && s.prevNext < s.insert && (s.prevNext == 6 || 40 <= s.prevNext) && s.next == b[s.prevNext]
    && 0 < max && max % 8 == 0 && s.insert + 8 + max < total
  }

  lemma CuttableIsCutting(b: seq<byte>, mtu: int)
    requires Cuttable(b, mtu)
    ensures Cutting(b, SpotOf(b), TotalLen(b), MaxPayload(SpotOf(b), mtu))
    ensures SpotOf(b).insert + 8 + MaxPayload(SpotOf(b), mtu) <= mtu
  {
    SpotOfBounds(b);
  }

  ghost function HeadAt(b: seq<byte>, s: Spot, len: nat): (h: Head)
    requires s.Spot? && 40 <= s.insert <= |b| && s.prevNext < s.insert
  {
    Head(Prefix(b, s, len), s.prevNext, s.next)
  }

  ghost function PartAt(b: seq<byte>, s: Spot, total: nat, id: uint32, max: nat, off: nat): (f: Fragment<Key, Head>)
    requires s.Spot? && 40 <= s.insert <= total <= |b| && s.prevNext < s.insert && off < total - s.insert
  {
    var n := Min(total - s.insert - off, max);
    Fragment(Key(b[8..24], b[24..40], id, s.next), Some(HeadAt(b, s, s.insert + 8 + n)),
             Piece(off, b[s.insert + off..s.insert + off + n]), total - s.insert - off > max, s.insert + 8 + n)
  }

  ghost function PartsFrom(b: seq<byte>, s: Spot, total: nat, id: uint32, max: nat, off: nat)
    : (fs: seq<Fragment<Key, Head>>)
    requires s.Spot? && 40 <= s.insert <= total <= |b| && s.prevNext < s.insert && max > 0
    decreases total - s.insert - off
  {
    if off >= total - s.insert then []
    else [PartAt(b, s, total, id, max, off)]
         + PartsFrom(b, s, total, id, max, off + Min(total - s.insert - off, max))
  }

  lemma PrefixMarked(b: seq<byte>, s: Spot, len: nat, q: seq<byte>)
    requires s.Spot? && 40 <= s.insert <= |b| && s.prevNext < s.insert && 40 <= len < 0x1_0000 + 40
    requires s.prevNext == 6 || 40 <= s.prevNext
    ensures var pkt := Prefix(b, s, len) + q;
      && Marked(pkt, b, s) && Get16(pkt, 4) == len - 40 && pkt[0] == b[0]
      && pkt[..s.insert] == Prefix(b, s, len)
      && pkt[8..24] == b[8..24] && pkt[24..40] == b[24..40]
  {
    var p := Prefix(b, s, len);
    var pkt := p + q;
    assert forall j | 8 <= j < 40 :: pkt[j] == p[j] == b[j];
    assert pkt[8..24] == b[8..24];
    assert pkt[24..40] == b[24..40];
  }

  lemma FragHeaderFields(next: byte, off: nat, more: bool, id: uint32)
    requires off % 8 == 0 && off < 0x1_0000
    ensures var h := FragHeader(next, off, more, id);
      h[0] == next && Get16(h, 2) / 8 * 8 == off && (Get16(h, 2) % 2 == 1) == more && Get32(h, 4) == id
  {
  }

  lemma FieldsBehind(p: seq<byte>, h: seq<byte>, d: seq<byte>)
    requires |p| >= 40 && |h| == 8
    ensures var pkt := p + h + d;
      && pkt[..|p|] == p && pkt[|p| + 8..|pkt|] == d && pkt[|p|] == h[0]
      && Get16(pkt, |p| + 2) == Get16(h, 2) && Get32(pkt, |p| + 4) == Get32(h, 4)
      && pkt[8..24] == p[8..24] && pkt[24..40] == p[24..40] && Get16(pkt, 4) == Get16(p, 4)
  {
    var pkt := p + h + d;
    assert forall j | 0 <= j < |p| :: pkt[j] == p[j];
    assert forall j | 0 <= j < 8 :: pkt[|p| + j] == h[j];
  }

  lemma HeaderReads(p: seq<byte>, h: seq<byte>, d: seq<byte>, prevNext: nat, off: nat, more: bool)
    requires |p| >= 40 && |h| == 8 && Get16(p, 4) == |p| + 8 + |d| - 40
    requires Get16(h, 2) / 8 * 8 == off && (Get16(h, 2) % 2 == 1) == more
    requires |d| > 0 && (more ==> |d| % 8 == 0) && off + |d| <= 65535
    ensures Get16(p + h + d, 4) == Get16(p, 4)
    ensures ClassifyAt(p + h + d, |p|, prevNext)
         == Piecewise(Fragment(Key(p[8..24], p[24..40], Get32(h, 4), h[0]),
                               Some(Head(p, prevNext, h[0])), Piece(off, d), more, |p| + 8 + |d|))
  {
    hide Get16, Get32;
    FieldsBehind(p, h, d);
  }

  /** What the receiver reads when prefix, Fragment header and payload are joined. */
  lemma JoinedParses(p: seq<byte>, h: seq<byte>, d: seq<byte>, prevNext: nat, off: nat, more: bool)
    requires |p| >= 40 && |h| == 8 && p[0] / 16 == 6 && Get16(p, 4) == |p| + 8 + |d| - 40
    requires Find(p + h + d, |p| + 8 + |d|, p[6], 6, 40) == Present(|p|, prevNext)
    requires Get16(h, 2) / 8 * 8 == off && (Get16(h, 2) % 2 == 1) == more
    requires |d| > 0 && (more ==> |d| % 8 == 0) && off + |d| <= 65535
    ensures Classify(p + h + d)
         == Piecewise(Fragment(Key(p[8..24], p[24..40], Get32(h, 4), h[0]),
                               Some(Head(p, prevNext, h[0])), Piece(off, d), more, |p| + 8 + |d|))
  {
    hide Find, ClassifyAt;
    HeaderReads(p, h, d, prevNext, off, more);
    assert forall j | 0 <= j < |p| :: (p + h + d)[j] == p[j];
  }

  lemma PartParses(b: seq<byte>, s: Spot, total: nat, id: uint32, max: nat, off: nat)
    requires Cutting(b, s, total, max) && off % 8 == 0 && off < total - s.insert
    ensures Classify(FragAt(b, s, total, id, max, off)) == Piecewise(PartAt(b, s, total, id, max, off))
    ensures |FragAt(b, s, total, id, max, off)| == PartAt(b, s, total, id, max, off).total <= s.insert + 8 + max
  {
    hide Classify, FragHeader, Prefix, Find, InsertAt;
    var n := Min(total - s.insert - off, max);
    var len, more := s.insert + 8 + n, total - s.insert - off > max;
    var p, h := Prefix(b, s, len), FragHeader(s.next, off, more, id);
    var d := b[s.insert + off..s.insert + off + n];
    var pkt := p + h + d;
    assert pkt == p + (h + d);
    PrefixMarked(b, s, len, h + d);
    WalksAgree(pkt, len, b, total, b[6], 6, 40);
    FragHeaderFields(s.next, off, more, id);
    assert p[8..24] == b[8..24] && p[24..40] == b[24..40] && p[6] == pkt[6] && p[0] == b[0]
        && Get16(p, 4) == len - 40 by {
      PrefixMarked(b, s, len, []);
      assert p + [] == p;
    }
    JoinedParses(p, h, d, s.prevNext, off, more);
  }

  ghost predicate Stands(fs: seq<Fragment<Key, Head>>, ps: seq<seq<byte>>, b: seq<byte>, s: Spot, k: Key, mtu: int)
    requires s.Spot? && 40 <= s.insert <= |b| && s.prevNext < s.insert
  {
    && |fs| == |ps|
    && (forall j | 0 <= j < |ps| :: Classify(ps[j]) == Piecewise(fs[j]))
    && (forall j | 0 <= j < |fs| :: fs[j].key == k && fs[j].head == Some(HeadAt(b, s, fs[j].total)))
    && (forall j | 0 <= j < |fs| :: 40 <= fs[j].total == |ps[j]| <= mtu)
  }

  lemma {:induction false} PartsChain(b: seq<byte>, s: Spot, total: nat, id: uint32, max: nat, off: nat)
    requires Cutting(b, s, total, max) && off < total - s.insert
    ensures Chain(PartsFrom(b, s, total, id, max, off), off, b[s.insert..total])
    decreases total - s.insert - off
  {
    hide Prefix, InsertAt;
    var f := PartAt(b, s, total, id, max, off);
    var rest := off + Min(total - s.insert - off, max);
    SliceIsCut(b, s.insert, total, off, rest - off);
    if total - s.insert - off > max {
      PartsChain(b, s, total, id, max, rest);
      ChainGrows(f, PartsFrom(b, s, total, id, max, rest), b[s.insert..total]);
    } else {
      assert PartsFrom(b, s, total, id, max, rest) == [];
    }
  }

  lemma {:induction false} PartsStand(b: seq<byte>, s: Spot, total: nat, id: uint32, max: nat, off: nat)
    requires Cutting(b, s, total, max) && (off % 8 == 0 || off >= total - s.insert)
    ensures Stands(PartsFrom(b, s, total, id, max, off), FragsFrom(b, s, total, id, max, off), b, s,
                   Key(b[8..24], b[24..40], id, s.next), s.insert + 8 + max)
    decreases total - s.insert - off
  {
    hide Classify, HeadAt, FragAt, InsertAt;
    if off < total - s.insert {
      var rest := off + Min(total - s.insert - off, max);
      PartParses(b, s, total, id, max, off);
      PartsStand(b, s, total, id, max, rest);
      StandsGrows(PartAt(b, s, total, id, max, off), PartsFrom(b, s, total, id, max, rest),
                  FragAt(b, s, total, id, max, off), FragsFrom(b, s, total, id, max, rest),
                  b, s, Key(b[8..24], b[24..40], id, s.next), s.insert + 8 + max);
    }
  }

  lemma StandsGrows(f: Fragment<Key, Head>, fs: seq<Fragment<Key, Head>>, p: seq<byte>, ps: seq<seq<byte>>,
                    b: seq<byte>, s: Spot, k: Key, mtu: int)
    requires s.Spot? && 40 <= s.insert <= |b| && s.prevNext < s.insert
    requires Stands(fs, ps, b, s, k, mtu) && Classify(p) == Piecewise(f) && f.key == k
    requires f.head == Some(HeadAt(b, s, f.total)) && 40 <= f.total == |p| <= mtu
    ensures Stands([f] + fs, [p] + ps, b, s, k, mtu)
  {
    hide Classify, HeadAt;
  }

  /** Every fragment's prefix, whatever its length field says, rebuilds the packet exactly. */
  lemma HeadRestores(b: seq<byte>, s: Spot, total: nat, max: nat, len: nat)
    requires Cutting(b, s, total, max)
    ensures Build(HeadAt(b, s, len), b[s.insert..total]) == Some(b[..total])
  {
    hide InsertAt;
    var p := Prefix(b, s, len);
    var out := Build(HeadAt(b, s, len), b[s.insert..total]).value;
    assert Get16(out, 4) == Get16(b, 4);
    forall j | 0 <= j < total
      ensures out[j] == b[j]
    {
      assert j >= s.insert ==> (p + b[s.insert..total])[j] == b[j];
    }
    assert out == b[..total];
  }

  // ---------- Main result ----------

  ghost function Parts(b: seq<byte>, mtu: int, id: uint32): (fs: seq<Fragment<Key, Head>>)
    requires Cuttable(b, mtu)
  {
    SpotOfBounds(b);
    PartsFrom(b, SpotOf(b), TotalLen(b), id, MaxPayload(SpotOf(b), mtu), 0)
  }

  function Packets(b: seq<byte>, mtu: int, id: uint32): (ps: seq<seq<byte>>)
    requires Cuttable(b, mtu)
  {
    SpotOfBounds(b);
    FragsFrom(b, SpotOf(b), TotalLen(b), id, MaxPayload(SpotOf(b), mtu), 0)
  }

  lemma PartsAreFamily(l: Limits, b: seq<byte>, mtu: int, id: uint32)
    requires Cuttable(b, mtu)
    ensures Family(RulesFor(l), Parts(b, mtu, id), b[SpotOf(b).insert..TotalLen(b)], b[..TotalLen(b)])
    ensures var fs, ps := Parts(b, mtu, id), Packets(b, mtu, id);
      |fs| == |ps| && forall j | 0 <= j < |ps| :: Classify(ps[j]) == Piecewise(fs[j])
  {
    hide Classify, PartAt, FragAt, Build, InsertAt, Find;
    var s, total, max := SpotOf(b), TotalLen(b), MaxPayload(SpotOf(b), mtu);
    CuttableIsCutting(b, mtu);
    PartsChain(b, s, total, id, max, 0);
    PartsStand(b, s, total, id, max, 0);
    var fs := Parts(b, mtu, id);
    forall j | 0 <= j < |fs|
      ensures fs[j].head.Some? && Build(fs[j].head.value, b[s.insert..total]) == Some(b[..total])
    {
      HeadRestores(b, s, total, max, fs[j].total);
    }
  }

  /** Push the emitted packets once each in any order, among packets of other datagrams and
      sweeps, with room in the table and no timeout: nothing is ready before the last one, and
      the last one yields the original packet exactly. */
  lemma RoundTrip(l: Limits, s: State<Key, Head>, b: seq<byte>, mtu: int, counter: uint32,
                  xs: seq<Slot<Key, Head>>, i: nat)
    requires Cuttable(b, mtu)
    requires var fs := Parts(b, mtu, NextId(counter));
      && |fs| > 0 && fs[0].key !in s.m
      && Undisturbed(RulesFor(l), s, fs, xs) && Distinct(Picks(xs, |xs|), |fs|)
    requires i < |xs| && xs[i].Mine?
    ensures var id := NextId(counter); var fs, ps := Parts(b, mtu, id), Packets(b, mtu, id);
      && |fs| == |ps| && EventOf(ps[xs[i].j], xs[i].now) == EventAt(fs, xs, i)
      && var o := Step(RulesFor(l), At(RulesFor(l), s, fs, xs, i), EventAt(fs, xs, i));
         if |Picks(xs, i + 1)| < |fs| then o.1 == Pending
         else o.1.Ready? && o.1.packet == b[..TotalLen(b)] && LargestOfAll(o.1.mtu, fs) && fs[0].key !in o.0.m
  {
    hide Step, Classify, Parts, Packets, Find, InsertAt;
    SpotOfBounds(b);
    var id := NextId(counter);
    PartsAreFamily(l, b, mtu, id);
    AnyOrder(RulesFor(l), s, Parts(b, mtu, id), b[SpotOf(b).insert..TotalLen(b)], b[..TotalLen(b)], xs, i);
  }
}
