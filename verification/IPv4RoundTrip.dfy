/** Reassembling what the IPv4 fragmenter emits gives back the datagram. */
module IPv4RoundTrip {
  import opened Bytes
  import opened Pieces
  import opened Reassembly
  import opened Delivery
  import opened Checksum
  import opened IPv4

  /** The fragments of `b` as the receiver should see them. */
  ghost function PartAt(b: seq<byte>, ihl: nat, total: nat, id: uint16, max: nat, off: nat): (f: Fragment<Key, Header>)
    requires 20 <= ihl <= total <= |b| && off < total - ihl
  {
    var n := Min(total - ihl - off, max);
    var more := total - ihl - off > max;
    Fragment(Key(b[12..16], b[16..20], b[9], id),
             if off == 0 then Some(FragHeader(b[..ihl], ihl + n, id, FlagsAndOffset(b, 0, more))) else None,
             Piece(off, b[ihl + off..ihl + off + n]), more, ihl + n)
  }

  ghost function PartsFrom(b: seq<byte>, ihl: nat, total: nat, id: uint16, max: nat, off: nat)
    : (fs: seq<Fragment<Key, Header>>)
    requires 20 <= ihl <= total <= |b| && max > 0
    decreases total - ihl - off
  {
    if off >= total - ihl then []
    else [PartAt(b, ihl, total, id, max, off)]
         + PartsFrom(b, ihl, total, id, max, off + Min(total - ihl - off, max))
  }

  /** `h` is the header of `b` with new length, identification and flags. */
  ghost predicate Patched(h: Header, b: seq<byte>, len: nat, id: uint16, flags: uint16) {
    && 20 <= |h| <= |b|
    && Get16(h, 2) == len && Get16(h, 4) == id && Get16(h, 6) == flags
    && forall j | 0 <= j < |h| && !(2 <= j < 8) && j != 10 && j != 11 :: h[j] == b[j]
  }

  lemma FragHeaderPatched(b: seq<byte>, ihl: nat, len: nat, id: uint16, flags: uint16)
    requires 20 <= ihl <= |b| && len < 0x1_0000
    ensures Patched(FragHeader(b[..ihl], len, id, flags), b, len, id, flags)
  {
  }

  lemma FlagsAdd(x: nat, reserved: bool, more: bool)
    requires x < 0x2000
    ensures var v := WithFlag(WithFlag(x, RESERVED, reserved), MORE, more);
      && v == x + (if reserved then 0x8000 else 0) + (if more then 0x2000 else 0)
      && v % MORE == x && (v / MORE % 2 == 1) == more
      && v / DONT * DONT == if reserved then 0x8000 else 0
  {
  }

  lemma OffsetFits(b: seq<byte>, off: nat, more: bool)
    requires |b| >= 20 && off < 0x1_0000 && off % 8 == 0
    ensures var v := FlagsAndOffset(b, off, more);
      && v % MORE * 8 == off && (v / MORE % 2 == 1) == more
      && v / DONT * DONT == Get16(b, 6) / RESERVED * RESERVED
  {
    FlagsAdd(off / 8, Get16(b, 6) / RESERVED == 1, more);
  }

  /** What the fragmenter needs: a version 4 packet it will cut, whose length fits its field. */
  ghost predicate Cuttable(b: seq<byte>, mtu: int) {
    mtu >= 576 && Fragmentable(b, mtu) && b[0] / 16 == 4 && TotalLen(b) <= 65535
  }

  /** The same facts about the numbers the fragmenter works with. */
  ghost predicate Cutting(b: seq<byte>, ihl: nat, total: nat, max: nat) {
    && |b| >= 20 && b[0] / 16 == 4 && HeaderLen(b) == ihl
    && 20 <= ihl <= 60 && ihl < total <= |b| && total <= 65535
    && 0 < max < total - ihl && max % 8 == 0
  }

  lemma CuttableIsCutting(b: seq<byte>, mtu: int)
    requires Cuttable(b, mtu)
    ensures Cutting(b, HeaderLen(b), TotalLen(b), MaxPayload(b, mtu))
    ensures HeaderLen(b) + MaxPayload(b, mtu) <= mtu
  {
  }

  /** What the receiver reads from a header `h` followed by payload `d`. */
  lemma JoinedParses(h: Header, d: seq<byte>, off: nat, more: bool)
    requires 20 <= |h| <= 60 && h[0] / 16 == 4 && HeaderLen(h) == |h|
    requires Get16(h, 2) == |h| + |d| && |d| > 0 && off + |d| <= 65535 - |h|
    requires Get16(h, 6) % MORE * 8 == off && (Get16(h, 6) / MORE % 2 == 1) == more
    requires (off != 0 || more) && (more ==> |d| % 8 == 0)
    ensures Classify(h + d)
         == Piecewise(Fragment(Key(h[12..16], h[16..20], h[9], Get16(h, 4)),
                               if off == 0 then Some(h) else None, Piece(off, d), more, |h| + |d|))
  {
    var pkt := h + d;
    assert pkt[..|h|] == h && pkt[|h|..|h| + |d|] == d;
    assert pkt[12..16] == h[12..16] && pkt[16..20] == h[16..20];
  }

  lemma PatchedParses(b: seq<byte>, h: Header, d: seq<byte>, id: uint16, off: nat, more: bool)
    requires |b| >= 20 && b[0] / 16 == 4 && HeaderLen(b) == |h| && |h| <= 60
    requires Patched(h, b, |h| + |d|, id, FlagsAndOffset(b, off, more))
    requires off % 8 == 0 && |d| > 0 && off + |d| <= 65535 - |h|
    requires (off != 0 || more) && (more ==> |d| % 8 == 0)
    ensures Classify(h + d)
         == Piecewise(Fragment(Key(b[12..16], b[16..20], b[9], id),
                               if off == 0 then Some(h) else None, Piece(off, d), more, |h| + |d|))
  {
    assert h[12..16] == b[12..16] && h[16..20] == b[16..20];
    OffsetFits(b, off, more);
    JoinedParses(h, d, off, more);
  }

  /** The receiver parses each emitted fragment to the part it stands for. */
  lemma PartParses(b: seq<byte>, ihl: nat, total: nat, id: uint16, max: nat, off: nat)
    requires Cutting(b, ihl, total, max) && off % 8 == 0 && off < total - ihl
    ensures Classify(FragAt(b, ihl, total, id, max, off)) == Piecewise(PartAt(b, ihl, total, id, max, off))
    ensures |FragAt(b, ihl, total, id, max, off)| == PartAt(b, ihl, total, id, max, off).total <= ihl + max
  {
    hide Classify, FragHeader, FlagsAndOffset;
    var n := Min(total - ihl - off, max);
    var more := total - ihl - off > max;
    var flags := FlagsAndOffset(b, off, more);
    FragHeaderPatched(b, ihl, ihl + n, id, flags);
    PatchedParses(b, FragHeader(b[..ihl], ihl + n, id, flags), b[ihl + off..ihl + off + n], id, off, more);
  }

  ghost predicate Stands(fs: seq<Fragment<Key, Header>>, ps: seq<seq<byte>>, k: Key, mtu: int) {
    && |fs| == |ps|
    && (forall j | 0 <= j < |ps| :: Classify(ps[j]) == Piecewise(fs[j]))
    && (forall j | 0 <= j < |fs| :: fs[j].key == k && (fs[j].head.Some? <==> fs[j].piece.off == 0))
    && (forall j | 0 <= j < |fs| :: fs[j].total == |ps[j]| <= mtu)
  }

  lemma StandsGrows(f: Fragment<Key, Header>, fs: seq<Fragment<Key, Header>>, p: seq<byte>, ps: seq<seq<byte>>,
                    k: Key, mtu: int)
    requires Stands(fs, ps, k, mtu) && Classify(p) == Piecewise(f) && f.key == k
    requires (f.head.Some? <==> f.piece.off == 0) && f.total == |p| <= mtu
    ensures Stands([f] + fs, [p] + ps, k, mtu)
  {
  }

  lemma {:induction false} PartsChain(b: seq<byte>, ihl: nat, total: nat, id: uint16, max: nat, off: nat)
    requires Cutting(b, ihl, total, max) && off < total - ihl
    ensures Chain(PartsFrom(b, ihl, total, id, max, off), off, b[ihl..total])
    decreases total - ihl - off
  {
    hide FragHeader, FlagsAndOffset;
    var f := PartAt(b, ihl, total, id, max, off);
    var rest := off + Min(total - ihl - off, max);
    SliceIsCut(b, ihl, total, off, rest - off);
    if total - ihl - off > max {
      PartsChain(b, ihl, total, id, max, rest);
      ChainGrows(f, PartsFrom(b, ihl, total, id, max, rest), b[ihl..total]);
    } else {
      assert PartsFrom(b, ihl, total, id, max, rest) == [];
    }
  }

  lemma {:induction false} PartsStand(b: seq<byte>, ihl: nat, total: nat, id: uint16, max: nat, off: nat)
    requires Cutting(b, ihl, total, max) && (off % 8 == 0 || off >= total - ihl)
    ensures Stands(PartsFrom(b, ihl, total, id, max, off), FragsFrom(b, ihl, total, id, max, off),
                   Key(b[12..16], b[16..20], b[9], id), ihl + max)
    decreases total - ihl - off
  {
    hide Classify, FragHeader, FlagsAndOffset, FragAt;
    if off < total - ihl {
      var rest := off + Min(total - ihl - off, max);
      PartParses(b, ihl, total, id, max, off);
      PartsStand(b, ihl, total, id, max, rest);
      StandsGrows(PartAt(b, ihl, total, id, max, off), PartsFrom(b, ihl, total, id, max, rest),
                  FragAt(b, ihl, total, id, max, off), FragsFrom(b, ihl, total, id, max, rest),
                  Key(b[12..16], b[16..20], b[9], id), ihl + max);
    }
  }

  /** The datagram that comes back: the original with its actual length, the identification used
      for the fragments and a zero header checksum. */
  function Restored(b: seq<byte>, id: uint16): (out: seq<byte>)
    requires |b| >= 20 && 20 <= TotalLen(b) <= 65535
  {
    Put16(Put16(b[..TotalLen(b)], 2, TotalLen(b)), 4, id)[10 := 0][11 := 0]
  }

  /** With a truthful length field nothing differs but the checksum, and the identification if it was 0. */
  lemma RestoredDiffersLittle(b: seq<byte>, counter: uint32, j: nat)
    requires |b| >= 20 && 20 <= TotalLen(b) <= 65535 && Get16(b, 2) == TotalLen(b) && j < TotalLen(b)
    ensures var out := Restored(b, NextId(b, counter).0);
      && |out| == TotalLen(b) && out[10] == 0 == out[11]
      && (j != 10 && j != 11 && !(Get16(b, 4) == 0 && 4 <= j < 6) ==> out[j] == b[j])
  {
    hide NextId;
    var id := NextId(b, counter).0;
    assert b[2] == TotalLen(b) / 256 && b[3] == TotalLen(b) % 256;
    assert Get16(b, 4) != 0 ==> b[4] == id / 256 && b[5] == id % 256;
  }

  /** Joining a first fragment's header with the whole payload. */
  lemma JoinedRestores(b: seq<byte>, h: Header, id: uint16, len: nat, flags: uint16)
    requires |b| >= 20 && 20 <= |h| <= TotalLen(b) <= 65535
    requires Patched(h, b, len, id, flags) && flags / DONT * DONT == Get16(b, 6)
    ensures Build(h, b[|h|..TotalLen(b)]) == Some(Restored(b, id))
  {
    var total := TotalLen(b);
    var joined := h + b[|h|..total];
    assert Get16(joined, 6) == flags;
    var p := Put16(joined, 6, Get16(b, 6));
    assert p[6] == b[6] && p[7] == b[7];
    var out, want := Build(h, b[|h|..total]).value, Restored(b, id);
    assert out == Put16(p, 2, total)[10 := 0][11 := 0];
    assert want[4] == id / 256 == h[4] && want[5] == id % 256 == h[5];
    forall j | 0 <= j < total
      ensures out[j] == want[j]
    {
      assert j >= |h| ==> joined[j] == b[j];
    }
    assert out == want;
  }

  // ---------- Main results ----------

  ghost function Parts(b: seq<byte>, mtu: int, id: uint16): (fs: seq<Fragment<Key, Header>>)
    requires Cuttable(b, mtu)
  {
    PartsFrom(b, HeaderLen(b), TotalLen(b), id, MaxPayload(b, mtu), 0)
  }

  function Packets(b: seq<byte>, mtu: int, id: uint16): (ps: seq<seq<byte>>)
    requires mtu >= 576 && Fragmentable(b, mtu)
  {
    FragsFrom(b, HeaderLen(b), TotalLen(b), id, MaxPayload(b, mtu), 0)
  }

  /** Only the cut at offset 0 carries the header. */
  lemma OneHead(fs: seq<Fragment<Key, Header>>, payload: seq<byte>)
    requires Chain(fs, 0, payload)
    requires forall j | 0 <= j < |fs| :: fs[j].head.Some? <==> fs[j].piece.off == 0
    ensures forall j | 0 <= j < |fs| :: fs[j].head.Some? <==> j == 0
  {
    ConsecutiveIsOrdered(fs);
    assert Cut(fs[0].piece, payload);
    assert forall j | 0 < j < |fs| :: fs[0].piece.End() <= fs[j].piece.off;
  }

  lemma FirstHeadBuilds(b: seq<byte>, ihl: nat, total: nat, id: uint16, max: nat)
    requires Cutting(b, ihl, total, max) && total == TotalLen(b) && Get16(b, 6) % RESERVED == 0
    ensures var h := PartAt(b, ihl, total, id, max, 0).head;
      h.Some? && Build(h.value, b[ihl..total]) == Some(Restored(b, id))
  {
    hide FragHeader, FlagsAndOffset, Restored, Build;
    var flags := FlagsAndOffset(b, 0, true);
    FragHeaderPatched(b, ihl, ihl + max, id, flags);
    OffsetFits(b, 0, true);
    JoinedRestores(b, FragHeader(b[..ihl], ihl + max, id, flags), id, ihl + max, flags);
  }

  /** The emitted packets are received as consecutive cuts of the payload whose first header
      rebuilds the datagram. */
  lemma PartsAreFamily(l: Limits, b: seq<byte>, mtu: int, id: uint16)
    requires Cuttable(b, mtu)
    ensures Family(RulesFor(l), Parts(b, mtu, id), b[HeaderLen(b)..TotalLen(b)], Restored(b, id))
    ensures Stands(Parts(b, mtu, id), Packets(b, mtu, id), Key(b[12..16], b[16..20], b[9], id), mtu)
  {
    hide Classify, PartAt, FragAt, Restored, Build;
    var ihl, total, max := HeaderLen(b), TotalLen(b), MaxPayload(b, mtu);
    CuttableIsCutting(b, mtu);
    PartsChain(b, ihl, total, id, max, 0);
    PartsStand(b, ihl, total, id, max, 0);
    OneHead(Parts(b, mtu, id), b[ihl..total]);
    FirstHeadBuilds(b, ihl, total, id, max);
  }

  /** Push the emitted packets once each in any order, among packets of other datagrams and
      sweeps, with room in the table and no timeout: nothing is ready before the last one, and
      the last one yields the datagram and the size of the largest fragment. */
  lemma RoundTrip(l: Limits, s: State<Key, Header>, b: seq<byte>, mtu: int, counter: uint32,
                  xs: seq<Slot<Key, Header>>, i: nat)
    requires Cuttable(b, mtu)
    requires var fs := Parts(b, mtu, NextId(b, counter).0);
      && |fs| > 0 && fs[0].key !in s.m
      && Undisturbed(RulesFor(l), s, fs, xs) && Distinct(Picks(xs, |xs|), |fs|)
    requires i < |xs| && xs[i].Mine?
    ensures var id := NextId(b, counter).0; var fs, ps := Parts(b, mtu, id), Packets(b, mtu, id);
      && |fs| == |ps| && EventOf(ps[xs[i].j], xs[i].now) == EventAt(fs, xs, i)
      && var o := Step(RulesFor(l), At(RulesFor(l), s, fs, xs, i), EventAt(fs, xs, i));
         if |Picks(xs, i + 1)| < |fs| then o.1 == Pending
         else o.1.Ready? && o.1.packet == Restored(b, id) && LargestOfAll(o.1.mtu, fs) && fs[0].key !in o.0.m
  {
    var id := NextId(b, counter).0;
    PartsAreFamily(l, b, mtu, id);
    AnyOrder(RulesFor(l), s, Parts(b, mtu, id), b[HeaderLen(b)..TotalLen(b)], Restored(b, id), xs, i);
  }

  /** No packet longer than 65535 bytes ever comes out. */
  lemma NothingLongerComesOut(l: Limits, s: State<Key, Header>, e: Event<Key, Header>)
    ensures var o := Step(RulesFor(l), s, e).1; o.Ready? ==> |o.packet| <= 65535
  {
  }

  /** The fragmenter does cut longer ones: Total Length zero in a buffer of 65536 bytes. */
  lemma LongerIsCut()
    ensures var b := [0x45] + seq(65535, _ => 0);
      Fragmentable(b, 1280) && b[0] / 16 == 4 && TotalLen(b) == 65536
  {
    var b := [0x45] + seq(65535, _ => 0);
    assert Get16(b, 2) == 0 && Get16(b, 6) == 0 && HeaderLen(b) == 20;
    assert |b| == 65536;
  }

  // ---------- Exactly which datagrams come back ----------

  /** The packets `ps` arriving in the given order at one time. */
  ghost function Shuffled(ps: seq<seq<byte>>, order: seq<nat>, now: int): (es: seq<Event<Key, Header>>)
    requires Distinct(order, |ps|)
  {
    seq(|order|, i requires 0 <= i < |order| => EventOf(ps[order[i]], now))
  }

  ghost function Slots(order: seq<nat>, now: int): (xs: seq<Slot<Key, Header>>) {
    seq(|order|, i requires 0 <= i < |order| => Mine(order[i], now))
  }

  lemma {:induction false} SlotsPick(order: seq<nat>, now: int, i: nat)
    requires i <= |order|
    ensures Picks(Slots(order, now), i) == order[..i]
  {
    if i > 0 {
      SlotsPick(order, now, i - 1);
      assert order[..i] == order[..i - 1] + [order[i - 1]];
    }
  }

  lemma {:induction false} SlotsLoad(fs: seq<Fragment<Key, Header>>, order: seq<nat>, now: int, mtu: nat, i: nat)
    requires |fs| > 0 && Distinct(order, |fs|) && i <= |order|
    requires forall j | 0 <= j < |fs| :: |fs[j].piece.data| <= mtu
    ensures Names(fs, Slots(order, now))
    ensures Load(fs, Slots(order, now), i) <= i * mtu && Count(fs, Slots(order, now), i) == i
  {
    if i > 0 {
      SlotsLoad(fs, order, now, mtu, i - 1);
    }
  }

  /** Shuffled packets are the slots of their fragments. */
  lemma {:induction false} ShuffledIsAt(l: Limits, fs: seq<Fragment<Key, Header>>, ps: seq<seq<byte>>, order: seq<nat>,
                                        now: int, i: nat)
    requires |fs| == |ps| > 0 && Distinct(order, |ps|) && i <= |order|
    requires forall j | 0 <= j < |ps| :: Classify(ps[j]) == Piecewise(fs[j])
    ensures Names(fs, Slots(order, now))
    ensures Run(RulesFor(l), Empty(), Shuffled(ps, order, now)[..i])
         == At(RulesFor(l), Empty(), fs, Slots(order, now), i)
  {
    hide Classify, Step;
    if i > 0 {
      ShuffledIsAt(l, fs, ps, order, now, i - 1);
      var es := Shuffled(ps, order, now);
      assert es[..i][..i - 1] == es[..i - 1] && es[..i][i - 1] == es[i - 1];
    }
  }

  lemma DataFits(pkt: seq<byte>)
    ensures Classify(pkt).Piecewise? ==> |Classify(pkt).f.piece.data| <= |pkt|
  {
  }

  /** Shuffled packets of a datagram that fits are light traffic. */
  lemma ShuffledIsLight(l: Limits, fs: seq<Fragment<Key, Header>>, ps: seq<seq<byte>>, order: seq<nat>, now: int,
                        mtu: nat)
    requires |fs| == |ps| > 0 && Distinct(order, |ps|) && |order| == |ps|
    requires forall j | 0 <= j < |ps| :: Classify(ps[j]) == Piecewise(fs[j]) && |ps[j]| <= mtu
    requires 0 <= l.ttl && |ps| <= l.maxEntries && |ps| * mtu <= l.maxBytes
    ensures Undisturbed(RulesFor(l), Empty(), fs, Slots(order, now))
  {
    hide Classify, Load, Count, Undisturbed;
    forall j | 0 <= j < |fs|
      ensures |fs[j].piece.data| <= mtu
    {
      DataFits(ps[j]);
    }
    SlotsLoad(fs, order, now, mtu, |order|);
    LightIsUndisturbed(RulesFor(l), fs, Slots(order, now), now);
  }

  /** The last outcome of a run. */
  ghost function LastOutcome(l: Limits, es: seq<Event<Key, Header>>): (o: Outcome)
    requires es != []
  {
    var n := |es| - 1;
    Step(RulesFor(l), Run(RulesFor(l), Empty(), es[..n]), es[n]).1
  }

  lemma SomethingIsEmitted(b: seq<byte>, mtu: int, id: uint16)
    requires mtu >= 576 && Fragmentable(b, mtu)
    ensures |Packets(b, mtu, id)| > 0
  {
    hide FragAt;
  }

  lemma FittingComesBack(l: Limits, b: seq<byte>, mtu: int, counter: uint32, order: seq<nat>, now: int)
    requires Cuttable(b, mtu)
    requires var ps := Packets(b, mtu, NextId(b, counter).0);
      && Distinct(order, |ps|) && |order| == |ps| > 0
      && 0 <= l.ttl && |ps| <= l.maxEntries && |ps| * mtu <= l.maxBytes
    ensures var id := NextId(b, counter).0; var o := LastOutcome(l, Shuffled(Packets(b, mtu, id), order, now));
      o.Ready? && o.packet == Restored(b, id)
  {
    hide Classify, Step, Packets, Parts, NextId, Restored, Undisturbed, Family, RulesFor, LargestOfAll;
    var id := NextId(b, counter).0;
    var fs, ps, xs, n := Parts(b, mtu, id), Packets(b, mtu, id), Slots(order, now), |order| - 1;
    PartsAreFamily(l, b, mtu, id);
    ShuffledIsLight(l, fs, ps, order, now, mtu);
    SlotsPick(order, now, |order|);
    assert order[..|order|] == order;
    RoundTrip(l, Empty(), b, mtu, counter, xs, n);
    ShuffledIsAt(l, fs, ps, order, now, n);
  }

  /** The packets of one datagram, in any order into an empty table with room for them: the whole datagram
      comes back with the last of them if and only if it is at most 65535 bytes long. */
  lemma ComesBackExactlyIfItFits(l: Limits, b: seq<byte>, mtu: int, counter: uint32, order: seq<nat>, now: int)
    requires mtu >= 576 && Fragmentable(b, mtu) && b[0] / 16 == 4
    requires var ps := Packets(b, mtu, NextId(b, counter).0);
      && Distinct(order, |ps|) && |order| == |ps|
      && 0 <= l.ttl && |ps| <= l.maxEntries && |ps| * mtu <= l.maxBytes
    ensures var id := NextId(b, counter).0; var ps := Packets(b, mtu, id);
      && |ps| > 0
      && var o := LastOutcome(l, Shuffled(ps, order, now));
         && (o.Ready? && |o.packet| == TotalLen(b) <==> TotalLen(b) <= 65535)
         && (TotalLen(b) <= 65535 ==> 20 <= TotalLen(b) && o.Ready? && o.packet == Restored(b, id))
  {
    hide Step, Packets, NextId;
    SomethingIsEmitted(b, mtu, NextId(b, counter).0);
    var es := Shuffled(Packets(b, mtu, NextId(b, counter).0), order, now);
    if TotalLen(b) <= 65535 {
      FittingComesBack(l, b, mtu, counter, order, now);
    } else {
      NothingLongerComesOut(l, Run(RulesFor(l), Empty(), es[..|es| - 1]), es[|es| - 1]);
    }
  }

  /** Every emitted header verifies: its checksum, stored checksum included, is 0. */
  lemma {:induction false} EmittedHeadersVerify(b: seq<byte>, ihl: nat, total: nat, id: uint16, max: nat, off: nat,
                                                j: nat)
    requires 20 <= ihl <= total <= |b| && max > 0
    requires j < |FragsFrom(b, ihl, total, id, max, off)|
    ensures var f := FragsFrom(b, ihl, total, id, max, off)[j];
      |f| >= ihl && HeaderChecksum(f[..ihl]) == 0 && Sum16(f[..ihl]) > 0 && Sum16(f[..ihl]) % 0xffff == 0
    decreases j
  {
    hide FlagsAndOffset, Unsummed, HeaderChecksum, Sum16;
    if j == 0 {
      var n := Min(total - ihl - off, max);
      var u := Unsummed(b[..ihl], ihl + n, id, FlagsAndOffset(b, off, total - ihl - off > max));
      StoredChecksumVerifies(u, 10);
      assert FragAt(b, ihl, total, id, max, off)[..ihl] == Put16(u, 10, HeaderChecksum(u));
    } else {
      EmittedHeadersVerify(b, ihl, total, id, max, off + Min(total - ihl - off, max), j - 1);
    }
  }
}
