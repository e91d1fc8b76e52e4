/** Fragments cut consecutively from one payload, delivered once each in any order among
    unrelated traffic, put the payload together again, and nothing comes out earlier. */
module Delivery {
  import opened Bytes
  import opened Pieces
  import opened Reassembly

  /** `fs` are consecutive cuts of `payload` from offset `from` to its end; only the last one
      says that no more follow. */
  ghost predicate Chain<K, H>(fs: seq<Fragment<K, H>>, from: nat, payload: seq<byte>) {
    && |fs| > 0
    && fs[0].piece.off == from && fs[|fs| - 1].piece.End() == |payload|
    && (forall j | 0 <= j < |fs| - 1 :: fs[j + 1].piece.off == fs[j].piece.End())
    && (forall j | 0 <= j < |fs| :: Cut(fs[j].piece, payload))
    && (forall j | 0 <= j < |fs| :: fs[j].more == (j < |fs| - 1))
  }

  ghost predicate Cut(p: Piece, payload: seq<byte>) {
    p.off < p.End() <= |payload| && p.data == payload[p.off..p.End()]
  }

  lemma SliceIsCut(b: seq<byte>, lo: nat, hi: nat, off: nat, n: nat)
    requires lo <= hi <= |b| && 0 < n && lo + off + n <= hi
    ensures Cut(Piece(off, b[lo + off..lo + off + n]), b[lo..hi])
  {
    var whole, part := b[lo..hi], b[lo + off..lo + off + n];
    assert |whole[off..off + n]| == |part|;
    forall k | 0 <= k < n
      ensures whole[off..off + n][k] == part[k]
    {
      assert whole[off + k] == b[lo + off + k];
    }
  }

  /** A whole chain under one key, in which every head builds the same packet `out`. */
  ghost predicate Family<K, H>(r: Rules<H>, fs: seq<Fragment<K, H>>, payload: seq<byte>, out: seq<byte>) {
    && Chain(fs, 0, payload)
    && (forall j | 0 <= j < |fs| :: fs[j].key == fs[0].key)
    && fs[0].head.Some?
    && (forall j | 0 <= j < |fs| && fs[j].head.Some? :: r.build(fs[j].head.value, payload) == Some(out))
    && (forall i, j | 0 <= i < |fs| && 0 <= j < |fs| && fs[i].head.Some? && fs[j].head.Some? ::
          r.agree(fs[i].head.value, fs[j].head.value))
  }

  /** A chain grows at the front. */
  lemma ChainGrows<K, H>(f: Fragment<K, H>, fs: seq<Fragment<K, H>>, payload: seq<byte>)
    requires Cut(f.piece, payload) && f.more && Chain(fs, f.piece.End(), payload)
    ensures Chain([f] + fs, f.piece.off, payload)
  {
    var gs := [f] + fs;
    assert forall j | 0 < j < |gs| :: gs[j] == fs[j - 1];
  }

  ghost predicate Ordered<K, H>(fs: seq<Fragment<K, H>>) {
    forall i, j | 0 <= i < j < |fs| :: fs[i].piece.End() <= fs[j].piece.off
  }

  lemma {:induction false} ConsecutiveIsOrdered<K, H>(fs: seq<Fragment<K, H>>)
    requires forall j | 0 <= j < |fs| - 1 :: fs[j + 1].piece.off == fs[j].piece.End()
    ensures Ordered(fs)
  {
    if fs != [] {
      var n := |fs| - 1;
      var gs := fs[..n];
      assert forall j | 0 <= j < |gs| :: gs[j] == fs[j];
      ConsecutiveIsOrdered(gs);
      forall i, j | 0 <= i < j < |fs|
        ensures fs[i].piece.End() <= fs[j].piece.off
      {
        if j < n {
          assert gs[i].piece.End() <= gs[j].piece.off;
        } else if i < n - 1 {
          assert gs[i].piece.End() <= gs[n - 1].piece.off;
          assert fs[n - 1 + 1].piece.off == fs[n - 1].piece.End();
        } else {
          assert fs[n - 1 + 1].piece.off == fs[n - 1].piece.End();
        }
      }
    }
  }

  /** Some cut covers each position of the payload. */
  lemma {:induction false} SomeCutCovers<K, H>(fs: seq<Fragment<K, H>>, x: int)
    requires |fs| > 0 && fs[0].piece.off == 0
    requires forall j | 0 <= j < |fs| - 1 :: fs[j + 1].piece.off == fs[j].piece.End()
    requires 0 <= x < fs[|fs| - 1].piece.End()
    ensures exists j | 0 <= j < |fs| :: fs[j].piece.Covers(x)
  {
    var n := |fs| - 1;
    if fs[n].piece.off <= x {
      assert fs[n].piece.Covers(x);
    } else {
      var gs := fs[..n];
      assert forall j | 0 <= j < |gs| :: gs[j] == fs[j];
      assert fs[n - 1 + 1].piece.off == fs[n - 1].piece.End();
      SomeCutCovers(gs, x);
      var j :| 0 <= j < |gs| && gs[j].piece.Covers(x);
      assert fs[j].piece.Covers(x);
    }
  }

  // ---------- Arrival orders ----------

  /** `seen` lists indices below `n`, none twice. */
  ghost predicate Distinct(seen: seq<nat>, n: nat) {
    && (forall i | 0 <= i < |seen| :: seen[i] < n)
    && (forall i, j | 0 <= i < j < |seen| :: seen[i] != seen[j])
  }

  ghost function Elements(s: seq<nat>): (e: set<int>)
    ensures forall x :: x in e <==> x in s
  {
    set i | 0 <= i < |s| :: s[i]
  }

  lemma {:induction false} DistinctSize(seen: seq<nat>, n: nat)
    requires Distinct(seen, n)
    ensures |Elements(seen)| == |seen|
  {
    if seen != [] {
      var m := |seen| - 1;
      DistinctSize(seen[..m], n);
      assert Elements(seen) == Elements(seen[..m]) + {seen[m]};
    } else {
      assert Elements(seen) == {};
    }
  }

  /** An order with fewer than `n` indices misses one; an order with `n` misses none. */
  lemma Pigeonhole(seen: seq<nat>, n: nat)
    requires Distinct(seen, n)
    ensures |seen| <= n
    ensures |seen| < n ==> exists j: nat | j < n :: j !in seen
    ensures |seen| == n ==> forall j: nat | j < n :: j in seen
  {
    DistinctSize(seen, n);
    RangeSize(0, n);
    var e, all := Elements(seen), Range(0, n);
    assert e <= all;
    if e != all {
      SubsetSize(e, all);
      assert exists j: nat | j < n :: j !in seen by {
        var j :| j in all && j !in e;
      }
    }
  }

  // ---------- What the table holds between arrivals ----------

  ghost predicate Largest<K, H>(mtu: nat, fs: seq<Fragment<K, H>>, seen: seq<nat>)
    requires Distinct(seen, |fs|)
  {
    && (forall i | 0 <= i < |seen| :: fs[seen[i]].total <= mtu)
    && (exists i | 0 <= i < |seen| :: fs[seen[i]].total == mtu)
  }

  ghost predicate Holds<K, H>(d: Datagram<H>, fs: seq<Fragment<K, H>>, seen: seq<nat>)
    requires Distinct(seen, |fs|)
  {
    && |d.pieces| == |seen| && (forall i | 0 <= i < |seen| :: d.pieces[i] == fs[seen[i]].piece)
    && d.last == (if |fs| - 1 in seen then Some(fs[|fs| - 1].piece.End()) else None)
    && (d.head.Some? ==> exists i | 0 <= i < |seen| :: d.head == fs[seen[i]].head)
    && (d.head.None? ==> forall i | 0 <= i < |seen| :: fs[seen[i]].head.None?)
    && (seen != [] ==> Largest(d.maxPacket, fs, seen))
  }

  ghost predicate Progress<K, H>(s: State<K, H>, fs: seq<Fragment<K, H>>, seen: seq<nat>) {
    && |fs| > 0 && Distinct(seen, |fs|)
    && if seen == [] then fs[0].key !in s.m
       else fs[0].key in s.m && Holds(s.m[fs[0].key], fs, seen)
  }

  lemma ExtendHolds<K, H>(d: Datagram<H>, fs: seq<Fragment<K, H>>, seen: seq<nat>, j: nat, now: int)
    requires Distinct(seen, |fs|) && j < |fs| && j !in seen
    requires forall i | 0 <= i < |fs| :: fs[i].more == (i < |fs| - 1)
    requires Holds(d, fs, seen) && (seen == [] ==> d.maxPacket == 0)
    ensures Distinct(seen + [j], |fs|) && Holds(Extend(d, fs[j], now), fs, seen + [j])
  {
    var e := Extend(d, fs[j], now);
    var after := seen + [j];
    assert after[|seen|] == j;
    assert forall i | 0 <= i < |seen| :: after[i] == seen[i];
    if e.head.Some? && d.head.Some? {
      var i :| 0 <= i < |seen| && d.head == fs[seen[i]].head;
      assert e.head == fs[after[i]].head;
    }
    LargestGrows(d.maxPacket, fs, seen, j);
    hide Largest;
  }

  lemma LargestGrows<K, H>(mtu: nat, fs: seq<Fragment<K, H>>, seen: seq<nat>, j: nat)
    requires Distinct(seen, |fs|) && j < |fs| && j !in seen
    requires if seen == [] then mtu == 0 else Largest(mtu, fs, seen)
    ensures Distinct(seen + [j], |fs|) && Largest(if fs[j].total > mtu then fs[j].total else mtu, fs, seen + [j])
  {
    var after := seen + [j];
    assert after[|seen|] == j && forall i | 0 <= i < |seen| :: after[i] == seen[i];
    if seen != [] {
      var i :| 0 <= i < |seen| && fs[seen[i]].total == mtu;
      assert fs[after[i]].total == mtu;
    }
    assert fs[after[|seen|]].total == fs[j].total;
  }

  /** A new cut is never refused: it overlaps none of the others and its head agrees. */
  lemma NoneRefused<K, H>(r: Rules<H>, d: Datagram<H>, fs: seq<Fragment<K, H>>, payload: seq<byte>,
                          out: seq<byte>, seen: seq<nat>, j: nat)
    requires Family(r, fs, payload, out) && Distinct(seen, |fs|) && j < |fs| && j !in seen
    requires Holds(d, fs, seen)
    ensures !Clashes(r, d, fs[j]) && !OverlapsAny(d.pieces, fs[j].piece)
  {
    ConsecutiveIsOrdered(fs);
    forall i | 0 <= i < |d.pieces|
      ensures !d.pieces[i].Overlaps(fs[j].piece)
    {
      assert seen[i] < j || j < seen[i];
    }
  }

  /** While a cut is missing, the datagram is not complete. */
  lemma Incomplete<K, H>(r: Rules<H>, d: Datagram<H>, fs: seq<Fragment<K, H>>, payload: seq<byte>,
                         out: seq<byte>, seen: seq<nat>)
    requires Family(r, fs, payload, out) && Distinct(seen, |fs|) && |seen| < |fs|
    requires Holds(d, fs, seen) && d.last.Some?
    ensures Within(d.pieces, d.last.value) && !Full(d.pieces, d.last.value)
  {
    ConsecutiveIsOrdered(fs);
    Pigeonhole(seen, |fs|);
    var j: nat :| j < |fs| && j !in seen;
    var x := fs[j].piece.off;
    assert Cut(fs[j].piece, payload);
    assert !Covered(d.pieces, x) by {
      forall i | 0 <= i < |d.pieces|
        ensures !d.pieces[i].Covers(x)
      {
        assert seen[i] < j || j < seen[i];
        assert Cut(fs[seen[i]].piece, payload);
      }
    }
    forall i | 0 <= i < |d.pieces|
      ensures d.pieces[i].End() <= d.last.value
    {
      assert Cut(fs[seen[i]].piece, payload);
    }
  }

  lemma CutsSpell(ps: seq<Piece>, payload: seq<byte>)
    requires forall i | 0 <= i < |ps| :: Cut(ps[i], payload)
    requires Full(ps, |payload|)
    ensures Assemble(ps, |payload|) == payload
  {
    var p := Assemble(ps, |payload|);
    forall x | 0 <= x < |payload|
      ensures p[x] == payload[x]
    {
      assert Covered(ps, x);
    }
  }

  lemma AllCutsCover<K, H>(d: Datagram<H>, fs: seq<Fragment<K, H>>, seen: seq<nat>)
    requires |fs| > 0 && fs[0].piece.off == 0
    requires forall j | 0 <= j < |fs| - 1 :: fs[j + 1].piece.off == fs[j].piece.End()
    requires Distinct(seen, |fs|) && |seen| == |fs| && Holds(d, fs, seen)
    ensures Full(d.pieces, fs[|fs| - 1].piece.End())
  {
    Pigeonhole(seen, |fs|);
    forall x | 0 <= x < fs[|fs| - 1].piece.End()
      ensures Covered(d.pieces, x)
    {
      SomeCutCovers(fs, x);
      var j: nat :| j < |fs| && fs[j].piece.Covers(x);
      assert j in seen;
      var i :| 0 <= i < |seen| && seen[i] == j;
      assert d.pieces[i].Covers(x);
    }
  }

  /** Once every cut is there, the datagram is complete and spells the payload. */
  lemma Complete<K, H>(r: Rules<H>, d: Datagram<H>, fs: seq<Fragment<K, H>>, payload: seq<byte>,
                       out: seq<byte>, seen: seq<nat>)
    requires Family(r, fs, payload, out) && Distinct(seen, |fs|) && |seen| == |fs|
    requires Holds(d, fs, seen)
    ensures d.head.Some? && d.last == Some(|payload|)
    ensures Within(d.pieces, |payload|) && Full(d.pieces, |payload|)
    ensures Assemble(d.pieces, |payload|) == payload
    ensures r.build(d.head.value, payload) == Some(out)
  {
    Pigeonhole(seen, |fs|);
    assert 0 in seen && |fs| - 1 in seen;
    AllCutsCover(d, fs, seen);
    forall i | 0 <= i < |d.pieces|
      ensures Cut(d.pieces[i], payload)
    {
      assert Cut(fs[seen[i]].piece, payload);
    }
    CutsSpell(d.pieces, payload);
  }

  // ---------- One arrival ----------

  /** The limits leave room for fragment `f`, and the entry under its key has not timed out. */
  ghost predicate Room<K, H>(l: Limits, s: State<K, H>, f: Fragment<K, H>, now: int) {
    && Alive(l, s, f.key, now)
    && var t := Swept(s, l.ttl, now);
       (f.key in t.m || |t.m| < l.maxEntries) && t.bytes + |f.piece.data| <= l.maxBytes
  }

  ghost predicate Alive<K, H>(l: Limits, s: State<K, H>, k: K, now: int) {
    k in s.m ==> !Expired(s.m[k], l.ttl, now)
  }

  /** The table after cut `j` has been admitted, before it is settled. */
  ghost function Admitted<K, H>(r: Rules<H>, s: State<K, H>, f: Fragment<K, H>, now: int): (t: State<K, H>) {
    Admit(Swept(s, r.limits.ttl, now), f, now)
  }

  lemma MineAdmitted<K, H>(r: Rules<H>, s: State<K, H>, fs: seq<Fragment<K, H>>, payload: seq<byte>,
                           out: seq<byte>, seen: seq<nat>, j: nat, now: int)
    requires Family(r, fs, payload, out) && Progress(s, fs, seen)
    requires j < |fs| && j !in seen && Room(r.limits, s, fs[j], now)
    ensures Distinct(seen + [j], |fs|) && fs[0].key == fs[j].key
    ensures Step(r, s, Arrive(fs[j], now)) == Settle(r, Admitted(r, s, fs[j], now), fs[0].key)
    ensures Holds(Admitted(r, s, fs[j], now).m[fs[0].key], fs, seen + [j])
  {
    assert fs[j].key == fs[0].key;
    var t := Swept(s, r.limits.ttl, now);
    var d: Datagram<H> := Found(t, fs[0].key, now);
    assert Holds(d, fs, seen);
    NoneRefused(r, d, fs, payload, out, seen, j);
    ExtendHolds(d, fs, seen, j, now);
  }

  lemma MineStep<K, H>(r: Rules<H>, s: State<K, H>, fs: seq<Fragment<K, H>>, payload: seq<byte>,
                       out: seq<byte>, seen: seq<nat>, j: nat, now: int)
    requires Family(r, fs, payload, out) && Progress(s, fs, seen)
    requires j < |fs| && j !in seen && Room(r.limits, s, fs[j], now)
    ensures Distinct(seen + [j], |fs|)
    ensures var o := Step(r, s, Arrive(fs[j], now));
      if |seen| + 1 < |fs| then o.1 == Pending && Progress(o.0, fs, seen + [j])
      else o.1.Ready? && o.1.packet == out && Largest(o.1.mtu, fs, seen + [j]) && fs[0].key !in o.0.m
  {
    MineAdmitted(r, s, fs, payload, out, seen, j, now);
    var e := Admitted(r, s, fs[j], now).m[fs[0].key];
    if |seen| + 1 < |fs| {
      if e.last.Some? {
        Incomplete(r, e, fs, payload, out, seen + [j]);
      }
    } else {
      Pigeonhole(seen + [j], |fs|);
      Complete(r, e, fs, payload, out, seen + [j]);
    }
  }

  lemma OtherStep<K, H>(r: Rules<H>, s: State<K, H>, fs: seq<Fragment<K, H>>, seen: seq<nat>, e: Event<K, H>)
    requires Progress(s, fs, seen)
    requires e.Arrive? ==> e.f.key != fs[0].key
    requires e != Ignore ==> Alive(r.limits, s, fs[0].key, e.now)
    ensures Progress(Step(r, s, e).0, fs, seen)
  {
  }

  // ---------- Whole schedules ----------

  /** A schedule says, event by event, whether it delivers cut `j` or is unrelated traffic. */
  datatype Slot<K, H> = Mine(j: nat, now: int) | Other(e: Event<K, H>)

  ghost predicate Names<K, H>(fs: seq<Fragment<K, H>>, xs: seq<Slot<K, H>>) {
    |fs| > 0 && forall i | 0 <= i < |xs| && xs[i].Mine? :: xs[i].j < |fs|
  }

  ghost function EventAt<K, H>(fs: seq<Fragment<K, H>>, xs: seq<Slot<K, H>>, i: nat): (e: Event<K, H>)
    requires Names(fs, xs) && i < |xs|
  {
    match xs[i] case Mine(j, now) => Arrive(fs[j], now) case Other(e) => e
  }

  /** The table before event `i`. */
  ghost function At<K, H>(r: Rules<H>, s: State<K, H>, fs: seq<Fragment<K, H>>, xs: seq<Slot<K, H>>, i: nat)
    : (t: State<K, H>)
    requires Names(fs, xs) && i <= |xs|
  {
    if i == 0 then s else Step(r, At(r, s, fs, xs, i - 1), EventAt(fs, xs, i - 1)).0
  }

  /** The cuts delivered before event `i`, in order. */
  ghost function Picks<K, H>(xs: seq<Slot<K, H>>, i: nat): (p: seq<nat>)
    requires i <= |xs|
  {
    if i == 0 then []
    else Picks(xs, i - 1) + if xs[i - 1].Mine? then [xs[i - 1].j] else []
  }

  /** Unrelated traffic uses other keys, and when each event happens the limits have room for it
      and the entry under construction has not timed out. */
  ghost predicate Undisturbed<K, H>(r: Rules<H>, s: State<K, H>, fs: seq<Fragment<K, H>>, xs: seq<Slot<K, H>>) {
    && Names(fs, xs)
    && forall i: nat | i < |xs| :: Harmless(r.limits, At(r, s, fs, xs, i), fs, xs[i])
  }

  ghost predicate Harmless<K, H>(l: Limits, s: State<K, H>, fs: seq<Fragment<K, H>>, x: Slot<K, H>) {
    match x
    case Mine(j, now) => j < |fs| && Room(l, s, fs[j], now)
    case Other(e) =>
      |fs| > 0 && (e.Arrive? ==> e.f.key != fs[0].key) && (e != Ignore ==> Alive(l, s, fs[0].key, e.now))
  }

  lemma {:induction false} PicksPrefix<K, H>(xs: seq<Slot<K, H>>, i: nat, n: nat)
    requires i <= n <= |xs|
    ensures Picks(xs, i) <= Picks(xs, n)
    decreases n - i
  {
    if i < n {
      PicksPrefix(xs, i + 1, n);
    }
  }

  lemma PicksDistinct<K, H>(xs: seq<Slot<K, H>>, i: nat, n: nat)
    requires i < |xs| && Distinct(Picks(xs, |xs|), n)
    ensures Distinct(Picks(xs, i), n) && Distinct(Picks(xs, i + 1), n)
    ensures xs[i].Mine? ==> xs[i].j !in Picks(xs, i) && |Picks(xs, i)| < n
  {
    var all, seen, after := Picks(xs, |xs|), Picks(xs, i), Picks(xs, i + 1);
    PicksPrefix(xs, i, |xs|);
    PicksPrefix(xs, i + 1, |xs|);
    assert forall h | 0 <= h < |seen| :: seen[h] == all[h];
    assert forall h | 0 <= h < |after| :: after[h] == all[h];
    assert xs[i].Mine? ==> after[|seen|] == xs[i].j;
    Pigeonhole(after, n);
  }

  lemma {:induction false} ProgressAt<K, H>(r: Rules<H>, s: State<K, H>, fs: seq<Fragment<K, H>>, payload: seq<byte>,
                                            out: seq<byte>, xs: seq<Slot<K, H>>, i: nat)
    requires Family(r, fs, payload, out) && fs[0].key !in s.m
    requires Undisturbed(r, s, fs, xs) && Distinct(Picks(xs, |xs|), |fs|)
    requires i <= |xs| && |Picks(xs, i)| < |fs|
    ensures Progress(At(r, s, fs, xs, i), fs, Picks(xs, i))
  {
    hide Step, Family, Holds, Room, Alive;
    if i > 0 {
      var h := i - 1;
      PicksDistinct(xs, h, |fs|);
      ProgressAt(r, s, fs, payload, out, xs, h);
      var t := At(r, s, fs, xs, h);
      assert Harmless(r.limits, t, fs, xs[h]);
      match xs[h]
      case Mine(j, now) =>
        MineStep(r, t, fs, payload, out, Picks(xs, h), j, now);
      case Other(e) =>
        assert Picks(xs, i) == Picks(xs, h);
        OtherStep(r, t, fs, Picks(xs, h), e);
    }
  }

  ghost predicate LargestOfAll<K, H>(mtu: nat, fs: seq<Fragment<K, H>>) {
    && (forall j | 0 <= j < |fs| :: fs[j].total <= mtu)
    && (exists j | 0 <= j < |fs| :: fs[j].total == mtu)
  }

  lemma LargestOfAllOf<K, H>(mtu: nat, fs: seq<Fragment<K, H>>, seen: seq<nat>)
    requires Distinct(seen, |fs|) && |seen| == |fs| && Largest(mtu, fs, seen)
    ensures LargestOfAll(mtu, fs)
  {
    Pigeonhole(seen, |fs|);
    forall j: nat | j < |fs|
      ensures fs[j].total <= mtu
    {
      assert j in seen;
      var n :| 0 <= n < |seen| && seen[n] == j;
    }
  }

  /** Any permutation of the cuts, interleaved with anything else the limits can take: each cut
      but the last one to arrive leaves the datagram pending, and the last one yields `out`. */
  lemma AnyOrder<K, H>(r: Rules<H>, s: State<K, H>, fs: seq<Fragment<K, H>>, payload: seq<byte>,
                       out: seq<byte>, xs: seq<Slot<K, H>>, i: nat)
    requires Family(r, fs, payload, out) && fs[0].key !in s.m
    requires Undisturbed(r, s, fs, xs) && Distinct(Picks(xs, |xs|), |fs|)
    requires i < |xs| && xs[i].Mine?
    ensures var o := Step(r, At(r, s, fs, xs, i), EventAt(fs, xs, i));
      if |Picks(xs, i + 1)| < |fs| then o.1 == Pending
      else o.1.Ready? && o.1.packet == out && LargestOfAll(o.1.mtu, fs) && fs[0].key !in o.0.m
  {
    hide Step, Family, Progress, Room;
    PicksDistinct(xs, i, |fs|);
    ProgressAt(r, s, fs, payload, out, xs, i);
    var t := At(r, s, fs, xs, i);
    assert Harmless(r.limits, t, fs, xs[i]);
    MineStep(r, t, fs, payload, out, Picks(xs, i), xs[i].j, xs[i].now);
    if |Picks(xs, i + 1)| == |fs| {
      LargestOfAllOf(Step(r, t, EventAt(fs, xs, i)).1.mtu, fs, Picks(xs, i + 1));
    }
  }

  // ---------- A condition on the traffic alone ----------

  /** Payload bytes of an event, and whether it is an arrival. */
  ghost function Size<K, H>(e: Event<K, H>): (n: nat) { if e.Arrive? then |e.f.piece.data| else 0 }
  ghost function Arrivals<K, H>(e: Event<K, H>): (n: nat) { if e.Arrive? then 1 else 0 }

  /** Payload bytes and arrivals before event `i`. */
  ghost function Load<K, H>(fs: seq<Fragment<K, H>>, xs: seq<Slot<K, H>>, i: nat): (n: nat)
    requires Names(fs, xs) && i <= |xs|
  {
    if i == 0 then 0 else Load(fs, xs, i - 1) + Size(EventAt(fs, xs, i - 1))
  }

  ghost function Count<K, H>(fs: seq<Fragment<K, H>>, xs: seq<Slot<K, H>>, i: nat): (n: nat)
    requires Names(fs, xs) && i <= |xs|
  {
    if i == 0 then 0 else Count(fs, xs, i - 1) + Arrivals(EventAt(fs, xs, i - 1))
  }

  /** Everything happens within one lifetime of `start`, the others use other keys, and all
      arrivals together fit the limits. */
  ghost predicate Light<K, H>(l: Limits, fs: seq<Fragment<K, H>>, xs: seq<Slot<K, H>>, start: int) {
    && Names(fs, xs) && Load(fs, xs, |xs|) <= l.maxBytes && Count(fs, xs, |xs|) <= l.maxEntries
    && (forall i: nat | i < |xs| :: Timely(EventAt(fs, xs, i), start, l.ttl))
    && (forall i: nat | i < |xs| && xs[i].Other? && xs[i].e.Arrive? :: xs[i].e.f.key != fs[0].key)
  }

  ghost predicate Timely<K, H>(e: Event<K, H>, start: int, ttl: int) {
    e != Ignore ==> start <= e.now <= start + ttl
  }

  ghost predicate Fitting<K, H>(l: Limits, s: State<K, H>, load: nat, count: nat, start: int) {
    Inv(l, s) && s.bytes <= load && |s.m| <= count && forall k | k in s.m :: s.m[k].updated >= start
  }

  lemma NothingExpires<K, H>(s: State<K, H>, ttl: int, start: int, now: int)
    requires now <= start + ttl && forall k | k in s.m :: s.m[k].updated >= start
    ensures Swept(s, ttl, now) == s
  {
    assert Kept(s.m, ttl, now, false) == s.m;
    assert Kept(s.m, ttl, now, true) == map[];
  }

  lemma DropFits<K, H>(l: Limits, s: State<K, H>, k: K, load: nat, count: nat, start: int)
    requires Fitting(l, s, load, count, start)
    ensures Fitting(l, Drop(s, k), load, count, start)
  {
    DropKeepsInv(l, s, k);
    if k in s.m {
      Without(s.m, k);
      assert Sound(s.m[k]);
    }
  }

  lemma InsertFits<K, H>(r: Rules<H>, s: State<K, H>, f: Fragment<K, H>, now: int, load: nat, count: nat, start: int)
    requires Fitting(r.limits, s, load, count, start) && start <= now
    ensures Fitting(r.limits, Insert(r, s, f, now).0, load + |f.piece.data|, count + 1, start)
  {
    hide Inv, Extend, Settle, Drop;
    DropFits(r.limits, s, f.key, load, count, start);
    if Admits(r, s, f, Found(s, f.key, now)) {
      var t := Admit(s, f, now);
      AdmitKeepsInv(r, s, f, now);
      assert t.m.Keys == s.m.Keys + {f.key};
      ExtendUpdated(Found(s, f.key, now), f, now);
      assert Fitting(r.limits, t, load + |f.piece.data|, count + 1, start);
      SettleFits(r, t, f.key, load + |f.piece.data|, count + 1, start);
    }
  }

  lemma ExtendUpdated<K, H>(d: Datagram<H>, f: Fragment<K, H>, now: int)
    ensures Extend(d, f, now).updated == now
  {
  }

  lemma SettleFits<K, H>(r: Rules<H>, s: State<K, H>, k: K, load: nat, count: nat, start: int)
    requires Fitting(r.limits, s, load, count, start) && k in s.m
    ensures Fitting(r.limits, Settle(r, s, k).0, load, count, start)
  {
    hide Inv, Drop, Fitting;
    DropFits(r.limits, s, k, load, count, start);
  }

  lemma {:induction false} LightAt<K, H>(r: Rules<H>, fs: seq<Fragment<K, H>>, xs: seq<Slot<K, H>>, start: int, i: nat)
    requires Light(r.limits, fs, xs, start) && i <= |xs|
    ensures Fitting(r.limits, At(r, Empty(), fs, xs, i), Load(fs, xs, i), Count(fs, xs, i), start)
  {
    if i > 0 {
      hide Inv, Insert;
      LightAt(r, fs, xs, start, i - 1);
      var s, e := At(r, Empty(), fs, xs, i - 1), EventAt(fs, xs, i - 1);
      assert Timely(e, start, r.limits.ttl);
      if e != Ignore {
        NothingExpires(s, r.limits.ttl, start, e.now);
      }
      if e.Arrive? {
        InsertFits(r, s, e.f, e.now, Load(fs, xs, i - 1), Count(fs, xs, i - 1), start);
      }
    }
  }

  lemma {:induction false} LoadGrows<K, H>(fs: seq<Fragment<K, H>>, xs: seq<Slot<K, H>>, i: nat, n: nat)
    requires Names(fs, xs) && i <= n <= |xs|
    ensures Load(fs, xs, i) <= Load(fs, xs, n) && Count(fs, xs, i) <= Count(fs, xs, n)
    decreases n - i
  {
    if i < n {
      LoadGrows(fs, xs, i + 1, n);
    }
  }

  lemma FittingIsHarmless<K, H>(l: Limits, s: State<K, H>, fs: seq<Fragment<K, H>>, x: Slot<K, H>, e: Event<K, H>,
                                load: nat, count: nat, start: int)
    requires |fs| > 0 && Fitting(l, s, load, count, start) && Timely(e, start, l.ttl)
    requires match x case Mine(j, now) => j < |fs| && e == Arrive(fs[j], now) case Other(o) => e == o
    requires x.Other? && e.Arrive? ==> e.f.key != fs[0].key
    requires load + Size(e) <= l.maxBytes && count + Arrivals(e) <= l.maxEntries
    ensures Harmless(l, s, fs, x)
  {
    hide Inv, Swept;
    if e != Ignore {
      NothingExpires(s, l.ttl, start, e.now);
    }
  }

  /** Light traffic disturbs nothing, whatever it consists of: the premise of `AnyOrder` holds. */
  lemma LightIsUndisturbed<K, H>(r: Rules<H>, fs: seq<Fragment<K, H>>, xs: seq<Slot<K, H>>, start: int)
    requires Light(r.limits, fs, xs, start)
    ensures Undisturbed(r, Empty(), fs, xs)
  {
    forall i: nat | i < |xs|
      ensures Harmless(r.limits, At(r, Empty(), fs, xs, i), fs, xs[i])
    {
      hide Fitting, At, Harmless, Timely;
      LightAt(r, fs, xs, start, i);
      LoadGrows(fs, xs, i + 1, |xs|);
      assert Timely(EventAt(fs, xs, i), start, r.limits.ttl);
      FittingIsHarmless(r.limits, At(r, Empty(), fs, xs, i), fs, xs[i], EventAt(fs, xs, i),
                        Load(fs, xs, i), Count(fs, xs, i), start);
    }
  }
}
