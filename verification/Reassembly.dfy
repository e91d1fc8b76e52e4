/** The bounded, overlap-rejecting reassembly table shared by IPv4 and IPv6: what one arrival
    does to it, and what every run of arrivals and sweeps keeps. */
module Reassembly {
  import opened Bytes
  import opened Pieces

  datatype Limits = Limits(maxEntries: nat, maxBytes: nat, ttl: int)

  /** A parsed fragment. `head` is what the fragment says about the bytes before the payload:
      IPv4 takes it from the fragment at offset 0 only, IPv6 from every fragment. */
  datatype Fragment<K, H> = Fragment(key: K, head: Option<H>, piece: Piece, more: bool, total: nat)

  datatype Datagram<H> = Datagram(head: Option<H>, pieces: seq<Piece>, last: Option<nat>,
                                  updated: int, bytes: int, maxPacket: nat)

  /** What differs between the families: when two heads clash, and how head and payload make a
      packet (`None` when the result would not fit its length field). */
  datatype Rules<!H> = Rules(limits: Limits, agree: (H, H) -> bool,
                             build: (H, seq<byte>) -> Option<seq<byte>>)

  datatype State<K, H> = State(m: map<K, Datagram<H>>, bytes: int)

  datatype Reason = TableFull | Inconsistent | Overlapping | MemoryLimit | PastFinal | Unbuildable
  datatype Outcome = Pending | Ready(packet: seq<byte>, mtu: nat) | Refused(reason: Reason)

  datatype Event<K, H> = Arrive(f: Fragment<K, H>, now: int) | Sweep(now: int) | Ignore

  // ---------- One step ----------

  function Fresh<H>(now: int): (d: Datagram<H>) {
    Datagram(None, [], None, now, 0, 0)
  }

  function Drop<K, H>(s: State<K, H>, k: K): (t: State<K, H>) {
    if k !in s.m then s
    else
      var left := s.bytes - s.m[k].bytes;
      State(s.m - {k}, if left < 0 then 0 else left)
  }

  predicate Expired<H>(d: Datagram<H>, ttl: int, now: int) {
    now - d.updated > ttl
  }

  ghost function Swept<K, H>(s: State<K, H>, ttl: int, now: int): (t: State<K, H>) {
    State(Kept(s.m, ttl, now, false), s.bytes - Held(Kept(s.m, ttl, now, true)))
  }

  /** The entries that are expired, or the ones that are not. */
  ghost function Kept<K, H>(m: map<K, Datagram<H>>, ttl: int, now: int, expired: bool): (n: map<K, Datagram<H>>) {
    map k | k in m && Expired(m[k], ttl, now) == expired :: m[k]
  }

  function Extend<K, H>(d: Datagram<H>, f: Fragment<K, H>, now: int): (e: Datagram<H>) {
    Datagram(if d.head.None? then f.head else d.head,
             d.pieces + [f.piece],
             if f.more then d.last else Some(f.piece.End()),
             now,
             d.bytes + |f.piece.data|,
             if f.total > d.maxPacket then f.total else d.maxPacket)
  }

  ghost predicate Clashes<K, H>(r: Rules<H>, d: Datagram<H>, f: Fragment<K, H>) {
    d.head.Some? && f.head.Some? && !r.agree(d.head.value, f.head.value)
  }

  ghost predicate OverlapsAny(ps: seq<Piece>, p: Piece) {
    exists i | 0 <= i < |ps| :: ps[i].Overlaps(p)
  }

  /** Decides what the datagram under `k` amounts to now that it has one more piece. */
  ghost function Settle<K, H>(r: Rules<H>, s: State<K, H>, k: K): (o: (State<K, H>, Outcome))
    requires k in s.m
  {
    var d := s.m[k];
    if d.head.None? || d.last.None? then (s, Pending)
    else if !Within(d.pieces, d.last.value) then (Drop(s, k), Refused(PastFinal))
    else if !Full(d.pieces, d.last.value) then (s, Pending)
    else match r.build(d.head.value, Assemble(d.pieces, d.last.value))
      case None => (Drop(s, k), Refused(Unbuildable))
      case Some(packet) => (Drop(s, k), Ready(packet, d.maxPacket))
  }

  /** Why fragment `f` may not join datagram `d`, if there is a reason. */
  ghost function Refusal<K, H>(r: Rules<H>, held: int, d: Datagram<H>, f: Fragment<K, H>): (why: Option<Reason>) {
    if Clashes(r, d, f) then Some(Inconsistent)
    else if OverlapsAny(d.pieces, f.piece) then Some(Overlapping)
    else if held + |f.piece.data| > r.limits.maxBytes then Some(MemoryLimit)
    else None
  }

  ghost function Insert<K, H>(r: Rules<H>, s: State<K, H>, f: Fragment<K, H>, now: int)
    : (o: (State<K, H>, Outcome))
  {
    if f.key !in s.m && |s.m| >= r.limits.maxEntries then (s, Refused(TableFull))
    else
      match Refusal(r, s.bytes, Found(s, f.key, now), f)
      case Some(why) => (Drop(s, f.key), Refused(why))
      case None => Settle(r, Admit(s, f, now), f.key)
  }

  ghost function Step<K, H>(r: Rules<H>, s: State<K, H>, e: Event<K, H>): (o: (State<K, H>, Outcome)) {
    match e
    case Arrive(f, now) => Insert(r, Swept(s, r.limits.ttl, now), f, now)
    case Sweep(now) => (Swept(s, r.limits.ttl, now), Pending)
    case Ignore => (s, Pending)
  }

  ghost function Run<K, H>(r: Rules<H>, s: State<K, H>, es: seq<Event<K, H>>): (t: State<K, H>) {
    if es == [] then s else Step(r, Run(r, s, es[..|es| - 1]), es[|es| - 1]).0
  }

  ghost function Empty<K, H>(): (s: State<K, H>) { State(map[], 0) }

  // ---------- Byte accounting ----------

  /** Payload bytes of all live datagrams. */
  ghost function Held<K, H>(m: map<K, Datagram<H>>): (n: int)
    decreases |m|
  {
    if m == map[] then 0
    else
      var k :| k in m;
      assert (m - {k}).Keys == m.Keys - {k};
      m[k].bytes + Held(m - {k})
  }

  lemma {:induction false} HeldRemove<K, H>(m: map<K, Datagram<H>>, k: K)
    requires k in m
    ensures Held(m) == m[k].bytes + Held(m - {k})
    decreases |m|
  {
    var j :| j in m && Held(m) == m[j].bytes + Held(m - {j});
    if j != k {
      assert (m - {j}).Keys == m.Keys - {j} && (m - {k}).Keys == m.Keys - {k};
      HeldRemove(m - {j}, k);
      HeldRemove(m - {k}, j);
      assert m - {j} - {k} == m - {k} - {j};
    }
  }

  lemma HeldUpdate<K, H>(m: map<K, Datagram<H>>, k: K, d: Datagram<H>)
    ensures Held(m[k := d]) == Held(m - {k}) + d.bytes
    ensures k !in m ==> m - {k} == m
  {
    HeldRemove(m[k := d], k);
    assert m[k := d] - {k} == m - {k};
  }

  ghost predicate Sound<H>(d: Datagram<H>) {
    Disjoint(d.pieces) && d.bytes == Weight(d.pieces)
  }

  ghost predicate Inv<K, H>(l: Limits, s: State<K, H>) {
    && |s.m| <= l.maxEntries
    && s.bytes == Held(s.m) <= l.maxBytes
    && forall k | k in s.m :: Sound(s.m[k])
  }

  lemma {:induction false} HeldNonNegative<K, H>(m: map<K, Datagram<H>>)
    requires forall k | k in m :: Sound(m[k])
    ensures 0 <= Held(m)
    decreases |m|
  {
    if m != map[] {
      var k :| k in m && Held(m) == m[k].bytes + Held(m - {k});
      assert (m - {k}).Keys == m.Keys - {k};
      HeldNonNegative(m - {k});
    }
  }

  ghost predicate Splits<K, H>(m: map<K, Datagram<H>>, a: map<K, Datagram<H>>, b: map<K, Datagram<H>>) {
    && a.Keys !! b.Keys && m.Keys == a.Keys + b.Keys
    && (forall k | k in a :: m[k] == a[k])
    && (forall k | k in b :: m[k] == b[k])
  }

  lemma Without<K, V>(m: map<K, V>, k: K)
    requires k in m
    ensures (m - {k}).Keys == m.Keys - {k} && |m - {k}| == |m| - 1
  {
    assert (m - {k}).Keys == m.Keys - {k};
  }

  lemma SplitsWithout<K, H>(m: map<K, Datagram<H>>, a: map<K, Datagram<H>>, b: map<K, Datagram<H>>, k: K)
    requires Splits(m, a, b) && k in a
    ensures Splits(m - {k}, a - {k}, b) && m[k] == a[k]
  {
    Without(a, k);
    Without(m, k);
  }

  lemma {:induction false} HeldSplit<K, H>(m: map<K, Datagram<H>>, a: map<K, Datagram<H>>, b: map<K, Datagram<H>>)
    requires Splits(m, a, b)
    ensures Held(m) == Held(a) + Held(b) && |m| == |a| + |b|
    decreases |a|
  {
    if a == map[] {
      assert m == b;
    } else {
      var k :| k in a;
      SplitsWithout(m, a, b, k);
      Without(a, k);
      Without(m, k);
      HeldRemove(m, k);
      HeldRemove(a, k);
      HeldSplit(m - {k}, a - {k}, b);
    }
  }

  /** Dropping subtracts exactly what the datagram held: the clamp at zero is never taken. */
  lemma DropKeepsInv<K, H>(l: Limits, s: State<K, H>, k: K)
    requires Inv(l, s)
    ensures Inv(l, Drop(s, k))
    ensures k in s.m ==> Drop(s, k).bytes == s.bytes - s.m[k].bytes
  {
    if k in s.m {
      HeldRemove(s.m, k);
      HeldNonNegative(s.m - {k});
      assert s.m.Keys == (s.m - {k}).Keys + {k};
    }
  }

  lemma SweptKeepsInv<K, H>(l: Limits, s: State<K, H>, now: int)
    requires Inv(l, s)
    ensures Inv(l, Swept(s, l.ttl, now))
  {
    var kept, gone := Kept(s.m, l.ttl, now, false), Kept(s.m, l.ttl, now, true);
    HeldSplit(s.m, kept, gone);
    HeldNonNegative(gone);
  }

  lemma ExtendKeepsSound<K, H>(d: Datagram<H>, f: Fragment<K, H>, now: int)
    requires Sound(d) && !OverlapsAny(d.pieces, f.piece)
    ensures Sound(Extend(d, f, now))
  {
    var ps := d.pieces + [f.piece];
    assert ps[..|ps| - 1] == d.pieces;
    forall i, j | 0 <= i < j < |ps|
      ensures !ps[i].Overlaps(ps[j])
    {
      assert j < |d.pieces| ==> !d.pieces[i].Overlaps(d.pieces[j]);
    }
  }

  ghost predicate Admits<K, H>(r: Rules<H>, s: State<K, H>, f: Fragment<K, H>, d: Datagram<H>) {
    && (f.key in s.m || |s.m| < r.limits.maxEntries)
    && !Clashes(r, d, f)
    && !OverlapsAny(d.pieces, f.piece)
    && s.bytes + |f.piece.data| <= r.limits.maxBytes
  }

  ghost function Found<K, H>(s: State<K, H>, k: K, now: int): (d: Datagram<H>) {
    if k in s.m then s.m[k] else Fresh(now)
  }

  ghost function Admit<K, H>(s: State<K, H>, f: Fragment<K, H>, now: int): (t: State<K, H>) {
    State(s.m[f.key := Extend(Found(s, f.key, now), f, now)], s.bytes + |f.piece.data|)
  }

  lemma AdmitKeepsInv<K, H>(r: Rules<H>, s: State<K, H>, f: Fragment<K, H>, now: int)
    requires Inv(r.limits, s) && Admits(r, s, f, Found(s, f.key, now))
    ensures Inv(r.limits, Admit(s, f, now))
  {
    var d := Found(s, f.key, now);
    var t := Admit(s, f, now);
    ExtendKeepsSound(d, f, now);
    HeldUpdate(s.m, f.key, Extend(d, f, now));
    if f.key in s.m {
      HeldRemove(s.m, f.key);
    }
    assert t.m.Keys == s.m.Keys + {f.key};
  }

  lemma SettleKeepsInv<K, H>(r: Rules<H>, s: State<K, H>, k: K)
    requires Inv(r.limits, s) && k in s.m
    ensures Inv(r.limits, Settle(r, s, k).0)
  {
    DropKeepsInv(r.limits, s, k);
  }

  lemma InsertKeepsInv<K, H>(r: Rules<H>, s: State<K, H>, f: Fragment<K, H>, now: int)
    requires Inv(r.limits, s)
    ensures Inv(r.limits, Insert(r, s, f, now).0)
  {
    if Admits(r, s, f, Found(s, f.key, now)) {
      AdmitKeepsInv(r, s, f, now);
      SettleKeepsInv(r, Admit(s, f, now), f.key);
    } else {
      DropKeepsInv(r.limits, s, f.key);
    }
  }

  lemma StepKeepsInv<K, H>(r: Rules<H>, s: State<K, H>, e: Event<K, H>)
    requires Inv(r.limits, s)
    ensures Inv(r.limits, Step(r, s, e).0)
  {
    match e
    case Arrive(f, now) =>
      SweptKeepsInv(r.limits, s, now);
      InsertKeepsInv(r, Swept(s, r.limits.ttl, now), f, now);
    case Sweep(now) =>
      SweptKeepsInv(r.limits, s, now);
    case Ignore =>
  }

  /** Every reachable table: pieces pairwise disjoint, the byte counter equal to the bytes held
      and within its limit, and no more entries than allowed. */
  lemma {:induction false} RunKeepsInv<K, H>(r: Rules<H>, es: seq<Event<K, H>>)
    ensures Inv(r.limits, Run(r, Empty(), es))
  {
    if es != [] {
      RunKeepsInv(r, es[..|es| - 1]);
      StepKeepsInv(r, Run(r, Empty(), es[..|es| - 1]), es[|es| - 1]);
    }
  }

  // ---------- Where a reassembled packet comes from ----------

  /** The arrival that created the live entry under `k`: the last one that found none after sweeping. */
  ghost function Born<K, H>(r: Rules<H>, es: seq<Event<K, H>>, k: K): (n: nat)
    requires k in Run(r, Empty(), es).m
    ensures n < |es|
    decreases |es|
  {
    var n := |es| - 1;
    WasThere(r, Run(r, Empty(), es[..n]), es[n], k);
    if Creates(r, Run(r, Empty(), es[..n]), es[n], k) then n else Born(r, es[..n], k)
  }

  ghost predicate Creates<K, H>(r: Rules<H>, s: State<K, H>, e: Event<K, H>, k: K) {
    e.Arrive? && e.f.key == k && k !in Swept(s, r.limits.ttl, e.now).m
  }

  /** The entry under `k` survives the sweeping that event `e` starts with. */
  ghost predicate Survives<K, H>(r: Rules<H>, s: State<K, H>, e: Event<K, H>, k: K) {
    k in s.m && (e != Ignore ==> k in Swept(s, r.limits.ttl, e.now).m)
  }

  lemma WasThere<K, H>(r: Rules<H>, s: State<K, H>, e: Event<K, H>, k: K)
    requires k in Step(r, s, e).0.m
    ensures Creates(r, s, e, k) || Survives(r, s, e, k)
  {
  }

  /** Events of other keys leave an entry alone, if it survives them. */
  lemma OthersStay<K, H>(r: Rules<H>, s: State<K, H>, e: Event<K, H>, k: K)
    requires k in Step(r, s, e).0.m && !(e.Arrive? && e.f.key == k)
    ensures k in s.m && Step(r, s, e).0.m[k] == s.m[k]
  {
  }

  /** That arrival found no entry, and the one it made was neither dropped nor swept since. */
  lemma {:induction false} OneEntrySince<K, H>(r: Rules<H>, es: seq<Event<K, H>>, k: K)
    requires k in Run(r, Empty(), es).m
    ensures var b := Born(r, es, k);
      && Creates(r, Run(r, Empty(), es[..b]), es[b], k)
      && forall j | b < j < |es| :: Survives(r, Run(r, Empty(), es[..j]), es[j], k)
    decreases |es|
  {
    hide Creates, Survives, Step;
    var n := |es| - 1;
    var before := es[..n];
    WasThere(r, Run(r, Empty(), before), es[n], k);
    if !Creates(r, Run(r, Empty(), before), es[n], k) {
      assert k in Run(r, Empty(), before).m by { SurvivorWasThere(r, Run(r, Empty(), before), es[n], k); }
      OneEntrySince(r, before, k);
      assert forall j | 0 <= j <= n :: before[..j] == es[..j];
    }
  }

  lemma SurvivorWasThere<K, H>(r: Rules<H>, s: State<K, H>, e: Event<K, H>, k: K)
    requires Survives(r, s, e, k)
    ensures k in s.m
  {
  }

  /** A fragment with head `g` could join a datagram with head `h`. */
  ghost predicate Agreeing<H>(r: Rules<H>, h: Option<H>, g: Option<H>) {
    g.None? || g == h || (h.Some? && r.agree(h.value, g.value))
  }

  /** An arrival from event `from` on delivered piece `p` under key `k`, with a head that agrees with `h`. */
  ghost predicate PieceFrom<K, H>(r: Rules<H>, es: seq<Event<K, H>>, from: nat, k: K, h: Option<H>, p: Piece) {
    exists i | from <= i < |es| ::
      es[i].Arrive? && es[i].f.key == k && es[i].f.piece == p && Agreeing(r, h, es[i].f.head)
  }

  ghost predicate HeadFrom<K, H>(es: seq<Event<K, H>>, from: nat, k: K, h: Option<H>) {
    exists i | from <= i < |es| :: es[i].Arrive? && es[i].f.key == k && es[i].f.head == h
  }

  ghost predicate LastFrom<K, H>(es: seq<Event<K, H>>, from: nat, k: K, last: nat) {
    exists i | from <= i < |es| ::
      es[i].Arrive? && es[i].f.key == k && !es[i].f.more && es[i].f.piece.End() == last
  }

  ghost predicate Explained<K, H>(r: Rules<H>, es: seq<Event<K, H>>, from: nat, k: K, d: Datagram<H>) {
    && (forall i | 0 <= i < |d.pieces| :: PieceFrom(r, es, from, k, d.head, d.pieces[i]))
    && (d.head.Some? ==> HeadFrom(es, from, k, d.head))
    && (d.last.Some? ==> LastFrom(es, from, k, d.last.value))
  }

  /** What was explained stays so, also once the datagram gets its head. */
  lemma PieceLater<K, H>(r: Rules<H>, es: seq<Event<K, H>>, from: nat, e: Event<K, H>, k: K,
                         h: Option<H>, g: Option<H>, p: Piece)
    requires PieceFrom(r, es, from, k, h, p) && (h.Some? ==> g == h)
    ensures PieceFrom(r, es + [e], from, k, g, p)
  {
    var j :| from <= j < |es| && es[j].Arrive? && es[j].f.key == k && es[j].f.piece == p
             && Agreeing(r, h, es[j].f.head);
    assert (es + [e])[j] == es[j];
  }

  lemma ExplainedLater<K, H>(r: Rules<H>, es: seq<Event<K, H>>, from: nat, e: Event<K, H>, k: K, d: Datagram<H>)
    requires Explained(r, es, from, k, d)
    ensures Explained(r, es + [e], from, k, d)
  {
    hide PieceFrom;
    var fs := es + [e];
    forall i | 0 <= i < |d.pieces|
      ensures PieceFrom(r, fs, from, k, d.head, d.pieces[i])
    {
      PieceLater(r, es, from, e, k, d.head, d.head, d.pieces[i]);
    }
    if d.head.Some? {
      var j :| from <= j < |es| && es[j].Arrive? && es[j].f.key == k && es[j].f.head == d.head;
      assert fs[j] == es[j];
    }
    if d.last.Some? {
      var j :| from <= j < |es| && es[j].Arrive? && es[j].f.key == k && !es[j].f.more
               && es[j].f.piece.End() == d.last.value;
      assert fs[j] == es[j];
    }
  }

  lemma ExtendExplained<K, H>(r: Rules<H>, es: seq<Event<K, H>>, from: nat, f: Fragment<K, H>, now: int,
                              d: Datagram<H>)
    requires from <= |es| && Explained(r, es, from, f.key, d) && !Clashes(r, d, f)
    ensures Explained(r, es + [Arrive(f, now)], from, f.key, Extend(d, f, now))
  {
    var fs, e := es + [Arrive(f, now)], Extend(d, f, now);
    ExplainedLater(r, es, from, Arrive(f, now), f.key, d);
    assert fs[|es|] == Arrive(f, now);
    assert PieceFrom(r, fs, from, f.key, e.head, f.piece);
    hide PieceFrom;
    forall i | 0 <= i < |e.pieces|
      ensures PieceFrom(r, fs, from, f.key, e.head, e.pieces[i])
    {
      if i < |d.pieces| {
        PieceLater(r, es, from, Arrive(f, now), f.key, d.head, e.head, d.pieces[i]);
      }
    }
  }

  lemma StillHere<K, H>(r: Rules<H>, s: State<K, H>, f: Fragment<K, H>, now: int)
    requires f.key in Insert(r, s, f, now).0.m
    ensures Insert(r, s, f, now).0.m[f.key] == Extend(Found(s, f.key, now), f, now)
    ensures !Clashes(r, Found(s, f.key, now), f)
  {
  }

  /** Every piece, head and final length of a live entry was delivered under its key since it was created, the
      pieces with heads that agree with the entry's. */
  lemma {:induction false} RunExplained<K, H>(r: Rules<H>, es: seq<Event<K, H>>, k: K)
    requires k in Run(r, Empty(), es).m
    ensures Explained(r, es, Born(r, es, k), k, Run(r, Empty(), es).m[k])
    decreases |es|
  {
    hide Explained, Clashes;
    var n := |es| - 1;
    assert es == es[..n] + [es[n]];
    var s := Run(r, Empty(), es[..n]);
    WasThere(r, s, es[n], k);
    if Creates(r, s, es[n], k) {
      NothingToExplain(r, es[..n], n, k, es[n].now);
      StillHere(r, Swept(s, r.limits.ttl, es[n].now), es[n].f, es[n].now);
      ExtendExplained(r, es[..n], n, es[n].f, es[n].now, Fresh(es[n].now));
    } else {
      RunExplained(r, es[..n], k);
      if es[n].Arrive? && es[n].f.key == k {
        StillHere(r, Swept(s, r.limits.ttl, es[n].now), es[n].f, es[n].now);
        ExtendExplained(r, es[..n], Born(r, es[..n], k), es[n].f, es[n].now, s.m[k]);
      } else {
        ExplainedLater(r, es[..n], Born(r, es[..n], k), es[n], k, s.m[k]);
      }
    }
  }

  lemma NothingToExplain<K, H>(r: Rules<H>, es: seq<Event<K, H>>, from: nat, k: K, now: int)
    ensures Explained(r, es, from, k, Fresh<H>(now))
  {
  }

  // ---------- How long entries live ----------

  /** A sweep keeps exactly the entries whose last fragment is not older than the lifetime. */
  lemma SweptExactly<K, H>(s: State<K, H>, ttl: int, now: int, k: K)
    ensures k in Swept(s, ttl, now).m <==> k in s.m && now - s.m[k].updated <= ttl
    ensures k in Swept(s, ttl, now).m ==> Swept(s, ttl, now).m[k] == s.m[k]
  {
  }

  /** An entry's time is that of an arrival of its own. */
  lemma {:induction false} UpdatedByArrival<K, H>(r: Rules<H>, es: seq<Event<K, H>>, k: K) returns (i: nat)
    requires k in Run(r, Empty(), es).m
    ensures i < |es| && es[i].Arrive? && es[i].f.key == k && Run(r, Empty(), es).m[k].updated == es[i].now
    decreases |es|
  {
    hide Step;
    var n := |es| - 1;
    var s := Run(r, Empty(), es[..n]);
    if es[n].Arrive? && es[n].f.key == k {
      i := n;
      ArrivalUpdates(r, s, es[n].f, es[n].now);
    } else {
      OthersStay(r, s, es[n], k);
      i := UpdatedByArrival(r, es[..n], k);
    }
  }

  lemma ArrivalUpdates<K, H>(r: Rules<H>, s: State<K, H>, f: Fragment<K, H>, now: int)
    requires f.key in Step(r, s, Arrive(f, now)).0.m
    ensures Step(r, s, Arrive(f, now)).0.m[f.key].updated == now
  {
    hide Insert;
    StillHere(r, Swept(s, r.limits.ttl, now), f, now);
  }

  /** Nothing stale is kept: right after any arrival or sweep, every other live entry got a fragment within one
      lifetime. */
  lemma NothingStale<K, H>(r: Rules<H>, es: seq<Event<K, H>>, k: K)
    requires es != [] && es[|es| - 1] != Ignore && k in Run(r, Empty(), es).m
    ensures exists i | 0 <= i < |es| ::
      && es[i].Arrive? && es[i].f.key == k
      && (i == |es| - 1 || es[|es| - 1].now - es[i].now <= r.limits.ttl)
  {
    hide Step;
    var n := |es| - 1;
    if !(es[n].Arrive? && es[n].f.key == k) {
      var i := UpdatedByArrival(r, es, k);
      var s := Run(r, Empty(), es[..n]);
      OthersStay(r, s, es[n], k);
      WasThere(r, s, es[n], k);
      SweptExactly(s, r.limits.ttl, es[n].now, k);
    }
  }

  /** An arrival does not touch other entries. */
  lemma OthersUntouched<K, H>(r: Rules<H>, s: State<K, H>, f: Fragment<K, H>, now: int, k: K)
    requires k != f.key
    ensures var t := Insert(r, s, f, now).0; (k in t.m <==> k in s.m) && (k in s.m ==> t.m[k] == s.m[k])
  {
  }

  /** What it does to its own entry: extended if the answer is pending, otherwise there is none. It is refused at
      the door exactly if it is not admitted, and for the final length only if a piece lies beyond it. */
  lemma AftermathExactly<K, H>(r: Rules<H>, s: State<K, H>, f: Fragment<K, H>, now: int)
    ensures var o := Insert(r, s, f, now); var d := Found(s, f.key, now); var e := Extend(d, f, now);
      && (o.1.Pending? <==> f.key in o.0.m)
      && (o.1.Pending? ==> o.0.m[f.key] == e && o.0.bytes == s.bytes + |f.piece.data|)
      && (o.1.Refused? && o.1.reason != PastFinal && o.1.reason != Unbuildable <==> !Admits(r, s, f, d))
      && (o.1 == Refused(PastFinal) ==> e.last.Some? && !Within(e.pieces, e.last.value))
  {
    hide Within, Full, OverlapsAny, Extend;
  }

  ghost predicate Tiles(ps: seq<Piece>, last: nat) {
    Disjoint(ps) && Within(ps, last) && Full(ps, last) && Weight(ps) == last
  }

  /** `d` is complete and yields `o`. */
  ghost predicate Completes<H>(r: Rules<H>, d: Datagram<H>, o: Outcome) {
    && d.head.Some? && d.last.Some?
    && Within(d.pieces, d.last.value) && Full(d.pieces, d.last.value)
    && var out := r.build(d.head.value, Assemble(d.pieces, d.last.value));
       out.Some? && o == Ready(out.value, d.maxPacket)
  }

  /** The packet comes out exactly on the admitted arrival that completes the datagram. */
  lemma ReadyMeansComplete<K, H>(r: Rules<H>, s: State<K, H>, f: Fragment<K, H>, now: int)
    ensures var d := Found(s, f.key, now); var o := Insert(r, s, f, now);
      o.1.Ready? <==> Admits(r, s, f, d) && Completes(r, Extend(d, f, now), o.1)
  {
  }

  lemma OverlayIsFaithful(ps: seq<Piece>, last: nat)
    requires Disjoint(ps) && Within(ps, last) && Full(ps, last)
    ensures Tiles(ps, last)
    ensures forall i, x | 0 <= i < |ps| && ps[i].Covers(x) ::
              Assemble(ps, last)[x] == ps[i].data[x - ps[i].off]
  {
    TilingIsExact(ps, last);
    forall i, x | 0 <= i < |ps| && ps[i].Covers(x)
      ensures Assemble(ps, last)[x] == ps[i].data[x - ps[i].off]
    {
      ByteAtUnique(ps, i, x);
    }
  }

  /** A packet comes out of a run of arbitrary arrivals and sweeps only when fragments delivered
      under its key since its entry was created tile the payload exactly. With `OverlayIsFaithful`,
      each payload byte is the byte of the one fragment that covers it. */
  lemma ReadyIsExplained<K, H>(r: Rules<H>, es: seq<Event<K, H>>, f: Fragment<K, H>, now: int)
    returns (d: Datagram<H>, from: nat)
    requires Step(r, Run(r, Empty(), es), Arrive(f, now)).1.Ready?
    ensures Completes(r, d, Step(r, Run(r, Empty(), es), Arrive(f, now)).1)
    ensures Tiles(d.pieces, d.last.value)
    ensures if Creates(r, Run(r, Empty(), es), Arrive(f, now), f.key) then from == |es|
            else f.key in Run(r, Empty(), es).m && from == Born(r, es, f.key)
    ensures Explained(r, es + [Arrive(f, now)], from, f.key, d)
  {
    var s := Swept(Run(r, Empty(), es), r.limits.ttl, now);
    d := Extend(Found(s, f.key, now), f, now);
    ReadyMeansComplete(r, s, f, now);
    if f.key in s.m {
      from := Born(r, es, f.key);
      RunExplained(r, es, f.key);
    } else {
      from := |es|;
      NothingToExplain(r, es, from, f.key, now);
    }
    hide Explained;
    ExtendExplained(r, es, from, f, now, Found(s, f.key, now));
    RunKeepsInv(r, es);
    SweptKeepsInv(r.limits, Run(r, Empty(), es), now);
    ExtendKeepsSound(Found(s, f.key, now), f, now);
    OverlayIsFaithful(d.pieces, d.last.value);
  }
}
