/** The routing part of the capture loop. The loop is one goroutine; other goroutines may set or remove
    proxy routes and remove flow routes between any two of its table operations. */
module Routing {
  import opened Bytes
  import opened Packet

  datatype Key = Key(proto: byte, local: Addr, remote: Addr, localPort: uint16, remotePort: uint16)
  datatype ProxyKey = ProxyKey(proto: byte, localPort: uint16, remote: Addr, remotePort: uint16)

  function ProxyKeyOf(k: Key): (p: ProxyKey) { ProxyKey(k.proto, k.localPort, Unmap(k.remote), k.remotePort) }

  // ---------- The capture loop ----------

  datatype Captured = Captured(key: Key, syn: bool)

  /** Who fixed an epoch's choice, and whether that packet was a TCP SYN. */
  datatype Origin = Origin(tunnel: bool, viaProxy: bool, syn: bool)

  /** The loop between two table operations on one packet. */
  datatype Capture =
    | Idle
    | GotProxy(p: Captured, proxy: Option<bool>)
    | GotRoute(p: Captured, proxy: Option<bool>, route: Option<bool>, epoch: nat)
    | Decided(p: Captured, tunnel: bool, viaProxy: bool, first: bool, epoch: nat)

  /** What was done with a packet: sent DIRECT or through the tunnel. Dropped packets leave no record. */
  datatype Record = Record(k: Key, epoch: nat, tunnel: bool, viaProxy: bool)

  /** Live routes. `epoch[k]` counts the removals of `k`'s route so far and `made` remembers how each
      epoch's entry came to be; neither exists in the program, they name the periods the property speaks of. */
  datatype Table = Table(routes: map<Key, bool>, epoch: map<Key, nat>, made: map<(Key, nat), Origin>) {
    function EpochOf(k: Key): (n: nat) { if k in epoch then epoch[k] else 0 }

    /** Removing an entry that is there ends its epoch. */
    function Removed(k: Key): (t: Table) {
      if k !in routes then this else this.(routes := routes - {k}, epoch := epoch[k := EpochOf(k) + 1])
    }

    /** Set: files the choice unless the key has a route already. */
    function Filed(k: Key, o: Origin): (t: Table) {
      if k in routes then this else this.(routes := routes[k := o.tunnel], made := made[(k, EpochOf(k)) := o])
    }

    ghost predicate MadeAs(k: Key, n: nat, tunnel: bool) {
      (k, n) in made && made[(k, n)].tunnel == tunnel
    }
  }

  datatype State = State(table: Table, proxies: map<ProxyKey, bool>, cap: Capture, log: seq<Record>)

  datatype Event =
    | Take(p: Captured)
    | LookUp
    | Decide(policy: bool)
    | Finish(learned: bool)
    | Drop
    | RemoveRoute(k: Key)
    | SetProxy(pk: ProxyKey, tunnel: bool)
    | RemoveProxy(pk: ProxyKey)

  predicate IsTcp(k: Key) { k.proto == TCP }

  /** What the proxy table says about a flow. */
  function ProxyFor(proxies: map<ProxyKey, bool>, k: Key): (r: Option<bool>) {
    var pk := ProxyKeyOf(k);
    if pk in proxies then Some(proxies[pk]) else None
  }

  function Taken(s: State, p: Captured): (c: Capture) { GotProxy(p, ProxyFor(s.proxies, p.key)) }

  function LookedUp(t: Table, p: Captured, proxy: Option<bool>): (c: Capture) {
    GotRoute(p, proxy, if p.key in t.routes then Some(t.routes[p.key]) else None, t.EpochOf(p.key))
  }

  /** Who decides on the packet in hand, and how. */
  function Choice(c: Capture, policy: bool): (o: Origin)
    requires c.GotRoute?
  {
    if c.proxy.Some? then Origin(c.proxy.value, true, c.p.syn)
    else Origin(if c.route.Some? then c.route.value else policy, false, c.p.syn)
  }

  /** A sticky hit sets nothing; a proxy hit or a first packet does. */
  function DecidedTable(t: Table, c: Capture, policy: bool): (u: Table)
    requires c.GotRoute?
  {
    if c.proxy.None? && c.route.Some? then t else t.Filed(c.p.key, Choice(c, policy))
  }

  function DecidedHand(t: Table, c: Capture, policy: bool): (d: Capture)
    requires c.GotRoute?
  {
    var o := Choice(c, policy);
    Decided(c.p, o.tunnel, o.viaProxy, c.proxy.None? && c.route.None?,
            if c.proxy.None? && c.route.Some? then c.epoch else t.EpochOf(c.p.key))
  }

  /** A learned hostname resets a DIRECT flow; the first packet of a tunnelled TCP flow must be a SYN. */
  predicate Resets(c: Capture, learned: bool)
    requires c.Decided?
  {
    (!c.tunnel && learned && !c.viaProxy) || (c.tunnel && c.first && IsTcp(c.p.key) && !c.p.syn)
  }

  function Step(s: State, e: Event): (t: State) {
    match e
    case Take(p) => if s.cap.Idle? then s.(cap := Taken(s, p)) else s
    case LookUp => if s.cap.GotProxy? then s.(cap := LookedUp(s.table, s.cap.p, s.cap.proxy)) else s
    case Decide(policy) =>
      if s.cap.GotRoute?
      then s.(table := DecidedTable(s.table, s.cap, policy), cap := DecidedHand(s.table, s.cap, policy)) else s
    case Finish(learned) =>
      if !s.cap.Decided? then s
      else if Resets(s.cap, learned) then s.(table := s.table.Removed(s.cap.p.key), cap := Idle)
      else s.(cap := Idle, log := s.log + [Record(s.cap.p.key, s.cap.epoch, s.cap.tunnel, s.cap.viaProxy)])
    case Drop => if s.cap.Decided? && !Resets(s.cap, false) then s.(cap := Idle) else s
    case RemoveRoute(k) => s.(table := s.table.Removed(k))
    case SetProxy(pk, tunnel) => s.(proxies := s.proxies[pk := tunnel])
    case RemoveProxy(pk) => s.(proxies := s.proxies - {pk})
  }

  const Start := State(Table(map[], map[], map[]), map[], Idle, [])

  ghost function Run(es: seq<Event>): (s: State) {
    if es == [] then Start else Step(Run(es[..|es| - 1]), es[|es| - 1])
  }

  // ---------- Stickiness ----------

  /** Live entries follow the choice that opened their epoch, and only past and live epochs have an origin. */
  ghost predicate Kept(t: Table) {
    && (forall k | k in t.routes :: t.MadeAs(k, t.EpochOf(k), t.routes[k]))
    && (forall k, n | (k, n) in t.made :: n <= t.EpochOf(k) && (n == t.EpochOf(k) ==> k in t.routes))
  }

  /** So does everything recorded outside the proxy; every record belongs to an epoch with an origin. */
  ghost predicate Logged(t: Table, log: seq<Record>) {
    && (forall i | 0 <= i < |log| :: (log[i].k, log[i].epoch) in t.made)
    && (forall i | 0 <= i < |log| && !log[i].viaProxy :: t.MadeAs(log[i].k, log[i].epoch, log[i].tunnel))
  }

  /** And so does the packet in hand. */
  ghost predicate Held(t: Table, c: Capture) {
    match c
    case GotRoute(p, _, route, epoch) =>
      if route.None? then p.key !in t.routes else t.MadeAs(p.key, epoch, route.value)
    case Decided(p, tunnel, viaProxy, first, epoch) =>
      (p.key, epoch) in t.made && (viaProxy || t.MadeAs(p.key, epoch, tunnel))
    case _ => true
  }

  ghost predicate Sticky(s: State) { Kept(s.table) && Logged(s.table, s.log) && Held(s.table, s.cap) }

  /** `u` knows every origin `t` knows. */
  ghost predicate Extends(t: Table, u: Table) {
    forall q | q in t.made :: q in u.made && u.made[q] == t.made[q]
  }

  /** An epoch's origin is written once. */
  lemma FiledOnce(t: Table, k: Key, o: Origin)
    requires Kept(t)
    ensures var u := t.Filed(k, o);
      && Kept(u) && Extends(t, u) && k in u.routes && u.EpochOf(k) == t.EpochOf(k)
      && (k !in t.routes ==> u.MadeAs(k, t.EpochOf(k), o.tunnel))
  {
    if k !in t.routes {
      assert (k, t.EpochOf(k)) !in t.made;
    }
  }

  lemma RemovedKept(t: Table, k: Key)
    requires Kept(t)
    ensures Kept(t.Removed(k)) && Extends(t, t.Removed(k))
  {
  }

  lemma StickyDecide(s: State, policy: bool)
    requires Sticky(s)
    ensures Sticky(Step(s, Decide(policy)))
  {
    if s.cap.GotRoute? {
      FiledOnce(s.table, s.cap.p.key, Choice(s.cap, policy));
    }
  }

  lemma StickyFinish(s: State, learned: bool)
    requires Sticky(s)
    ensures Sticky(Step(s, Finish(learned)))
  {
    if s.cap.Decided? {
      RemovedKept(s.table, s.cap.p.key);
    }
  }

  lemma StickyStep(s: State, e: Event)
    requires Sticky(s)
    ensures Sticky(Step(s, e))
  {
    match e
    case Decide(policy) => StickyDecide(s, policy);
    case Finish(learned) => StickyFinish(s, learned);
    case RemoveRoute(k) => RemovedKept(s.table, k);
    case Drop =>
    case LookUp =>
    case Take(_) =>
    case SetProxy(_, _) =>
    case RemoveProxy(_) =>
  }

  lemma {:induction false} RunIsSticky(es: seq<Event>)
    ensures Sticky(Run(es))
  {
    if es != [] {
      RunIsSticky(es[..|es| - 1]);
      StickyStep(Run(es[..|es| - 1]), es[|es| - 1]);
    }
  }

  /** Between two removals of a flow's route entry, all its packets that no proxy route decides
      get one choice, whatever the policy says meanwhile. */
  lemma OneChoicePerEpoch(es: seq<Event>, i: nat, j: nat)
    requires i < |Run(es).log| && j < |Run(es).log|
    requires var a, b := Run(es).log[i], Run(es).log[j]; a.k == b.k && a.epoch == b.epoch && !a.viaProxy && !b.viaProxy
    ensures Run(es).log[i].tunnel == Run(es).log[j].tunnel
  {
    RunIsSticky(es);
  }

  // ---------- Whose choice it is ----------

  /** Event `j` decides on a packet of `k` that the tables know as `proxy` and `route`. */
  ghost predicate DecidesAt(es: seq<Event>, j: nat, k: Key) {
    j < |es| && es[j].Decide? && Run(es[..j]).cap.GotRoute? && Run(es[..j]).cap.p.key == k
  }

  lemma OriginStep(s: State, e: Event, q: (Key, nat))
    requires q in Step(s, e).table.made && !(q in s.table.made && s.table.made[q] == Step(s, e).table.made[q])
    ensures e.Decide? && s.cap.GotRoute? && s.cap.p.key == q.0
    ensures var o := Step(s, e).table.made[q];
      && o.viaProxy == s.cap.proxy.Some? && o.syn == s.cap.p.syn
      && (o.viaProxy ==> o.tunnel == s.cap.proxy.value)
      && (!o.viaProxy ==> s.cap.route.None? && o.tunnel == e.policy)
  {
  }

  /** Every epoch was opened by a decision on a packet of its flow: with the proxy route's choice if the proxy
      table had one for that packet, and otherwise with exactly what the policy then said. */
  lemma {:induction false} OriginCameFrom(es: seq<Event>, k: Key, n: nat) returns (j: nat)
    requires (k, n) in Run(es).table.made
    ensures DecidesAt(es, j, k)
    ensures var o, c := Run(es).table.made[(k, n)], Run(es[..j]).cap;
      && o.viaProxy == c.proxy.Some? && o.syn == c.p.syn
      && (o.viaProxy ==> o.tunnel == c.proxy.value)
      && (!o.viaProxy ==> c.route.None? && o.tunnel == es[j].policy)
    decreases |es|
  {
    hide Step;
    var m := |es| - 1;
    var s := Run(es[..m]);
    if (k, n) in s.table.made && s.table.made[(k, n)] == Run(es).table.made[(k, n)] {
      j := OriginCameFrom(es[..m], k, n);
      assert es[..m][..j] == es[..j];
    } else {
      OriginStep(s, es[m], (k, n));
      j := m;
    }
  }

  /** What other goroutines may do between two operations of the loop. */
  predicate Foreign(e: Event) { e.RemoveRoute? || e.SetProxy? || e.RemoveProxy? }

  ghost function Onward(s: State, es: seq<Event>): (t: State) {
    if es == [] then s else Step(Onward(s, es[..|es| - 1]), es[|es| - 1])
  }

  lemma {:induction false} ForeignLeavesHand(s: State, es: seq<Event>)
    requires forall i | 0 <= i < |es| :: Foreign(es[i])
    ensures Onward(s, es).cap == s.cap && Onward(s, es).log == s.log
  {
    if es != [] {
      ForeignLeavesHand(s, es[..|es| - 1]);
      assert Foreign(es[|es| - 1]);
    }
  }

  /** The fate of one packet, whatever other goroutines do to the tables meanwhile. A proxy route decides, else the
      flow's live entry, else the policy. The packet is recorded with that choice, unless a hostname was learned
      for a flow the proxy does not know and which goes DIRECT, or it is the first packet of a TCP flow to be
      tunnelled and no SYN; then nothing is recorded and the flow's entry is gone. */
  lemma PacketFate(s: State, p: Captured, e1: seq<Event>, e2: seq<Event>, policy: bool, e3: seq<Event>, learned: bool)
    requires s.cap.Idle?
    requires forall i | 0 <= i < |e1| :: Foreign(e1[i])
    requires forall i | 0 <= i < |e2| :: Foreign(e2[i])
    requires forall i | 0 <= i < |e3| :: Foreign(e3[i])
    ensures var pk, k := ProxyKeyOf(p.key), p.key;
            var s1 := Onward(Step(s, Take(p)), e1); var s2 := Onward(Step(s1, LookUp), e2);
            var s3 := Onward(Step(s2, Decide(policy)), e3); var t := Step(s3, Finish(learned));
            var proxied, sticky := pk in s.proxies, k in s1.table.routes;
            var choice := if proxied then s.proxies[pk] else if sticky then s1.table.routes[k] else policy;
      && t.cap.Idle?
      && if (!proxied && !choice && learned) || (!proxied && !sticky && choice && k.proto == 6 && !p.syn) then
           t.log == s.log && k !in t.table.routes
         else
           && |t.log| == |s.log| + 1 && t.log[..|s.log|] == s.log
           && t.log[|s.log|].k == k && t.log[|s.log|].tunnel == choice && t.log[|s.log|].viaProxy == proxied
  {
    hide Onward;
    var s1 := Onward(Step(s, Take(p)), e1);
    var s2 := Onward(Step(s1, LookUp), e2);
    ForeignLeavesHand(Step(s, Take(p)), e1);
    ForeignLeavesHand(Step(s1, LookUp), e2);
    ForeignLeavesHand(Step(s2, Decide(policy)), e3);
  }

  // ---------- Proxy routes ----------

  /** Record `i` was written at event `q` for the packet taken at event `m`. */
  ghost predicate WrittenFor(es: seq<Event>, i: nat, m: nat, q: nat) {
    && m < q < |es| && es[m].Take? && i < |Run(es).log| && es[m].p.key == Run(es).log[i].k
    && Run(es[..m]).cap.Idle? && (forall j | m < j <= q :: !Run(es[..j]).cap.Idle?)
    && Run(es[..q]).log == Run(es).log[..i] && Run(es[..q + 1]).log == Run(es).log[..i + 1]
  }

  /** What the hand remembers of the proxy table. */
  ghost function ViaOf(c: Capture): (r: Option<bool>)
    requires !c.Idle?
  {
    if c.Decided? then (if c.viaProxy then Some(c.tunnel) else None) else c.proxy
  }

  /** A step that does not end the packet keeps it, and what the proxy table said about it. */
  lemma HandStays(s: State, e: Event)
    requires !s.cap.Idle? && !Step(s, e).cap.Idle?
    ensures Step(s, e).cap.p == s.cap.p && ViaOf(Step(s, e).cap) == ViaOf(s.cap)
  {
  }

  lemma {:induction false} HandCameFrom(es: seq<Event>) returns (m: nat)
    requires !Run(es).cap.Idle?
    ensures m < |es| && es[m] == Take(Run(es).cap.p) && Run(es[..m]).cap.Idle?
    ensures forall j | m < j <= |es| :: !Run(es[..j]).cap.Idle?
    ensures ViaOf(Run(es).cap) == ProxyFor(Run(es[..m]).proxies, Run(es).cap.p.key)
    decreases |es|
  {
    hide ViaOf, Choice, DecidedTable, DecidedHand, ProxyFor;
    var n := |es| - 1;
    assert es[..n + 1] == es;
    if Run(es[..n]).cap.Idle? {
      m := n;
      TakenAsks(Run(es[..n]), es[n]);
    } else {
      m := HandCameFrom(es[..n]);
      HandStays(Run(es[..n]), es[n]);
      assert forall j | 0 <= j <= n :: es[..n][..j] == es[..j];
    }
  }

  lemma TakenAsks(s: State, e: Event)
    requires s.cap.Idle? && !Step(s, e).cap.Idle?
    ensures e == Take(Step(s, e).cap.p) && ViaOf(Step(s, e).cap) == ProxyFor(s.proxies, Step(s, e).cap.p.key)
  {
  }

  /** A record is written by the step that ends its packet. */
  lemma RecordIsHand(s: State, e: Event)
    ensures var t := Step(s, e);
      || t.log == s.log
      || (&& !s.cap.Idle? && |t.log| == |s.log| + 1 && t.log[..|s.log|] == s.log && t.log[|s.log|].k == s.cap.p.key
          && ViaOf(s.cap) == if t.log[|s.log|].viaProxy then Some(t.log[|s.log|].tunnel) else None)
  {
  }

  /** Every record comes from one packet, and was decided by a proxy route exactly if the proxy table had one
      for the flow when that packet was taken. */
  lemma {:induction false} RecordCameFrom(es: seq<Event>, i: nat) returns (m: nat, q: nat)
    requires i < |Run(es).log|
    ensures WrittenFor(es, i, m, q)
    ensures var r := Run(es).log[i];
      ProxyFor(Run(es[..m]).proxies, r.k) == if r.viaProxy then Some(r.tunnel) else None
    decreases |es|
  {
    hide Step, ProxyFor, ViaOf;
    var n := |es| - 1;
    var before := es[..n];
    RecordIsHand(Run(before), es[n]);
    assert es[..n + 1] == es && forall j | 0 <= j <= n :: before[..j] == es[..j];
    if i < |Run(before).log| {
      m, q := RecordCameFrom(before, i);
      assert Run(es).log[..i] == Run(before).log[..i] && Run(es).log[..i + 1] == Run(before).log[..i + 1];
    } else {
      m := HandCameFrom(before);
      q := n;
      assert Run(es).log[..i + 1] == Run(es).log;
    }
  }

  /** Exactly when a packet is routed against the choice that opened its epoch: when, at the moment it was
      taken, the proxy table held the other choice for its flow. */
  lemma DissentsExactlyByProxy(es: seq<Event>, i: nat) returns (m: nat, q: nat)
    requires i < |Run(es).log|
    ensures WrittenFor(es, i, m, q)
    ensures var r, made := Run(es).log[i], Run(es).table.made;
      && (r.k, r.epoch) in made
      && (r.tunnel != made[(r.k, r.epoch)].tunnel
          <==> ProxyFor(Run(es[..m]).proxies, r.k) == Some(!made[(r.k, r.epoch)].tunnel))
  {
    m, q := RecordCameFrom(es, i);
    RunIsSticky(es);
    hide Run, ProxyFor;
  }

  /** From here on no proxy route for `pk` is set to anything but `v`. */
  ghost predicate Uncontested(es: seq<Event>, pk: ProxyKey, v: bool) {
    forall i | 0 <= i < |es| && es[i].SetProxy? && es[i].pk == pk :: es[i].tunnel == v
  }

  /** The packet in hand, if it belongs to `pk`, was not told otherwise by the proxy table. */
  ghost predicate HandAgrees(c: Capture, pk: ProxyKey, v: bool) {
    !c.Idle? && ProxyKeyOf(c.p.key) == pk ==> ViaOf(c) != Some(!v)
  }

  /** Since `base`, whatever a proxy route for `pk` decided was `v`. */
  ghost predicate Unanimous(base: State, s: State, pk: ProxyKey, v: bool) {
    && (pk in s.proxies ==> s.proxies[pk] == v)
    && HandAgrees(s.cap, pk, v)
    && |base.log| <= |s.log|
    && (forall i | |base.log| <= i < |s.log| && ProxyKeyOf(s.log[i].k) == pk && s.log[i].viaProxy ::
          s.log[i].tunnel == v)
    && (forall q | q in s.table.made && q !in base.table.made && ProxyKeyOf(q.0) == pk && s.table.made[q].viaProxy ::
          s.table.made[q].tunnel == v)
  }

  lemma UnanimousStep(base: State, s: State, e: Event, pk: ProxyKey, v: bool)
    requires Unanimous(base, s, pk, v) && (e.SetProxy? && e.pk == pk ==> e.tunnel == v)
    ensures Unanimous(base, Step(s, e), pk, v)
  {
    match e
    case Decide(policy) =>
      if s.cap.GotRoute? {
        assert Choice(s.cap, policy).viaProxy <==> s.cap.proxy.Some?;
      }
    case _ =>
  }

  lemma {:induction false} RunIsUnanimous(pre: seq<Event>, es: seq<Event>, pk: ProxyKey, v: bool)
    requires Uncontested(es, pk, v) && HandAgrees(Run(pre).cap, pk, v)
    requires pk in Run(pre).proxies ==> Run(pre).proxies[pk] == v
    ensures Unanimous(Run(pre), Run(pre + es), pk, v)
    decreases |es|
  {
    if es == [] {
      assert pre + es == pre;
    } else {
      var n := |es| - 1;
      assert (pre + es)[..|pre + es| - 1] == pre + es[..n] && (pre + es)[|pre + es| - 1] == es[n];
      assert forall i | 0 <= i < n :: es[..n][i] == es[i];
      RunIsUnanimous(pre, es[..n], pk, v);
      UnanimousStep(Run(pre), Run(pre + es[..n]), es[n], pk, v);
    }
  }

  /** A proxy route's choice outlives the route. Whatever happened in `pre`, if the proxy table then holds
      nothing but `v` for the flow and is not set otherwise later, every later packet of an epoch with that
      choice, or of an epoch that a proxy route opens later, gets `v`; the route may be removed at any time. */
  lemma ProxyChoiceOutlivesItsRoute(pre: seq<Event>, es: seq<Event>, k: Key, n: nat, v: bool, i: nat)
    requires HandAgrees(Run(pre).cap, ProxyKeyOf(k), v) && ProxyFor(Run(pre).proxies, k) != Some(!v)
    requires Uncontested(es, ProxyKeyOf(k), v)
    requires |Run(pre).log| <= i < |Run(pre + es).log|
    requires Run(pre + es).log[i].k == k && Run(pre + es).log[i].epoch == n
    requires var made := Run(pre + es).table.made;
      (k, n) in made && (made[(k, n)].tunnel == v || (made[(k, n)].viaProxy && (k, n) !in Run(pre).table.made))
    ensures Run(pre + es).log[i].tunnel == v
  {
    RunIsSticky(pre + es);
    RunIsUnanimous(pre, es, ProxyKeyOf(k), v);
    hide Run;
    assert (k, n).0 == k;
  }

  /** It does happen: a proxy route set after a flow went DIRECT takes the flow's next packet into the tunnel. */
  lemma LateProxyRouteDissents(k: Key) returns (es: seq<Event>)
    ensures var log := Run(es).log;
      |log| == 2 && log[0] == Record(k, 0, false, false) && log[1] == Record(k, 0, true, true)
  {
    var p := Captured(k, true);
    var a := [Take(p), LookUp, Decide(false), Finish(false)];
    var b := a + [SetProxy(ProxyKeyOf(k), true), Take(p), LookUp, Decide(false)];
    es := b + [Finish(false)];
    var t := Table(map[k := false], map[], map[(k, 0) := Origin(false, false, true)]);
    Unroll4(a);
    assert Run(a) == State(t, map[], Idle, [Record(k, 0, false, false)]);
    assert b[..7] + [b[7]] == b && b[..6] + [b[6]] == b[..7] && b[..5] + [b[5]] == b[..6]
       && b[..4] + [b[4]] == b[..5] && b[..4] == a;
    assert Run(b[..5]) == Step(Run(a), b[4]);
    assert Run(b[..6]) == Step(Run(b[..5]), b[5]);
    assert Run(b[..7]) == Step(Run(b[..6]), b[6]);
    assert Run(b) == Step(Run(b[..7]), b[7]);
    assert es[..8] == b;
  }

  lemma Unroll4(es: seq<Event>)
    requires |es| == 4
    ensures Run(es) == Step(Step(Step(Step(Start, es[0]), es[1]), es[2]), es[3])
  {
    assert es[..3][..2] == es[..2] && es[..2][..1] == es[..1] && es[..1][..0] == [];
    assert Run(es[..1]) == Step(Start, es[0]);
    assert Run(es[..2]) == Step(Run(es[..1]), es[1]);
    assert Run(es[..3]) == Step(Run(es[..2]), es[2]);
  }

  // ---------- Tunnelled TCP flows start with a SYN ----------

  /** A policy decision to tunnel a TCP flow in mid-connection. */
  ghost predicate Midway(k: Key, o: Origin) { o.tunnel && !o.viaProxy && IsTcp(k) && !o.syn }

  ghost predicate NotMidway(t: Table, k: Key, n: nat) { (k, n) in t.made ==> !Midway(k, t.made[(k, n)]) }

  /** The loop is about to remove the entry it just made for `k`. */
  ghost predicate AboutToReset(c: Capture, k: Key) {
    c.Decided? && c.p.key == k && c.tunnel && c.first && !c.p.syn && !c.viaProxy
  }

  ghost predicate Clean(s: State) {
    && (forall k | k in s.table.routes :: NotMidway(s.table, k, s.table.EpochOf(k)) || AboutToReset(s.cap, k))
    && (s.cap.GotRoute? && s.cap.route.Some? ==> NotMidway(s.table, s.cap.p.key, s.cap.epoch))
    && (s.cap.Decided? && !s.cap.viaProxy ==>
          NotMidway(s.table, s.cap.p.key, s.cap.epoch) || AboutToReset(s.cap, s.cap.p.key))
    && (forall i | 0 <= i < |s.log| && !s.log[i].viaProxy :: NotMidway(s.table, s.log[i].k, s.log[i].epoch))
  }

  lemma CleanDecide(s: State, policy: bool)
    requires Sticky(s) && Clean(s)
    ensures Clean(Step(s, Decide(policy)))
  {
    if s.cap.GotRoute? {
      var k, o := s.cap.p.key, Choice(s.cap, policy);
      if k !in s.table.routes {
        assert (k, s.table.EpochOf(k)) !in s.table.made;
      }
      forall i | 0 <= i < |s.log| && !s.log[i].viaProxy
        ensures NotMidway(Step(s, Decide(policy)).table, s.log[i].k, s.log[i].epoch)
      {
        assert s.table.MadeAs(s.log[i].k, s.log[i].epoch, s.log[i].tunnel);
      }
    }
  }

  lemma CleanStep(s: State, e: Event)
    requires Sticky(s) && Clean(s)
    ensures Clean(Step(s, e))
  {
    match e
    case Decide(policy) => CleanDecide(s, policy);
    case _ =>
  }

  lemma {:induction false} RunIsClean(es: seq<Event>)
    ensures Clean(Run(es))
  {
    if es != [] {
      RunIsClean(es[..|es| - 1]);
      RunIsSticky(es[..|es| - 1]);
      CleanStep(Run(es[..|es| - 1]), es[|es| - 1]);
    }
  }

  /** A TCP packet that policy, not a proxy route, sent into the tunnel belongs to an epoch that
      a proxy route or a SYN opened. */
  lemma TunnelledTcpStartsWithSyn(es: seq<Event>, i: nat)
    requires i < |Run(es).log|
    requires var r := Run(es).log[i]; r.tunnel && !r.viaProxy && IsTcp(r.k)
    ensures var r := Run(es).log[i];
      && (r.k, r.epoch) in Run(es).table.made
      && var o := Run(es).table.made[(r.k, r.epoch)]; o.tunnel && (o.viaProxy || o.syn)
  {
    RunIsSticky(es);
    RunIsClean(es);
    assert NotMidway(Run(es).table, Run(es).log[i].k, Run(es).log[i].epoch);
  }
}
