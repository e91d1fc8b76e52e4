/** The NAT mapper: an outbound table and a reply table that share mapping objects, a cyclic
    allocator of tunnel-side ports, and an age sweep. */
module Nat {
  import opened Bytes
  import opened Packet

  const FIRST := 40000
  const LAST := 60999
  const POOL := 21000

  datatype Meta = Meta(ifIdx: uint32, subIfIdx: uint32)
  datatype Flow = Flow(proto: byte, local: Addr, remote: Addr, localPort: uint16, remotePort: uint16)
  datatype Reply = Reply(proto: byte, remote: Addr, tunnel: Addr, remotePort: uint16, tunnelPort: uint16)

  /** The tunnel's own addresses. */
  datatype Tunnel = Tunnel(v4: Addr, v6: Addr) {
    function For(local: Addr): (a: Addr) { if local.V4? then v4 else v6 }
    function ReplyTo(f: Flow, port: uint16): (r: Reply) {
      Reply(f.proto, f.remote, For(f.local), f.remotePort, port)
    }
  }

  // ---------- What the two tables mean ----------

  datatype Entry = Entry(port: uint16, meta: Meta, seen: int)

  /** Live flows with the tunnel port each one owns, and the allocator's cursor. */
  datatype State = State(out: map<Flow, Entry>, next: int)

  /** No two live flows expect the same reply tuple. */
  ghost predicate Injective(t: Tunnel, s: State) {
    forall f, g | f in s.out && g in s.out && f != g :: t.ReplyTo(f, s.out[f].port) != t.ReplyTo(g, s.out[g].port)
  }

  ghost predicate Inv(t: Tunnel, s: State) { FIRST <= s.next <= LAST && Injective(t, s) }

  /** Some live flow already expects replies for `f` on `port`. */
  ghost predicate Taken(t: Tunnel, s: State, f: Flow, port: uint16) {
    exists g | g in s.out :: t.ReplyTo(g, s.out[g].port) == t.ReplyTo(f, port)
  }

  function Succ(port: int): (n: int) { if port + 1 > LAST then FIRST else port + 1 }

  /** Tries at most `n` pool ports from the cursor on. */
  ghost function Probe(t: Tunnel, s: State, f: Flow, cursor: int, n: nat): (r: (Option<uint16>, int))
    requires FIRST <= cursor <= LAST
    decreases n
  {
    if n == 0 then (None, cursor)
    else if !Taken(t, s, f, cursor) then (Some(cursor), Succ(cursor))
    else Probe(t, s, f, Succ(cursor), n - 1)
  }

  /** The flow's own source port if its reply tuple is free, otherwise the first free pool port. */
  ghost function Allocate(t: Tunnel, s: State, f: Flow): (r: (Option<uint16>, int))
    requires FIRST <= s.next <= LAST
  {
    if !Taken(t, s, f, f.localPort) then (Some(f.localPort), s.next) else Probe(t, s, f, s.next, POOL)
  }

  ghost function Outbound(t: Tunnel, s: State, f: Flow, meta: Meta, now: int): (r: (State, Option<uint16>))
    requires FIRST <= s.next <= LAST
  {
    if f in s.out then (s.(out := s.out[f := Entry(s.out[f].port, meta, now)]), Some(s.out[f].port))
    else
      var a := Allocate(t, s, f);
      match a.0
      case None => (s.(next := a.1), None)
      case Some(port) => (State(s.out[f := Entry(port, meta, now)], a.1), Some(port))
  }

  /** The flow a reply tuple belongs to. */
  ghost function Owner(t: Tunnel, s: State, r: Reply): (o: Option<Flow>) {
    if f :| f in s.out && t.ReplyTo(f, s.out[f].port) == r then Some(f) else None
  }

  ghost function Inbound(t: Tunnel, s: State, r: Reply, now: int): (q: State) {
    match Owner(t, s, r)
    case None => s
    case Some(f) => s.(out := s.out[f := s.out[f].(seen := now)])
  }

  ghost function Swept(s: State, cut: int): (q: State) {
    s.(out := map f | f in s.out && s.out[f].seen >= cut :: s.out[f])
  }

  // ---------- The allocator ----------

  /** The pool port `i` places after `cursor`, going round. */
  function Round(cursor: int, i: nat): (p: int)
    ensures FIRST <= p <= LAST
  {
    FIRST + (cursor - FIRST + i) % POOL
  }

  /** The probing from `cursor` on stops at the port `i` places further, the first that is free. */
  ghost predicate StopsAt(t: Tunnel, s: State, f: Flow, cursor: int, i: nat, r: (Option<uint16>, int)) {
    && r == (Some(Round(cursor, i)), Round(cursor, i + 1)) && !Taken(t, s, f, Round(cursor, i))
    && forall j: nat | j < i :: Taken(t, s, f, Round(cursor, j))
  }

  lemma RoundSteps(cursor: int)
    requires FIRST <= cursor <= LAST
    ensures Round(cursor, 0) == cursor && Round(cursor, 1) == Succ(cursor)
    ensures forall i: nat :: Round(cursor, i + 1) == Round(Succ(cursor), i)
  {
  }

  lemma {:induction false} ProbeFinds(t: Tunnel, s: State, f: Flow, cursor: int, n: nat)
    requires FIRST <= cursor <= LAST
    ensures var r := Probe(t, s, f, cursor, n);
      && (r.0.None? ==> r.1 == Round(cursor, n) && forall i: nat | i < n :: Taken(t, s, f, Round(cursor, i)))
      && (r.0.Some? ==> exists i: nat | i < n :: StopsAt(t, s, f, cursor, i, r))
    decreases n
  {
    hide Taken, Round, Succ;
    RoundSteps(cursor);
    if n > 0 {
      if !Taken(t, s, f, cursor) {
        assert StopsAt(t, s, f, cursor, 0, Probe(t, s, f, cursor, n));
      } else {
        SuccStays(cursor);
        var c := Succ(cursor);
        ProbeFinds(t, s, f, c, n - 1);
        var r := Probe(t, s, f, c, n - 1);
        if r.0.None? {
          forall i: nat | i < n
            ensures Taken(t, s, f, Round(cursor, i))
          {
            if i > 0 {
              assert Round(cursor, i - 1 + 1) == Round(c, i - 1);
            }
          }
          assert Round(cursor, n - 1 + 1) == Round(c, n - 1);
        } else {
          var i: nat :| i < n - 1 && StopsAt(t, s, f, c, i, r);
          StopsEarlier(t, s, f, cursor, i, r);
        }
      }
    }
  }

  lemma SuccStays(cursor: int)
    requires FIRST <= cursor <= LAST
    ensures FIRST <= Succ(cursor) <= LAST
  {
  }

  lemma StopsEarlier(t: Tunnel, s: State, f: Flow, cursor: int, i: nat, r: (Option<uint16>, int))
    requires FIRST <= cursor <= LAST && StopsAt(t, s, f, Succ(cursor), i, r) && Taken(t, s, f, cursor)
    ensures StopsAt(t, s, f, cursor, i + 1, r)
  {
    hide Taken, Round, Succ;
    RoundSteps(cursor);
    assert Round(cursor, i + 1 + 1) == Round(Succ(cursor), i + 1);
    forall j: nat | j < i + 1
      ensures Taken(t, s, f, Round(cursor, j))
    {
      if j > 0 {
        assert Round(cursor, j - 1 + 1) == Round(Succ(cursor), j - 1);
      }
    }
  }

  /** The flow's own port if it is free. Otherwise the first free pool port from the cursor on, which moves just
      past it. Allocation fails exactly when own port and every pool port are taken for the flow's protocol,
      remote, tunnel address and remote port; the cursor then stands where it was. */
  lemma AllocatorIsComplete(t: Tunnel, s: State, f: Flow)
    requires 40000 <= s.next <= 60999
    ensures var r := Allocate(t, s, f);
      && 40000 <= r.1 <= 60999
      && (!Taken(t, s, f, f.localPort) ==> r == (Some(f.localPort), s.next))
      && (Taken(t, s, f, f.localPort) && r.0.Some? ==> exists i: nat | i < 21000 :: StopsAt(t, s, f, s.next, i, r))
      && (r.0.Some? ==> !Taken(t, s, f, r.0.value))
      && (r.0.None? <==> Taken(t, s, f, f.localPort) && forall p | 40000 <= p <= 60999 :: Taken(t, s, f, p))
      && (r.0.None? ==> r.1 == s.next)
  {
    hide Taken, Probe, Round;
    var r := Allocate(t, s, f);
    ProbeFinds(t, s, f, s.next, POOL);
    CircleEnds(s.next);
    forall p | FIRST <= p <= LAST && r.0.None?
      ensures Taken(t, s, f, p)
    {
      var i := PlaceOf(s.next, p);
    }
  }

  /** Going once round the pool ends where it began, */
  lemma CircleEnds(cursor: int)
    requires FIRST <= cursor <= LAST
    ensures Round(cursor, POOL) == cursor
  {
  }

  /** and meets every port. */
  lemma PlaceOf(cursor: int, p: int) returns (i: nat)
    requires FIRST <= cursor <= LAST && FIRST <= p <= LAST
    ensures i < POOL && Round(cursor, i) == p
  {
    i := if p >= cursor then p - cursor else p - cursor + POOL;
  }

  // ---------- One operation ----------

  /** A packet of a known flow keeps its port; one of a new flow gets one unless all are taken. Either way the
      flow is filed with that port, this meta and this time, and no other flow changes. */
  lemma OutboundExactly(t: Tunnel, s: State, f: Flow, meta: Meta, now: int)
    requires Inv(t, s)
    ensures var o := Outbound(t, s, f, meta, now);
      && (o.1.None? <==>
            f !in s.out && Taken(t, s, f, f.localPort) && forall p | 40000 <= p <= 60999 :: Taken(t, s, f, p))
      && (f in s.out ==> o.1 == Some(s.out[f].port))
      && (f !in s.out && o.1.Some? ==> !Taken(t, s, f, o.1.value))
      && o.0.out == if o.1.None? then s.out else s.out[f := Entry(o.1.value, meta, now)]
  {
    hide Allocate, Taken;
    AllocatorIsComplete(t, s, f);
  }

  /** A reply tuple is owned by the one live flow that expects it. */
  lemma OwnerExactly(t: Tunnel, s: State, r: Reply)
    requires Inv(t, s)
    ensures forall f :: Owner(t, s, r) == Some(f) <==> f in s.out && t.ReplyTo(f, s.out[f].port) == r
  {
    forall f
      ensures Owner(t, s, r) == Some(f) <==> f in s.out && t.ReplyTo(f, s.out[f].port) == r
    {
      if f in s.out && t.ReplyTo(f, s.out[f].port) == r {
        var g :| g in s.out && t.ReplyTo(g, s.out[g].port) == r && Owner(t, s, r) == Some(g);
      }
    }
  }

  /** Every packet of a flow, in either direction, makes it recent; a sweep takes exactly the flows with no
      packet since the cut. */
  lemma RecencyExactly(t: Tunnel, s: State, op: Op, f: Flow)
    requires Inv(t, s) && f in s.out
    ensures match op
      case Out(g, _, now) =>
        && f in Step(t, s, op).out
        && Step(t, s, op).out[f].seen == if f == g then now else s.out[f].seen
      case In(r, now) =>
        && f in Step(t, s, op).out
        && Step(t, s, op).out[f].seen == if t.ReplyTo(f, s.out[f].port) == r then now else s.out[f].seen
      case Sweep(cut) =>
        && (f in Step(t, s, op).out <==> s.out[f].seen >= cut)
        && (f in Step(t, s, op).out ==> Step(t, s, op).out[f] == s.out[f])
  {
    match op
    case Out(g, meta, now) => OutboundExactly(t, s, g, meta, now);
    case In(r, now) => OwnerExactly(t, s, r);
    case Sweep(cut) =>
  }

  // ---------- Every run ----------

  datatype Op = Out(f: Flow, meta: Meta, now: int) | In(r: Reply, now: int) | Sweep(cut: int)

  ghost function Step(t: Tunnel, s: State, op: Op): (q: State)
    requires FIRST <= s.next <= LAST
  {
    match op
    case Out(f, meta, now) => Outbound(t, s, f, meta, now).0
    case In(r, now) => Inbound(t, s, r, now)
    case Sweep(cut) => Swept(s, cut)
  }

  lemma OutKeepsInv(t: Tunnel, s: State, f: Flow, meta: Meta, now: int)
    requires Inv(t, s)
    ensures Inv(t, Outbound(t, s, f, meta, now).0)
  {
    AllocatorIsComplete(t, s, f);
    hide Allocate;
  }

  lemma StepKeepsInv(t: Tunnel, s: State, op: Op)
    requires Inv(t, s)
    ensures Inv(t, Step(t, s, op))
  {
    match op
    case Out(f, meta, now) => OutKeepsInv(t, s, f, meta, now);
    case In(r, now) =>
    case Sweep(cut) =>
  }

  ghost function Fresh(): (s: State) { State(map[], FIRST) }

  ghost function Run(t: Tunnel, ops: seq<Op>): (s: State)
    ensures Inv(t, s)
  {
    if ops == [] then Fresh()
    else
      var before := Run(t, ops[..|ops| - 1]);
      StepKeepsInv(t, before, ops[|ops| - 1]);
      Step(t, before, ops[|ops| - 1])
  }

  /** A live flow keeps its port, and its meta changes only when one of its own packets passes. */
  lemma PortIsStable(t: Tunnel, s: State, op: Op, f: Flow)
    requires Inv(t, s) && f in s.out && f in Step(t, s, op).out
    ensures Step(t, s, op).out[f].port == s.out[f].port
    ensures Step(t, s, op).out[f].meta == if op.Out? && op.f == f then op.meta else s.out[f].meta
  {
  }

  /** `f` passed an outbound packet at step `i`, was not swept since, and sent nothing more. */
  ghost predicate LastSent(t: Tunnel, ops: seq<Op>, f: Flow, i: nat) {
    && i < |ops| && ops[i].Out? && ops[i].f == f
    && (forall j | i < j <= |ops| :: f in Run(t, ops[..j]).out)
    && (forall j | i < j < |ops| :: ops[j].Out? ==> ops[j].f != f)
  }

  lemma {:induction false} MetaIsLatest(t: Tunnel, ops: seq<Op>, f: Flow, i: nat)
    requires LastSent(t, ops, f, i)
    ensures f in Run(t, ops).out
    ensures Run(t, ops).out[f].meta == ops[i].meta
    ensures Run(t, ops).out[f].port == Run(t, ops[..i + 1]).out[f].port
    decreases |ops|
  {
    hide Step, Inv;
    var n := |ops| - 1;
    var before := ops[..n];
    assert ops[..|ops|] == ops;
    if i < n {
      assert forall j | 0 <= j <= n :: before[..j] == ops[..j];
      MetaIsLatest(t, before, f, i);
      PortIsStable(t, Run(t, before), ops[n], f);
    } else {
      SentIsFiled(t, Run(t, before), ops[n]);
    }
  }

  lemma SentIsFiled(t: Tunnel, s: State, op: Op)
    requires Inv(t, s) && op.Out? && op.f in Step(t, s, op).out
    ensures Step(t, s, op).out[op.f].meta == op.meta
  {
    OutboundExactly(t, s, op.f, op.meta, op.now);
    hide Outbound;
  }

  /** Whatever other flows did meanwhile, a reply to the translated tuple is owned by the flow
      that was translated, and finds that flow's own address, port and latest meta. */
  lemma ReplyFindsItsFlow(t: Tunnel, ops: seq<Op>, f: Flow, i: nat)
    requires LastSent(t, ops, f, i)
    ensures f in Run(t, ops[..i + 1]).out
    ensures var port := Run(t, ops[..i + 1]).out[f].port;
      && Owner(t, Run(t, ops), t.ReplyTo(f, port)) == Some(f)
      && Run(t, ops).out[f].meta == ops[i].meta
  {
    MetaIsLatest(t, ops, f, i);
    var s := Run(t, ops);
    var r := t.ReplyTo(f, s.out[f].port);
    var g :| g in s.out && t.ReplyTo(g, s.out[g].port) == r && Owner(t, s, r) == Some(g);
  }
}
