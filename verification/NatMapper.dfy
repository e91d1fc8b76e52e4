/** The mutable NAT mapper, proved against module Nat. Mapping objects are shared by the two
    tables, so a refresh through one is seen through the other. */
module NatMapper {
  import opened Bytes
  import opened Packet
  import opened Nat

  class Mapping {
    const originalLocal: Addr
    const originalPort: uint16
    const tunnelPort: uint16
    var meta: Meta
    var seen: int

    constructor (originalLocal: Addr, originalPort: uint16, tunnelPort: uint16, meta: Meta, seen: int)
      ensures this.originalLocal == originalLocal && this.originalPort == originalPort
      ensures this.tunnelPort == tunnelPort && this.meta == meta && this.seen == seen
    {
      this.originalLocal, this.originalPort, this.tunnelPort := originalLocal, originalPort, tunnelPort;
      this.meta, this.seen := meta, seen;
    }

    ghost function View(): (e: Entry)
      reads this
    {
      Entry(tunnelPort, meta, seen)
    }
  }

  /** The flow whose replies arrive as `r`, according to the mapping object filed there. */
  ghost function FlowOf(r: Reply, m: Mapping): (f: Flow) {
    Flow(r.proto, m.originalLocal, r.remote, m.originalPort, r.remotePort)
  }

  /** The tables are inverse to each other and every flow has an object of its own. */
  ghost predicate Inverse(t: Tunnel, byOut: map<Flow, Mapping>, byReply: map<Reply, Mapping>) {
    && (forall f | f in byOut ::
          var m := byOut[f]; var r := t.ReplyTo(f, m.tunnelPort);
          r in byReply && byReply[r] == m && FlowOf(r, m) == f)
    && (forall r | r in byReply ::
          var m := byReply[r]; var f := FlowOf(r, m);
          f in byOut && byOut[f] == m && t.ReplyTo(f, m.tunnelPort) == r)
    && (forall f, g | f in byOut && g in byOut && f != g :: byOut[f] != byOut[g])
  }

  lemma InsertKeepsInverse(t: Tunnel, byOut: map<Flow, Mapping>, byReply: map<Reply, Mapping>, f: Flow, m: Mapping)
    requires Inverse(t, byOut, byReply) && f !in byOut && t.ReplyTo(f, m.tunnelPort) !in byReply
    requires m.originalLocal == f.local && m.originalPort == f.localPort
    requires m !in byOut.Values
    ensures Inverse(t, byOut[f := m], byReply[t.ReplyTo(f, m.tunnelPort) := m])
  {
    assert forall g | g in byOut :: byOut[g] in byOut.Values;
  }

  lemma DropKeepsInverse(t: Tunnel, byOut: map<Flow, Mapping>, byReply: map<Reply, Mapping>, f: Flow)
    requires Inverse(t, byOut, byReply) && f in byOut
    ensures Inverse(t, byOut - {f}, byReply - {t.ReplyTo(f, byOut[f].tunnelPort)})
  {
  }

  class Mapper {
    const tunnel: Tunnel
    var byOut: map<Flow, Mapping>
    var byReply: map<Reply, Mapping>
    var next: int

    ghost predicate Valid()
      reads this
    {
      FIRST <= next <= LAST && Inverse(tunnel, byOut, byReply)
    }

    ghost function View(): (s: State)
      reads this, byOut.Values
    {
      State(map f | f in byOut :: byOut[f].View(), next)
    }

    constructor (tunnel: Tunnel)
      ensures Valid() && this.tunnel == tunnel && View() == Fresh()
    {
      this.tunnel, byOut, byReply, next := tunnel, map[], map[], FIRST;
    }

    /** Reply tuples of live flows are pairwise different. */
    lemma ValidIsInjective()
      requires Valid()
      ensures Nat.Inv(tunnel, View())
    {
      forall f, g | f in byOut && g in byOut && f != g
        ensures tunnel.ReplyTo(f, byOut[f].tunnelPort) != tunnel.ReplyTo(g, byOut[g].tunnelPort)
      {
        assert byOut[f] != byOut[g];
      }
    }

    method AllocatePort(f: Flow) returns (port: Option<uint16>)
      requires Valid()
      modifies this`next
      ensures (port, next) == Allocate(tunnel, old(View()), f)
      ensures FIRST <= next <= LAST
    {
      ghost var s := View();
      MappedNow(s, f, f.localPort);
      if tunnel.ReplyTo(f, f.localPort) !in byReply {
        return Some(f.localPort);
      }
      hide Taken;
      var n := 0;
      while n < POOL
        invariant 0 <= n <= POOL && FIRST <= next <= LAST
        invariant Probe(tunnel, s, f, next, POOL - n) == Probe(tunnel, s, f, old(next), POOL)
      {
        var tp := next;
        next := next + 1;
        if next > LAST {
          next := FIRST;
        }
        MappedNow(s, f, tp);
        if tunnel.ReplyTo(f, tp) !in byReply {
          return Some(tp);
        }
        n := n + 1;
      }
      port := None;
    }

    /** The reply table answers exactly the question the allocator asks. */
    lemma MappedNow(s: State, f: Flow, port: uint16)
      requires Inverse(tunnel, byOut, byReply) && s.out == View().out
      ensures tunnel.ReplyTo(f, port) in byReply <==> Taken(tunnel, s, f, port)
    {
      var r := tunnel.ReplyTo(f, port);
      if r in byReply {
        var g := FlowOf(r, byReply[r]);
        assert g in s.out && tunnel.ReplyTo(g, s.out[g].port) == r;
      }
    }

    /** Files a new mapping under its flow and under its free reply tuple. */
    method Insert(f: Flow, port: uint16, meta: Meta, now: int)
      requires Valid() && f !in byOut && tunnel.ReplyTo(f, port) !in byReply
      modifies this`byOut, this`byReply
      ensures Valid() && View() == State(old(View()).out[f := Entry(port, meta, now)], next)
      ensures byOut.Keys == old(byOut).Keys + {f} && fresh(byOut[f])
      ensures forall g | g in old(byOut) :: byOut[g] == old(byOut)[g]
    {
      hide Inverse;
      ghost var was := View();
      var m := new Mapping(f.local, f.localPort, port, meta, now);
      InsertKeepsInverse(tunnel, byOut, byReply, f, m);
      byOut := byOut[f := m];
      byReply := byReply[tunnel.ReplyTo(f, port) := m];
      assert View().out == was.out[f := Entry(port, meta, now)];
    }

    /** Marks a mapping as seen, and with a packet of its own flow records where it came from.
        Reached through either table, it is the flow's own object. */
    method Touch(ghost f: Flow, m: Mapping, meta: Option<Meta>, now: int)
      requires Valid() && f in byOut && byOut[f] == m
      modifies m
      ensures Valid()
      ensures m.seen == now && m.meta == if meta.Some? then meta.value else old(m.meta)
      ensures View() == old(View()).(out := old(View()).out[f := m.View()])
    {
      assert forall g | g in byOut && g != f :: byOut[g] != m;
      hide Inverse;
      ghost var was := View();
      m.seen := now;
      if meta.Some? {
        m.meta := meta.value;
      }
      assert forall g | g in byOut && g != f :: byOut[g].View() == was.out[g];
    }

    /** The locked part of PrepareOutbound. */
    method Translate(f: Flow, meta: Meta, now: int) returns (port: Option<uint16>)
      requires Valid()
      modifies this, byOut.Values
      ensures Valid() && (View(), port) == Outbound(tunnel, old(View()), f, meta, now)
    {
      hide Inverse;
      if f in byOut {
        Touch(f, byOut[f], Some(meta), now);
        return Some(byOut[f].tunnelPort);
      }
      hide Allocate, Taken;
      AllocatorIsComplete(tunnel, View(), f);
      port := AllocatePort(f);
      if port.Some? {
        MappedNow(old(View()), f, port.value);
        Insert(f, port.value, meta, now);
      }
    }

    /** The locked part of RestoreInbound. */
    method Restore(r: Reply, now: int) returns (m: Option<Mapping>)
      requires Valid()
      modifies byOut.Values
      ensures Valid() && View() == Inbound(tunnel, old(View()), r, now)
      ensures m.None? <==> Owner(tunnel, old(View()), r).None?
      ensures m.Some? ==>
        && FlowOf(r, m.value) in byOut && byOut[FlowOf(r, m.value)] == m.value
        && Owner(tunnel, old(View()), r) == Some(FlowOf(r, m.value))
        && m.value.meta == old(View()).out[FlowOf(r, m.value)].meta
    {
      OwnerIsFiled(r);
      if r !in byReply {
        return None;
      }
      ghost var f := FlowOf(r, byReply[r]);
      assert byOut[f] == byReply[r];
      Touch(f, byReply[r], None, now);
      m := Some(byReply[r]);
    }

    lemma OwnerIsFiled(r: Reply)
      requires Valid()
      ensures Owner(tunnel, View(), r) == if r in byReply then Some(FlowOf(r, byReply[r])) else None
    {
      ValidIsInjective();
      if r in byReply {
        var f := FlowOf(r, byReply[r]);
        assert f in View().out && tunnel.ReplyTo(f, View().out[f].port) == r;
      }
    }

    /** Drops every flow not seen since `cut` from both tables, in any order. */
    method Sweep(cut: int)
      requires Valid()
      modifies this`byOut, this`byReply
      ensures Valid() && View() == Swept(old(View()), cut)
    {
      hide Inverse;
      var keys := byOut.Keys;
      ghost var was := byOut;
      while keys != {}
        invariant Valid() && keys <= byOut.Keys && next == old(next)
        invariant byOut.Keys <= was.Keys && forall f | f in byOut :: byOut[f] == was[f]
        invariant forall f | f in was :: f in byOut <==> f in keys || was[f].seen >= cut
        decreases keys
      {
        var f :| f in keys;
        keys := keys - {f};
        var m := byOut[f];
        if m.seen < cut {
          DropKeepsInverse(tunnel, byOut, byReply, f);
          byOut := byOut - {f};
          byReply := byReply - {tunnel.ReplyTo(f, m.tunnelPort)};
        }
      }
      assert View().out == Swept(old(View()), cut).out;
    }

    // ---------- Whole packets ----------

    /** Translates a captured packet in place. Nothing changes unless it parses, is TCP or UDP and
        the tunnel has an address of its family; the flow is then filed or refreshed, and the
        source address and, where it differs, the source port are rewritten and no other byte. */
    method PrepareOutbound(raw: array<byte>, meta: Meta, now: int) returns (ok: bool)
      requires Valid()
      modifies this, byOut.Values, raw
      ensures Valid()
      ensures match Translatable(old(raw[..]), tunnel)
        case None => !ok && View() == old(View()) && raw[..] == old(raw[..])
        case Some(p) =>
          var o := Outbound(tunnel, old(View()), FlowOfPacket(p), meta, now);
          && View() == o.0
          && (if o.1.None? then !ok && raw[..] == old(raw[..])
              else (ok, raw[..]) == Rewritten(old(raw[..]), tunnel.For(p.src), o.1.value, p.srcPort, false))
      ensures match Parse(old(raw[..]))
        case Ok(p) => Sent(tunnel, p, old(View()), meta, now, ok, View(), old(raw[..]), raw[..])
        case _ => !ok && View() == old(View()) && raw[..] == old(raw[..])
    {
      hide Parse, Inverse, Outbound, Rewritten;
      if Parse(raw[..]).Ok? {
        HeaderFacts(raw[..], Parse(raw[..]).p);
      }
      var c := Translatable(raw[..], tunnel);
      if c.None? {
        return false;
      }
      var p := c.value;
      var port := Translate(FlowOfPacket(p), meta, now);
      if port.None? {
        return false;
      }
      if WellFormed(tunnel.For(p.src), p.version) && p.l4 + 4 <= p.total {
        RewrittenParses(raw[..], p, tunnel.For(p.src), port.value, false);
      }
      ok := RewriteBoth(raw, tunnel.For(p.src), port.value, p.srcPort, false);
    }

    /** Restores a packet from the tunnel in place: its tuple finds the owning flow, whose own
        address and, where it differs, port become the destination; no other byte changes. */
    method RestoreInbound(raw: array<byte>, now: int) returns (res: Restored)
      requires Valid()
      modifies byOut.Values, raw
      ensures Valid()
      ensures match Parse(old(raw[..]))
        case Ok(p) =>
          if p.proto != TCP && p.proto != UDP
          then res == Missed && View() == old(View()) && raw[..] == old(raw[..])
          else
            && View() == Inbound(tunnel, old(View()), ReplyOfPacket(p), now)
            && (match Owner(tunnel, old(View()), ReplyOfPacket(p))
                case None => res == Missed && raw[..] == old(raw[..])
                case Some(f) => GivenBack(old(raw[..]), p, f, old(View()).out[f].meta, res, raw[..]))
        case _ => res == Failed && View() == old(View()) && raw[..] == old(raw[..])
    {
      hide Parse, Inverse, Inbound, Owner, Rewritten;
      var c := Parse(raw[..]);
      if !c.Ok? {
        return Failed;
      }
      var p := c.p;
      if p.proto != TCP && p.proto != UDP {
        return Missed;
      }
      var found := Restore(ReplyOfPacket(p), now);
      if found.None? {
        return Missed;
      }
      var m := found.value;
      if WellFormed(m.originalLocal, p.version) && p.l4 + 4 <= p.total {
        RewrittenParses(raw[..], p, m.originalLocal, m.originalPort, true);
      }
      var ok := RewriteBoth(raw, m.originalLocal, m.originalPort, p.dstPort, true);
      res := if ok then Hit(m.meta) else Failed;
    }
  }

  /** What becomes of a parsed packet `p`, bytes `b`, on its way out. TCP and UDP packets of a family the tunnel has
      an address for are filed under their flow and, if a port is found and they have both ports, leave with the
      tunnel's address of their own family and that port. Anything else is refused and changes nothing. */
  ghost predicate Sent(t: Tunnel, p: Parsed, s: State, meta: Meta, now: int, ok: bool, q: State,
                       b: seq<byte>, c: seq<byte>)
  {
    var a := if p.version == 4 then t.v4 else t.v6;
    if (p.proto != 6 && p.proto != 17) || a.NoAddr? then !ok && q == s && c == b
    else
      && 40000 <= s.next <= 60999
      && var o := Outbound(t, s, Flow(p.proto, p.src, p.dst, p.srcPort, p.dstPort), meta, now);
         && q == o.0 && (o.1.None? ==> !ok && c == b)
         && (o.1.Some? && WellFormed(a, p.version) && p.l4 + 4 <= p.total ==>
               ok && Parse(c) == Ok(p.(src := a, srcPort := o.1.value)))
  }

  /** Packet `b` became `c`: readdressed to the flow's own endpoint, and if it has both ports and the flow's
      family, it parses as the same packet to that endpoint. */
  ghost predicate GivenBack(b: seq<byte>, p: Parsed, f: Flow, meta: Meta, res: Restored, c: seq<byte>) {
    && (res == if Rewritten(b, f.local, f.localPort, p.dstPort, true).0 then Hit(meta) else Failed)
    && c == Rewritten(b, f.local, f.localPort, p.dstPort, true).1
    && (WellFormed(f.local, p.version) && p.l4 + 4 <= p.total ==>
          res == Hit(meta) && Parse(c) == Ok(p.(dst := f.local, dstPort := f.localPort)))
  }

  datatype Restored = Failed | Missed | Hit(meta: Meta)

  function FlowOfPacket(p: Parsed): (f: Flow) { Flow(p.proto, p.src, p.dst, p.srcPort, p.dstPort) }

  function ReplyOfPacket(p: Parsed): (r: Reply) { Reply(p.proto, p.src, p.dst, p.srcPort, p.dstPort) }

  function Translatable(b: seq<byte>, t: Tunnel): (p: Option<Parsed>) {
    match Parse(b)
    case Ok(p) => if (p.proto != TCP && p.proto != UDP) || t.For(p.src).NoAddr? then None else Some(p)
    case _ => None
  }

  /** `q` answers the translated form of `p`: from the same remote, to the tunnel's address and the flow's
      tunnel port. */
  ghost predicate Replies(t: Tunnel, p: Parsed, port: uint16, q: Parsed) {
    && q.proto == p.proto && q.src == p.dst && q.srcPort == p.dstPort
    && q.dst == (if p.version == 4 then t.v4 else t.v6) && q.dstPort == port
  }

  /** From packet to packet: whatever happened since packet `p` went out, a packet that answers its translated
      form is owned by the flow of `p`. With the contracts of PrepareOutbound and RestoreInbound it is therefore
      delivered to the source address and port of `p`, with the meta of that flow's latest packet. */
  lemma AnswerComesBack(t: Tunnel, ops: seq<Op>, b: seq<byte>, p: Parsed, i: nat, q: Parsed)
    requires Parse(b) == Ok(p)
    requires LastSent(t, ops, FlowOfPacket(p), i)
    requires Replies(t, p, Run(t, ops[..i + 1]).out[FlowOfPacket(p)].port, q)
    ensures Owner(t, Run(t, ops), ReplyOfPacket(q)) == Some(FlowOfPacket(p))
    ensures FlowOfPacket(p) in Run(t, ops).out && Run(t, ops).out[FlowOfPacket(p)].meta == ops[i].meta
  {
    hide Parse;
    HeaderFacts(b, p);
    MetaIsLatest(t, ops, FlowOfPacket(p), i);
    ReplyFindsItsFlow(t, ops, FlowOfPacket(p), i);
  }
}
