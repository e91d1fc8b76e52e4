/** Who owns a socket: live endpoints filed twice, by endpoint id and by local address, plus
    exact flows and snapshots as other sources. */
module FlowIndex {
  import opened Bytes
  import opened Packet
  import opened Routing

  datatype EndpointId = Endpoint(n: nat)
  datatype LocalKey = LocalKey(proto: byte, local: Addr, port: uint16)
  datatype Process = Process(pid: uint32, name: string, path: string)
  datatype Entry = Entry(p: Process, seen: int)
  datatype Socket = Socket(key: LocalKey, entry: Entry)

  type Sockets = map<EndpointId, Socket>
  type Bucket = map<EndpointId, Entry>
  type Buckets = map<LocalKey, Bucket>

  /** The wildcard address stands for any local address. */
  function NormalizeLocal(a: Addr): (n: Addr) {
    if a.NoAddr? || (forall i | 0 <= i < |a.bytes| :: a.bytes[i] == 0) then NoAddr else Unmap(a)
  }

  // ---------- The second index is a view of the first ----------

  /** The endpoints bound to `k`. */
  ghost function BoundTo(s: Sockets, k: LocalKey): (b: Bucket) {
    map id | id in s && s[id].key == k :: s[id].entry
  }

  ghost function KeysOf(s: Sockets): (ks: set<LocalKey>) {
    set id | id in s :: s[id].key
  }

  /** `b` files exactly the endpoints of `s` under their keys, and has no empty bucket. */
  ghost predicate Mirrors(s: Sockets, b: Buckets) {
    b.Keys == KeysOf(s) && forall k | k in b :: b[k] == BoundTo(s, k)
  }

  lemma UnboundOthers(s: Sockets, id: EndpointId, k: LocalKey)
    requires id in s
    ensures BoundTo(s - {id}, k) == if s[id].key == k then BoundTo(s, k) - {id} else BoundTo(s, k)
  {
  }

  lemma BindOthers(s: Sockets, id: EndpointId, x: Socket, k: LocalKey)
    requires id !in s
    ensures BoundTo(s[id := x], k) == if x.key == k then BoundTo(s, k)[id := x.entry] else BoundTo(s, k)
  {
  }

  lemma MirrorsRemove(s: Sockets, b: Buckets, id: EndpointId)
    requires Mirrors(s, b) && id in s
    ensures s[id].key in b
    ensures var k := s[id].key; var rest := b[k] - {id};
      Mirrors(s - {id}, if rest == map[] then b - {k} else b[k := rest])
  {
    var k := s[id].key;
    var rest := b[k] - {id};
    var c := if rest == map[] then b - {k} else b[k := rest];
    forall j: LocalKey
      ensures BoundTo(s - {id}, j) == if j == k then rest else BoundTo(s, j)
      ensures j in KeysOf(s - {id}) <==> j in c
    {
      UnboundOthers(s, id, j);
      KeyHasEndpoint(s - {id}, j);
      KeyHasEndpoint(s, j);
    }
    hide BoundTo, KeysOf;
    assert c.Keys == KeysOf(s - {id});
  }

  lemma KeyHasEndpoint(s: Sockets, k: LocalKey)
    ensures k in KeysOf(s) <==> BoundTo(s, k) != map[]
  {
    if k in KeysOf(s) {
      var id :| id in s && s[id].key == k;
      assert id in BoundTo(s, k);
    }
    if BoundTo(s, k) != map[] {
      var id :| id in BoundTo(s, k);
      assert s[id].key in KeysOf(s);
    }
  }

  lemma MirrorsAdd(s: Sockets, b: Buckets, id: EndpointId, x: Socket)
    requires Mirrors(s, b) && id !in s
    ensures Mirrors(s[id := x], b[x.key := (if x.key in b then b[x.key] else map[])[id := x.entry]])
  {
    var bucket: Bucket := if x.key in b then b[x.key] else map[];
    var c := b[x.key := bucket[id := x.entry]];
    forall j: LocalKey
      ensures BoundTo(s[id := x], j) == if j == x.key then bucket[id := x.entry] else BoundTo(s, j)
      ensures j in KeysOf(s[id := x]) <==> j in c
    {
      BindOthers(s, id, x, j);
      assert id in bucket[id := x.entry];
      KeyHasEndpoint(s[id := x], j);
      KeyHasEndpoint(s, j);
    }
    hide BoundTo, KeysOf;
    assert c.Keys == KeysOf(s[id := x]);
  }

  // ---------- Lookup ----------

  datatype Tables = Tables(flows: map<Key, Entry>, sockets: Sockets, snapshot: map<Key, Entry>,
                           locals: map<LocalKey, Entry>)

  /** A most recent entry of the bucket. */
  ghost predicate Newest(b: Bucket, e: Entry) {
    (exists id :: id in b && b[id] == e) && forall id | id in b :: b[id].seen <= e.seen
  }

  function Exact(k: Key): (l: LocalKey) { LocalKey(k.proto, NormalizeLocal(k.local), k.localPort) }
  function Wild(k: Key): (l: LocalKey) { LocalKey(k.proto, NoAddr, k.localPort) }

  /** No address, or the all-zero one. */
  ghost predicate AnyAddress(a: Addr) { a.NoAddr? || forall i | 0 <= i < |a.bytes| :: a.bytes[i] == 0 }

  /** A socket serves exactly the flows of its protocol and port from its address, up to the IPv4-mapped form, or
      from any address if it is bound to none. */
  lemma ServesExactly(proto: byte, local: Addr, port: uint16, k: Key)
    ensures var x := LocalKey(proto, NormalizeLocal(local), port);
      x == Exact(k) || x == Wild(k) <==>
        && proto == k.proto && port == k.localPort
        && (AnyAddress(local) || (!AnyAddress(k.local) && Unmap(local) == Unmap(k.local)))
  {
  }

  /** The sources in order: exact flow, socket on the address, socket on any address, snapshot of
      the flow, snapshot of the address, snapshot of any address. */
  ghost predicate Answers(t: Tables, k: Key, e: Option<Entry>) {
    var x, w := Exact(k), Wild(k);
    if k in t.flows then e == Some(t.flows[k])
    else if BoundTo(t.sockets, x) != map[] then e.Some? && Newest(BoundTo(t.sockets, x), e.value)
    else if x != w && BoundTo(t.sockets, w) != map[] then e.Some? && Newest(BoundTo(t.sockets, w), e.value)
    else if k in t.snapshot then e == Some(t.snapshot[k])
    else if x in t.locals then e == Some(t.locals[x])
    else if x != w && w in t.locals then e == Some(t.locals[w])
    else e == None
  }

  /** Endpoint `id` is what a lookup of `k` may be answered with. */
  ghost predicate AnsweredBy(t: Tables, k: Key, id: EndpointId) {
    && id in t.sockets && k !in t.flows
    && (t.sockets[id].key == Exact(k) || (t.sockets[id].key == Wild(k) && BoundTo(t.sockets, Exact(k)) == map[]))
    && Newest(BoundTo(t.sockets, t.sockets[id].key), t.sockets[id].entry)
  }

  lemma AnsweredByAnswers(t: Tables, k: Key, id: EndpointId)
    requires AnsweredBy(t, k, id)
    ensures Answers(t, k, Some(t.sockets[id].entry))
  {
    assert id in BoundTo(t.sockets, t.sockets[id].key);
  }

  /** Closing one endpoint never takes away an answer that another endpoint gives. */
  lemma CloseLeavesOtherAnswers(t: Tables, k: Key, id: EndpointId, closed: EndpointId)
    requires AnsweredBy(t, k, id) && closed != id
    ensures AnsweredBy(t.(sockets := t.sockets - {closed}), k, id)
    ensures Answers(t.(sockets := t.sockets - {closed}), k, Some(t.sockets[id].entry))
  {
    var u := t.(sockets := t.sockets - {closed});
    var key := t.sockets[id].key;
    if closed in t.sockets {
      UnboundOthers(t.sockets, closed, key);
      UnboundOthers(t.sockets, closed, Exact(k));
    } else {
      assert u.sockets == t.sockets;
    }
    assert id in BoundTo(u.sockets, key) && BoundTo(u.sockets, key)[id] == t.sockets[id].entry;
    AnsweredByAnswers(u, k, id);
  }

  class Index {
    var flows: map<Key, Entry>
    var snapshot: map<Key, Entry>
    var locals: map<LocalKey, Entry>
    var sockets: Sockets
    var byLocal: Buckets

    ghost predicate Valid()
      reads this
    {
      Mirrors(sockets, byLocal)
    }

    ghost function View(): (t: Tables)
      reads this
    {
      Tables(flows, sockets, snapshot, locals)
    }

    constructor ()
      ensures Valid() && View() == Tables(map[], map[], map[], map[])
    {
      flows, snapshot, locals, sockets, byLocal := map[], map[], map[], map[], map[];
    }

    method AddLocal(proto: byte, local: Addr, port: uint16, p: Process, now: int)
      requires Valid()
      modifies this`locals
      ensures locals == if port == 0 then old(locals)
                        else old(locals)[LocalKey(proto, NormalizeLocal(local), port) := Entry(p, now)]
    {
      if port != 0 {
        locals := locals[LocalKey(proto, NormalizeLocal(local), port) := Entry(p, now)];
      }
    }

    method DeleteSocketIndex(id: EndpointId)
      requires Valid() && id in sockets
      modifies this`sockets, this`byLocal
      ensures Valid() && sockets == old(sockets) - {id}
    {
      MirrorsRemove(sockets, byLocal, id);
      var k := sockets[id].key;
      sockets := sockets - {id};
      var bucket := byLocal[k] - {id};
      if bucket == map[] {
        byLocal := byLocal - {k};
      } else {
        byLocal := byLocal[k := bucket];
      }
    }

    /** Files an endpoint, moving it if it was filed under another key; an event without an id or
        port is kept as a snapshot. */
    method AddSocket(id: EndpointId, proto: byte, local: Addr, port: uint16, p: Process, now: int)
      requires Valid()
      modifies this
      ensures Valid()
      ensures var k := LocalKey(proto, NormalizeLocal(local), port);
        View() == if id.n == 0 || port == 0
                  then old(View()).(locals := if port == 0 then old(locals) else old(locals)[k := Entry(p, now)])
                  else old(View()).(sockets := old(sockets)[id := Socket(k, Entry(p, now))])
    {
      if id.n == 0 || port == 0 {
        AddLocal(proto, local, port, p, now);
        return;
      }
      var k := LocalKey(proto, NormalizeLocal(local), port);
      ghost var was := sockets;
      if id in sockets {
        DeleteSocketIndex(id);
      }
      var e := Entry(p, now);
      MirrorsAdd(sockets, byLocal, id, Socket(k, e));
      sockets := sockets[id := Socket(k, e)];
      var bucket: Bucket := if k in byLocal then byLocal[k] else map[];
      byLocal := byLocal[k := bucket[id := e]];
      assert sockets == was[id := Socket(k, e)];
    }

    method DeleteSocket(id: EndpointId)
      requires Valid()
      modifies this`sockets, this`byLocal
      ensures Valid() && sockets == if id.n == 0 then old(sockets) else old(sockets) - {id}
    {
      if id.n == 0 {
        return;
      }
      if id in sockets {
        DeleteSocketIndex(id);
      }
      assert id !in old(sockets) ==> old(sockets) - {id} == old(sockets);
    }

    /** The most recent entry of a bucket, walked in any order. */
    static method FindNewest(b: Bucket) returns (best: Option<Entry>)
      ensures best.None? <==> b == map[]
      ensures best.Some? ==> Newest(b, best.value)
    {
      best := None;
      var todo := b.Keys;
      while todo != {}
        invariant todo <= b.Keys
        invariant best.None? ==> todo == b.Keys
        invariant best.Some? ==> exists id :: id in b && b[id] == best.value
        invariant best.Some? ==> forall id | id in b && id !in todo :: b[id].seen <= best.value.seen
        decreases todo
      {
        var id :| id in todo;
        todo := todo - {id};
        if best.None? || b[id].seen > best.value.seen {
          best := Some(b[id]);
        }
      }
      assert best.None? ==> b.Keys == {};
    }

    method Lookup(k: Key) returns (e: Option<Entry>)
      requires Valid()
      ensures Answers(View(), k, e)
    {
      var x, w := Exact(k), Wild(k);
      KeyHasEndpoint(sockets, x);
      KeyHasEndpoint(sockets, w);
      hide BoundTo, Newest;
      if k in flows {
        return Some(flows[k]);
      }
      if x in byLocal {
        e := FindNewest(byLocal[x]);
        return;
      }
      if !x.local.NoAddr? && w in byLocal {
        e := FindNewest(byLocal[w]);
        return;
      }
      if k in snapshot {
        return Some(snapshot[k]);
      }
      if x in locals {
        return Some(locals[x]);
      }
      if !x.local.NoAddr? && w in locals {
        return Some(locals[w]);
      }
      e := None;
    }
  }
}
