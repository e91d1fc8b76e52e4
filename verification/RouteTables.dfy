/** The mutable route tables and the loop's switch over them, proved to be the steps of module Routing. */
module RouteTables {
  import opened Bytes
  import opened Packet
  import opened Routing

  // ---------- Flow routes ----------

  datatype Route = Route(tunnel: bool, known: bool, seen: int)

  class FlowRoutes {
    var m: map<Key, Route>

    /** The routes as the loop sees them. */
    ghost function View(): (v: map<Key, bool>)
      reads this
    {
      map k | k in m :: m[k].tunnel
    }

    constructor ()
      ensures m == map[] && View() == map[]
    {
      m := map[];
    }

    method Lookup(k: Key, now: int) returns (r: Option<Route>)
      modifies this
      ensures View() == old(View())
      ensures if r.Some? then k in View() && r.value.tunnel == View()[k] else k !in View()
      ensures m == if r.Some? then old(m)[k := old(m)[k].(seen := now)] else old(m)
    {
      if k !in m {
        return None;
      }
      m := m[k := m[k].(seen := now)];
      r := Some(m[k]);
    }

    /** Only the first Set of a key has an effect: a route is sticky until it is removed. */
    method Set(k: Key, tunnel: bool, known: bool, now: int)
      modifies this
      ensures View() == if k in old(m) then old(View()) else old(View())[k := tunnel]
      ensures m == if k in old(m) then old(m) else old(m)[k := Route(tunnel, known, now)]
    {
      if k !in m {
        m := m[k := Route(tunnel, known, now)];
      }
    }

    method Delete(k: Key)
      modifies this
      ensures View() == old(View()) - {k} && m == old(m) - {k}
    {
      m := m - {k};
    }

    /** Deletes the old entries one by one, in any order. */
    method Sweep(cut: int) returns (ghost gone: seq<Key>)
      modifies this
      ensures forall k :: k in gone <==> k in old(m) && old(m)[k].seen < cut
      ensures View() == WithoutAll(old(View()), gone)
      ensures m == map k | k in old(m) && old(m)[k].seen >= cut :: old(m)[k]
    {
      hide WithoutAll;
      gone := [];
      NothingLess(View());
      var keys := m.Keys;
      while keys != {}
        invariant keys <= m.Keys <= old(m).Keys
        invariant forall k | k in m :: m[k] == old(m)[k]
        invariant forall k | k in old(m) :: k in m <==> k in keys || old(m)[k].seen >= cut
        invariant forall k :: k in gone <==> k in old(m) && k !in m
        invariant View() == WithoutAll(old(View()), gone)
        decreases keys
      {
        var k :| k in keys;
        keys := keys - {k};
        if m[k].seen < cut {
          OneLess(old(View()), gone, k);
          gone := gone + [k];
          m := m - {k};
        }
      }
    }
  }

  /** A table after removing keys one by one. */
  ghost function WithoutAll<K, V>(m: map<K, V>, ks: seq<K>): (n: map<K, V>) {
    if ks == [] then m else WithoutAll(m, ks[..|ks| - 1]) - {ks[|ks| - 1]}
  }

  lemma NothingLess<K, V>(m: map<K, V>)
    ensures WithoutAll(m, []) == m
  {
  }

  lemma OneLess<K, V>(m: map<K, V>, ks: seq<K>, k: K)
    ensures WithoutAll(m, ks + [k]) == WithoutAll(m, ks) - {k}
  {
    assert (ks + [k])[..|ks|] == ks;
  }

  // ---------- Proxy routes ----------

  datatype Proxied = Proxied(tunnel: bool, seen: int)

  /** A key with a part missing is ignored. */
  predicate Complete(k: ProxyKey) {
    k.proto != 0 && k.localPort != 0 && !k.remote.NoAddr? && k.remotePort != 0
  }

  function Plain(k: ProxyKey): (p: ProxyKey) { k.(remote := Unmap(k.remote)) }

  class ProxyRoutes {
    var m: map<ProxyKey, Proxied>

    ghost function View(): (v: map<ProxyKey, bool>)
      reads this
    {
      map k | k in m :: m[k].tunnel
    }

    constructor ()
      ensures m == map[] && View() == map[]
    {
      m := map[];
    }

    /** A later Set replaces an earlier one. */
    method Set(k: ProxyKey, tunnel: bool, now: int)
      modifies this
      ensures View() == if Complete(k) then old(View())[Plain(k) := tunnel] else old(View())
      ensures m == if Complete(k) then old(m)[Plain(k) := Proxied(tunnel, now)] else old(m)
    {
      if k.proto == 0 || k.localPort == 0 || k.remote.NoAddr? || k.remotePort == 0 {
        return;
      }
      m := m[k.(remote := Unmap(k.remote)) := Proxied(tunnel, now)];
    }

    method Lookup(k: Key, now: int) returns (r: Option<bool>)
      modifies this
      ensures r == ProxyFor(View(), k) && View() == old(View())
      ensures r.Some? <==> ProxyKey(k.proto, k.localPort, Unmap(k.remote), k.remotePort) in old(m)
      ensures m == if r.Some? then old(m)[ProxyKeyOf(k) := Proxied(r.value, now)] else old(m)
    {
      var pk := ProxyKeyOf(k);
      if pk !in m {
        return None;
      }
      m := m[pk := m[pk].(seen := now)];
      r := Some(m[pk].tunnel);
    }

    method DeleteKey(k: ProxyKey)
      modifies this
      ensures View() == old(View()) - {Plain(k)} && m == old(m) - {Plain(k)}
    {
      m := m - {k.(remote := Unmap(k.remote))};
    }

    method DeleteFlow(k: Key)
      modifies this
      ensures View() == old(View()) - {ProxyKeyOf(k)} && m == old(m) - {ProxyKeyOf(k)}
    {
      m := m - {ProxyKeyOf(k)};
    }

    /** Deletes the old entries one by one, in any order. */
    method Sweep(cut: int) returns (ghost gone: seq<ProxyKey>)
      modifies this
      ensures forall k :: k in gone <==> k in old(m) && old(m)[k].seen < cut
      ensures View() == WithoutAll(old(View()), gone)
      ensures m == map k | k in old(m) && old(m)[k].seen >= cut :: old(m)[k]
    {
      hide WithoutAll;
      gone := [];
      NothingLess(View());
      var keys := m.Keys;
      while keys != {}
        invariant keys <= m.Keys <= old(m).Keys
        invariant forall k | k in m :: m[k] == old(m)[k]
        invariant forall k | k in old(m) :: k in m <==> k in keys || old(m)[k].seen >= cut
        invariant forall k :: k in gone <==> k in old(m) && k !in m
        invariant View() == WithoutAll(old(View()), gone)
        decreases keys
      {
        var k :| k in keys;
        keys := keys - {k};
        if m[k].seen < cut {
          OneLess(old(View()), gone, k);
          gone := gone + [k];
          m := m - {k};
        }
      }
    }
  }

  /** A registered proxy route is found by exactly the flows with its protocol and ports whose remote address is
      the same up to the IPv4-mapped form, and hides nothing from the others. */
  lemma RegisteredIsFound(v: map<ProxyKey, bool>, pk: ProxyKey, tunnel: bool, k: Key)
    ensures ProxyFor(v[Plain(pk) := tunnel], k)
         == if k.proto == pk.proto && k.localPort == pk.localPort && k.remotePort == pk.remotePort
               && Unmap(k.remote) == Unmap(pk.remote)
            then Some(tunnel) else ProxyFor(v, k)
    ensures ProxyKeyOf(k) == Plain(pk) ==> ProxyFor(v - {Plain(pk)}, k) == None
  {
  }

  // ---------- Sweeps as removals ----------

  /** Removing flow routes one by one. */
  ghost function RoutesRemoved(s: State, ks: seq<Key>): (t: State) {
    if ks == [] then s else Step(RoutesRemoved(s, ks[..|ks| - 1]), RemoveRoute(ks[|ks| - 1]))
  }

  lemma {:induction false} RoutesLeft(s: State, ks: seq<Key>)
    ensures var t := RoutesRemoved(s, ks);
      t.table.routes == WithoutAll(s.table.routes, ks) && t.proxies == s.proxies && t.cap == s.cap && t.log == s.log
  {
    if ks != [] {
      RoutesLeft(s, ks[..|ks| - 1]);
    }
  }

  ghost function ProxiesRemoved(s: State, ks: seq<ProxyKey>): (t: State) {
    if ks == [] then s else Step(ProxiesRemoved(s, ks[..|ks| - 1]), RemoveProxy(ks[|ks| - 1]))
  }

  lemma {:induction false} ProxiesLeft(s: State, ks: seq<ProxyKey>)
    ensures ProxiesRemoved(s, ks) == s.(proxies := WithoutAll(s.proxies, ks))
  {
    if ks != [] {
      ProxiesLeft(s, ks[..|ks| - 1]);
    }
  }

  // ---------- The loop ----------

  /** The loop's local variables between two table operations. */
  datatype Hand =
    | NoPacket
    | AskedProxy(p: Captured, proxy: Option<bool>)
    | AskedRoute(p: Captured, proxy: Option<bool>, route: Option<bool>)
    | Chosen(p: Captured, tunnel: bool, viaProxy: bool, first: bool)

  function HandOf(c: Capture): (h: Hand) {
    match c
    case Idle => NoPacket
    case GotProxy(p, proxy) => AskedProxy(p, proxy)
    case GotRoute(p, proxy, route, _) => AskedRoute(p, proxy, route)
    case Decided(p, tunnel, viaProxy, first, _) => Chosen(p, tunnel, viaProxy, first)
  }

  /** The two tables and the loop over them. Each method is one atomic step of the state machine `s`, so
      everything proved of its runs holds of every interleaving of these methods. */
  class Router {
    const routes: FlowRoutes
    const proxies: ProxyRoutes
    var hand: Hand
    ghost var s: State

    ghost predicate Valid()
      reads this, routes, proxies
    {
      s.table.routes == routes.View() && s.proxies == proxies.View() && hand == HandOf(s.cap)
    }

    constructor ()
      ensures Valid() && s == Start && fresh(routes) && fresh(proxies)
    {
      routes := new FlowRoutes();
      proxies := new ProxyRoutes();
      hand, s := NoPacket, Start;
    }

    /** A captured packet: what does the proxy table say? */
    method TakePacket(p: Captured, now: int)
      requires Valid() && hand.NoPacket?
      modifies this, proxies
      ensures Valid() && s == Step(old(s), Take(p))
    {
      var proxy := proxies.Lookup(p.key, now);
      hand := AskedProxy(p, proxy);
      s := Step(s, Take(p));
    }

    method LookUpRoute(now: int)
      requires Valid() && hand.AskedProxy?
      modifies this, routes
      ensures Valid() && s == Step(old(s), LookUp)
    {
      var entry := routes.Lookup(hand.p.key, now);
      hand := AskedRoute(hand.p, hand.proxy, if entry.Some? then Some(entry.value.tunnel) else None);
      s := Step(s, LookUp);
    }

    /** Proxy route, else sticky route, else the policy's choice; the first and the last are filed. */
    method Choose(policy: bool, known: bool, now: int)
      requires Valid() && hand.AskedRoute?
      modifies this, routes
      ensures Valid() && s == Step(old(s), Decide(policy))
    {
      var k := hand.p.key;
      if hand.proxy.Some? {
        routes.Set(k, hand.proxy.value, true, now);
        hand := Chosen(hand.p, hand.proxy.value, true, false);
      } else if hand.route.Some? {
        hand := Chosen(hand.p, hand.route.value, false, false);
      } else {
        routes.Set(k, policy, known, now);
        hand := Chosen(hand.p, policy, false, true);
      }
      s := Step(s, Decide(policy));
    }

    /** Resets the flow, or sends the packet DIRECT or into the tunnel and records it. */
    method Dispatch(learned: bool) returns (sent: Option<bool>)
      requires Valid() && hand.Chosen?
      modifies this, routes
      ensures Valid() && s == Step(old(s), Finish(learned))
      ensures if sent.None? then s.log == old(s).log
              else |s.log| == |old(s).log| + 1 && s.log[|old(s).log|].tunnel == sent.value
    {
      var h := hand;
      hand := NoPacket;
      ghost var t := Step(s, Finish(learned));
      if (!h.tunnel && learned && !h.viaProxy) || (h.tunnel && h.first && IsTcp(h.p.key) && !h.p.syn) {
        routes.Delete(h.p.key);
        sent := None;
      } else {
        sent := Some(h.tunnel);
      }
      s := t;
    }

    /** Gives up on the packet after the choice without touching a table. */
    method Discard()
      requires Valid() && hand.Chosen? && !(hand.tunnel && hand.first && IsTcp(hand.p.key) && !hand.p.syn)
      modifies this
      ensures Valid() && s == Step(old(s), Drop)
    {
      hand := NoPacket;
      s := Step(s, Drop);
    }

    method DeleteRoute(k: Key)
      requires Valid()
      modifies this, routes
      ensures Valid() && s == Step(old(s), RemoveRoute(k))
    {
      routes.Delete(k);
      s := Step(s, RemoveRoute(k));
    }

    /** Registers a connection of the hostname proxy before it is made. */
    method Register(k: ProxyKey, tunnel: bool, now: int)
      requires Valid()
      modifies this, proxies
      ensures Valid() && s == if Complete(k) then Step(old(s), SetProxy(Plain(k), tunnel)) else old(s)
    {
      proxies.Set(k, tunnel, now);
      if Complete(k) {
        s := Step(s, SetProxy(Plain(k), tunnel));
      }
    }

    method Unregister(k: ProxyKey)
      requires Valid()
      modifies this, proxies
      ensures Valid() && s == Step(old(s), RemoveProxy(Plain(k)))
    {
      proxies.DeleteKey(k);
      s := Step(s, RemoveProxy(Plain(k)));
    }

    method UnregisterFlow(k: Key)
      requires Valid()
      modifies this, proxies
      ensures Valid() && s == Step(old(s), RemoveProxy(ProxyKeyOf(k)))
    {
      proxies.DeleteFlow(k);
      s := Step(s, RemoveProxy(ProxyKeyOf(k)));
    }

    /** Removes exactly the routes not seen since `cut`, as that many removal steps. */
    method SweepRoutes(cut: int) returns (ghost gone: seq<Key>)
      requires Valid()
      modifies this, routes
      ensures Valid() && s == RoutesRemoved(old(s), gone)
      ensures forall k :: k in gone <==> k in old(routes.m) && old(routes.m)[k].seen < cut
    {
      hide WithoutAll, RoutesRemoved;
      gone := routes.Sweep(cut);
      RoutesLeft(s, gone);
      s := RoutesRemoved(s, gone);
    }

    method SweepProxies(cut: int) returns (ghost gone: seq<ProxyKey>)
      requires Valid()
      modifies this, proxies
      ensures Valid() && s == ProxiesRemoved(old(s), gone)
      ensures forall k :: k in gone <==> k in old(proxies.m) && old(proxies.m)[k].seen < cut
    {
      hide WithoutAll, ProxiesRemoved;
      gone := proxies.Sweep(cut);
      ProxiesLeft(s, gone);
      s := ProxiesRemoved(s, gone);
    }
  }
}
