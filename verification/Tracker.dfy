/** Which addresses were learned for which domain groups, until when. */
module Tracker {
  import opened Packet

  const MIN_TTL := 10
  const MAX_TTL := 86400

  /** Address to group to expiry time. */
  type Ips = map<Addr, map<int, int>>

  function ClampTtl(ttl: int): (t: int)
    ensures MIN_TTL <= t <= MAX_TTL
    ensures MIN_TTL <= ttl <= MAX_TTL ==> t == ttl
    ensures (ttl < 10 ==> t == 10) && (ttl > 86400 ==> t == 86400)
  {
    if ttl < MIN_TTL then MIN_TTL else if ttl > MAX_TTL then MAX_TTL else ttl
  }

  /** Group `g` holds address `ip` at time `t`. */
  predicate Holds(ips: Ips, ip: Addr, g: int, t: int) {
    ip in ips && g in ips[ip] && t < ips[ip][g]
  }

  function Later(m: map<int, int>, g: int, exp: int): (e: int) { if g in m && m[g] >= exp then m[g] else exp }

  /** One group's entry, kept at the later of the two expiries. */
  function Noted(m: map<int, int>, g: int, exp: int, groups: nat): (n: map<int, int>) {
    if 0 <= g < groups then m[g := Later(m, g, exp)] else m
  }

  function NotedAll(m: map<int, int>, gs: seq<int>, exp: int, groups: nat): (n: map<int, int>) {
    if gs == [] then m else Noted(NotedAll(m, gs[..|gs| - 1], exp, groups), gs[|gs| - 1], exp, groups)
  }

  function Learned(ips: Ips, ip: Addr, gs: seq<int>, ttl: int, now: int, groups: nat): (n: Ips) {
    if ip.NoAddr? || gs == [] then ips
    else
      var u := Unmap(ip);
      ips[u := NotedAll(if u in ips then ips[u] else map[], gs, now + ClampTtl(ttl), groups)]
  }

  ghost function Alive(m: map<int, int>, now: int): (n: map<int, int>) {
    map g | g in m && now < m[g] :: m[g]
  }

  ghost function Swept(ips: Ips, now: int): (n: Ips) {
    map ip | ip in ips && Alive(ips[ip], now) != map[] :: Alive(ips[ip], now)
  }

  class Tracker {
    var ips: Ips
    const groups: nat
    ghost var history: seq<Event>

    /** The cache is what its history makes of it. */
    ghost predicate Valid()
      reads this
    {
      Ordered(history) && ips == Run(history, groups)
    }

    /** The clock has not run backwards. */
    ghost predicate InTime(now: int)
      reads this
    {
      history != [] ==> history[|history| - 1].now <= now
    }

    constructor (groups: nat)
      ensures Valid() && history == [] && this.groups == groups
    {
      ips, history := map[], [];
      this.groups := groups;
    }

    method AddGroups(ip: Addr, gs: seq<int>, ttl: int, now: int)
      requires Valid() && InTime(now)
      modifies this
      ensures Valid() && history == old(history) + [Learn(ip, gs, ttl, now)]
      ensures ips == Learned(old(ips), ip, gs, ttl, now, groups)
    {
      hide Learned, Ordered;
      OrderedLater(history, Learn(ip, gs, ttl, now));
      history := history + [Learn(ip, gs, ttl, now)];
      Note(ip, gs, ttl, now);
    }

    /** The locked part of AddGroups. */
    method Note(ip: Addr, gs: seq<int>, ttl: int, now: int)
      modifies this`ips
      ensures ips == Learned(old(ips), ip, gs, ttl, now, groups)
    {
      if ip.NoAddr? || |gs| == 0 {
        return;
      }
      var u := Unmap(ip);
      var exp := now + ClampTtl(ttl);
      var m := if u in ips then ips[u] else map[];
      ghost var was := m;
      for n := 0 to |gs|
        invariant m == NotedAll(was, gs[..n], exp, groups)
      {
        assert gs[..n + 1][..n] == gs[..n];
        var i := gs[n];
        if 0 <= i < groups {
          if i !in m || m[i] < exp {
            m := m[i := exp];
          }
        }
      }
      assert gs[..|gs|] == gs;
      ips := ips[u := m];
    }

    /** Whether some earlier AddGroups taught that the address belongs to this group, with a clamped
        lifetime that has not run out. */
    method ContainsGroup(ip: Addr, g: int, now: int) returns (r: bool)
      requires Valid() && InTime(now)
      ensures r <==> 0 <= g < groups && Taught(history, Unmap(ip), g, now)
      ensures r <==> Holds(ips, Unmap(ip), g, now)
    {
      GroupsAreKnown(history, groups, Unmap(ip), g);
      if 0 <= g < groups {
        CacheIsItsHistory(history, groups, Unmap(ip), g, now);
      }
      var u := Unmap(ip);
      r := u in ips && g in ips[u] && now < ips[u][g];
    }

    method Sweep(now: int)
      requires Valid() && InTime(now)
      modifies this
      ensures Valid() && history == old(history) + [Event.Sweep(now)]
      ensures ips == Swept(old(ips), now)
    {
      hide Swept, Ordered;
      OrderedLater(history, Event.Sweep(now));
      history := history + [Event.Sweep(now)];
      SweepLocked(now);
    }

    /** Drops expired entries, then addresses without entries, in any order. */
    method SweepLocked(now: int)
      modifies this`ips
      ensures ips == Swept(old(ips), now)
    {
      var todo := ips.Keys;
      ghost var was := ips;
      while todo != {}
        invariant todo <= ips.Keys <= was.Keys
        invariant forall a | a in todo :: ips[a] == was[a]
        invariant forall a | a in was && a !in todo :: (a in ips <==> Alive(was[a], now) != map[])
        invariant forall a | a in ips && a !in todo :: ips[a] == Alive(was[a], now)
        decreases todo
      {
        var a :| a in todo;
        todo := todo - {a};
        var m := map g | g in ips[a] && now < ips[a][g] :: ips[a][g];
        if m == map[] {
          ips := ips - {a};
        } else {
          ips := ips[a := m];
        }
      }
    }
  }

  // ---------- The cache and its history ----------

  datatype Event = Learn(ip: Addr, gs: seq<int>, ttl: int, now: int) | Sweep(now: int)

  ghost function Run(h: seq<Event>, groups: nat): (ips: Ips) {
    if h == [] then map[]
    else
      var before := Run(h[..|h| - 1], groups);
      match h[|h| - 1]
      case Learn(ip, gs, ttl, now) => Learned(before, ip, gs, ttl, now, groups)
      case Sweep(now) => Swept(before, now)
  }

  /** The clock does not run backwards. */
  ghost predicate Ordered(h: seq<Event>) {
    forall i, j | 0 <= i <= j < |h| :: h[i].now <= h[j].now
  }

  lemma OrderedLater(h: seq<Event>, e: Event)
    requires Ordered(h) && (h != [] ==> h[|h| - 1].now <= e.now)
    ensures Ordered(h + [e]) && (h + [e])[..|h|] == h
  {
  }

  /** Only configured groups are ever noted. */
  lemma {:induction false} GroupsAreKnown(h: seq<Event>, groups: nat, ip: Addr, g: int)
    ensures var ips := Run(h, groups); ip in ips && g in ips[ip] ==> 0 <= g < groups
  {
    if h != [] {
      var before := h[..|h| - 1];
      GroupsAreKnown(before, groups, ip, g);
      var ips, e := Run(before, groups), h[|h| - 1];
      if e.Learn? {
        NotedAreKnown(if ip in ips then ips[ip] else map[], e.gs, e.now + ClampTtl(e.ttl), groups, g);
      }
    }
  }

  lemma {:induction false} NotedAreKnown(m: map<int, int>, gs: seq<int>, exp: int, groups: nat, g: int)
    ensures g in NotedAll(m, gs, exp, groups) && g !in m ==> 0 <= g < groups
  {
    if gs != [] {
      NotedAreKnown(m, gs[..|gs| - 1], exp, groups, g);
    }
  }

  /** Event `e` teaches that `ip` belongs to group `g` until after time `t`. */
  ghost predicate Teaches(e: Event, ip: Addr, g: int, t: int) {
    e.Learn? && !e.ip.NoAddr? && Unmap(e.ip) == ip && g in e.gs && t < e.now + ClampTtl(e.ttl)
  }

  ghost predicate Taught(h: seq<Event>, ip: Addr, g: int, t: int) {
    exists i | 0 <= i < |h| :: Teaches(h[i], ip, g, t)
  }

  lemma {:induction false} NotedHolds(m: map<int, int>, gs: seq<int>, exp: int, groups: nat, g: int, t: int)
    ensures var n := NotedAll(m, gs, exp, groups);
      (g in n && t < n[g]) <==> (g in m && t < m[g]) || (0 <= g < groups && g in gs && t < exp)
  {
    if gs != [] {
      NotedHolds(m, gs[..|gs| - 1], exp, groups, g, t);
      assert gs == gs[..|gs| - 1] + [gs[|gs| - 1]];
    }
  }

  /** Sweeping at `now` changes no answer from `now` on. */
  lemma SweepIsUnobservable(ips: Ips, now: int, ip: Addr, g: int, t: int)
    requires now <= t
    ensures Holds(Swept(ips, now), ip, g, t) <==> Holds(ips, ip, g, t)
  {
    if Holds(ips, ip, g, t) {
      assert g in Alive(ips[ip], now);
    }
  }

  lemma LearnAddsWhatItTeaches(ips: Ips, e: Event, groups: nat, ip: Addr, g: int, t: int)
    requires e.Learn? && 0 <= g < groups
    ensures Holds(Learned(ips, e.ip, e.gs, e.ttl, e.now, groups), ip, g, t)
       <==> Holds(ips, ip, g, t) || Teaches(e, ip, g, t)
  {
    hide NotedAll, Unmap, ClampTtl;
    var u := Unmap(e.ip);
    NotedHolds(if u in ips then ips[u] else map[], e.gs, e.now + ClampTtl(e.ttl), groups, g, t);
  }

  lemma TaughtStep(h: seq<Event>, e: Event, ip: Addr, g: int, t: int)
    ensures Taught(h + [e], ip, g, t) <==> Taught(h, ip, g, t) || Teaches(e, ip, g, t)
  {
    hide Teaches;
    var k := h + [e];
    assert k[|h|] == e;
    assert forall i | 0 <= i < |h| :: k[i] == h[i];
  }

  /** The cache answers exactly from the history: at any time from the last event on, an address is in
      a group exactly if some event taught it with a clamped lifetime that has not run out. */
  lemma {:induction false} CacheIsItsHistory(h: seq<Event>, groups: nat, ip: Addr, g: int, t: int)
    requires Ordered(h) && (h != [] ==> h[|h| - 1].now <= t) && 0 <= g < groups
    ensures Holds(Run(h, groups), ip, g, t) <==> Taught(h, ip, g, t)
  {
    hide Learned, Teaches, Taught, Holds, Swept;
    if h != [] {
      var n := |h| - 1;
      var before := h[..n];
      assert h == before + [h[n]];
      CacheIsItsHistory(before, groups, ip, g, t);
      TaughtStep(before, h[n], ip, g, t);
      var ips := Run(before, groups);
      match h[n]
      case Learn(x, gs, ttl, now) =>
        LearnAddsWhatItTeaches(ips, h[n], groups, ip, g, t);
      case Sweep(now) =>
        SweepIsUnobservable(ips, now, ip, g, t);
        SweepTeachesNothing(h[n], ip, g, t);
    } else {
      NothingYet(ip, g, t);
    }
  }

  lemma SweepTeachesNothing(e: Event, ip: Addr, g: int, t: int)
    requires e.Sweep?
    ensures !Teaches(e, ip, g, t)
  {
  }

  lemma NothingYet(ip: Addr, g: int, t: int)
    ensures !Holds(map[], ip, g, t) && !Taught([], ip, g, t)
  {
  }
}
