/** Which process may use the tunnel for which destination: the compiled application index,
    proved equal to a plain scan of the configured groups. */
module Policy {
  import opened Bytes
  import opened Packet
  import Tracker

  /** A network prefix. */
  datatype Net = Net(addr: Addr, bits: nat)

  function BitOf(b: seq<byte>, i: nat): (v: nat)
    requires i / 8 < |b|
  {
    var w := b[i / 8] as int;
    match i % 8
    case 0 => w / 128 case 1 => w / 64 % 2 case 2 => w / 32 % 2 case 3 => w / 16 % 2
    case 4 => w / 8 % 2 case 5 => w / 4 % 2 case 6 => w / 2 % 2 case _ => w % 2
  }

  /** Same family, and the leading bits agree. */
  predicate InNet(a: Addr, n: Net) {
    && !a.NoAddr? && a.V4? == n.addr.V4? && !n.addr.NoAddr?
    && n.bits <= 8 * |a.bytes| && |a.bytes| == |n.addr.bytes|
    && forall i: nat | i < n.bits :: BitOf(a.bytes, i) == BitOf(n.addr.bytes, i)
  }

  /** The leading `r` bits of a byte. */
  ghost function Top(w: byte, r: nat): (v: int)
    requires r <= 8
  {
    match r
    case 0 => 0 case 1 => w / 128 case 2 => w / 64 case 3 => w / 32 case 4 => w / 16
    case 5 => w / 8 case 6 => w / 4 case 7 => w / 2 case _ => w
  }

  lemma TopBits(x: seq<byte>, y: seq<byte>, q: nat, r: nat)
    requires q < |x| == |y| && r <= 8
    ensures Top(x[q], r) == Top(y[q], r) <==> forall i: nat | 8 * q <= i < 8 * q + r :: BitOf(x, i) == BitOf(y, i)
    decreases r
  {
    if r > 0 {
      TopBits(x, y, q, r - 1);
      assert (8 * q + (r - 1)) / 8 == q && (8 * q + (r - 1)) % 8 == r - 1;
      TopStep(x[q], r);
      TopStep(y[q], r);
      assert Top(x[q], r) == 2 * Top(x[q], r - 1) + BitOf(x, 8 * q + (r - 1));
      assert Top(y[q], r) == 2 * Top(y[q], r - 1) + BitOf(y, 8 * q + (r - 1));
      hide Top, BitOf;
      BitIsBit(x, 8 * q + (r - 1));
      BitIsBit(y, 8 * q + (r - 1));
    }
  }

  lemma BitIsBit(x: seq<byte>, i: nat)
    requires i / 8 < |x|
    ensures BitOf(x, i) == 0 || BitOf(x, i) == 1
  {
  }

  lemma TopStep(w: byte, r: nat)
    requires 0 < r <= 8
    ensures var bit := match r - 1
              case 0 => w / 128 case 1 => w / 64 % 2 case 2 => w / 32 % 2 case 3 => w / 16 % 2
              case 4 => w / 8 % 2 case 5 => w / 4 % 2 case 6 => w / 2 % 2 case _ => w % 2;
      Top(w, r) == 2 * Top(w, r - 1) + bit
  {
    match r
    case 1 =>
    case 2 => assert w / 64 / 2 == w / 128;
    case 3 => assert w / 32 / 2 == w / 64;
    case 4 => assert w / 16 / 2 == w / 32;
    case 5 => assert w / 8 / 2 == w / 16;
    case 6 => assert w / 4 / 2 == w / 8;
    case 7 => assert w / 2 / 2 == w / 4;
    case 8 =>
  }

  /** A network holds exactly the addresses of its family with its whole leading bytes and, in the next byte, its
      remaining leading bits. */
  lemma InNetExactly(a: Addr, n: Net)
    requires !a.NoAddr? && !n.addr.NoAddr? && |a.bytes| == |n.addr.bytes| && n.bits <= 8 * |a.bytes|
    ensures var q, r := n.bits / 8, n.bits % 8;
      InNet(a, n) <==>
        && a.V4? == n.addr.V4? && a.bytes[..q] == n.addr.bytes[..q]
        && (r > 0 ==> Top(a.bytes[q], r) == Top(n.addr.bytes[q], r))
  {
    var x, y, q, r := a.bytes, n.addr.bytes, n.bits / 8, n.bits % 8;
    forall h: nat | h < |x|
      ensures x[h] == y[h] <==> forall i: nat | 8 * h <= i < 8 * h + 8 :: BitOf(x, i) == BitOf(y, i)
    {
      TopBits(x, y, h, 8);
    }
    if r > 0 {
      TopBits(x, y, q, r);
    }
    hide BitOf, Top;
    if x[..q] == y[..q] {
      forall i: nat | i < 8 * q
        ensures BitOf(x, i) == BitOf(y, i)
      {
        assert x[i / 8] == x[..q][i / 8] && y[i / 8] == y[..q][i / 8];
      }
    }
    if forall i: nat | i < n.bits :: BitOf(x, i) == BitOf(y, i) {
      forall h: nat | h < q
        ensures x[h] == y[h]
      {
      }
    }
  }

  datatype Group = Group(name: string, apps: seq<string>, domains: seq<string>, nets: seq<Net>)
  datatype Process = Process(name: string, path: string)
  datatype Decision = Direct | Tunnel(group: string)

  predicate All(xs: seq<string>) { xs == ["*"] }

  predicate IsPath(app: string) { '\\' in app || '/' in app }

  /** A list is for all if it is a lone star, and an application is a path if it has a slash of either kind. */
  lemma WhatStarsAndSlashesMean(xs: seq<string>, app: string)
    ensures All(xs) <==> |xs| == 1 && |xs[0]| == 1 && xs[0][0] == '*'
    ensures IsPath(app) <==> exists i | 0 <= i < |app| :: app[i] == '\\' || app[i] == '/'
  {
    if |xs| == 1 && |xs[0]| == 1 && xs[0][0] == '*' {
      assert xs[0] == "*";
    }
  }

  /** How executable names and paths are brought to a common form. */
  datatype Canon = Canon(name: string -> string, path: string -> string)

  // ---------- The plain scan ----------

  ghost predicate AppMatches(c: Canon, app: string, p: Process) {
    if IsPath(app) then c.path(app) == c.path(p.path) else c.name(app) == c.name(p.name)
  }

  ghost predicate ProcessMatches(c: Canon, g: Group, p: Process) {
    All(g.apps) || exists i | 0 <= i < |g.apps| :: AppMatches(c, g.apps[i], p)
  }

  /** All domains, a network of the group, or an address learned for it. */
  predicate DestinationMatches(g: Group, index: int, dst: Addr, ips: Tracker.Ips, now: int) {
    || All(g.domains)
    || (exists i | 0 <= i < |g.nets| :: InNet(dst, g.nets[i]))
    || Tracker.Holds(ips, dst, index, now)
  }

  ghost predicate Selects(c: Canon, groups: seq<Group>, p: Process, dst: Addr, ips: Tracker.Ips, now: int) {
    exists i | 0 <= i < |groups| ::
      ProcessMatches(c, groups[i], p) && DestinationMatches(groups[i], i, Unmap(dst), ips, now)
  }

  // ---------- The index ----------

  datatype Index = Index(global: seq<nat>, byName: map<string, seq<nat>>, byPath: map<string, seq<nat>>)

  function Ids(m: map<string, seq<nat>>, k: string): (ids: seq<nat>) { if k in m then m[k] else [] }

  ghost predicate Has(ids: seq<nat>, i: nat) { exists j | 0 <= j < |ids| :: ids[j] == i }

  lemma HasAppended(ids: seq<nat>, n: nat, i: nat)
    ensures Has(ids + [n], i) <==> Has(ids, i) || i == n
  {
    var more := ids + [n];
    assert more[|ids|] == n;
    assert forall j | 0 <= j < |ids| :: more[j] == ids[j];
  }

  function Appended(m: map<string, seq<nat>>, k: string, i: nat): (n: map<string, seq<nat>>) {
    m[k := Ids(m, k) + [i]]
  }

  /** Some application of `g` with this canonical name (or path). */
  ghost predicate Lists(c: Canon, apps: seq<string>, k: string, path: bool) {
    exists i | 0 <= i < |apps| :: IsPath(apps[i]) == path && (if path then c.path(apps[i]) else c.name(apps[i])) == k
  }

  /** The index holds exactly the first `n` groups, each under every key it lists. */
  ghost predicate Indexes(c: Canon, groups: seq<Group>, n: nat, x: Index) {
    && n <= |groups|
    && (forall i: nat :: Has(x.global, i) <==> i < n && All(groups[i].apps))
    && (forall k, i: nat {:trigger Has(Ids(x.byName, k), i)} ::
          Has(Ids(x.byName, k), i) <==> i < n && !All(groups[i].apps) && Lists(c, groups[i].apps, k, false))
    && (forall k, i: nat {:trigger Has(Ids(x.byPath, k), i)} ::
          Has(Ids(x.byPath, k), i) <==> i < n && !All(groups[i].apps) && Lists(c, groups[i].apps, k, true))
  }

  /** Midway through group `n`: its first `m` applications are filed as well. */
  ghost predicate Filing(c: Canon, groups: seq<Group>, n: nat, m: nat, x: Index) {
    && n < |groups| && m <= |groups[n].apps| && !All(groups[n].apps)
    && (forall i: nat :: Has(x.global, i) <==> i < n && All(groups[i].apps))
    && (forall k, i: nat :: Has(Ids(x.byName, k), i) <==> Filed(c, groups, n, m, k, i, false))
    && (forall k, i: nat :: Has(Ids(x.byPath, k), i) <==> Filed(c, groups, n, m, k, i, true))
  }

  ghost predicate Filed(c: Canon, groups: seq<Group>, n: nat, m: nat, k: string, i: nat, path: bool)
    requires n < |groups| && m <= |groups[n].apps|
  {
    || (i < n && !All(groups[i].apps) && Lists(c, groups[i].apps, k, path))
    || (i == n && Lists(c, groups[n].apps[..m], k, path))
  }

  lemma ListsMore(c: Canon, apps: seq<string>, m: nat, k: string, path: bool)
    requires m < |apps|
    ensures Lists(c, apps[..m + 1], k, path)
       <==> (|| Lists(c, apps[..m], k, path)
             || (IsPath(apps[m]) == path && (if path then c.path(apps[m]) else c.name(apps[m])) == k))
  {
    var longer, shorter := apps[..m + 1], apps[..m];
    assert forall i | 0 <= i < m :: longer[i] == shorter[i] == apps[i];
    assert longer[m] == apps[m];
  }

  function FileApp(c: Canon, x: Index, app: string, n: nat): (y: Index) {
    if IsPath(app) then x.(byPath := Appended(x.byPath, c.path(app), n))
    else x.(byName := Appended(x.byName, c.name(app), n))
  }

  lemma FileStep(c: Canon, groups: seq<Group>, n: nat, m: nat, x: Index)
    requires Filing(c, groups, n, m, x) && m < |groups[n].apps|
    ensures Filing(c, groups, n, m + 1, FileApp(c, x, groups[n].apps[m], n))
  {
    var apps := groups[n].apps;
    var y := FileApp(c, x, apps[m], n);
    forall k, i: nat
      ensures Has(Ids(y.byName, k), i) <==> Filed(c, groups, n, m + 1, k, i, false)
      ensures Has(Ids(y.byPath, k), i) <==> Filed(c, groups, n, m + 1, k, i, true)
    {
      ListsMore(c, apps, m, k, false);
      ListsMore(c, apps, m, k, true);
      HasAppended(Ids(x.byName, k), n, i);
      HasAppended(Ids(x.byPath, k), n, i);
      hide Lists, Has;
    }
  }

  /** Fills the index group by group, application by application. */
  method Compile(c: Canon, groups: seq<Group>) returns (x: Index)
    ensures Indexes(c, groups, |groups|, x) && InOrder(x, |groups|)
  {
    hide Indexes, Filing, FileApp, InOrder;
    x := Index([], map[], map[]);
    EmptyIndexes(c, groups);
    for n := 0 to |groups|
      invariant Indexes(c, groups, n, x) && InOrder(x, n)
    {
      if All(groups[n].apps) {
        GlobalStep(c, groups, n, x);
        OrderGlobal(x, n);
        x := x.(global := x.global + [n]);
        continue;
      }
      FilingStarts(c, groups, n, x);
      for m := 0 to |groups[n].apps|
        invariant Filing(c, groups, n, m, x) && InOrder(x, n)
      {
        OrderFile(c, x, groups[n].apps[m], n);
        FileStep(c, groups, n, m, x);
        x := FileApp(c, x, groups[n].apps[m], n);
      }
      FilingEnds(c, groups, n, x);
      OrderLater(x, n);
    }
  }

  lemma EmptyIndexes(c: Canon, groups: seq<Group>)
    ensures Indexes(c, groups, 0, Index([], map[], map[])) && InOrder(Index([], map[], map[]), 0)
  {
    var x := Index([], map[], map[]);
    var none: seq<nat> := [];
    assert forall i: nat :: !Has(none, i);
    assert forall k :: Ids(x.byName, k) == none && Ids(x.byPath, k) == none;
  }

  lemma GlobalStep(c: Canon, groups: seq<Group>, n: nat, x: Index)
    requires Indexes(c, groups, n, x) && n < |groups| && All(groups[n].apps)
    ensures Indexes(c, groups, n + 1, x.(global := x.global + [n]))
  {
    forall i: nat
      ensures Has(x.global + [n], i) <==> Has(x.global, i) || i == n
    {
      HasAppended(x.global, n, i);
    }
    hide Has;
  }

  lemma FilingStarts(c: Canon, groups: seq<Group>, n: nat, x: Index)
    requires Indexes(c, groups, n, x) && n < |groups| && !All(groups[n].apps)
    ensures Filing(c, groups, n, 0, x)
  {
  }

  lemma FilingEnds(c: Canon, groups: seq<Group>, n: nat, x: Index)
    requires n < |groups| && Filing(c, groups, n, |groups[n].apps|, x)
    ensures Indexes(c, groups, n + 1, x)
  {
    var apps := groups[n].apps;
    assert apps[..|apps|] == apps;
  }

  /** The lists name groups in the order of the configuration, none after `n`. */
  ghost predicate Sorted(ids: seq<nat>, n: nat) {
    (forall i | 0 <= i < |ids| :: ids[i] <= n) && forall i, j | 0 <= i < j < |ids| :: ids[i] <= ids[j]
  }

  ghost predicate InOrder(x: Index, n: nat) {
    && Sorted(x.global, n)
    && (forall k {:trigger Ids(x.byName, k)} :: Sorted(Ids(x.byName, k), n))
    && (forall k {:trigger Ids(x.byPath, k)} :: Sorted(Ids(x.byPath, k), n))
  }

  lemma SortedAppend(ids: seq<nat>, n: nat)
    requires Sorted(ids, n)
    ensures Sorted(ids + [n], n)
  {
  }

  lemma OrderGlobal(x: Index, n: nat)
    requires InOrder(x, n)
    ensures InOrder(x.(global := x.global + [n]), n + 1)
  {
  }

  lemma OrderFile(c: Canon, x: Index, app: string, n: nat)
    requires InOrder(x, n)
    ensures InOrder(FileApp(c, x, app, n), n)
  {
    var y := FileApp(c, x, app, n);
    forall k: string
      ensures Sorted(Ids(y.byName, k), n) && Sorted(Ids(y.byPath, k), n)
    {
      hide Sorted;
      assert Sorted(Ids(x.byName, k), n) && Sorted(Ids(x.byPath, k), n);
      SortedAppend(Ids(x.byName, k), n);
      SortedAppend(Ids(x.byPath, k), n);
    }
  }

  lemma OrderLater(x: Index, n: nat)
    requires InOrder(x, n)
    ensures InOrder(x, n + 1)
  {
  }

  // ---------- Deciding ----------

  ghost predicate InRange(ids: seq<nat>, groups: seq<Group>) { forall j | 0 <= j < |ids| :: ids[j] < |groups| }

  /** The first listed group whose destination matches. */
  function First(groups: seq<Group>, ids: seq<nat>, dst: Addr, ips: Tracker.Ips, now: int): (d: Decision)
    requires forall j | 0 <= j < |ids| :: ids[j] < |groups|
  {
    if ids == [] then Direct
    else if DestinationMatches(groups[ids[0]], ids[0], dst, ips, now) then Tunnel(groups[ids[0]].name)
    else First(groups, ids[1..], dst, ips, now)
  }

  method MatchesDestination(g: Group, index: int, dst: Addr, ips: Tracker.Ips, now: int) returns (r: bool)
    ensures r == DestinationMatches(g, index, dst, ips, now)
  {
    if All(g.domains) {
      return true;
    }
    for n := 0 to |g.nets|
      invariant forall i | 0 <= i < n :: !InNet(dst, g.nets[i])
    {
      if InNet(dst, g.nets[n]) {
        return true;
      }
    }
    r := Tracker.Holds(ips, dst, index, now);
  }

  method DecideIds(groups: seq<Group>, ids: seq<nat>, dst: Addr, ips: Tracker.Ips, now: int) returns (d: Decision)
    requires InRange(ids, groups)
    ensures d == First(groups, ids, dst, ips, now)
  {
    hide DestinationMatches;
    for n := 0 to |ids|
      invariant First(groups, ids[n..], dst, ips, now) == First(groups, ids, dst, ips, now)
    {
      var hit := MatchesDestination(groups[ids[n]], ids[n], dst, ips, now);
      if hit {
        return Tunnel(groups[ids[n]].name);
      }
      assert ids[n..][1..] == ids[n + 1..];
    }
    assert ids[|ids|..] == [];
    d := Direct;
  }

  lemma {:induction false} FirstFinds(groups: seq<Group>, ids: seq<nat>, dst: Addr, ips: Tracker.Ips, now: int)
    requires InRange(ids, groups)
    ensures First(groups, ids, dst, ips, now).Tunnel?
       <==> exists i: nat | i < |groups| :: Has(ids, i) && DestinationMatches(groups[i], i, dst, ips, now)
  {
    hide DestinationMatches;
    if ids != [] {
      var rest := ids[1..];
      FirstFinds(groups, rest, dst, ips, now);
      assert ids == [ids[0]] + rest;
      assert forall j | 0 <= j < |rest| :: rest[j] == ids[j + 1];
      forall i: nat
        ensures Has(ids, i) <==> i == ids[0] || Has(rest, i)
      {
        if Has(ids, i) && i != ids[0] {
          var j :| 0 <= j < |ids| && ids[j] == i;
          assert rest[j - 1] == i;
        }
        if Has(rest, i) {
          var j :| 0 <= j < |rest| && rest[j] == i;
          assert ids[j + 1] == i;
        }
      }
    }
  }

  /** Global groups first, then groups that name the executable, then groups that name its path. */
  ghost function Decision3(c: Canon, groups: seq<Group>, x: Index, p: Process, dst: Addr, ips: Tracker.Ips,
                           now: int): (d: Decision)
    requires Indexes(c, groups, |groups|, x)
  {
    IndexInRange(c, groups, x);
    var u := Unmap(dst);
    var d1 := First(groups, x.global, u, ips, now);
    if d1.Tunnel? then d1
    else
      var d2 := First(groups, Ids(x.byName, c.name(p.name)), u, ips, now);
      if d2.Tunnel? then d2 else First(groups, Ids(x.byPath, c.path(p.path)), u, ips, now)
  }

  lemma IndexInRange(c: Canon, groups: seq<Group>, x: Index)
    requires Indexes(c, groups, |groups|, x)
    ensures InRange(x.global, groups)
    ensures forall k :: InRange(Ids(x.byName, k), groups) && InRange(Ids(x.byPath, k), groups)
  {
    forall ids, j | ids == x.global && 0 <= j < |ids|
      ensures ids[j] < |groups|
    {
      assert Has(ids, ids[j]);
    }
    forall k: string
      ensures InRange(Ids(x.byName, k), groups) && InRange(Ids(x.byPath, k), groups)
    {
      var a, b := Ids(x.byName, k), Ids(x.byPath, k);
      assert forall i: nat :: Has(a, i) ==> i < |groups|;
      assert forall i: nat :: Has(b, i) ==> i < |groups|;
      assert forall j | 0 <= j < |a| :: Has(a, a[j]);
      assert forall j | 0 <= j < |b| :: Has(b, b[j]);
    }
  }

  class Engine {
    const canon: Canon
    const groups: seq<Group>
    const index: Index

    ghost predicate Valid() { Indexes(canon, groups, |groups|, index) && InOrder(index, |groups|) }

    constructor (canon: Canon, groups: seq<Group>)
      ensures Valid() && this.canon == canon && this.groups == groups
    {
      var x := Compile(canon, groups);
      this.canon, this.groups, index := canon, groups, x;
    }

    method Decide(p: Process, dst: Addr, ips: Tracker.Ips, now: int) returns (d: Decision)
      requires Valid()
      ensures d == Decision3(canon, groups, index, p, dst, ips, now)
      ensures d.Tunnel? <==> Selects(canon, groups, p, dst, ips, now)
      ensures d.Tunnel? ==> exists kind, i: nat ::
                              Wins(canon, groups, p, Unmap(dst), ips, now, kind, i) && d.group == groups[i].name
    {
      hide Selects, InOrder, Wins;
      WinnerIsNamed(canon, groups, index, p, dst, ips, now);
      IndexedEqualsScan(canon, groups, index, p, dst, ips, now);
      IndexInRange(canon, groups, index);
      hide Indexes, First;
      var u := Unmap(dst);
      d := DecideIds(groups, index.global, u, ips, now);
      if d.Tunnel? {
        return;
      }
      d := DecideIds(groups, Ids(index.byName, canon.name(p.name)), u, ips, now);
      if d.Tunnel? {
        return;
      }
      d := DecideIds(groups, Ids(index.byPath, canon.path(p.path)), u, ips, now);
    }

    /** Whether a group for all applications takes the destination; then the process does not matter. */
    method CouldTunnelWithoutProcess(dst: Addr, ips: Tracker.Ips, now: int) returns (r: bool)
      requires Valid()
      ensures r <==> exists i: nat | i < |groups| ::
                       All(groups[i].apps) && DestinationMatches(groups[i], i, Unmap(dst), ips, now)
      ensures r ==> forall p, q ::
        Decision3(canon, groups, index, p, dst, ips, now) == Decision3(canon, groups, index, q, dst, ips, now)
    {
      IndexInRange(canon, groups, index);
      var d := DecideIds(groups, index.global, Unmap(dst), ips, now);
      FirstFinds(groups, index.global, Unmap(dst), ips, now);
      hide DestinationMatches, Has, First;
      r := d.Tunnel?;
    }
  }

  lemma GlobalHit(c: Canon, groups: seq<Group>, x: Index, dst: Addr, ips: Tracker.Ips, now: int)
    requires Indexes(c, groups, |groups|, x)
    ensures InRange(x.global, groups)
    ensures First(groups, x.global, dst, ips, now).Tunnel?
       <==> exists i: nat | i < |groups| :: All(groups[i].apps) && DestinationMatches(groups[i], i, dst, ips, now)
  {
    IndexInRange(c, groups, x);
    FirstFinds(groups, x.global, dst, ips, now);
    hide DestinationMatches, Has;
  }

  lemma ListHit(c: Canon, groups: seq<Group>, x: Index, k: string, path: bool, dst: Addr, ips: Tracker.Ips, now: int)
    requires Indexes(c, groups, |groups|, x)
    ensures var ids := Ids(if path then x.byPath else x.byName, k);
      && InRange(ids, groups)
      && (First(groups, ids, dst, ips, now).Tunnel?
          <==> exists i: nat | i < |groups| ::
                 !All(groups[i].apps) && Lists(c, groups[i].apps, k, path)
                    && DestinationMatches(groups[i], i, dst, ips, now))
  {
    IndexInRange(c, groups, x);
    FirstFinds(groups, Ids(if path then x.byPath else x.byName, k), dst, ips, now);
    hide DestinationMatches, Has, Lists;
  }

  lemma MatchesByLists(c: Canon, g: Group, p: Process)
    ensures ProcessMatches(c, g, p)
       <==> All(g.apps) || Lists(c, g.apps, c.name(p.name), false) || Lists(c, g.apps, c.path(p.path), true)
  {
    if i :| 0 <= i < |g.apps| && AppMatches(c, g.apps[i], p) {
      assert Lists(c, g.apps, c.name(p.name), false) || Lists(c, g.apps, c.path(p.path), true);
    }
    if Lists(c, g.apps, c.name(p.name), false) {
      var i :| 0 <= i < |g.apps| && !IsPath(g.apps[i]) && c.name(g.apps[i]) == c.name(p.name);
      assert AppMatches(c, g.apps[i], p);
    }
    if Lists(c, g.apps, c.path(p.path), true) {
      var i :| 0 <= i < |g.apps| && IsPath(g.apps[i]) && c.path(g.apps[i]) == c.path(p.path);
      assert AppMatches(c, g.apps[i], p);
    }
  }

  /** The indexed decision tunnels exactly when a scan of all groups finds one for process and destination. */
  lemma IndexedEqualsScan(c: Canon, groups: seq<Group>, x: Index, p: Process, dst: Addr, ips: Tracker.Ips, now: int)
    requires Indexes(c, groups, |groups|, x)
    ensures Decision3(c, groups, x, p, dst, ips, now).Tunnel? <==> Selects(c, groups, p, dst, ips, now)
  {
    hide DestinationMatches, Lists, First, Indexes, ProcessMatches;
    var u := Unmap(dst);
    GlobalHit(c, groups, x, u, ips, now);
    ListHit(c, groups, x, c.name(p.name), false, u, ips, now);
    ListHit(c, groups, x, c.path(p.path), true, u, ips, now);
    forall i | 0 <= i < |groups|
      ensures ProcessMatches(c, groups[i], p)
         <==> (|| All(groups[i].apps)
               || Lists(c, groups[i].apps, c.name(p.name), false) || Lists(c, groups[i].apps, c.path(p.path), true))
    {
      MatchesByLists(c, groups[i], p);
    }
  }

  /** How a group can select a process: for all applications, by executable name, or by path. */
  datatype Kind = ForAll | ByName | ByPath {
    function Rank(): (n: nat) { match this case ForAll => 0 case ByName => 1 case ByPath => 2 }
  }

  ghost predicate Candidate(c: Canon, groups: seq<Group>, p: Process, u: Addr, ips: Tracker.Ips, now: int,
                            kind: Kind, i: nat)
  {
    && i < |groups| && DestinationMatches(groups[i], i, u, ips, now)
    && match kind
       case ForAll => All(groups[i].apps)
       case ByName => !All(groups[i].apps) && Lists(c, groups[i].apps, c.name(p.name), false)
       case ByPath => !All(groups[i].apps) && Lists(c, groups[i].apps, c.path(p.path), true)
  }

  /** Group `i` selects the process in a way that none selects it before, and is the first to do so. */
  ghost predicate Wins(c: Canon, groups: seq<Group>, p: Process, u: Addr, ips: Tracker.Ips, now: int,
                       kind: Kind, i: nat)
  {
    && Candidate(c, groups, p, u, ips, now, kind, i)
    && (forall j: nat | j < i :: !Candidate(c, groups, p, u, ips, now, kind, j))
    && (forall k: Kind, j: nat | k.Rank() < kind.Rank() :: !Candidate(c, groups, p, u, ips, now, k, j))
  }

  /** In an ordered list the first hit is the least group that hits. */
  lemma {:induction false} FirstIsLeast(groups: seq<Group>, ids: seq<nat>, dst: Addr, ips: Tracker.Ips, now: int)
    returns (i: nat)
    requires InRange(ids, groups) && Sorted(ids, |groups|) && First(groups, ids, dst, ips, now).Tunnel?
    ensures i < |groups| && Has(ids, i) && DestinationMatches(groups[i], i, dst, ips, now)
    ensures First(groups, ids, dst, ips, now) == Tunnel(groups[i].name)
    ensures forall j: nat | j < i :: !(Has(ids, j) && DestinationMatches(groups[j], j, dst, ips, now))
  {
    hide DestinationMatches;
    if DestinationMatches(groups[ids[0]], ids[0], dst, ips, now) {
      i := ids[0];
      assert Has(ids, ids[0]);
    } else {
      var rest := ids[1..];
      assert forall j | 0 <= j < |rest| :: rest[j] == ids[j + 1];
      i := FirstIsLeast(groups, rest, dst, ips, now);
      var h :| 0 <= h < |rest| && rest[h] == i;
      assert ids[h + 1] == i;
      forall j: nat | j < i && Has(ids, j)
        ensures !DestinationMatches(groups[j], j, dst, ips, now)
      {
        var g :| 0 <= g < |ids| && ids[g] == j;
        if g > 0 {
          assert rest[g - 1] == j;
        }
      }
    }
  }

  /** The list for one kind holds exactly its candidates that the destination does not rule out. */
  ghost function ListFor(c: Canon, x: Index, p: Process, kind: Kind): (ids: seq<nat>) {
    match kind
    case ForAll => x.global
    case ByName => Ids(x.byName, c.name(p.name))
    case ByPath => Ids(x.byPath, c.path(p.path))
  }

  lemma ListIsCandidates(c: Canon, groups: seq<Group>, x: Index, p: Process, u: Addr, ips: Tracker.Ips, now: int,
                         kind: Kind)
    requires Indexes(c, groups, |groups|, x)
    ensures InRange(ListFor(c, x, p, kind), groups)
    ensures forall i: nat ::
      Candidate(c, groups, p, u, ips, now, kind, i)
      <==> Has(ListFor(c, x, p, kind), i) && i < |groups| && DestinationMatches(groups[i], i, u, ips, now)
    ensures First(groups, ListFor(c, x, p, kind), u, ips, now).Direct? ==>
      forall i: nat :: !Candidate(c, groups, p, u, ips, now, kind, i)
  {
    IndexInRange(c, groups, x);
    var ids := ListFor(c, x, p, kind);
    FirstFinds(groups, ids, u, ips, now);
    hide DestinationMatches, Lists, First;
  }

  lemma WinnerOf(c: Canon, groups: seq<Group>, x: Index, p: Process, u: Addr, ips: Tracker.Ips, now: int, kind: Kind)
    returns (i: nat)
    requires Indexes(c, groups, |groups|, x) && InOrder(x, |groups|)
    requires InRange(ListFor(c, x, p, kind), groups) && First(groups, ListFor(c, x, p, kind), u, ips, now).Tunnel?
    requires forall k: Kind, j: nat | k.Rank() < kind.Rank() :: !Candidate(c, groups, p, u, ips, now, k, j)
    ensures Wins(c, groups, p, u, ips, now, kind, i)
    ensures First(groups, ListFor(c, x, p, kind), u, ips, now).group == groups[i].name
  {
    assert Sorted(ListFor(c, x, p, kind), |groups|);
    i := FirstIsLeast(groups, ListFor(c, x, p, kind), u, ips, now);
    ListIsCandidates(c, groups, x, p, u, ips, now, kind);
    hide Candidate, First, Indexes, InOrder, ListFor;
  }

  /** The name in the decision is that of the first group that selects the process in the strongest way. */
  lemma WinnerIsNamed(c: Canon, groups: seq<Group>, x: Index, p: Process, dst: Addr, ips: Tracker.Ips, now: int)
    requires Indexes(c, groups, |groups|, x) && InOrder(x, |groups|)
    ensures var d := Decision3(c, groups, x, p, dst, ips, now);
      d.Tunnel? ==> exists kind, i: nat ::
                      Wins(c, groups, p, Unmap(dst), ips, now, kind, i) && d.group == groups[i].name
  {
    hide Indexes, InOrder, First, Candidate, Wins;
    var u := Unmap(dst);
    ListIsCandidates(c, groups, x, p, u, ips, now, ForAll);
    ListIsCandidates(c, groups, x, p, u, ips, now, ByName);
    ListIsCandidates(c, groups, x, p, u, ips, now, ByPath);
    if First(groups, ListFor(c, x, p, ForAll), u, ips, now).Tunnel? {
      var i := WinnerOf(c, groups, x, p, u, ips, now, ForAll);
    } else if First(groups, ListFor(c, x, p, ByName), u, ips, now).Tunnel? {
      var i := WinnerOf(c, groups, x, p, u, ips, now, ByName);
    } else if First(groups, ListFor(c, x, p, ByPath), u, ips, now).Tunnel? {
      var i := WinnerOf(c, groups, x, p, u, ips, now, ByPath);
    }
  }

  /** At any time from the last event on, the decision is a scan of the groups and of the learning history. */
  lemma DecisionFollowsHistory(c: Canon, groups: seq<Group>, p: Process, dst: Addr, h: seq<Tracker.Event>, now: int)
    requires Tracker.Ordered(h) && (h != [] ==> h[|h| - 1].now <= now)
    ensures Selects(c, groups, p, dst, Tracker.Run(h, |groups|), now)
       <==> exists i | 0 <= i < |groups| ::
              && ProcessMatches(c, groups[i], p)
              && (|| All(groups[i].domains)
                  || (exists n | 0 <= n < |groups[i].nets| :: InNet(Unmap(dst), groups[i].nets[n]))
                  || Tracker.Taught(h, Unmap(dst), i, now))
  {
    hide ProcessMatches, InNet, Tracker.Taught, Tracker.Holds;
    forall i | 0 <= i < |groups|
      ensures Tracker.Holds(Tracker.Run(h, |groups|), Unmap(dst), i, now) <==> Tracker.Taught(h, Unmap(dst), i, now)
    {
      Tracker.CacheIsItsHistory(h, |groups|, Unmap(dst), i, now);
    }
  }
}
