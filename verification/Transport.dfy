/** WireGuard transport sessions as a state machine: senders, readers, rekeys and the reaper
    interleave in any order. The AEAD is ideal: a message opens exactly if the peer sealed it. */
module Transport {
  import opened Bytes
  import opened Replay

  const COUNTER_LIMIT := 0x1000_0000_0000_0000
  const REKEY_AFTER := 110
  const REJECT_AFTER := 170
  const REAP_AFTER := 180

  type Id = nat

  datatype Session = Session(localIndex: uint32, created: int, retiredAt: Option<int>, sent: nat, window: Window)

  /** A sending goroutine: outside SendPacket, having read `current`, or past the usability test
      and about to take the next counter. */
  datatype Sender = Idle | Read(s: Id) | Holding(s: Id)

  /** A reading goroutine: between datagrams, or holding an opened message not yet offered to the window. */
  datatype Reader = Waiting | Opened(s: Id, n: uint64)

  datatype Message = Message(s: Id, n: nat)

  /** `all` is every session object ever made, `table` the live map from local index to session.
      `authentic`, `sealed` and `delivered` are what the peer sealed, and what this side sealed and passed up. */
  datatype Client = Client(all: map<Id, Session>, table: map<uint32, Id>, current: Option<Id>,
                           senders: map<nat, Sender>, readers: map<nat, Reader>,
                           authentic: set<Message>, sealed: seq<Message>, delivered: seq<Message>)

  datatype Action =
    | ReadCurrent(t: nat)
    | TestUsable(t: nat, now: int)
    | Install(caller: Option<nat>, s: Id, localIndex: uint32, now: int)
    | Seal(t: nat)
    | PeerSeals(m: Message)
    | Receive(r: nat, index: uint32, n: uint64)
    | OfferToWindow(r: nat)
    | Reap(now: int)

  /** Usable until the counter limit or the hard deadline; due for renewal a minute earlier. */
  function SessionUsable(s: Session, now: int): (r: (bool, bool))
    ensures r.0 <==> s.sent < 0x1000_0000_0000_0000 && now - s.created < 170
    ensures r.1 <==> r.0 && now - s.created >= 110
  {
    if s.sent >= COUNTER_LIMIT then (false, false)
    else
      var age := if now - s.created < 0 then 0 else now - s.created;
      if age >= REJECT_AFTER then (false, false) else (true, age >= REKEY_AFTER)
  }

  /** Retires the previous session and makes `s` the current one. */
  function Installed(c: Client, s: Id, made: Session, now: int): (d: Client)
    requires c.current.Some? ==> c.current.value in c.all
  {
    var all := if c.current.Some? && c.all[c.current.value].retiredAt.None?
               then c.all[c.current.value := c.all[c.current.value].(retiredAt := Some(now))] else c.all;
    c.(all := all[s := made], table := c.table[made.localIndex := s], current := Some(s))
  }

  predicate Reapable(c: Client, s: Id, now: int) {
    && c.current != Some(s) && s in c.all
    && c.all[s].retiredAt.Some? && now - c.all[s].retiredAt.value > REAP_AFTER
  }

  /** One atomic step; an action that is not enabled leaves the client as it is. */
  function Step(c: Client, a: Action): (d: Client) {
    match a
    case ReadCurrent(t) =>
      if t in c.senders && c.senders[t].Idle? && c.current.Some?
      then c.(senders := c.senders[t := Read(c.current.value)]) else c
    case TestUsable(t, now) =>
      if t in c.senders && c.senders[t].Read? && c.senders[t].s in c.all
      then c.(senders := c.senders[t := if SessionUsable(c.all[c.senders[t].s], now).0
                                        then Holding(c.senders[t].s) else Idle]) else c
    case Install(caller, s, localIndex, now) =>
      if s !in c.all && (c.current.Some? ==> c.current.value in c.all)
         && (caller.Some? ==> caller.value in c.senders && c.senders[caller.value].Idle?)
      then
        var d := Installed(c, s, Session(localIndex, now, None, 0, Unused), now);
        if caller.Some? then d.(senders := d.senders[caller.value := Holding(s)]) else d
      else c
    case Seal(t) =>
      if t in c.senders && c.senders[t].Holding? && c.senders[t].s in c.all
      then
        var s := c.senders[t].s;
        var n := c.all[s].sent;
        c.(all := c.all[s := c.all[s].(sent := n + 1)], senders := c.senders[t := Idle],
           sealed := c.sealed + [Message(s, n)])
      else c
    case PeerSeals(m) => c.(authentic := c.authentic + {m})
    case Receive(r, index, n) =>
      if r in c.readers && c.readers[r].Waiting? && index in c.table && Message(c.table[index], n) in c.authentic
      then c.(readers := c.readers[r := Opened(c.table[index], n)]) else c
    case OfferToWindow(r) =>
      if r in c.readers && c.readers[r].Opened? && c.readers[r].s in c.all
      then
        var s, n := c.readers[r].s, c.readers[r].n;
        var o := Offer(c.all[s].window, n);
        c.(all := c.all[s := c.all[s].(window := o.0)], readers := c.readers[r := Waiting],
           delivered := if o.1 then c.delivered + [Message(s, n)] else c.delivered)
      else c
    case Reap(now) => c.(table := map i | i in c.table && !Reapable(c, c.table[i], now) :: c.table[i])
  }

  ghost function Run(c: Client, actions: seq<Action>): (d: Client) {
    if actions == [] then c else Step(Run(c, actions[..|actions| - 1]), actions[|actions| - 1])
  }

  /** No session yet, no goroutine busy. */
  ghost predicate Start(c: Client) {
    && c.all == map[] && c.table == map[] && c.current == None
    && c.authentic == {} && c.sealed == [] && c.delivered == []
    && (forall t | t in c.senders :: c.senders[t] == Idle)
    && (forall r | r in c.readers :: c.readers[r] == Waiting)
  }

  // ---------- The session table ----------

  ghost predicate TableInv(c: Client) {
    && (c.current.Some? ==>
          && c.current.value in c.all
          && c.all[c.current.value].localIndex in c.table
          && c.table[c.all[c.current.value].localIndex] == c.current.value)
    && (forall i | i in c.table ::
          && c.table[i] in c.all && c.all[c.table[i]].localIndex == i
          && (c.current == Some(c.table[i]) || c.all[c.table[i]].retiredAt.Some?))
  }

  lemma TableInstall(c: Client, a: Action)
    requires TableInv(c) && a.Install?
    ensures TableInv(Step(c, a))
  {
  }

  /** Reaping keeps the current session: it only takes sessions that are not current. */
  lemma TableReap(c: Client, now: int)
    requires TableInv(c)
    ensures TableInv(Step(c, Reap(now)))
  {
  }

  lemma TableStep(c: Client, a: Action)
    requires TableInv(c)
    ensures TableInv(Step(c, a))
  {
    match a
    case Install(_, _, _, _) => TableInstall(c, a);
    case Reap(now) => TableReap(c, now);
    case _ =>
  }

  /** Whatever runs, the current session is in the table, and every other mapped session is retired. */
  lemma {:induction false} TableSafe(c: Client, actions: seq<Action>)
    requires Start(c)
    ensures TableInv(Run(c, actions))
  {
    if actions != [] {
      TableSafe(c, actions[..|actions| - 1]);
      TableStep(Run(c, actions[..|actions| - 1]), actions[|actions| - 1]);
    }
  }

  // ---------- Send counters ----------

  ghost function InFlight(c: Client, s: Id): (h: set<nat>) {
    set t | t in c.senders && c.senders[t] == Holding(s)
  }

  ghost predicate SendersKnown(c: Client) {
    && (forall t | t in c.senders && !c.senders[t].Idle? :: c.senders[t].s in c.all)
    && (c.current.Some? ==> c.current.value in c.all)
  }

  ghost predicate SealedOnce(c: Client) {
    && (forall i | 0 <= i < |c.sealed| :: c.sealed[i].s in c.all && c.sealed[i].n < c.all[c.sealed[i].s].sent)
    && (forall i, j | 0 <= i < j < |c.sealed| :: c.sealed[i] != c.sealed[j])
    && (forall s, n: nat | s in c.all && n < c.all[s].sent :: Message(s, n) in c.sealed)
  }

  ghost predicate Bounded(c: Client) {
    forall s | s in c.all :: c.all[s].sent + |InFlight(c, s)| < COUNTER_LIMIT + |c.senders|
  }

  ghost predicate SendInv(c: Client) { SendersKnown(c) && SealedOnce(c) && Bounded(c) }

  lemma {:induction false} SubsetNoLarger<T>(a: set<T>, b: set<T>)
    requires a <= b
    ensures |a| <= |b|
  {
    assert b == a + (b - a);
  }

  lemma InFlightBound(c: Client, s: Id)
    ensures |InFlight(c, s)| <= |c.senders|
  {
    SubsetNoLarger(InFlight(c, s), c.senders.Keys);
  }

  /** A step moves at most one sender, so at most one session's in-flight set changes, by that sender. */
  lemma InFlightStep(c: Client, t: nat, x: Sender, d: Client, s: Id)
    requires t in c.senders && d.senders == c.senders[t := x]
    ensures InFlight(d, s) == (if x == Holding(s) then InFlight(c, s) + {t} else InFlight(c, s) - {t})
    ensures |d.senders| == |c.senders|
  {
    assert d.senders.Keys == c.senders.Keys;
  }

  lemma SendTest(c: Client, t: nat, now: int)
    requires SendInv(c)
    ensures SendInv(Step(c, TestUsable(t, now)))
  {
    var d := Step(c, TestUsable(t, now));
    if d != c {
      forall s | s in d.all
        ensures d.all[s].sent + |InFlight(d, s)| < COUNTER_LIMIT + |d.senders|
      {
        InFlightStep(c, t, d.senders[t], d, s);
        InFlightBound(d, s);
      }
    }
  }

  /** Installing touches no other session's counter and adds no holder to it. */
  lemma InstallOthers(c: Client, a: Action, s: Id)
    requires a.Install? && s in c.all && Step(c, a) != c
    ensures var d := Step(c, a); s in d.all && d.all[s].sent == c.all[s].sent
    ensures |InFlight(Step(c, a), s)| <= |InFlight(c, s)| && |Step(c, a).senders| == |c.senders|
  {
    var d := Step(c, a);
    if a.caller.Some? {
      InFlightStep(c, a.caller.value, d.senders[a.caller.value], d, s);
    } else {
      assert InFlight(d, s) == InFlight(c, s);
    }
  }

  lemma BoundedInstall(c: Client, a: Action)
    requires Bounded(c) && a.Install?
    ensures Bounded(Step(c, a))
  {
    hide InFlight;
    var d := Step(c, a);
    if d != c {
      forall s | s in d.all
        ensures d.all[s].sent + |InFlight(d, s)| < COUNTER_LIMIT + |d.senders|
      {
        if s in c.all {
          InstallOthers(c, a, s);
        } else {
          InFlightBound(d, s);
        }
      }
    }
  }

  lemma SendInstall(c: Client, a: Action)
    requires SendInv(c) && a.Install?
    ensures SendInv(Step(c, a))
  {
    hide Bounded;
    BoundedInstall(c, a);
  }

  lemma SendSeal(c: Client, t: nat)
    requires SendInv(c)
    ensures SendInv(Step(c, Seal(t)))
  {
    var d := Step(c, Seal(t));
    if d != c {
      forall s | s in d.all
        ensures d.all[s].sent + |InFlight(d, s)| < COUNTER_LIMIT + |d.senders|
      {
        InFlightStep(c, t, Idle, d, s);
      }
    }
  }

  lemma SendStep(c: Client, a: Action)
    requires SendInv(c)
    ensures SendInv(Step(c, a))
  {
    match a
    case TestUsable(t, now) => SendTest(c, t, now);
    case Install(_, _, _, _) => SendInstall(c, a);
    case Seal(t) => SendSeal(c, t);
    case ReadCurrent(t) =>
      var d := Step(c, a);
      if d != c {
        forall s | s in d.all
          ensures d.all[s].sent + |InFlight(d, s)| < COUNTER_LIMIT + |d.senders|
        {
          InFlightStep(c, t, d.senders[t], d, s);
        }
      }
    case _ =>
      var d := Step(c, a);
      assert forall s :: InFlight(d, s) == InFlight(c, s);
  }

  /** Whatever runs, the messages a session sealed carry each counter below its send counter once and no
      other, and counters stay below the limit plus the number of sending goroutines. */
  lemma {:induction false} CountersSafe(c: Client, actions: seq<Action>)
    requires Start(c)
    ensures SendInv(Run(c, actions))
  {
    if actions != [] {
      CountersSafe(c, actions[..|actions| - 1]);
      SendStep(Run(c, actions[..|actions| - 1]), actions[|actions| - 1]);
    }
  }

  // ---------- Delivery ----------

  /** Only messages the peer sealed are opened or enter a window. */
  ghost predicate Authentic(c: Client) {
    && (forall r | r in c.readers && c.readers[r].Opened? :: Message(c.readers[r].s, c.readers[r].n) in c.authentic)
    && (forall s, n | s in c.all && n in c.all[s].window.accepted :: Message(s, n) in c.authentic)
  }

  /** The windows hold exactly the counters of the delivered messages. */
  ghost predicate Passed(c: Client) {
    && (forall s | s in c.all :: Coherent(c.all[s].window))
    && (forall i | 0 <= i < |c.delivered| ::
          c.delivered[i].s in c.all && c.delivered[i].n in c.all[c.delivered[i].s].window.accepted)
    && (forall s, n | s in c.all && n in c.all[s].window.accepted :: Message(s, n) in c.delivered)
  }

  ghost predicate Once(c: Client) {
    forall i, j | 0 <= i < j < |c.delivered| :: c.delivered[i] != c.delivered[j]
  }

  ghost predicate DeliverInv(c: Client) { Authentic(c) && Passed(c) && Once(c) }

  /** What an offer does, when a reader holds an opened message. */
  lemma OfferEffect(c: Client, r: nat)
    ensures var d := Step(c, OfferToWindow(r));
      if r in c.readers && c.readers[r].Opened? && c.readers[r].s in c.all then
        var s, n := c.readers[r].s, c.readers[r].n;
        && d.all == c.all[s := c.all[s].(window := Offer(c.all[s].window, n).0)]
        && d.delivered == (if Fresh(c.all[s].window, n) then c.delivered + [Message(s, n)] else c.delivered)
        && d.authentic == c.authentic && d.readers == c.readers[r := Waiting]
      else d == c
  {
  }

  lemma OfferAuthentic(c: Client, r: nat)
    requires Authentic(c)
    ensures Authentic(Step(c, OfferToWindow(r)))
  {
    hide Step, Fresh;
    OfferEffect(c, r);
  }

  lemma OfferPassed(c: Client, r: nat)
    requires Passed(c)
    ensures Passed(Step(c, OfferToWindow(r)))
  {
    hide Step, Fresh;
    OfferEffect(c, r);
    var d := Step(c, OfferToWindow(r));
    if r in c.readers && c.readers[r].Opened? && c.readers[r].s in c.all {
      var s, n := c.readers[r].s, c.readers[r].n;
      forall x, m | x in d.all && m in d.all[x].window.accepted
        ensures Message(x, m) in d.delivered
      {
        if m in c.all[x].window.accepted {
          assert Message(x, m) in c.delivered;
        }
      }
      assert Coherent(d.all[s].window) by { OfferCoherent(c.all[s].window, n); }
    }
  }

  lemma OfferCoherent(w: Window, n: uint64)
    requires Coherent(w)
    ensures Coherent(Offer(w, n).0)
  {
  }

  lemma OfferOnce(c: Client, r: nat)
    requires Passed(c) && Once(c)
    ensures Once(Step(c, OfferToWindow(r)))
  {
    hide Step;
    OfferEffect(c, r);
  }

  /** Installing makes an empty window and touches no other, nor anything about reading. */
  lemma InstallWindows(c: Client, a: Action)
    requires a.Install?
    ensures var d := Step(c, a);
      && c.all.Keys <= d.all.Keys && (forall s | s in c.all :: d.all[s].window == c.all[s].window)
      && (forall s | s in d.all && s !in c.all :: d.all[s].window.accepted == {})
      && d.delivered == c.delivered && d.authentic == c.authentic && d.readers == c.readers
  {
  }

  lemma DeliverInstall(c: Client, a: Action)
    requires DeliverInv(c) && a.Install?
    ensures DeliverInv(Step(c, a))
  {
    hide Step;
    InstallWindows(c, a);
    var d := Step(c, a);
    assert Authentic(d);
    assert Passed(d);
  }

  lemma DeliverStep(c: Client, a: Action)
    requires DeliverInv(c) && (c.current.Some? ==> c.current.value in c.all)
    ensures DeliverInv(Step(c, a))
  {
    hide Coherent, Fresh;
    match a
    case OfferToWindow(r) =>
      OfferAuthentic(c, r);
      OfferPassed(c, r);
      OfferOnce(c, r);
    case Install(_, _, _, _) => DeliverInstall(c, a);
    case _ =>
  }

  /** Whatever runs, each counter of a session is delivered at most once, only messages the peer
      sealed are delivered, and a replay window holds exactly the counters that were delivered. */
  lemma {:induction false} DeliverySafe(c: Client, actions: seq<Action>)
    requires Start(c)
    ensures DeliverInv(Run(c, actions))
  {
    if actions != [] {
      var before := actions[..|actions| - 1];
      DeliverySafe(c, before);
      TableSafe(c, before);
      DeliverStep(Run(c, before), actions[|actions| - 1]);
    }
  }

  // ---------- What gets through ----------

  /** Action `a` is not one of sender `t`, or of reader `t`. */
  predicate NotSender(a: Action, t: nat) {
    match a
    case ReadCurrent(u) => u != t
    case TestUsable(u, _) => u != t
    case Seal(u) => u != t
    case Install(caller, _, _, _) => caller != Some(t)
    case _ => true
  }

  predicate NotReader(a: Action, r: nat) {
    match a
    case Receive(q, _, _) => q != r
    case OfferToWindow(q) => q != r
    case _ => true
  }

  lemma {:induction false} OthersLeaveSender(c: Client, actions: seq<Action>, t: nat)
    requires t in c.senders && forall i | 0 <= i < |actions| :: NotSender(actions[i], t)
    ensures var d := Run(c, actions); t in d.senders && d.senders[t] == c.senders[t] && c.all.Keys <= d.all.Keys
  {
    if actions != [] {
      var before := actions[..|actions| - 1];
      OthersLeaveSender(c, before, t);
      assert NotSender(actions[|actions| - 1], t);
    }
  }

  lemma {:induction false} OthersLeaveReader(c: Client, actions: seq<Action>, r: nat)
    requires r in c.readers && forall i | 0 <= i < |actions| :: NotReader(actions[i], r)
    ensures var d := Run(c, actions); r in d.readers && d.readers[r] == c.readers[r] && c.all.Keys <= d.all.Keys
  {
    if actions != [] {
      var before := actions[..|actions| - 1];
      OthersLeaveReader(c, before, r);
      assert NotReader(actions[|actions| - 1], r);
    }
  }

  /** A sender that reads the current session, finds it below 2^60 messages and younger than 170 s, and seals:
      whatever others do in between, one message goes out under the next counter of that session. Otherwise
      none does. */
  lemma SendGoesOut(c: Client, t: nat, a1: seq<Action>, now: int, a2: seq<Action>)
    requires t in c.senders && c.senders[t].Idle? && c.current.Some? && c.current.value in c.all
    requires forall i | 0 <= i < |a1| :: NotSender(a1[i], t)
    requires forall i | 0 <= i < |a2| :: NotSender(a2[i], t)
    ensures var s := c.current.value;
            var c1 := Run(Step(c, ReadCurrent(t)), a1); var c2 := Run(Step(c1, TestUsable(t, now)), a2);
            var d := Step(c2, Seal(t));
      && s in c1.all && s in c2.all
      && if c1.all[s].sent < 0x1000_0000_0000_0000 && now - c1.all[s].created < 170 then
           d.sealed == c2.sealed + [Message(s, c2.all[s].sent)] && s in d.all && d.all[s].sent == c2.all[s].sent + 1
         else d == c2
  {
    var s := c.current.value;
    var c0 := Step(c, ReadCurrent(t));
    OthersLeaveSender(c0, a1, t);
    var c1 := Run(c0, a1);
    assert c1.senders[t] == Read(s) && s in c1.all;
    OthersLeaveSender(Step(c1, TestUsable(t, now)), a2, t);
    hide Run;
  }

  /** An authentic message for a mapped session, once opened, is passed up by its reader exactly if the window
      then takes its counter, whatever others do in between; a forged one changes nothing. */
  lemma ReceivedGetsThrough(c: Client, r: nat, index: uint32, n: uint64, actions: seq<Action>)
    requires TableInv(c) && r in c.readers && c.readers[r].Waiting? && index in c.table
    requires forall i | 0 <= i < |actions| :: NotReader(actions[i], r)
    ensures var s := c.table[index]; var o := Step(c, Receive(r, index, n));
            var c1 := Run(o, actions); var d := Step(c1, OfferToWindow(r));
      if Message(s, n) !in c.authentic then o == c
      else
        && s in c1.all
        && d.delivered == if Fresh(c1.all[s].window, n) then c1.delivered + [Message(s, n)] else c1.delivered
  {
    var o := Step(c, Receive(r, index, n));
    if Message(c.table[index], n) in c.authentic {
      OthersLeaveReader(o, actions, r);
      OfferEffect(Run(o, actions), r);
    }
  }

  /** A new session becomes current under its index with nothing sent and nothing seen, and the old one is retired. */
  lemma InstalledIsCurrent(c: Client, caller: Option<nat>, s: Id, localIndex: uint32, now: int)
    requires TableInv(c) && s !in c.all
    requires caller.Some? ==> caller.value in c.senders && c.senders[caller.value].Idle?
    ensures var d := Step(c, Install(caller, s, localIndex, now));
      && d.current == Some(s) && localIndex in d.table && d.table[localIndex] == s
      && s in d.all && d.all[s] == Session(localIndex, now, None, 0, Window({}, 0))
      && (caller.Some? ==> d.senders[caller.value] == Holding(s))
      && (c.current.Some? ==>
            var was, p := c.all[c.current.value].retiredAt, c.current.value;
            p in d.all && d.all[p].retiredAt == if was.None? then Some(now) else was)
  {
  }

  /** The reaper takes exactly the sessions that are not current and were retired more than three minutes ago. */
  lemma ReapsExactly(c: Client, now: int, i: uint32)
    requires TableInv(c) && i in c.table
    ensures var d := Step(c, Reap(now)); var s := c.table[i];
      && (i !in d.table <==> c.current != Some(s) && c.all[s].retiredAt.Some? && now - c.all[s].retiredAt.value > 180)
      && (i in d.table ==> d.table[i] == s)
  {
  }
}
