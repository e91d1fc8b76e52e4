/** The send loop: latency-sensitive packets first, in bursts of at most eight, with one bulk
    packet forced between bursts. Packets arrive at any time and in any mix. */
module Scheduler {
  const BURST := 8

  /** Where the loop stands: draining urgent packets, about to force a bulk packet, or waiting for either. */
  datatype Phase = Drain(done: nat) | ForceBulk | Wait

  /** Queues, and everything that ever arrived and was sent, per class. */
  datatype State<P> = State(phase: Phase, urgent: seq<P>, bulk: seq<P>,
                            urgentIn: seq<P>, bulkIn: seq<P>, urgentOut: seq<P>, bulkOut: seq<P>)

  /** A `Turn` is one select of the loop; `preferUrgent` resolves the choice when both queues are ready. */
  datatype Event<P> = Urgent(p: P) | Bulk(p: P) | Turn(preferUrgent: bool)

  function SendUrgent<P>(s: State<P>, next: Phase): (t: State<P>)
    requires s.urgent != []
  {
    s.(phase := next, urgent := s.urgent[1..], urgentOut := s.urgentOut + [s.urgent[0]])
  }

  function SendBulk<P>(s: State<P>): (t: State<P>)
    requires s.bulk != []
  {
    s.(phase := Drain(0), bulk := s.bulk[1..], bulkOut := s.bulkOut + [s.bulk[0]])
  }

  function TakeTurn<P>(s: State<P>, preferUrgent: bool): (t: State<P>) {
    match s.phase
    case Drain(done) =>
      if done < BURST && s.urgent != [] then SendUrgent(s, if done + 1 < BURST then Drain(done + 1) else ForceBulk)
      else s.(phase := ForceBulk)
    case ForceBulk =>
      if s.bulk != [] then SendBulk(s) else s.(phase := Wait)
    case Wait =>
      if s.urgent != [] && (s.bulk == [] || preferUrgent) then SendUrgent(s, Drain(0))
      else if s.bulk != [] then SendBulk(s)
      else s
  }

  function Step<P>(s: State<P>, e: Event<P>): (t: State<P>) {
    match e
    case Urgent(p) => s.(urgent := s.urgent + [p], urgentIn := s.urgentIn + [p])
    case Bulk(p) => s.(bulk := s.bulk + [p], bulkIn := s.bulkIn + [p])
    case Turn(preferUrgent) => TakeTurn(s, preferUrgent)
  }

  function Run<P>(s: State<P>, es: seq<Event<P>>): (t: State<P>) {
    if es == [] then s else Step(Run(s, es[..|es| - 1]), es[|es| - 1])
  }

  function Turns<P>(es: seq<Event<P>>): (n: nat) {
    if es == [] then 0 else Turns(es[..|es| - 1]) + if es[|es| - 1].Turn? then 1 else 0
  }

  ghost predicate Fair<P>(s: State<P>) { s.phase.Drain? ==> s.phase.done < BURST }

  /** Everything that arrived has been sent or is queued, in arrival order. */
  ghost predicate Conserved<P>(s: State<P>) {
    s.urgentIn == s.urgentOut + s.urgent && s.bulkIn == s.bulkOut + s.bulk
  }

  lemma TurnConserves<P>(s: State<P>, preferUrgent: bool)
    requires Conserved(s)
    ensures Conserved(TakeTurn(s, preferUrgent))
  {
    assert s.urgent != [] ==> s.urgentOut + s.urgent == (s.urgentOut + [s.urgent[0]]) + s.urgent[1..];
    assert s.bulk != [] ==> s.bulkOut + s.bulk == (s.bulkOut + [s.bulk[0]]) + s.bulk[1..];
  }

  /** The packets of each class that arrive in a run. */
  function Urgents<P>(es: seq<Event<P>>): (ps: seq<P>) {
    if es == [] then [] else Urgents(es[..|es| - 1]) + if es[|es| - 1].Urgent? then [es[|es| - 1].p] else []
  }

  function Bulks<P>(es: seq<Event<P>>): (ps: seq<P>) {
    if es == [] then [] else Bulks(es[..|es| - 1]) + if es[|es| - 1].Bulk? then [es[|es| - 1].p] else []
  }

  lemma {:induction false} RunReceives<P>(s: State<P>, es: seq<Event<P>>)
    ensures Run(s, es).urgentIn == s.urgentIn + Urgents(es) && Run(s, es).bulkIn == s.bulkIn + Bulks(es)
  {
    if es != [] {
      RunReceives(s, es[..|es| - 1]);
    }
  }

  lemma {:induction false} RunKeeps<P>(s: State<P>, es: seq<Event<P>>)
    requires Conserved(s)
    ensures Conserved(Run(s, es))
  {
    if es != [] {
      var t := Run(s, es[..|es| - 1]);
      RunKeeps(s, es[..|es| - 1]);
      match es[|es| - 1]
      case Turn(preferUrgent) => TurnConserves(t, preferUrgent);
      case Urgent(p) => assert t.urgentOut + t.urgent + [p] == t.urgentOut + (t.urgent + [p]);
      case Bulk(p) => assert t.bulkOut + t.bulk + [p] == t.bulkOut + (t.bulk + [p]);
    }
  }

  /** Each class is first-in first-out: what was sent and then what is queued is what arrived, with nothing lost,
      duplicated or reordered. */
  lemma RunConserves<P>(s: State<P>, es: seq<Event<P>>)
    requires Conserved(s)
    ensures var t := Run(s, es);
      t.urgentOut + t.urgent == s.urgentIn + Urgents(es) && t.bulkOut + t.bulk == s.bulkIn + Bulks(es)
  {
    RunReceives(s, es);
    RunKeeps(s, es);
  }

  /** The loop blocks only when there is nothing to send. */
  lemma BlocksOnlyWhenIdle<P>(s: State<P>, preferUrgent: bool)
    ensures TakeTurn(s, preferUrgent) == s ==> s.phase == Wait && s.urgent == [] && s.bulk == []
    ensures s.phase == Wait && s.urgent == [] && s.bulk == [] ==> TakeTurn(s, preferUrgent) == s
  {
    if s.urgent != [] {
      assert |TakeTurn(s, preferUrgent).urgent| < |s.urgent| || TakeTurn(s, preferUrgent).phase != s.phase
          || |TakeTurn(s, preferUrgent).bulk| < |s.bulk|;
    }
  }

  /** Urgent packets that may still be sent before the next bulk packet, once one is queued. */
  function Ahead(p: Phase): (n: int) {
    match p case Drain(done) => BURST - done case ForceBulk => 0 case Wait => BURST + 1
  }

  /** Turns that may still pass before the next bulk packet, once one is queued. */
  function TurnsLeft(p: Phase): (n: int) {
    match p case Drain(done) => BURST - done + 1 case ForceBulk => 1 case Wait => BURST + 2
  }

  /** While the packet at place `k` of the bulk queue has not been sent, urgent sends and turns
      are paid for out of a fixed budget: 8 (9 turns) for each bulk packet sent before it. */
  lemma {:induction false} Budget<P>(s: State<P>, es: seq<Event<P>>, k: nat)
    requires Fair(s) && k < |s.bulk| && |Run(s, es).bulkOut| <= |s.bulkOut| + k
    ensures var t := Run(s, es); var gone := |t.bulkOut| - |s.bulkOut|;
      && Fair(t) && 0 <= gone && |t.bulk| > k - gone
      && |t.urgentOut| - |s.urgentOut| + Ahead(t.phase) + BURST * (k - gone) <= Ahead(s.phase) + BURST * k
      && Turns(es) + TurnsLeft(t.phase) + (BURST + 1) * (k - gone) <= TurnsLeft(s.phase) + (BURST + 1) * k
  {
    if es != [] {
      Budget(s, es[..|es| - 1], k);
    }
  }

  /** A bulk packet with `k` others ahead of it sees at most 9 + 8k urgent packets go first. */
  lemma BulkIsNotStarved<P>(s: State<P>, es: seq<Event<P>>, k: nat)
    requires Fair(s) && k < |s.bulk| && |Run(s, es).bulkOut| <= |s.bulkOut| + k
    ensures |Run(s, es).urgentOut| - |s.urgentOut| <= 9 + 8 * k
  {
    Budget(s, es, k);
  }

  /** And it is sent within 10 + 9k turns of the loop, whatever arrives. */
  lemma BulkIsSentInTime<P>(s: State<P>, es: seq<Event<P>>, k: nat)
    requires Fair(s) && k < |s.bulk| && Turns(es) >= 10 + 9 * k
    ensures |Run(s, es).bulkOut| > |s.bulkOut| + k
  {
    if |Run(s, es).bulkOut| <= |s.bulkOut| + k {
      Budget(s, es, k);
    }
  }

  /** Credit for bulk packets that may still pass a waiting urgent one, in eighths, and for turns without an
      urgent send, in quarters. */
  function BulkCredit(p: Phase): (n: int) {
    match p case Drain(done) => done case ForceBulk => 8 case Wait => 8
  }

  function TurnCredit(p: Phase): (n: int) {
    match p case Drain(done) => done case ForceBulk => 8 case Wait => 4
  }

  /** While the packet at place `k` of the urgent queue has not been sent, each bulk packet is paid for by eight
      urgent ones, and each turn that sends no urgent packet by four. */
  lemma {:induction false} UrgentBudget<P>(s: State<P>, es: seq<Event<P>>, k: nat)
    requires Fair(s) && k < |s.urgent| && |Run(s, es).urgentOut| <= |s.urgentOut| + k
    ensures var t := Run(s, es); var gone := |t.urgentOut| - |s.urgentOut|;
      && Fair(t) && 0 <= gone && |t.urgent| > k - gone
      && 8 * (|t.bulkOut| - |s.bulkOut|) <= gone + BulkCredit(s.phase) - BulkCredit(t.phase)
      && 4 * (Turns(es) - gone) <= gone + TurnCredit(s.phase) - TurnCredit(t.phase)
  {
    if es != [] {
      UrgentBudget(s, es[..|es| - 1], k);
    }
  }

  /** An urgent packet with `k` others ahead of it sees at most 1 + k/8 bulk packets go first; the next urgent
      packet at most one. */
  lemma UrgentComesFirst<P>(s: State<P>, es: seq<Event<P>>, k: nat)
    requires Fair(s) && k < |s.urgent| && |Run(s, es).urgentOut| <= |s.urgentOut| + k
    ensures |Run(s, es).bulkOut| - |s.bulkOut| <= 1 + k / 8
  {
    UrgentBudget(s, es, k);
  }

  /** And it is sent within 3 + k + k/4 turns of the loop, whatever arrives. */
  lemma UrgentIsSentInTime<P>(s: State<P>, es: seq<Event<P>>, k: nat)
    requires Fair(s) && k < |s.urgent| && Turns(es) >= 3 + k + k / 4
    ensures |Run(s, es).urgentOut| > |s.urgentOut| + k
  {
    if |Run(s, es).urgentOut| <= |s.urgentOut| + k {
      UrgentBudget(s, es, k);
    }
  }

  /** The loop as it starts, with nothing to do. */
  function Begin<P>(): (s: State<P>) { State(Drain(0), [], [], [], [], [], []) }

  lemma {:induction false} RunSplit<P>(s: State<P>, a: seq<Event<P>>, b: seq<Event<P>>)
    ensures Run(s, a + b) == Run(Run(s, a), b)
    decreases |b|
  {
    if b == [] {
      assert a + b == a;
    } else {
      var n := |b| - 1;
      assert (a + b)[..|a + b| - 1] == a + b[..n];
      RunSplit(s, a, b[..n]);
    }
  }

  lemma {:induction false} UrgentsArrive<P>(s: State<P>, es: seq<Event<P>>)
    requires forall i | 0 <= i < |es| :: es[i].Urgent?
    ensures var t := Run(s, es);
      && t.phase == s.phase && t.bulk == s.bulk && t.urgentOut == s.urgentOut && t.bulkOut == s.bulkOut
      && |t.urgent| == |s.urgent| + |es|
  {
    if es != [] {
      UrgentsArrive(s, es[..|es| - 1]);
    }
  }

  /** The bound is tight: after `pre` a bulk packet is queued and nothing was sent, and then nine urgent
      packets pass it. */
  lemma NineIsReached() returns (pre: seq<Event<nat>>, es: seq<Event<nat>>)
    ensures var s := Run(Begin(), pre); |s.bulk| == 1 && s.urgentOut == [] && s.bulkOut == []
    ensures var t := Run(Begin(), pre + es); |t.urgentOut| == 9 && t.bulkOut == []
  {
    var idle: seq<Event<nat>> := [Turn(true), Turn(true)];
    var urgents := seq(9, i => Urgent(i));
    pre := idle + urgents + [Bulk(9)];
    es := seq(9, _ => Turn(true));
    assert idle[..1] == [Turn(true)] && idle[..1][..0] == [];
    assert Run(Begin<nat>(), idle[..1]) == Begin<nat>().(phase := ForceBulk);
    assert Run(Begin<nat>(), idle) == Begin<nat>().(phase := Wait);
    RunSplit(Begin(), idle, urgents);
    UrgentsArrive(Begin<nat>().(phase := Wait), urgents);
    assert pre[..|pre| - 1] == idle + urgents;
    NineSteps(Run(Begin(), pre), es, 9);
    assert es[..9] == es;
    RunSplit(Begin(), pre, es);
  }

  lemma {:induction false} NineSteps(s: State<nat>, es: seq<Event<nat>>, n: nat)
    requires s.phase == Wait && |s.urgent| == 9 && |s.bulk| == 1 && s.urgentOut == [] && s.bulkOut == []
    requires |es| == 9 && (forall i | 0 <= i < 9 :: es[i] == Turn(true)) && n <= 9
    ensures var t := Run(s, es[..n]);
      && |t.urgentOut| == n && |t.urgent| == 9 - n && t.bulkOut == [] && |t.bulk| == 1
      && t.phase == if n == 0 then Wait else if n == 9 then ForceBulk else Drain(n - 1)
  {
    if n > 0 {
      assert es[..n][..n - 1] == es[..n - 1];
      NineSteps(s, es, n - 1);
    }
  }
}
