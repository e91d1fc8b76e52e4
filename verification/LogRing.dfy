/** The bounded log ring and the window that mirrors it through deltas and resynchronisations. */
module LogRing {
  import opened Bytes

  type Text = seq<byte>

  datatype Drain = Drain(text: Text, replace: bool)

  /** `armed` is the pending wake-up (`notified`), `listening` whether a notify function is set. */
  datatype Ring = Ring(buf: Text, pending: Text, max: nat, listening: bool, armed: bool, resync: bool)

  /** The last `n` bytes of a text. */
  function Tail(t: Text, n: nat): (s: Text)
    ensures |s| == if |t| <= n then |t| else n
  {
    if |t| <= n then t else t[|t| - n..]
  }

  /** The tail is the end of the text. */
  lemma TailIsEnd(t: Text, n: nat)
    ensures t[|t| - |Tail(t, n)|..] == Tail(t, n)
  {
  }

  lemma TailJoin(a: Text, b: Text, n: nat)
    ensures Tail(Tail(a, n) + b, n) == Tail(a + b, n)
  {
  }

  /** How the shifted buffer gets there. */
  lemma TailCases(a: Text, p: Text, n: nat)
    requires |a| <= n
    ensures |p| >= n ==> Tail(a + p, n) == p[|p| - n..]
    ensures |p| < n && |a| + |p| > n ==> Tail(a + p, n) == a[|a| + |p| - n..] + p
    ensures |a| + |p| <= n ==> Tail(a + p, n) == a + p
  {
    if |p| >= n {
      assert (a + p)[|a| + |p| - n..] == p[|p| - n..];
    } else if |a| + |p| > n {
      assert (a + p)[|a| + |p| - n..] == a[|a| + |p| - n..] + p;
    }
  }

  // ---------- Operations ----------

  function Seeded(r: Ring, p: Text): (s: Ring) {
    r.(buf := Tail(r.buf + p, r.max), pending := [], resync := true)
  }

  function Listened(r: Ring, on: bool): (s: Ring) {
    r.(listening := on, armed := r.armed || (on && (r.resync || r.pending != [])))
  }

  function Written(r: Ring, p: Text): (s: Ring) {
    var late := |p| >= r.max || |r.pending| + |p| > r.max;
    r.(buf := Tail(r.buf + p, r.max),
       pending := if r.resync then r.pending else if late then [] else r.pending + p,
       resync := r.resync || late,
       armed := r.armed || r.listening)
  }

  function Drained(r: Ring): (s: Ring) { r.(pending := [], resync := false, armed := false) }

  function DrainOf(r: Ring): (d: Drain) { if r.resync then Drain(r.buf, true) else Drain(r.pending, false) }

  function Cleared(r: Ring): (s: Ring) { r.(buf := [], pending := [], resync := false, armed := false) }

  class LogRing {
    var buf: Text
    var pending: Text
    const maxBytes: nat
    var listening: bool
    var notified: bool
    var resync: bool

    ghost function View(): (r: Ring)
      reads this
    {
      Ring(buf, pending, maxBytes, listening, notified, resync)
    }

    constructor (max: nat)
      ensures View() == Ring([], [], if max < 4096 then 4096 else max, false, false, false)
    {
      maxBytes := if max < 4096 then 4096 else max;
      buf, pending, listening, notified, resync := [], [], false, false, false;
    }

    /** Appends to the history and shifts out what no longer fits. */
    method AppendHistory(p: Text)
      requires |buf| <= maxBytes
      modifies this`buf
      ensures buf == Tail(old(buf) + p, maxBytes) && |buf| <= maxBytes
    {
      ghost var was := buf;
      TailCases(was, p, maxBytes);
      hide Tail;
      if |p| >= maxBytes {
        buf := p[|p| - maxBytes..];
        return;
      }
      var need := |buf| + |p| - maxBytes;
      if need > 0 {
        buf := buf[need..];
      }
      buf := buf + p;
    }

    method Seed(p: Text)
      requires |buf| <= maxBytes
      modifies this
      ensures View() == Seeded(old(View()), p) && |buf| <= maxBytes
    {
      AppendHistory(p);
      pending := [];
      resync := true;
    }

    method SetNotify(on: bool) returns (wake: bool)
      modifies this
      ensures View() == Listened(old(View()), on)
      ensures wake == (notified && !old(notified))
    {
      listening := on;
      wake := on && (resync || |pending| != 0) && !notified;
      if wake {
        notified := true;
      }
    }

    method Write(p: Text) returns (wake: bool)
      requires |buf| <= maxBytes
      modifies this
      ensures View() == Written(old(View()), p) && |buf| <= maxBytes
      ensures wake == (notified && !old(notified))
    {
      AppendHistory(p);
      if !resync {
        if |p| >= maxBytes || |pending| + |p| > maxBytes {
          pending := [];
          resync := true;
        } else {
          pending := pending + p;
        }
      }
      wake := listening && !notified;
      if wake {
        notified := true;
      }
    }

    method DrainAndAck() returns (d: Drain)
      modifies this
      ensures View() == Drained(old(View())) && d == DrainOf(old(View()))
    {
      d := if resync then Drain(buf, true) else Drain(pending, false);
      pending := [];
      resync := false;
      notified := false;
    }

    method Clear()
      modifies this
      ensures View() == Cleared(old(View()))
    {
      buf, pending, resync, notified := [], [], false, false;
    }
  }

  // ---------- The mirror ----------

  datatype Op = Seed(p: Text) | SetNotify(on: bool) | Write(p: Text) | DrainAndShow | Clear

  /** The ring, the text of the window that shows it, and everything logged since it was last cleared. */
  datatype World = World(ring: Ring, shown: Text, logged: Text)

  function Shown(w: Text, d: Drain): (s: Text) { if d.replace then d.text else w + d.text }

  /** The window clears itself together with the ring. */
  function Step(w: World, op: Op): (v: World) {
    match op
    case Seed(p) => w.(ring := Seeded(w.ring, p), logged := w.logged + p)
    case SetNotify(on) => w.(ring := Listened(w.ring, on))
    case Write(p) => w.(ring := Written(w.ring, p), logged := w.logged + p)
    case DrainAndShow => w.(ring := Drained(w.ring), shown := Shown(w.shown, DrainOf(w.ring)))
    case Clear => World(Cleared(w.ring), [], [])
  }

  ghost function Run(max: nat, ops: seq<Op>): (w: World) {
    if ops == [] then World(Ring([], [], max, false, false, false), [], [])
    else Step(Run(max, ops[..|ops| - 1]), ops[|ops| - 1])
  }

  /** The history is the tail of what was logged, and what is shown plus what is pending ends in it. */
  ghost predicate Mirrors(w: World) {
    && w.ring.buf == Tail(w.logged, w.ring.max)
    && (w.ring.resync ==> w.ring.pending == [])
    && (!w.ring.resync ==> Tail(w.shown + w.ring.pending, w.ring.max) == w.ring.buf)
  }

  lemma MirrorsStep(w: World, op: Op)
    requires Mirrors(w)
    ensures Mirrors(Step(w, op)) && Step(w, op).ring.max == w.ring.max
  {
    var r := w.ring;
    match op
    case Seed(p) => TailJoin(w.logged, p, r.max);
    case Write(p) =>
      TailJoin(w.logged, p, r.max);
      if !r.resync {
        TailJoin(w.shown + r.pending, p, r.max);
        assert w.shown + r.pending + p == w.shown + (r.pending + p);
      }
    case DrainAndShow =>
      assert Shown(w.shown, DrainOf(r)) + [] == Shown(w.shown, DrainOf(r));
    case SetNotify(_) =>
    case Clear =>
  }

  lemma {:induction false} RunMirrors(max: nat, ops: seq<Op>)
    ensures Mirrors(Run(max, ops)) && Run(max, ops).ring.max == max
  {
    hide Step, Tail;
    if ops != [] {
      RunMirrors(max, ops[..|ops| - 1]);
      MirrorsStep(Run(max, ops[..|ops| - 1]), ops[|ops| - 1]);
    }
  }

  /** Everything seeded or written since the last clear. */
  ghost function TextSince(ops: seq<Op>): (t: Text) {
    if ops == [] then []
    else match ops[|ops| - 1]
      case Seed(p) => TextSince(ops[..|ops| - 1]) + p
      case Write(p) => TextSince(ops[..|ops| - 1]) + p
      case Clear => []
      case SetNotify(_) => TextSince(ops[..|ops| - 1])
      case DrainAndShow => TextSince(ops[..|ops| - 1])
  }

  lemma {:induction false} LoggedIsText(max: nat, ops: seq<Op>)
    ensures Run(max, ops).logged == TextSince(ops)
  {
    if ops != [] {
      LoggedIsText(max, ops[..|ops| - 1]);
    }
  }

  /** Right after a drain the window's last `max` bytes are the ring's history, which is the last
      `max` bytes of everything logged since the last clear: no delta is lost or shown twice. */
  lemma WindowIsCurrent(max: nat, ops: seq<Op>)
    requires ops != [] && ops[|ops| - 1] == DrainAndShow
    ensures var w := Run(max, ops); Tail(w.shown, max) == w.ring.buf == Tail(TextSince(ops), max)
  {
    LoggedIsText(max, ops);
    RunMirrors(max, ops);
    var w := Run(max, ops);
    assert w.shown + w.ring.pending == w.shown;
  }

  /** A window that keeps up gets deltas: a write that fits beside what is pending is added to it, and only one that
      does not fit asks for a replacement. */
  lemma WriteExactly(r: Ring, p: Text)
    requires !r.resync
    ensures Written(r, p).resync <==> |p| >= r.max || |r.pending| + |p| > r.max
    ensures !Written(r, p).resync ==>
      Written(r, p).pending == r.pending + p && DrainOf(Written(r, p)) == Drain(r.pending + p, false)
    ensures Written(r, p).resync ==> DrainOf(Written(r, p)) == Drain(Tail(r.buf + p, r.max), true)
  {
  }

  // ---------- Wake-ups ----------

  ghost predicate HasNews(r: Ring) { r.resync || r.pending != [] }

  /** News that the window has not shown has a wake-up under way, if anybody listens. */
  ghost predicate Announced(r: Ring) { r.listening && HasNews(r) ==> r.armed }

  /** Operation `i` seeds a ring that has a listener and no wake-up under way. */
  ghost predicate SeedsUnheard(max: nat, ops: seq<Op>, i: nat) {
    i < |ops| && ops[i].Seed? && var r := Run(max, ops[..i]).ring; r.listening && !r.armed
  }

  lemma AnnouncedStep(w: World, op: Op)
    requires Announced(w.ring)
    ensures Announced(Step(w, op).ring) <==> !(op.Seed? && w.ring.listening && !w.ring.armed)
  {
  }

  lemma {:induction false} AnnouncedUpTo(max: nat, ops: seq<Op>, n: nat)
    requires n <= |ops|
    ensures (forall i: nat | i <= n :: Announced(Run(max, ops[..i]).ring))
       <==> (forall i: nat | i < n :: !SeedsUnheard(max, ops, i))
  {
    hide Announced, Step;
    if n == 0 {
      NothingToAnnounce(max);
    } else {
      var m := n - 1;
      AnnouncedUpTo(max, ops, m);
      assert ops[..n][..m] == ops[..m] && ops[..n][m] == ops[m];
      assert Run(max, ops[..n]) == Step(Run(max, ops[..m]), ops[m]);
      if forall i: nat | i <= m :: Announced(Run(max, ops[..i]).ring) {
        assert Announced(Run(max, ops[..m]).ring);
        AnnouncedStep(Run(max, ops[..m]), ops[m]);
        assert Announced(Run(max, ops[..n]).ring) <==> !SeedsUnheard(max, ops, m);
      }
    }
  }

  /** Exactly when no news is missed: throughout a run news is announced if and only if the ring is never
      seeded while somebody listens and no wake-up is under way. */
  lemma AnnouncedExactly(max: nat, ops: seq<Op>)
    ensures (forall i: nat | i <= |ops| :: Announced(Run(max, ops[..i]).ring))
       <==> (forall i: nat | i < |ops| :: !SeedsUnheard(max, ops, i))
  {
    AnnouncedUpTo(max, ops, |ops|);
  }

  lemma NothingToAnnounce(max: nat)
    ensures Announced(Run(max, []).ring)
  {
  }

  /** Operation `i` posts a wake-up. */
  ghost predicate Wakes(max: nat, ops: seq<Op>, i: nat) {
    i < |ops| && !Run(max, ops[..i]).ring.armed && Run(max, ops[..i + 1]).ring.armed
  }

  lemma ArmedStep(w: World, op: Op)
    requires Step(w, op).ring.armed
    ensures op != DrainAndShow && op != Clear && (w.ring.armed || Step(w, op).ring.listening)
  {
  }

  /** A wake-up is under way only if one was posted, to somebody listening, since the last drain or clear. */
  lemma {:induction false} ArmedMeansWoken(max: nat, ops: seq<Op>) returns (i: nat)
    requires Run(max, ops).ring.armed
    ensures Wakes(max, ops, i) && Run(max, ops[..i + 1]).ring.listening
    ensures forall j | i < j < |ops| :: ops[j] != DrainAndShow && ops[j] != Clear
  {
    hide Step;
    var n := |ops| - 1;
    var before := ops[..n];
    assert ops[..n + 1] == ops;
    ArmedStep(Run(max, before), ops[n]);
    if Run(max, before).ring.armed {
      i := ArmedMeansWoken(max, before);
      assert before[..i] == ops[..i] && before[..i + 1] == ops[..i + 1];
    } else {
      i := n;
    }
  }

  /** Listening starts after the last seeding and never stops. */
  ghost predicate SeedsFirst(ops: seq<Op>) {
    forall i, j | 0 <= i < j < |ops| && ops[i] == SetNotify(true) :: !ops[j].Seed? && ops[j] != SetNotify(false)
  }

  ghost predicate Listens(ops: seq<Op>) { exists i | 0 <= i < |ops| :: ops[i] == SetNotify(true) }

  lemma {:induction false} ListeningWasAskedFor(max: nat, ops: seq<Op>)
    ensures Run(max, ops).ring.listening ==> Listens(ops)
    ensures SeedsFirst(ops) && Listens(ops) ==> Run(max, ops).ring.listening
  {
    if ops != [] {
      var n := |ops| - 1;
      assert forall i | 0 <= i < n :: ops[..n][i] == ops[i];
      ListeningWasAskedFor(max, ops[..n]);
    }
  }

  /** With that order of calls, once somebody listens news always has a wake-up under way. */
  lemma NewsIsAnnounced(max: nat, ops: seq<Op>)
    requires SeedsFirst(ops) && Listens(ops)
    ensures var r := Run(max, ops).ring; r.listening && (HasNews(r) ==> r.armed)
  {
    ListeningWasAskedFor(max, ops);
    forall i: nat | i < |ops|
      ensures !SeedsUnheard(max, ops, i)
    {
      ListeningWasAskedFor(max, ops[..i]);
    }
    AnnouncedExactly(max, ops);
    assert ops[..|ops|] == ops;
  }

  /** Seeding after listening has begun leaves news unannounced until the next write. */
  lemma LateSeedIsSilent(p: Text)
    ensures var r := Run(4096, [SetNotify(true), Seed(p)]).ring; r.listening && HasNews(r) && !r.armed
  {
    var ops := [SetNotify(true), Seed(p)];
    assert ops[..1] == [SetNotify(true)] && ops[..1][..0] == [];
    assert Run(4096, ops[..1]) == Step(Run(4096, []), SetNotify(true));
    assert Run(4096, ops) == Step(Run(4096, ops[..1]), Seed(p));
  }
}
