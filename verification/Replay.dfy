/** The anti-replay window (section 5.4.6 of the WireGuard whitepaper): a ring of 32 64-bit
    words, proved to behave as the set of all counters accepted so far. */
module Replay {
  const SPAN := 2048
  const WRAP := 0x1_0000_0000_0000_0000

  type uint64 = x: int | 0 <= x < 0x1_0000_0000_0000_0000

  // ---------- What the window means ----------

  /** All counters accepted so far and the largest of them. */
  datatype Window = Window(accepted: set<uint64>, max: uint64)

  const Unused := Window({}, 0)

  ghost predicate Coherent(w: Window) {
    w.accepted != {} ==> w.max in w.accepted && forall a | a in w.accepted :: a <= w.max
  }

  /** The window test, with the 64-bit wrap-around of the sum. */
  predicate Fresh(w: Window, n: uint64) {
    w.accepted == {} || (n !in w.accepted && (n as int + SPAN) % WRAP > w.max)
  }

  function Offer(w: Window, n: uint64): (r: (Window, bool)) {
    if Fresh(w, n) then
      (Window(w.accepted + {n}, if w.accepted == {} || n > w.max then n else w.max), true)
    else (w, false)
  }

  /** The documented rule: unseen, and less than 2048 behind the largest accepted counter. */
  predicate Documented(w: Window, n: uint64) {
    w.accepted == {} || (n !in w.accepted && n as int + SPAN > w.max)
  }

  /** The wrapping test is the documented one for every counter but the last 2048 values; there a
      new counter is turned away unless the largest one is still smaller than the wrapped sum. */
  lemma WrapIsTheOnlyDifference(w: Window, n: uint64)
    ensures Fresh(w, n) ==> Documented(w, n)
    ensures Documented(w, n) && !Fresh(w, n)
       <==> w.accepted != {} && n !in w.accepted && n >= WRAP - SPAN && n as int + SPAN - WRAP <= w.max
  {
  }

  /** An instance: the very last counter is new and in the window, and is turned away. */
  lemma LastCounterTurnedAway()
    ensures var w := Window({5000}, 5000); Documented(w, WRAP - 1) && !Fresh(w, WRAP - 1)
  {
  }

  ghost function Run(ns: seq<uint64>): (w: Window) {
    if ns == [] then Unused else Offer(Run(ns[..|ns| - 1]), ns[|ns| - 1]).0
  }

  ghost predicate Accepted(ns: seq<uint64>, i: nat)
    requires i < |ns|
  {
    Offer(Run(ns[..i]), ns[i]).1
  }

  lemma {:induction false} RunCoherent(ns: seq<uint64>)
    ensures Coherent(Run(ns))
  {
    if ns != [] {
      RunCoherent(ns[..|ns| - 1]);
    }
  }

  lemma AcceptedGrow(ns: seq<uint64>, a: uint64)
    requires ns != []
    ensures var m := |ns| - 1;
      a in Run(ns).accepted <==> a in Run(ns[..m]).accepted || (ns[m] == a && Accepted(ns, m))
  {
  }

  /** After any run the window holds exactly the counters that were accepted. */
  lemma {:induction false} RunRemembers(ns: seq<uint64>, a: uint64)
    ensures a in Run(ns).accepted <==> exists i: nat | i < |ns| :: ns[i] == a && Accepted(ns, i)
  {
    hide Accepted;
    if ns != [] {
      hide Run;
      var m := |ns| - 1;
      var before := ns[..m];
      RunRemembers(before, a);
      AcceptedGrow(ns, a);
      forall i: nat | i < m
        ensures before[i] == ns[i] && Accepted(before, i) == Accepted(ns, i)
      {
        SamePrefix(ns, m, i);
      }
    }
  }

  lemma SamePrefix(ns: seq<uint64>, m: nat, i: nat)
    requires i < m <= |ns|
    ensures Accepted(ns[..m], i) == Accepted(ns, i)
  {
    assert ns[..m][..i] == ns[..i];
  }

  lemma {:induction false} RunGrows(ns: seq<uint64>, i: nat)
    requires i <= |ns|
    ensures Run(ns[..i]).accepted <= Run(ns).accepted
    decreases |ns| - i
  {
    if i < |ns| {
      var m := |ns| - 1;
      assert ns[..m][..i] == ns[..i];
      RunGrows(ns[..m], i);
    } else {
      assert ns[..i] == ns;
    }
  }

  /** No counter is ever accepted twice, whatever 64-bit counters are offered in whatever order. */
  lemma NeverTwice(ns: seq<uint64>, i: nat, j: nat)
    requires i < j < |ns| && ns[i] == ns[j] && Accepted(ns, i)
    ensures !Accepted(ns, j)
  {
    var p := ns[..i + 1];
    assert p[..i] == ns[..i] && ns[..j][..i + 1] == p;
    RunGrows(ns[..j], i + 1);
  }

  /** Exactly which offers of a run are accepted, said of the counters alone: those that no accepted one
      equals and that, 2048 added with wrap-around, lie above every accepted one. */
  lemma AcceptedExactly(ns: seq<uint64>, i: nat)
    requires i < |ns|
    ensures Accepted(ns, i) <==> forall j: nat | j < i && Accepted(ns, j) ::
      ns[j] != ns[i] && (ns[i] as int + 2048) % 0x1_0000_0000_0000_0000 > ns[j]
  {
    hide Accepted, Run;
    var w := Run(ns[..i]);
    RunCoherent(ns[..i]);
    assert Accepted(ns, i) == Fresh(w, ns[i]) by { VerdictIsFresh(ns, i); }
    forall j: nat | j < i && Accepted(ns, j)
      ensures ns[j] in w.accepted
    {
      PrefixRemembers(ns, i, ns[j]);
    }
    if w.accepted != {} {
      PrefixRemembers(ns, i, w.max);
    }
    if ns[i] in w.accepted {
      PrefixRemembers(ns, i, ns[i]);
    }
  }

  lemma VerdictIsFresh(ns: seq<uint64>, i: nat)
    requires i < |ns|
    ensures Accepted(ns, i) == Fresh(Run(ns[..i]), ns[i])
  {
  }

  lemma PrefixRemembers(ns: seq<uint64>, i: nat, a: uint64)
    requires i <= |ns|
    ensures a in Run(ns[..i]).accepted <==> exists j: nat | j < i :: ns[j] == a && Accepted(ns, j)
  {
    hide Accepted, Run;
    RunRemembers(ns[..i], a);
    forall j: nat | j < i
      ensures ns[..i][j] == ns[j] && Accepted(ns[..i], j) == Accepted(ns, j)
    {
      SamePrefix(ns, i, j);
    }
  }

  /** Below 2^64 - 2048 that is the documented rule: the first counter is accepted, and later a new one less than
      2048 behind the largest accepted. */
  lemma DocumentedExactly(ns: seq<uint64>, i: nat)
    requires i < |ns| && ns[i] < 0x1_0000_0000_0000_0000 - 2048
    ensures Accepted(ns, i) <==> forall j: nat | j < i && Accepted(ns, j) :: ns[j] != ns[i] && ns[i] + 2048 > ns[j]
  {
    hide Accepted;
    AcceptedExactly(ns, i);
  }

  // ---------- The bitmap ----------

  /** Bit `k` of a word. */
  predicate Bit(w: nat, k: nat) {
    if k == 0 then w % 2 == 1 else Bit(w / 2, k - 1)
  }

  /** The word or-ed with the one-bit mask `1 << k`. */
  function OrMask(w: nat, k: nat): (r: nat) {
    if k == 0 then w / 2 * 2 + 1 else OrMask(w / 2, k - 1) * 2 + w % 2
  }

  /** The word with bit `k` and-ed away. */
  function AndNotMask(w: nat, k: nat): (r: nat) {
    if k == 0 then w / 2 * 2 else AndNotMask(w / 2, k - 1) * 2 + w % 2
  }

  /** The word has at most `n` bits. */
  predicate Fits(w: nat, n: nat) {
    if n == 0 then w == 0 else Fits(w / 2, n - 1)
  }

  lemma {:induction false} BitOfMasked(w: nat, k: nat, j: nat)
    ensures Bit(OrMask(w, k), j) == (j == k || Bit(w, j))
    ensures Bit(AndNotMask(w, k), j) == (j != k && Bit(w, j))
  {
    if j > 0 && k > 0 {
      BitOfMasked(w / 2, k - 1, j - 1);
      assert OrMask(w, k) / 2 == OrMask(w / 2, k - 1);
      assert AndNotMask(w, k) / 2 == AndNotMask(w / 2, k - 1);
    }
  }

  lemma {:induction false} MaskedFits(w: nat, k: nat, n: nat)
    requires k < n && Fits(w, n)
    ensures Fits(OrMask(w, k), n) && Fits(AndNotMask(w, k), n)
  {
    if k > 0 {
      MaskedFits(w / 2, k - 1, n - 1);
    }
  }

  lemma {:induction false} ZeroWord(k: nat)
    ensures !Bit(0, k) && Fits(0, k)
  {
    if k > 0 {
      ZeroWord(k - 1);
    }
  }

  type Word = w: nat | Fits(w, 64) witness (ZeroWord(64); 0)

  function Or(w: Word, k: nat): (r: Word)
    requires k < 64
  {
    MaskedFits(w, k, 64);
    OrMask(w, k)
  }

  function AndNot(w: Word, k: nat): (r: Word)
    requires k < 64
  {
    MaskedFits(w, k, 64);
    AndNotMask(w, k)
  }

  predicate BitAt(words: seq<Word>, i: nat)
    requires |words| == 32 && i < SPAN
  {
    Bit(words[i / 64], i % 64)
  }

  lemma BitAtMasked(words: seq<Word>, i: nat, j: nat)
    requires |words| == 32 && i < SPAN && j < SPAN
    ensures BitAt(words[i / 64 := Or(words[i / 64], i % 64)], j) == (j == i || BitAt(words, j))
    ensures BitAt(words[i / 64 := AndNot(words[i / 64], i % 64)], j) == (j != i && BitAt(words, j))
  {
    hide Bit, OrMask, AndNotMask;
    BitOfMasked(words[i / 64], i % 64, j % 64);
  }

  const Zero: Word := (ZeroWord(64); 0)

  lemma AllZero(words: seq<Word>)
    requires |words| == 32 && forall i | 0 <= i < 32 :: words[i] == 0
    ensures forall j | 0 <= j < SPAN :: !BitAt(words, j)
  {
    forall j: nat | j < SPAN
      ensures !BitAt(words, j)
    {
      ZeroWord(j % 64);
    }
  }

  /** Bit `x mod 2048` tells, for every counter in the window, whether it was accepted. */
  ghost predicate Mirrors(words: seq<Word>, w: Window, lo: int) {
    |words| == 32 && forall x: nat | lo < x <= w.max :: BitAt(words, x % SPAN) <==> x in w.accepted
  }

  /** Counters less than 2048 apart use different bits. */
  lemma SlotsDiffer(x: nat)
    ensures forall y: nat | x - SPAN < y < x + SPAN && y != x :: y % SPAN != x % SPAN
  {
  }

  class Filter {
    var max: uint64
    var init: bool
    const seen: array<Word>
    ghost var view: Window

    ghost predicate Valid()
      reads this, seen
    {
      && seen.Length == 32 && Coherent(view)
      && init == (view.accepted != {})
      && (!init ==> view == Unused && forall i | 0 <= i < 32 :: seen[i] == 0)
      && (init ==> max == view.max && Mirrors(seen[..], view, max - SPAN))
    }

    constructor ()
      ensures Valid() && view == Unused && fresh(seen)
    {
      max, init, view := 0, false, Unused;
      seen := new Word[32](_ => Zero);
    }

    method Set(i: nat)
      requires seen.Length == 32 && i < SPAN
      modifies seen
      ensures forall j | 0 <= j < SPAN :: BitAt(seen[..], j) == (j == i || BitAt(old(seen[..]), j))
    {
      hide BitAt, Or;
      ghost var was := seen[..];
      seen[i / 64] := Or(seen[i / 64], i % 64);
      assert seen[..] == was[i / 64 := Or(was[i / 64], i % 64)];
      forall j: nat | j < SPAN
        ensures BitAt(seen[..], j) == (j == i || BitAt(was, j))
      {
        BitAtMasked(was, i, j);
      }
    }

    method Clear(i: nat)
      requires seen.Length == 32 && i < SPAN
      modifies seen
      ensures forall j | 0 <= j < SPAN :: BitAt(seen[..], j) == (j != i && BitAt(old(seen[..]), j))
    {
      hide BitAt, AndNot;
      ghost var was := seen[..];
      seen[i / 64] := AndNot(seen[i / 64], i % 64);
      assert seen[..] == was[i / 64 := AndNot(was[i / 64], i % 64)];
      forall j: nat | j < SPAN
        ensures BitAt(seen[..], j) == (j != i && BitAt(was, j))
      {
        BitAtMasked(was, i, j);
      }
    }

    method ClearAll()
      requires seen.Length == 32
      modifies seen
      ensures forall j | 0 <= j < SPAN :: !BitAt(seen[..], j)
    {
      hide BitAt;
      for i := 0 to 32
        invariant forall j | 0 <= j < i :: seen[j] == 0
      {
        seen[i] := Zero;
      }
      AllZero(seen[..]);
    }

    /** Clears the bits of the counters above `max` up to `n`. The loop counter is a wrapping
        64-bit value; it cannot wrap because `n` is below the largest one, so the loop takes
        at most 2047 steps. */
    method ClearBetween(n: uint64)
      requires seen.Length == 32 && max < n < WRAP - 1 && n - max < SPAN
      requires Mirrors(seen[..], view, max - SPAN) && view.max == max
      modifies seen
      ensures forall y: nat | max < y <= n :: !BitAt(seen[..], y % SPAN)
      ensures Mirrors(seen[..], view, n - SPAN)
    {
      hide BitAt;
      var x := (max + 1) % WRAP;
      while x <= n
        invariant max + 1 <= x <= n + 1 < WRAP
        invariant forall y: nat | max < y < x :: !BitAt(seen[..], y % SPAN)
        invariant Mirrors(seen[..], view, n - SPAN)
        decreases n + 1 - x
      {
        Clear(x % SPAN);
        SlotsDiffer(x);
        x := (x + 1) % WRAP;
      }
    }

    /** Moves the window up so that `n` is its top. */
    method Slide(n: uint64)
      requires Valid() && init && n > max && (n + SPAN) % WRAP > max
      modifies this`max, seen
      ensures max == n && Tracks(n)
    {
      hide BitAt;
      var delta := n - max;
      if delta >= SPAN {
        ClearAll();
      } else {
        ClearBetween(n);
      }
      max := n;
    }

    /** Every counter less than 2048 below `top` has its bit set exactly if it was accepted. */
    ghost predicate Tracks(top: uint64)
      reads this, seen
    {
      seen.Length == 32 && forall x: nat | top - SPAN < x <= top :: BitAt(seen[..], x % SPAN) <==> x in view.accepted
    }

    /** Accepts `n`, which is in the window and not yet marked. */
    method Record(n: uint64)
      requires Tracks(max) && max - SPAN < n <= max && n !in view.accepted
      requires forall a | a in view.accepted :: a <= max
      requires n == max || max in view.accepted
      modifies this`init, this`view, seen
      ensures Valid() && view == Window(old(view.accepted) + {n}, max)
    {
      hide BitAt;
      Set(n % SPAN);
      init := true;
      view := Window(view.accepted + {n}, max);
    }

    method Accept(n: uint64) returns (ok: bool)
      requires Valid()
      modifies this, seen
      ensures Valid() && (view, ok) == Offer(old(view), n)
    {
      hide BitAt;
      if !init {
        AllZero(seen[..]);
        max := n;
        Record(n);
        return true;
      }
      if (n + SPAN) % WRAP <= max {
        return false;
      }
      if n > max {
        Slide(n);
      }
      if BitAt(seen[..], n % SPAN) {
        return false;
      }
      Record(n);
      return true;
    }
  }
}
