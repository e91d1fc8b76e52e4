/** IPv6 extension header chains, said of the bytes alone (section 4 of RFC 8200). */
module Chains {
  import opened Bytes

  /** Hop-by-hop options, routing, destination options or authentication. */
  predicate Extension(kind: byte) { kind == 0 || kind == 43 || kind == 60 || kind == 51 }

  /** The length of the header at `off`, in bytes: authentication counts in fours less two, the others in eights
      less one. */
  ghost function LengthOf(b: seq<byte>, kind: byte, off: nat): (n: nat)
    requires off + 1 < |b|
    ensures n >= 8
  {
    if kind == 51 then (b[off + 1] as int + 2) * 4 else (b[off + 1] as int + 1) * 8
  }

  /** Where the Next Header byte is that names header `i` of a trace. */
  ghost function PrevAt(offs: seq<nat>, i: nat): (p: nat)
    requires i < |offs|
  {
    if i == 0 then 6 else offs[i - 1]
  }

  ghost function KindAt(b: seq<byte>, offs: seq<nat>, i: nat): (k: byte)
    requires i < |offs|
  {
    if PrevAt(offs, i) < |b| then b[PrevAt(offs, i)] else 59
  }

  /** The header at `off` lies within the packet. */
  ghost predicate Inside(b: seq<byte>, total: nat, kind: byte, off: nat)
    requires total <= |b|
  {
    off + 2 <= total && off + LengthOf(b, kind, off) <= total
  }

  /** From the extension header at `off` to the header right after it. */
  ghost predicate Goes(b: seq<byte>, total: nat, kind: byte, off: nat, next: nat)
    requires total <= |b|
  {
    Extension(kind) && Inside(b, total, kind, off) && next == off + LengthOf(b, kind, off)
  }

  /** `offs` are the starts of consecutive headers from the fixed header on; all but the last are extension
      headers that lie within the packet. */
  ghost predicate Trace(b: seq<byte>, total: nat, offs: seq<nat>) {
    && 40 <= total <= |b| && |offs| > 0 && offs[0] == 40 && (forall i | 0 <= i < |offs| :: 40 <= offs[i] <= total)
    && (forall i: nat {:trigger KindAt(b, offs, i)} | i < |offs| - 1 ::
          Goes(b, total, KindAt(b, offs, i), offs[i], offs[i + 1]))
  }

  ghost function End(offs: seq<nat>): (o: nat)
    requires |offs| > 0
  {
    offs[|offs| - 1]
  }

  ghost function EndKind(b: seq<byte>, offs: seq<nat>): (k: byte)
    requires |offs| > 0
  {
    KindAt(b, offs, |offs| - 1)
  }

  /** The trace goes as far as it can: to something that is no extension header, or to one cut off. */
  ghost predicate Complete(b: seq<byte>, total: nat, offs: seq<nat>) {
    Trace(b, total, offs) && (!Extension(EndKind(b, offs)) || !Inside(b, total, EndKind(b, offs), End(offs)))
  }

  /** The chain leads to a header of the given kind, no extension header. */
  ghost predicate LeadsTo(b: seq<byte>, total: nat, offs: seq<nat>) {
    Trace(b, total, offs) && !Extension(EndKind(b, offs))
  }

  /** The chain ends in the middle of a header. */
  ghost predicate BreaksOff(b: seq<byte>, total: nat, offs: seq<nat>) {
    && Trace(b, total, offs)
    && Extension(EndKind(b, offs)) && !Inside(b, total, EndKind(b, offs), End(offs))
  }

  lemma KindStays(b: seq<byte>, offs: seq<nat>, next: nat, i: nat)
    requires i < |offs|
    ensures KindAt(b, offs + [next], i) == KindAt(b, offs, i)
  {
  }

  lemma Extended(b: seq<byte>, total: nat, offs: seq<nat>, next: nat)
    requires Trace(b, total, offs) && Goes(b, total, EndKind(b, offs), End(offs), next)
    ensures next <= total && Trace(b, total, offs + [next])
    ensures End(offs) < next == End(offs + [next]) && EndKind(b, offs + [next]) == b[End(offs)]
  {
    assert End(offs) + 8 <= next <= total;
    var more := offs + [next];
    assert EndKind(b, more) == b[End(offs)];
    hide Goes, LengthOf, KindAt;
    forall i: nat | i < |more| - 1
      ensures Goes(b, total, KindAt(b, more, i), more[i], more[i + 1])
    {
      KindStays(b, offs, next, i);
    }
  }

  lemma {:induction false} TraceOn(b: seq<byte>, total: nat, offs: seq<nat>) returns (all: seq<nat>)
    requires Trace(b, total, offs)
    ensures Complete(b, total, all)
    decreases total - End(offs)
  {
    if Complete(b, total, offs) {
      all := offs;
    } else {
      var next := End(offs) + LengthOf(b, EndKind(b, offs), End(offs));
      Extended(b, total, offs, next);
      all := TraceOn(b, total, offs + [next]);
    }
  }

  /** Every packet has a complete trace. */
  lemma EveryChainEnds(b: seq<byte>, total: nat) returns (offs: seq<nat>)
    requires 40 <= total <= |b|
    ensures Complete(b, total, offs)
  {
    offs := TraceOn(b, total, [40]);
  }
}
