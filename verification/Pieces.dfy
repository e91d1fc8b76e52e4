/** The pieces of a datagram under reassembly: overlap, coverage and overlay. */
module Pieces {
  import opened Bytes

  datatype Piece = Piece(off: nat, data: seq<byte>) {
    function End(): (e: nat) { off + |data| }
    predicate Covers(x: int) { off <= x < End() }
    predicate Overlaps(q: Piece) { off < q.End() && q.off < End() }
  }

  ghost predicate Disjoint(ps: seq<Piece>) {
    forall i, j | 0 <= i < j < |ps| :: !ps[i].Overlaps(ps[j])
  }

  ghost predicate Covered(ps: seq<Piece>, x: int) {
    exists i | 0 <= i < |ps| :: ps[i].Covers(x)
  }

  ghost predicate Full(ps: seq<Piece>, last: nat) {
    forall x | 0 <= x < last :: Covered(ps, x)
  }

  predicate Within(ps: seq<Piece>, last: nat) {
    forall i | 0 <= i < |ps| :: ps[i].End() <= last
  }

  /** Payload bytes held by the pieces. */
  function Weight(ps: seq<Piece>): (n: nat) {
    if ps == [] then 0 else Weight(ps[..|ps| - 1]) + |ps[|ps| - 1].data|
  }

  ghost function ByteAt(ps: seq<Piece>, x: int): (b: byte)
    requires Covered(ps, x)
  {
    var i :| 0 <= i < |ps| && ps[i].Covers(x);
    ps[i].data[x - ps[i].off]
  }

  /** The payload the pieces spell out once they cover `[0, last)`. */
  ghost function Assemble(ps: seq<Piece>, last: nat): (p: seq<byte>)
    requires Full(ps, last)
    ensures |p| == last
  {
    seq(last, x requires 0 <= x < last => ByteAt(ps, x))
  }

  /** Pieces that do not overlap agree on every byte, so the overlay is unambiguous. */
  lemma ByteAtUnique(ps: seq<Piece>, i: nat, x: int)
    requires Disjoint(ps) && i < |ps| && ps[i].Covers(x)
    ensures Covered(ps, x) && ByteAt(ps, x) == ps[i].data[x - ps[i].off]
  {
    var j :| 0 <= j < |ps| && ps[j].Covers(x) && ByteAt(ps, x) == ps[j].data[x - ps[j].off];
    if j < i {
      assert !ps[j].Overlaps(ps[i]);
    } else if i < j {
      assert !ps[i].Overlaps(ps[j]);
    }
  }

  function Range(lo: int, hi: int): (s: set<int>)
    ensures forall x :: x in s <==> lo <= x < hi
    decreases hi - lo
  {
    if lo >= hi then {} else Range(lo, hi - 1) + {hi - 1}
  }

  lemma {:induction false} RangeSize(lo: int, hi: int)
    requires lo <= hi
    ensures |Range(lo, hi)| == hi - lo
    decreases hi - lo
  {
    if lo < hi {
      RangeSize(lo, hi - 1);
    }
  }

  ghost function Footprint(ps: seq<Piece>): (s: set<int>)
    ensures forall x :: x in s <==> Covered(ps, x)
  {
    if ps == [] then {}
    else
      var n := |ps| - 1;
      var s := Footprint(ps[..n]) + Range(ps[n].off, ps[n].End());
      assert forall x | Covered(ps, x) :: Covered(ps[..n], x) || ps[n].Covers(x);
      assert forall x | Covered(ps[..n], x) :: Covered(ps, x);
      s
  }

  lemma NewFootprint(ps: seq<Piece>, p: Piece)
    requires forall i | 0 <= i < |ps| :: !ps[i].Overlaps(p)
    ensures Footprint(ps) !! Range(p.off, p.End())
  {
    forall x | x in Footprint(ps)
      ensures x !in Range(p.off, p.End())
    {
      var i :| 0 <= i < |ps| && ps[i].Covers(x);
      assert !ps[i].Overlaps(p);
    }
  }

  lemma {:induction false} FootprintSize(ps: seq<Piece>)
    requires Disjoint(ps)
    ensures |Footprint(ps)| == Weight(ps)
  {
    if ps != [] {
      var n := |ps| - 1;
      FootprintSize(ps[..n]);
      RangeSize(ps[n].off, ps[n].End());
      NewFootprint(ps[..n], ps[n]);
    }
  }

  /** Disjoint pieces inside `[0, last)` that cover it tile it: nothing is held twice. */
  lemma TilingIsExact(ps: seq<Piece>, last: nat)
    requires Disjoint(ps) && Within(ps, last)
    ensures Full(ps, last) <==> Weight(ps) == last
  {
    hide Weight, Footprint, Range;
    FootprintSize(ps);
    RangeSize(0, last);
    assert Footprint(ps) <= Range(0, last);
    if Full(ps, last) {
      assert Footprint(ps) == Range(0, last);
    } else {
      var x :| 0 <= x < last && !Covered(ps, x);
      assert Footprint(ps) < Range(0, last);
      SubsetSize(Footprint(ps), Range(0, last));
    }
  }

  lemma {:induction false} SubsetSize<T>(a: set<T>, b: set<T>)
    requires a < b
    ensures |a| < |b|
  {
    assert b == a + (b - a);
    assert b - a != {};
  }
}
