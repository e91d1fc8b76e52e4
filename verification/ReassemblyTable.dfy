/** The mutable reassembly table: the loops over entries, pieces, the coverage bitmap and the
    output buffer, proved against the step of module Reassembly. */
module ReassemblyTable {
  import opened Bytes
  import opened Pieces
  import opened Reassembly

  class Table<K(==), H> {
    const rules: Rules<H>
    var m: map<K, Datagram<H>>
    var bytes: int

    ghost function View(): (s: State<K, H>)
      reads this
    {
      State(m, bytes)
    }

    ghost predicate Valid()
      reads this
    {
      Inv(rules.limits, View())
    }

    constructor (rules: Rules<H>)
      ensures Valid() && this.rules == rules && View() == Empty()
    {
      this.rules, m, bytes := rules, map[], 0;
    }

    method DropLocked(k: K)
      requires Valid()
      modifies this
      ensures Valid() && View() == Drop(old(View()), k)
    {
      DropKeepsInv(rules.limits, View(), k);
      if k in m {
        var left := bytes - m[k].bytes;
        m := m - {k};
        bytes := if left < 0 then 0 else left;
      }
    }

    /** Midway through a sweep: `gone` has been dropped, `keys` is still to be looked at. */
    static ghost predicate Sweeping(was: map<K, Datagram<H>>, m: map<K, Datagram<H>>, gone: map<K, Datagram<H>>,
                                    keys: set<K>, ttl: int, now: int)
    {
      && Splits(was, m, gone) && keys <= m.Keys
      && (forall k | k in gone :: Expired(gone[k], ttl, now))
      && (forall k | k in m && k !in keys :: !Expired(m[k], ttl, now))
    }

    static lemma SweepOne(was: map<K, Datagram<H>>, m: map<K, Datagram<H>>, gone: map<K, Datagram<H>>,
                          keys: set<K>, ttl: int, now: int, k: K)
      requires Sweeping(was, m, gone, keys, ttl, now) && k in keys && Expired(m[k], ttl, now)
      ensures Sweeping(was, m - {k}, gone[k := m[k]], keys - {k}, ttl, now)
      ensures Held(gone[k := m[k]]) == Held(gone) + m[k].bytes
    {
      HeldUpdate(gone, k, m[k]);
    }

    static lemma SweepNone(was: map<K, Datagram<H>>, m: map<K, Datagram<H>>, gone: map<K, Datagram<H>>,
                           keys: set<K>, ttl: int, now: int, k: K)
      requires Sweeping(was, m, gone, keys, ttl, now) && k in keys && !Expired(m[k], ttl, now)
      ensures Sweeping(was, m, gone, keys - {k}, ttl, now)
    {
    }

    static lemma SweepHolds(was: map<K, Datagram<H>>, m: map<K, Datagram<H>>, gone: map<K, Datagram<H>>,
                            keys: set<K>, ttl: int, now: int)
      requires Sweeping(was, m, gone, keys, ttl, now)
      ensures keys <= m.Keys
    {
    }

    static lemma SweepStarts(was: map<K, Datagram<H>>, ttl: int, now: int)
      ensures Sweeping(was, was, map[], was.Keys, ttl, now) && Held<K, H>(map[]) == 0
    {
    }

    static lemma SweepDone(was: map<K, Datagram<H>>, m: map<K, Datagram<H>>, gone: map<K, Datagram<H>>, ttl: int,
                           now: int)
      requires Sweeping(was, m, gone, {}, ttl, now)
      ensures m == Kept(was, ttl, now, false) && gone == Kept(was, ttl, now, true)
    {
      assert m.Keys == Kept(was, ttl, now, false).Keys;
      assert gone.Keys == Kept(was, ttl, now, true).Keys;
    }

    /** The table may be walked in any order: each expired entry is dropped, the others stay. */
    method SweepLocked(now: int)
      requires Valid()
      modifies this
      ensures Valid() && View() == Swept(old(View()), rules.limits.ttl, now)
    {
      hide Inv, Kept, Sweeping, Held;
      ghost var was := m;
      SweepStarts(was, rules.limits.ttl, now);
      ghost var gone: map<K, Datagram<H>> := map[];
      var keys := m.Keys;
      while keys != {}
        invariant Valid()
        invariant Sweeping(was, m, gone, keys, rules.limits.ttl, now)
        invariant bytes == old(bytes) - Held(gone)
        decreases keys
      {
        var k :| k in keys;
        SweepHolds(was, m, gone, keys, rules.limits.ttl, now);
        if now - m[k].updated > rules.limits.ttl {
          SweepOne(was, m, gone, keys, rules.limits.ttl, now, k);
          DropKeepsInv(rules.limits, View(), k);
          gone := gone[k := m[k]];
          DropLocked(k);
        } else {
          SweepNone(was, m, gone, keys, rules.limits.ttl, now, k);
        }
        keys := keys - {k};
      }
      SweepDone(was, m, gone, rules.limits.ttl, now);
    }

    static method AnyOverlap(ps: seq<Piece>, p: Piece) returns (r: bool)
      ensures r == OverlapsAny(ps, p)
    {
      for i := 0 to |ps|
        invariant forall j | 0 <= j < i :: !ps[j].Overlaps(p)
      {
        if p.off < ps[i].End() && ps[i].off < p.End() {
          return true;
        }
      }
      return false;
    }

    /** Marks a bitmap of `last` flags piece by piece and then looks for a clear one. */
    static method Coverage(ps: seq<Piece>, last: nat) returns (within: bool, full: bool)
      ensures within == Within(ps, last)
      ensures within ==> full == Full(ps, last)
    {
      var covered := new bool[last](_ => false);
      for i := 0 to |ps|
        invariant Within(ps[..i], last)
        invariant forall x | 0 <= x < last :: covered[x] <==> Covered(ps[..i], x)
      {
        if ps[i].End() > last {
          return false, false;
        }
        ghost var before := covered[..];
        for x := ps[i].off to ps[i].End()
          invariant forall y | 0 <= y < last :: covered[y] <==> before[y] || ps[i].off <= y < x
        {
          covered[x] := true;
        }
        assert ps[..i + 1] == ps[..i] + [ps[i]];
        forall x | 0 <= x < last
          ensures covered[x] <==> Covered(ps[..i + 1], x)
        {
          CoveredMore(ps[..i], ps[i], x);
        }
      }
      assert ps[..|ps|] == ps;
      for x := 0 to last
        invariant forall y | 0 <= y < x :: covered[y]
      {
        if !covered[x] {
          assert !Covered(ps, x);
          return true, false;
        }
      }
      return true, true;
    }

    static lemma CoveredMore(ps: seq<Piece>, p: Piece, x: int)
      ensures Covered(ps + [p], x) <==> Covered(ps, x) || p.Covers(x)
    {
      var qs := ps + [p];
      if Covered(ps, x) {
        var i :| 0 <= i < |ps| && ps[i].Covers(x);
        assert qs[i].Covers(x);
      }
      if p.Covers(x) {
        assert qs[|ps|].Covers(x);
      }
    }

    /** Copies the pieces, in arrival order, over a buffer of `last` bytes. */
    static method Overlay(ps: seq<Piece>, last: nat) returns (out: array<byte>)
      requires Disjoint(ps) && Within(ps, last) && Full(ps, last)
      ensures fresh(out) && out[..] == Assemble(ps, last)
    {
      out := new byte[last](_ => 0);
      for i := 0 to |ps|
        invariant forall j, x | 0 <= j < i && ps[j].Covers(x) :: out[x] == ps[j].data[x - ps[j].off]
      {
        var q := ps[i];
        ghost var before := out[..];
        for x := 0 to |q.data|
          invariant forall y | 0 <= y < x :: out[q.off + y] == q.data[y]
          invariant forall y | 0 <= y < last && !(q.off <= y < q.off + x) :: out[y] == before[y]
        {
          out[q.off + x] := q.data[x];
        }
        forall j, x | 0 <= j < i + 1 && ps[j].Covers(x)
          ensures out[x] == ps[j].data[x - ps[j].off]
        {
          if j == i {
            assert out[q.off + (x - q.off)] == q.data[x - q.off];
          } else {
            assert !ps[j].Overlaps(q);
          }
        }
      }
      forall x | 0 <= x < last
        ensures out[x] == Assemble(ps, last)[x]
      {
        assert Covered(ps, x);
        var j :| 0 <= j < |ps| && ps[j].Covers(x);
        ByteAtUnique(ps, j, x);
      }
    }

    method Settled(k: K) returns (o: Outcome)
      requires Valid() && k in m
      modifies this
      ensures Valid() && (View(), o) == Settle(rules, old(View()), k)
    {
      SettleKeepsInv(rules, View(), k);
      var d := m[k];
      if d.head.None? || d.last.None? {
        return Pending;
      }
      var within, full := Coverage(d.pieces, d.last.value);
      if !within {
        DropLocked(k);
        return Refused(PastFinal);
      }
      if !full {
        return Pending;
      }
      var buf := Overlay(d.pieces, d.last.value);
      var out := rules.build(d.head.value, buf[..]);
      DropLocked(k);
      return if out.None? then Refused(Unbuildable) else Ready(out.value, d.maxPacket);
    }

    method Judge(d: Datagram<H>, f: Fragment<K, H>) returns (why: Option<Reason>)
      ensures why == Refusal(rules, bytes, d, f)
    {
      if d.head.Some? && f.head.Some? && !rules.agree(d.head.value, f.head.value) {
        return Some(Inconsistent);
      }
      var overlap := AnyOverlap(d.pieces, f.piece);
      if overlap {
        return Some(Overlapping);
      }
      return if bytes + |f.piece.data| > rules.limits.maxBytes then Some(MemoryLimit) else None;
    }

    method AdmitLocked(d: Datagram<H>, f: Fragment<K, H>, now: int)
      requires Valid() && d == Found(View(), f.key, now) && Admits(rules, View(), f, d)
      modifies this
      ensures Valid() && View() == Admit(old(View()), f, now)
    {
      hide Inv, Extend, Admits;
      AdmitKeepsInv(rules, View(), f, now);
      m := m[f.key := Extend(d, f, now)];
      bytes := bytes + |f.piece.data|;
    }

    method InsertLocked(f: Fragment<K, H>, now: int) returns (o: Outcome)
      requires Valid()
      modifies this
      ensures Valid() && (View(), o) == Insert(rules, old(View()), f, now)
    {
      if f.key !in m && |m| >= rules.limits.maxEntries {
        return Refused(TableFull);
      }
      var d := if f.key in m then m[f.key] else Fresh(now);
      var why := Judge(d, f);
      if why.Some? {
        DropLocked(f.key);
        return Refused(why.value);
      }
      AdmitLocked(d, f, now);
      o := Settled(f.key);
    }

    /** The locked part of PushInfo. */
    method Push(f: Fragment<K, H>, now: int) returns (o: Outcome)
      requires Valid()
      modifies this
      ensures Valid() && (View(), o) == Step(rules, old(View()), Arrive(f, now))
    {
      SweepLocked(now);
      o := InsertLocked(f, now);
    }

    method Sweep(now: int)
      requires Valid()
      modifies this
      ensures Valid() && View() == Step(rules, old(View()), Event.Sweep(now)).0
    {
      SweepLocked(now);
    }
  }
}
