/** The ones' complement header checksum. */
module Checksum {
  import opened Bytes

  /** The sum of the 16-bit words; an odd last byte is a word's high half. */
  function Sum16(h: seq<byte>): (n: nat) {
    if |h| == 0 then 0
    else if |h| == 1 then h[0] as int * 0x100
    else Get16(h, 0) as int + Sum16(h[2..])
  }

  /** The ones' complement value of a sum: its residue modulo 65535, with 65535 standing for 0
      except when the sum itself is 0. */
  function Folded(n: nat): (r: uint16)
    ensures (r == 0) == (n == 0) && r % 0xffff == n % 0xffff
  {
    if n == 0 then 0 else (n - 1) % 0xffff + 1
  }

  function Complement(n: nat): (r: uint16) {
    0xffff - Folded(n)
  }

  function HeaderChecksum(h: seq<byte>): (r: uint16) { Complement(Sum16(h)) }

  lemma FoldedUnique(n: nat, r: nat)
    requires r < 0x1_0000 && (r == 0) == (n == 0) && r % 0xffff == n % 0xffff
    ensures r == Folded(n)
  {
  }

  /** One end-around carry keeps the residue and the zero test. */
  lemma CarryKeepsFolded(n: nat)
    ensures Folded(n % 0x1_0000 + n / 0x1_0000) == Folded(n)
  {
    var q, c := n / 0x1_0000, n % 0x1_0000 + n / 0x1_0000;
    assert n == c + q * 0xffff;
    assert (c + q * 0xffff) % 0xffff == c % 0xffff;
    FoldedUnique(n, Folded(c));
  }

  lemma {:induction false} SumBound(h: seq<byte>)
    ensures Sum16(h) <= (|h| + 1) / 2 * 0xffff
  {
    if |h| >= 2 {
      SumBound(h[2..]);
    }
  }

  lemma SumFrom(h: seq<byte>, i: nat)
    requires i + 1 < |h|
    ensures Sum16(h[i..]) == Get16(h, i) as int + Sum16(h[i + 2..])
  {
    assert h[i..][2..] == h[i + 2..];
  }

  /** The checksum loop. The running sum is a 32-bit word, so it is written with its wrap-around;
      up to 128 KiB, far beyond any header, it cannot wrap. */
  method AddWords(h: seq<byte>) returns (sum: uint32)
    ensures |h| <= 0x2_0000 ==> sum == Sum16(h)
  {
    assert |h| <= 0x2_0000 ==> Sum16(h) < 0x1_0000_0000 by {
      SumBound(h);
    }
    sum := 0;
    var i := 0;
    while i + 1 < |h|
      invariant 0 <= i <= |h| && i % 2 == 0
      invariant |h| <= 0x2_0000 ==> sum as int + Sum16(h[i..]) == Sum16(h)
    {
      SumFrom(h, i);
      sum := (sum as int + Get16(h, i) as int) % 0x1_0000_0000;
      i := i + 2;
    }
    if |h| % 2 != 0 {
      sum := (sum as int + h[|h| - 1] as int * 0x100) % 0x1_0000_0000;
    }
  }

  method Compute(h: seq<byte>) returns (r: uint16)
    ensures |h| <= 0x2_0000 ==> r == HeaderChecksum(h)
  {
    var sum := AddWords(h);
    var folded := Fold(sum);
    r := 0xffff - folded;
  }

  /** End-around carries until the sum fits 16 bits. */
  method Fold(n: uint32) returns (r: uint16)
    ensures r == Folded(n)
  {
    var sum := n as int;
    while sum / 0x1_0000 != 0
      invariant 0 <= sum && Folded(sum) == Folded(n)
      decreases sum
    {
      CarryKeepsFolded(sum);
      sum := sum % 0x1_0000 + sum / 0x1_0000;
    }
    FoldedUnique(sum, sum);
    r := sum;
  }

  lemma {:induction false} SumPut(h: seq<byte>, i: nat, v: uint16)
    requires i % 2 == 0 && i + 2 <= |h|
    ensures Sum16(Put16(h, i, v)) == Sum16(h) - Get16(h, i) as int + v as int
  {
    var p := Put16(h, i, v);
    if i == 0 {
      assert p[2..] == h[2..];
    } else {
      SumPut(h[2..], i - 2, v);
      assert p[2..] == Put16(h[2..], i - 2, v);
      assert h[2..][i - 2] == h[i] && h[2..][i - 1] == h[i + 1];
    }
  }

  /** With `SumPut` this says what the sum is: each word counts with its value. */
  lemma {:induction false} SumOfZeros(h: seq<byte>)
    requires forall i | 0 <= i < |h| :: h[i] == 0
    ensures Sum16(h) == 0
  {
    if |h| >= 2 {
      SumOfZeros(h[2..]);
    }
  }

  /** A sum and its complement make a multiple of 65535. */
  lemma ComplementAdds(n: nat)
    ensures (n + Complement(n)) % 0xffff == 0 && n + Complement(n) > 0
  {
    var f := Folded(n);
    assert (n - f) % 0xffff == 0;
    assert n + Complement(n) == (n - f) + 0xffff;
  }

  /** A header that stores the checksum of itself with that field zero verifies to 0: its words sum to a multiple
      of 65535. */
  lemma StoredChecksumVerifies(h: seq<byte>, i: nat)
    requires i % 2 == 0 && i + 2 <= |h| && Get16(h, i) == 0
    ensures HeaderChecksum(Put16(h, i, HeaderChecksum(h))) == 0
    ensures Sum16(Put16(h, i, HeaderChecksum(h))) > 0 && Sum16(Put16(h, i, HeaderChecksum(h))) % 0xffff == 0
  {
    var n, c := Sum16(h), HeaderChecksum(h);
    hide Sum16, Put16, Folded;
    SumPut(h, i, c);
    ComplementAdds(n);
    FoldedUnique(n + c, 0xffff);
  }
}
