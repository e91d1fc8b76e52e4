/** DNS name decompression (sections 3.1 and 4.1.4 of RFC 1035). */
module DnsName {
  import opened Bytes

  const MAX_HOPS := 16

  type Label = seq<byte>

  // ---------- What an encoding means ----------

  function PointerAt(msg: seq<byte>, off: nat): (p: nat)
    requires off + 1 < |msg|
  {
    msg[off] as int % 64 * 256 + msg[off + 1] as int
  }

  /** At `off` the message spells `labels`, following exactly `hops` compression pointers. */
  ghost predicate Spells(msg: seq<byte>, off: nat, labels: seq<Label>, hops: nat)
    decreases hops, |labels|
  {
    && off < |msg|
    && if msg[off] == 0 then labels == [] && hops == 0
       else if msg[off] >= 192 then off + 1 < |msg| && hops > 0 && Spells(msg, PointerAt(msg, off), labels, hops - 1)
       else
         && msg[off] < 64 && off + 1 + msg[off] as int <= |msg|
         && labels != [] && labels[0] == msg[off + 1..off + 1 + msg[off] as int]
         && Spells(msg, off + 1 + msg[off] as int, labels[1..], hops)
  }

  /** The name in dotted form. */
  function Dotted(labels: seq<Label>): (s: seq<byte>) {
    if labels == [] then [] else if |labels| == 1 then labels[0] else labels[0] + [46] + Dotted(labels[1..])
  }

  /** Just past the first pointer or the root byte. */
  ghost function NextAfter(msg: seq<byte>, off: nat): (n: nat)
    decreases |msg| - off
  {
    if off >= |msg| then off
    else if msg[off] == 0 then off + 1
    else if msg[off] >= 192 then off + 2
    else NextAfter(msg, off + 1 + msg[off] as int)
  }

  // ---------- The decoder ----------

  datatype Name = BadName | Name(text: seq<byte>, next: nat)

  /** What is appended to `out` for `more`: a dot only between two non-empty parts. */
  function JoinTo(out: seq<byte>, more: seq<byte>): (s: seq<byte>) {
    out + (if out != [] && more != [] then [46] else []) + more
  }

  /** The name from `off` on, appended to what was read before it. */
  ghost function Read(msg: seq<byte>, off: nat, depth: nat, out: seq<byte>): (r: Name)
    decreases MAX_HOPS + 1 - depth, |msg| - off
  {
    if off >= |msg| then BadName
    else if msg[off] == 0 then Name(out, off + 1)
    else if msg[off] >= 192 then
      if off + 1 >= |msg| || depth + 1 > MAX_HOPS then BadName
      else
        match Read(msg, PointerAt(msg, off), depth + 1, [])
        case BadName => BadName
        case Name(suffix, _) => Name(JoinTo(out, suffix), off + 2)
    else
      var l := msg[off] as int;
      if l > 63 || off + 1 + l > |msg| then BadName
      else Read(msg, off + 1 + l, depth, JoinTo(out, msg[off + 1..off + 1 + l]))
  }

  /** The loop over labels, with a recursive call at a pointer; it always terminates because
      offsets grow within a call and calls nest at most 17 deep. */
  method ReadName(msg: seq<byte>, start: nat, depth: nat) returns (r: Name)
    ensures depth > MAX_HOPS ==> r == BadName
    ensures depth <= MAX_HOPS ==> r == Read(msg, start, depth, [])
    decreases if depth > MAX_HOPS then 0 else MAX_HOPS + 1 - depth
  {
    if depth > MAX_HOPS {
      return BadName;
    }
    var out: seq<byte> := [];
    var off := start;
    while true
      invariant Read(msg, off, depth, out) == Read(msg, start, depth, [])
      decreases |msg| - off
    {
      if off >= |msg| {
        return BadName;
      }
      var l := msg[off] as int;
      if l == 0 {
        return Name(out, off + 1);
      }
      if l >= 192 {
        if off + 1 >= |msg| {
          return BadName;
        }
        var suffix := ReadName(msg, PointerAt(msg, off), depth + 1);
        if suffix.BadName? {
          return BadName;
        }
        return Name(JoinTo(out, suffix.text), off + 2);
      }
      off := off + 1;
      if l > 63 || off + l > |msg| {
        return BadName;
      }
      ghost var before := out;
      if |out| > 0 {
        out := out + [46];
      }
      out := out + msg[off..off + l];
      off := off + l;
      assert out == JoinTo(before, msg[off - l..off]);
    }
  }

  // ---------- Decoding is exactly right ----------

  lemma JoinAssoc(out: seq<byte>, a: seq<byte>, b: seq<byte>)
    requires a != []
    ensures JoinTo(JoinTo(out, a), b) == JoinTo(out, JoinTo(a, b))
  {
  }

  lemma DottedJoin(labels: seq<Label>)
    requires labels != [] && forall i | 0 <= i < |labels| :: labels[i] != []
    ensures Dotted(labels) == JoinTo(labels[0], Dotted(labels[1..]))
  {
    if |labels| > 1 {
      assert labels[1..][0] == labels[1];
    }
  }

  lemma {:induction false} LabelsNonEmpty(msg: seq<byte>, off: nat, labels: seq<Label>, hops: nat)
    requires Spells(msg, off, labels, hops)
    ensures forall i | 0 <= i < |labels| :: labels[i] != []
    decreases hops, |labels|
  {
    if msg[off] >= 192 {
      LabelsNonEmpty(msg, PointerAt(msg, off), labels, hops - 1);
    } else if msg[off] != 0 {
      LabelsNonEmpty(msg, off + 1 + msg[off] as int, labels[1..], hops);
      assert labels == [labels[0]] + labels[1..];
    }
  }

  /** A name that spells `labels` with few enough pointers decodes to their dotted form. */
  lemma {:induction false} ReadSpelled(msg: seq<byte>, off: nat, labels: seq<Label>, hops: nat, depth: nat,
                                       out: seq<byte>)
    requires Spells(msg, off, labels, hops) && depth + hops <= MAX_HOPS
    ensures Read(msg, off, depth, out) == Name(JoinTo(out, Dotted(labels)), NextAfter(msg, off))
    decreases hops, |labels|
  {
    if msg[off] >= 192 {
      ReadSpelled(msg, PointerAt(msg, off), labels, hops - 1, depth + 1, []);
      assert JoinTo([], Dotted(labels)) == Dotted(labels);
    } else if msg[off] != 0 {
      LabelsNonEmpty(msg, off, labels, hops);
      DottedJoin(labels);
      JoinAssoc(out, labels[0], Dotted(labels[1..]));
      ReadSpelled(msg, off + 1 + msg[off] as int, labels[1..], hops, depth, JoinTo(out, labels[0]));
    }
  }

  /** And nothing else decodes: a decoded name is spelled out with at most that many pointers. */
  lemma {:induction false} ReadIsSpelled(msg: seq<byte>, off: nat, depth: nat, out: seq<byte>)
    returns (labels: seq<Label>, hops: nat)
    requires depth <= MAX_HOPS && Read(msg, off, depth, out).Name?
    ensures Spells(msg, off, labels, hops) && depth + hops <= MAX_HOPS
    decreases MAX_HOPS + 1 - depth, |msg| - off
  {
    if msg[off] == 0 {
      labels, hops := [], 0;
    } else if msg[off] >= 192 {
      labels, hops := ReadIsSpelled(msg, PointerAt(msg, off), depth + 1, []);
      hops := hops + 1;
    } else {
      var l := msg[off] as int;
      var head := msg[off + 1..off + 1 + l];
      var rest;
      rest, hops := ReadIsSpelled(msg, off + 1 + l, depth, JoinTo(out, head));
      labels := [head] + rest;
      assert labels[1..] == rest;
    }
  }

  /** Some spelling with few enough pointers starts at `off`. */
  ghost predicate Decodable(msg: seq<byte>, off: nat) {
    exists labels, hops: nat :: hops <= 16 && Spells(msg, off, labels, hops)
  }

  /** A name spelled with at most 16 pointer hops decodes to its dotted form, */
  lemma SpelledDecodes(msg: seq<byte>, off: nat, labels: seq<Label>, hops: nat)
    requires Spells(msg, off, labels, hops) && hops <= 16
    ensures Read(msg, off, 0, []) == Name(Dotted(labels), NextAfter(msg, off))
  {
    ReadSpelled(msg, off, labels, hops, 0, []);
    assert JoinTo([], Dotted(labels)) == Dotted(labels);
  }

  /** and every other message is an error. */
  lemma DecodesExactlyWhatIsSpelled(msg: seq<byte>, off: nat)
    ensures Read(msg, off, 0, []).Name? <==> Decodable(msg, off)
  {
    if Read(msg, off, 0, []).Name? {
      var labels, hops := ReadIsSpelled(msg, off, 0, []);
      assert Decodable(msg, off);
    }
    if Decodable(msg, off) {
      var labels, hops: nat :| hops <= MAX_HOPS && Spells(msg, off, labels, hops);
      SpelledDecodes(msg, off, labels, hops);
    }
  }

  // ---------- Compression does not matter ----------

  function Plain(labels: seq<Label>): (b: seq<byte>)
    requires forall i | 0 <= i < |labels| :: 0 < |labels[i]| < 64
  {
    if labels == [] then [0] else [|labels[0]|] + labels[0] + Plain(labels[1..])
  }

  lemma {:induction false} PlainSpells(pre: seq<byte>, labels: seq<Label>, post: seq<byte>)
    requires forall i | 0 <= i < |labels| :: 0 < |labels[i]| < 64
    ensures Spells(pre + Plain(labels) + post, |pre|, labels, 0)
    ensures NextAfter(pre + Plain(labels) + post, |pre|) == |pre| + |Plain(labels)|
    decreases |labels|
  {
    var msg := pre + Plain(labels) + post;
    if labels != [] {
      var part := [|labels[0]| as byte] + labels[0];
      assert msg == (pre + part) + Plain(labels[1..]) + post;
      assert msg[|pre|] == |labels[0]|;
      assert msg[|pre| + 1..|pre| + 1 + |labels[0]|] == labels[0];
      PlainSpells(pre + part, labels[1..], post);
    } else {
      assert msg[|pre|] == 0;
    }
  }

  /** How a writer refers to an earlier place in the message: two set bits and a 14-bit offset. */
  function PointerTo(target: nat): (b: seq<byte>)
    requires target < 0x4000
    ensures |b| == 2
  {
    [192 + target / 256, target % 256]
  }

  /** Labels without the root that ends a name. */
  function LabelBytes(labels: seq<Label>): (b: seq<byte>)
    requires forall i | 0 <= i < |labels| :: 0 < |labels[i]| < 64
  {
    if labels == [] then [] else [|labels[0]|] + labels[0] + LabelBytes(labels[1..])
  }

  lemma PointerSpells(msg: seq<byte>, off: nat, target: nat, labels: seq<Label>, hops: nat)
    requires target < 0x4000 && off + 2 <= |msg| && msg[off..off + 2] == PointerTo(target)
    requires Spells(msg, target, labels, hops)
    ensures Spells(msg, off, labels, hops + 1) && NextAfter(msg, off) == off + 2
  {
    assert msg[off] == msg[off..off + 2][0] && msg[off + 1] == msg[off..off + 2][1];
    PointerReads(target);
  }

  lemma LabelSpells(msg: seq<byte>, off: nat, head: Label, labels: seq<Label>, hops: nat)
    requires 0 < |head| < 64 && off + 1 + |head| <= |msg| && msg[off] == |head|
    requires msg[off + 1..off + 1 + |head|] == head && Spells(msg, off + 1 + |head|, labels, hops)
    ensures Spells(msg, off, [head] + labels, hops)
    ensures NextAfter(msg, off) == NextAfter(msg, off + 1 + |head|)
  {
    assert ([head] + labels)[1..] == labels;
  }

  /** Some labels, then a pointer to where the others are spelled: the whole name is spelled, with one hop more,
      and reading goes on just past the pointer. */
  lemma {:induction false} CompressedSpells(pre: seq<byte>, front: seq<Label>, target: nat, post: seq<byte>,
                                            rest: seq<Label>, hops: nat)
    requires target < 0x4000 && forall i | 0 <= i < |front| :: 0 < |front[i]| < 64
    requires Spells(pre + (LabelBytes(front) + PointerTo(target)) + post, target, rest, hops)
    ensures var msg := pre + (LabelBytes(front) + PointerTo(target)) + post;
      && Spells(msg, |pre|, front + rest, hops + 1)
      && NextAfter(msg, |pre|) == |pre| + |LabelBytes(front)| + 2
    decreases |front|
  {
    hide Spells, NextAfter, PointerTo;
    var msg := pre + (LabelBytes(front) + PointerTo(target)) + post;
    if front == [] {
      assert msg[|pre|..|pre| + 2] == PointerTo(target) && front + rest == rest;
      PointerSpells(msg, |pre|, target, rest, hops);
    } else {
      var part := [|front[0]| as byte] + front[0];
      assert msg == (pre + part) + (LabelBytes(front[1..]) + PointerTo(target)) + post;
      assert msg[|pre|] == |front[0]|;
      assert msg[|pre| + 1..|pre| + 1 + |front[0]|] == front[0];
      CompressedSpells(pre + part, front[1..], target, post, rest, hops);
      LabelSpells(msg, |pre|, front[0], front[1..] + rest, hops + 1);
      assert [front[0]] + (front[1..] + rest) == front + rest;
    }
  }

  lemma PointerReads(target: nat)
    requires target < 0x4000
    ensures (192 + target / 256) % 64 * 256 + target % 256 == target
  {
  }

  /** So the decoder reads what such a writer meant. */
  lemma CompressedDecodes(pre: seq<byte>, front: seq<Label>, target: nat, post: seq<byte>, rest: seq<Label>, hops: nat)
    requires target < 0x4000 && forall i | 0 <= i < |front| :: 0 < |front[i]| < 64
    requires Spells(pre + (LabelBytes(front) + PointerTo(target)) + post, target, rest, hops) && hops < 16
    ensures var msg := pre + (LabelBytes(front) + PointerTo(target)) + post;
      Read(msg, |pre|, 0, []) == Name(Dotted(front + rest), |pre| + |LabelBytes(front)| + 2)
  {
    CompressedSpells(pre, front, target, post, rest, hops);
    SpelledDecodes(pre + (LabelBytes(front) + PointerTo(target)) + post, |pre|, front + rest, hops + 1);
  }

  // ---------- What the dotted form means ----------

  /** The parts of a text between its dots. */
  function Split(s: seq<byte>): (parts: seq<Label>)
    ensures |parts| > 0
  {
    if s == [] then [[]]
    else if s[0] == 46 then [[]] + Split(s[1..])
    else var r := Split(s[1..]); [[s[0]] + r[0]] + r[1..]
  }

  lemma {:induction false} SplitOne(l: Label, rest: seq<byte>)
    requires 46 !in l
    ensures Split(l) == [l] && Split(l + [46] + rest) == [l] + Split(rest)
  {
    if l != [] {
      SplitOne(l[1..], rest);
      assert (l + [46] + rest)[1..] == l[1..] + [46] + rest;
      assert l == [l[0]] + l[1..];
    } else {
      assert (l + [46] + rest)[1..] == rest;
    }
  }

  /** Splitting the dotted form at its dots gives the labels back. */
  lemma {:induction false} DottedSplits(labels: seq<Label>)
    requires labels != [] && forall i | 0 <= i < |labels| :: 46 !in labels[i]
    ensures Split(Dotted(labels)) == labels
  {
    if |labels| == 1 {
      SplitOne(labels[0], []);
    } else {
      DottedSplits(labels[1..]);
      SplitOne(labels[0], Dotted(labels[1..]));
    }
  }

  /** A compressed name decodes to the same text as the same labels written out. */
  lemma CompressionIsTransparent(msg: seq<byte>, off: nat, labels: seq<Label>, hops: nat)
    requires Spells(msg, off, labels, hops) && hops <= 16
    requires forall i | 0 <= i < |labels| :: 0 < |labels[i]| < 64
    ensures Read(msg, off, 0, []).Name? && Read(Plain(labels), 0, 0, []).Name?
    ensures Read(msg, off, 0, []).text == Read(Plain(labels), 0, 0, []).text
  {
    PlainSpells([], labels, []);
    assert [] + Plain(labels) + [] == Plain(labels);
    SpelledDecodes(msg, off, labels, hops);
    SpelledDecodes(Plain(labels), 0, labels, 0);
  }
}
