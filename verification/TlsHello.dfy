/** Extracting the server name from the first bytes of a TLS stream. */
module TlsHello {
  import opened Bytes

  const HANDSHAKE := 22
  const MAX_RECORD := 0x8000
  const MAX_HANDSHAKE := 0x10_0000

  /** `NeedMore` until enough bytes are there; then one of three final verdicts. */
  datatype Verdict = NeedMore | NotHello | Malformed | Name(name: seq<byte>)

  function Len24(hs: seq<byte>): (n: nat)
    requires |hs| >= 4
  {
    hs[1] as int * 0x1_0000 + hs[2] as int * 0x100 + hs[3] as int
  }

  // ---------- The ClientHello ----------

  function LowerByte(c: byte): (d: byte) { if 65 <= c <= 90 then c + 32 else c }

  function Lower(s: seq<byte>): (t: seq<byte>) { seq(|s|, i requires 0 <= i < |s| => LowerByte(s[i])) }

  /** A host name without one trailing dot, in lower case. */
  function Canonical(s: seq<byte>): (t: seq<byte>) {
    Lower(if |s| > 0 && s[|s| - 1] == 46 then s[..|s| - 1] else s)
  }

  /** The entries of a server_name list from `p` up to `end`: the first non-empty host name. */
  function HostName(x: seq<byte>, p: nat, end: nat): (v: Verdict)
    requires end <= |x|
    ensures v != NeedMore
    decreases |x| - p
  {
    if p + 3 > end then Name([])
    else
      var n := Get16(x, p + 1);
      if p + 3 + n > end then Malformed
      else if x[p] == 0 && n > 0 then Name(Canonical(x[p + 3..p + 3 + n]))
      else HostName(x, p + 3 + n, end)
  }

  function ServerNameExt(x: seq<byte>): (v: Verdict)
    ensures v != NeedMore
  {
    if |x| < 2 || 2 + Get16(x, 0) > |x| then Malformed else HostName(x, 2, 2 + Get16(x, 0))
  }

  /** The extensions from `off` up to `end`: the first server_name extension decides. */
  function Extensions(b: seq<byte>, off: nat, end: nat): (v: Verdict)
    requires end <= |b|
    ensures v != NeedMore
    decreases |b| - off
  {
    if off + 4 > end then Name([])
    else
      var ln := Get16(b, off + 2);
      if off + 4 + ln > end then Malformed
      else if Get16(b, off) == 0 then ServerNameExt(b[off + 4..off + 4 + ln])
      else Extensions(b, off + 4 + ln, end)
  }

  /** The body of a ClientHello: version and random, session id, cipher suites, compression
      methods, extensions. */
  function Body(b: seq<byte>): (v: Verdict)
    ensures v != NeedMore
  {
    if |b| < 35 then Malformed
    else
      var afterSid := 35 + b[34] as int;
      if afterSid + 2 > |b| then Malformed
      else
        var cs := Get16(b, afterSid);
        var afterCs := afterSid + 2 + cs;
        if cs == 0 || cs % 2 != 0 || afterCs + 1 > |b| then Malformed
        else
          var afterComp := afterCs + 1 + b[afterCs] as int;
          if afterComp > |b| then Malformed
          else if afterComp == |b| then Name([])
          else if afterComp + 2 > |b| then Malformed
          else
            var end := afterComp + 2 + Get16(b, afterComp) as int;
            if end > |b| then Malformed else Extensions(b, afterComp + 2, end)
  }

  function ClientHello(hs: seq<byte>): (v: Verdict)
    requires |hs| >= 4 && |hs| == 4 + Len24(hs)
    ensures v != NeedMore
  {
    if hs[0] != 1 then NotHello else Body(hs[4..])
  }

  // ---------- The record layer ----------

  /** The verdict on what has been gathered of the handshake message so far. */
  function Weigh(got: seq<byte>): (v: Verdict) {
    if |got| >= 4 && Len24(got) > MAX_HANDSHAKE then Malformed
    else if |got| >= 4 && |got| >= 4 + Len24(got) then ClientHello(got[..4 + Len24(got)])
    else NeedMore
  }

  /** Gathers handshake records from `off` on until the gathered message is complete. */
  function Scan(data: seq<byte>, off: nat, hs: seq<byte>): (v: Verdict)
    requires off <= |data|
    decreases |data| - off
  {
    if |data| - off < 5 then NeedMore
    else
      var ln := Get16(data, off + 3) as int;
      if ln > MAX_RECORD then Malformed
      else if |data| - off < 5 + ln then NeedMore
      else
        var got := if data[off] == HANDSHAKE then hs + data[off + 5..off + 5 + ln] else hs;
        if Weigh(got) != NeedMore then Weigh(got)
        else if off + 5 + ln >= |data| then NeedMore
        else Scan(data, off + 5 + ln, got)
  }

  function ServerName(data: seq<byte>): (v: Verdict) {
    if |data| < 5 then NeedMore else if data[0] != HANDSHAKE then NotHello else Scan(data, 0, [])
  }

  /** A final verdict on a prefix is the verdict on every extension of it. */
  lemma {:induction false} ScanIsStable(d: seq<byte>, e: seq<byte>, off: nat, hs: seq<byte>)
    requires d <= e && off <= |d| && Scan(d, off, hs) != NeedMore
    ensures Scan(e, off, hs) == Scan(d, off, hs)
    decreases |d| - off
  {
    hide Weigh;
    var ln := Get16(d, off + 3) as int;
    assert Get16(e, off + 3) == ln && e[off] == d[off];
    if ln <= MAX_RECORD {
      assert e[off + 5..off + 5 + ln] == d[off + 5..off + 5 + ln];
      var got := if d[off] == HANDSHAKE then hs + d[off + 5..off + 5 + ln] else hs;
      if Weigh(got) == NeedMore {
        ScanIsStable(d, e, off + 5 + ln, got);
      }
    }
  }

  lemma VerdictIsStable(d: seq<byte>, e: seq<byte>)
    requires d <= e && ServerName(d) != NeedMore
    ensures ServerName(e) == ServerName(d)
  {
    if d[0] == HANDSHAKE {
      ScanIsStable(d, e, 0, []);
    }
  }

  // ---------- The loops ----------

  method FindHostName(x: seq<byte>) returns (v: Verdict)
    ensures v == ServerNameExt(x)
  {
    hide Canonical;
    if |x| < 2 || 2 + Get16(x, 0) > |x| {
      return Malformed;
    }
    var end := 2 + Get16(x, 0);
    var p := 2;
    while p + 3 <= end
      invariant 2 <= p <= end && HostName(x, p, end) == HostName(x, 2, end)
    {
      var nameType, n := x[p], Get16(x, p + 1);
      if p + 3 + n > end {
        return Malformed;
      }
      if nameType == 0 && n > 0 {
        return Name(Canonical(x[p + 3..p + 3 + n]));
      }
      p := p + 3 + n;
    }
    v := Name([]);
  }

  method FindExtension(b: seq<byte>, from: nat, end: nat) returns (v: Verdict)
    requires from <= end <= |b|
    ensures v == Extensions(b, from, end)
  {
    var off := from;
    while off + 4 <= end
      invariant from <= off <= end && Extensions(b, off, end) == Extensions(b, from, end)
    {
      var typ, ln := Get16(b, off), Get16(b, off + 2);
      if off + 4 + ln > end {
        return Malformed;
      }
      if typ == 0 {
        v := FindHostName(b[off + 4..off + 4 + ln]);
        return;
      }
      off := off + 4 + ln;
    }
    v := Name([]);
  }

  method ParseClientHello(hs: seq<byte>) returns (v: Verdict)
    requires |hs| >= 4 && |hs| == 4 + Len24(hs)
    ensures v == ClientHello(hs)
  {
    hide Extensions;
    if hs[0] != 1 {
      return NotHello;
    }
    var b := hs[4..];
    if |b| < 35 {
      return Malformed;
    }
    var off := 35 + b[34] as int;
    if off + 2 > |b| {
      return Malformed;
    }
    var csLen := Get16(b, off);
    off := off + 2;
    if csLen == 0 || csLen % 2 != 0 || off + csLen + 1 > |b| {
      return Malformed;
    }
    off := off + csLen;
    off := off + 1 + b[off] as int;
    if off > |b| {
      return Malformed;
    }
    if off == |b| {
      return Name([]);
    }
    if off + 2 > |b| || off + 2 + Get16(b, off) > |b| {
      return Malformed;
    }
    v := FindExtension(b, off + 2, off + 2 + Get16(b, off));
  }

  method ParseServerName(data: seq<byte>) returns (v: Verdict)
    ensures v == ServerName(data)
  {
    hide ClientHello;
    if |data| < 5 {
      return NeedMore;
    }
    if data[0] != HANDSHAKE {
      return NotHello;
    }
    var hs: seq<byte> := [];
    var off := 0;
    while true
      invariant off <= |data| && Scan(data, off, hs) == Scan(data, 0, [])
      decreases |data| - off
    {
      if |data| - off < 5 {
        return NeedMore;
      }
      var ln := Get16(data, off + 3) as int;
      if ln > MAX_RECORD {
        return Malformed;
      }
      if |data| - off < 5 + ln {
        return NeedMore;
      }
      if data[off] == HANDSHAKE {
        hs := hs + data[off + 5..off + 5 + ln];
      }
      off := off + 5 + ln;
      if |hs| >= 4 {
        if Len24(hs) > MAX_HANDSHAKE {
          return Malformed;
        }
        if |hs| >= 4 + Len24(hs) {
          v := ParseClientHello(hs[..4 + Len24(hs)]);
          return;
        }
      }
      if off >= |data| {
        return NeedMore;
      }
    }
  }

  // ---------- What a client sends ----------

  /** The canonical form: one trailing dot dropped, capital letters made small, all else as it is. */
  lemma CanonicalMeans(s: seq<byte>, i: nat)
    ensures |Canonical(s)| == if s != [] && s[|s| - 1] == 46 then |s| - 1 else |s|
    ensures i < |Canonical(s)| ==> Canonical(s)[i] == if 65 <= s[i] <= 90 then s[i] + 32 else s[i]
  {
  }

  function U16(v: uint16): (b: seq<byte>) { [v / 256, v % 256] }

  lemma ReadU16(pre: seq<byte>, v: uint16, post: seq<byte>)
    ensures Get16(pre + U16(v) + post, |pre|) == v
  {
  }

  /** An entry of a server_name list. */
  datatype Entry = Entry(kind: byte, name: seq<byte>)

  function EntryBytes(e: Entry): (b: seq<byte>)
    requires |e.name| < 0x1_0000
    ensures |b| == 3 + |e.name|
  {
    [e.kind] + U16(|e.name|) + e.name
  }

  function EntriesBytes(es: seq<Entry>): (b: seq<byte>)
    requires forall i | 0 <= i < |es| :: |es[i].name| < 0x1_0000
  {
    if es == [] then [] else EntryBytes(es[0]) + EntriesBytes(es[1..])
  }

  lemma EntryReads(pre: seq<byte>, e: Entry, post: seq<byte>)
    requires |e.name| < 0x1_0000
    ensures var x := pre + EntryBytes(e) + post; var p := |pre|;
      x[p] == e.kind && Get16(x, p + 1) == |e.name| && x[p + 3..p + 3 + |e.name|] == e.name
  {
    var x := pre + EntryBytes(e) + post;
    assert forall i | 0 <= i < 3 + |e.name| :: x[|pre| + i] == EntryBytes(e)[i];
  }

  lemma OneEntry(x: seq<byte>, p: nat, end: nat)
    requires p + 3 <= end <= |x| && p + 3 + Get16(x, p + 1) <= end
    ensures HostName(x, p, end)
         == if x[p] == 0 && Get16(x, p + 1) > 0 then Name(Canonical(x[p + 3..p + 3 + Get16(x, p + 1)]))
            else HostName(x, p + 3 + Get16(x, p + 1), end)
  {
    hide Canonical, Get16;
  }

  /** Entries of other kinds, and empty ones, in front of the host name are skipped. */
  lemma {:induction false} HostNameFound(pre: seq<byte>, es: seq<Entry>, host: seq<byte>, post: seq<byte>)
    requires forall i | 0 <= i < |es| :: |es[i].name| < 0x1_0000 && (es[i].kind != 0 || es[i].name == [])
    requires 0 < |host| < 0x1_0000
    ensures var x := pre + (EntriesBytes(es) + EntryBytes(Entry(0, host))) + post;
      HostName(x, |pre|, |x| - |post|) == Name(Canonical(host))
    decreases |es|
  {
    hide Canonical, Get16, EntryBytes, HostName;
    var last := EntryBytes(Entry(0, host));
    var x := pre + (EntriesBytes(es) + last) + post;
    if es == [] {
      assert x == pre + last + post;
      EntryReads(pre, Entry(0, host), post);
      OneEntry(x, |pre|, |x| - |post|);
    } else {
      var head, tail := EntryBytes(es[0]), EntriesBytes(es[1..]);
      assert x == pre + head + (tail + last + post);
      EntryReads(pre, es[0], tail + last + post);
      OneEntry(x, |pre|, |x| - |post|);
      assert es[0].kind != 0 || es[0].name == [];
      HostNameFound(pre + head, es[1..], host, post);
      assert x == (pre + head) + (tail + last) + post;
    }
  }

  /** A server_name list: entries to skip, then the host name. */
  function NameList(es: seq<Entry>, host: seq<byte>): (b: seq<byte>)
    requires forall i | 0 <= i < |es| :: |es[i].name| < 0x1_0000
    requires |host| < 0x1_0000 && |EntriesBytes(es) + EntryBytes(Entry(0, host))| < 0x1_0000
    ensures |b| == 2 + |EntriesBytes(es) + EntryBytes(Entry(0, host))|
  {
    U16(|EntriesBytes(es) + EntryBytes(Entry(0, host))|) + (EntriesBytes(es) + EntryBytes(Entry(0, host)))
  }

  lemma NameListReads(es: seq<Entry>, host: seq<byte>)
    requires forall i | 0 <= i < |es| :: |es[i].name| < 0x1_0000 && (es[i].kind != 0 || es[i].name == [])
    requires 0 < |host| < 0x1_0000 && |EntriesBytes(es) + EntryBytes(Entry(0, host))| < 0x1_0000
    ensures ServerNameExt(NameList(es, host)) == Name(Canonical(host))
  {
    hide Canonical, HostName, EntriesBytes, EntryBytes;
    var list := EntriesBytes(es) + EntryBytes(Entry(0, host));
    var x := NameList(es, host);
    assert Get16(x, 0) == |list|;
    assert x == U16(|list|) + list + [];
    HostNameFound(U16(|list|), es, host, []);
  }

  datatype Ext = Ext(kind: uint16, data: seq<byte>)

  function ExtBytes(x: Ext): (b: seq<byte>)
    requires |x.data| < 0x1_0000
  {
    U16(x.kind) + U16(|x.data|) + x.data
  }

  function ExtsBytes(xs: seq<Ext>): (b: seq<byte>)
    requires forall i | 0 <= i < |xs| :: |xs[i].data| < 0x1_0000
  {
    if xs == [] then [] else ExtBytes(xs[0]) + ExtsBytes(xs[1..])
  }

  /** Reading one extension in the middle of a buffer. */
  lemma ExtReads(pre: seq<byte>, x: Ext, post: seq<byte>)
    requires |x.data| < 0x1_0000
    ensures var b := pre + ExtBytes(x) + post; var off := |pre|;
      Get16(b, off) == x.kind && Get16(b, off + 2) == |x.data| && b[off + 4..off + 4 + |x.data|] == x.data
  {
    var b := pre + ExtBytes(x) + post;
    assert forall i | 0 <= i < 4 + |x.data| :: b[|pre| + i] == ExtBytes(x)[i];
  }

  /** Extensions of other kinds are skipped, */
  lemma {:induction false} ExtensionsSkip(pre: seq<byte>, xs: seq<Ext>, post: seq<byte>, end: nat)
    requires forall i | 0 <= i < |xs| :: |xs[i].data| < 0x1_0000 && xs[i].kind != 0
    requires |pre| + |ExtsBytes(xs)| <= end <= |pre| + |ExtsBytes(xs)| + |post|
    ensures var b := pre + ExtsBytes(xs) + post;
      Extensions(b, |pre|, end) == Extensions(b, |pre| + |ExtsBytes(xs)|, end)
    decreases |xs|
  {
    hide ServerNameExt, Get16;
    var b := pre + ExtsBytes(xs) + post;
    if xs != [] {
      var head, tail := ExtBytes(xs[0]), ExtsBytes(xs[1..]);
      assert b == pre + head + (tail + post);
      ExtReads(pre, xs[0], tail + post);
      ExtensionsSkip(pre + head, xs[1..], post, end);
      assert b == (pre + head) + tail + post;
    }
  }

  /** and the server name after them decides. */
  lemma ExtensionsFind(pre: seq<byte>, xs: seq<Ext>, names: seq<byte>, post: seq<byte>, end: nat)
    requires forall i | 0 <= i < |xs| :: |xs[i].data| < 0x1_0000 && xs[i].kind != 0
    requires |names| < 0x1_0000
    requires var n := |pre| + |ExtsBytes(xs)| + |ExtBytes(Ext(0, names))|; n <= end <= n + |post|
    ensures Extensions(pre + (ExtsBytes(xs) + (ExtBytes(Ext(0, names)) + post)), |pre|, end) == ServerNameExt(names)
  {
    hide ServerNameExt, Get16, ExtsBytes;
    var sni, front := ExtBytes(Ext(0, names)), ExtsBytes(xs);
    var b := pre + (front + (sni + post));
    assert b == pre + front + (sni + post) && b == (pre + front) + sni + post;
    ExtensionsSkip(pre, xs, sni + post, end);
    ExtReads(pre + front, Ext(0, names), post);
  }

  /** A ClientHello that names a host, with any other names and extensions around it. */
  datatype Hello = Hello(head: seq<byte>, sid: seq<byte>, ciphers: seq<byte>, comps: seq<byte>,
                         before: seq<Ext>, names: seq<Entry>, host: seq<byte>, after: seq<Ext>)

  ghost predicate ProperFixed(h: Hello) {
    && |h.head| == 34 && |h.sid| < 256 && |h.comps| < 256
    && 0 < |h.ciphers| < 0x1_0000 && |h.ciphers| % 2 == 0
    && (forall i | 0 <= i < |h.before| :: |h.before[i].data| < 0x1_0000 && h.before[i].kind != 0)
  }

  ghost predicate Proper(h: Hello) {
    && ProperFixed(h)
    && (forall i | 0 <= i < |h.names| ::
          |h.names[i].name| < 0x1_0000 && (h.names[i].kind != 0 || h.names[i].name == []))
    && 0 < |h.host| < 0x1_0000 && |EntriesBytes(h.names) + EntryBytes(Entry(0, h.host))| < 0xfffe
    && (forall i | 0 <= i < |h.after| :: |h.after[i].data| < 0x1_0000)
    && |ExtsPart(h)| < 0x1_0000
  }

  ghost function ExtsPart(h: Hello): (b: seq<byte>)
    requires forall i | 0 <= i < |h.names| :: |h.names[i].name| < 0x1_0000
    requires |h.host| < 0x1_0000 && |EntriesBytes(h.names) + EntryBytes(Entry(0, h.host))| < 0xfffe
    requires forall i | 0 <= i < |h.before| :: |h.before[i].data| < 0x1_0000
    requires forall i | 0 <= i < |h.after| :: |h.after[i].data| < 0x1_0000
  {
    ExtsBytes(h.before) + (ExtBytes(Ext(0, NameList(h.names, h.host))) + ExtsBytes(h.after))
  }

  ghost function Fixed(h: Hello): (b: seq<byte>)
    requires |h.head| == 34 && |h.sid| < 256 && |h.ciphers| < 0x1_0000 && |h.comps| < 256
    ensures |b| == 38 + |h.sid| + |h.ciphers| + |h.comps|
  {
    h.head + [|h.sid|] + h.sid + U16(|h.ciphers|) + h.ciphers + [|h.comps|] + h.comps
  }

  ghost function BodyBytes(h: Hello): (b: seq<byte>)
    requires Proper(h)
    ensures |b| < MAX_HANDSHAKE
  {
    Fixed(h) + U16(|ExtsPart(h)|) + ExtsPart(h)
  }

  lemma FixedReads(h: Hello, rest: seq<byte>)
    requires |h.head| == 34 && |h.sid| < 256 && |h.ciphers| < 0x1_0000 && |h.comps| < 256
    ensures var b := Fixed(h) + rest; var c := 35 + |h.sid|;
      b[34] == |h.sid| && Get16(b, c) == |h.ciphers| && b[c + 2 + |h.ciphers|] == |h.comps|
  {
    var b := Fixed(h) + rest;
    var p1 := h.head + [|h.sid|] + h.sid;
    var p2 := p1 + U16(|h.ciphers|) + h.ciphers;
    assert b == p1 + U16(|h.ciphers|) + (h.ciphers + [|h.comps|] + h.comps + rest);
    ReadU16(p1, |h.ciphers|, h.ciphers + [|h.comps|] + h.comps + rest);
    assert b == p2 + ([|h.comps|] + h.comps + rest);
    assert b[34] == |h.sid|;
  }

  /** The fixed part and anything after it: nothing more names no host; a block that claims more than there is, is
      malformed; otherwise the extensions in the block decide. */
  lemma BodyOf(h: Hello, rest: seq<byte>)
    requires |h.head| == 34 && |h.sid| < 256 && |h.comps| < 256
    requires 0 < |h.ciphers| < 0x1_0000 && |h.ciphers| % 2 == 0
    ensures var b, n := Fixed(h) + rest, |Fixed(h)|;
      Body(b) == if rest == [] then Name([])
                 else if |rest| < 2 || 2 + Get16(rest, 0) > |rest| then Malformed
                 else Extensions(b, n + 2, n + 2 + Get16(rest, 0))
  {
    hide Extensions, Fixed;
    FixedReads(h, rest);
  }

  /** Every body that is not malformed has that shape: 34 bytes, a session id, a non-empty even number of cipher
      suite bytes and compression methods, each with its length in front. */
  lemma BodyHasShape(b: seq<byte>) returns (h: Hello, rest: seq<byte>)
    requires Body(b) != Malformed
    ensures |h.head| == 34 && |h.sid| < 256 && |h.comps| < 256
    ensures 0 < |h.ciphers| < 0x1_0000 && |h.ciphers| % 2 == 0 && b == Fixed(h) + rest
  {
    hide Extensions;
    var s := 35 + b[34] as int;
    var c := s + 2 + Get16(b, s) as int;
    var e := c + 1 + b[c] as int;
    h := Hello(b[..34], b[35..s], b[s + 2..c], b[c + 1..e], [], [], [], []);
    rest := b[e..];
    assert U16(Get16(b, s)) == [b[s], b[s + 1]];
    hide Get16, Body, U16;
    assert b[..34] + [b[34]] + b[35..s] + [b[s], b[s + 1]] + b[s + 2..c] + [b[c]] + b[c + 1..e] + b[e..] == b;
  }

  /** Past extensions of other kinds, one that claims more than there is makes the hello malformed, and fewer than
      four bytes are ignored. */
  lemma ExtensionsBreak(pre: seq<byte>, xs: seq<Ext>, post: seq<byte>)
    requires forall i | 0 <= i < |xs| :: |xs[i].data| < 0x1_0000 && xs[i].kind != 0
    ensures var b := pre + ExtsBytes(xs) + post;
      && (|post| < 4 ==> Extensions(b, |pre|, |b|) == Name([]))
      && (|post| >= 4 && 4 + Get16(post, 2) > |post| ==> Extensions(b, |pre|, |b|) == Malformed)
  {
    hide ExtsBytes;
    var b, n := pre + ExtsBytes(xs) + post, |pre| + |ExtsBytes(xs)|;
    ExtensionsSkip(pre, xs, post, |b|);
    assert |post| >= 4 ==> Get16(b, n + 2) == Get16(post, 2);
  }

  /** A name list that claims more than there is, or holds an entry that does, is malformed; one without a host
      name names none. */
  lemma NamesBreak(x: seq<byte>, p: nat, end: nat)
    requires end <= |x|
    ensures |x| < 2 || 2 + Get16(x, 0) > |x| ==> ServerNameExt(x) == Malformed
    ensures p + 3 > end ==> HostName(x, p, end) == Name([])
    ensures p + 3 <= end && p + 3 + Get16(x, p + 1) > end ==> HostName(x, p, end) == Malformed
  {
  }

  /** A first record longer than 32 KiB, and a handshake message longer than 1 MiB, are malformed at once. */
  lemma TooLongIsMalformed(data: seq<byte>)
    requires |data| >= 5 && data[0] == 22
    ensures Get16(data, 3) > 0x8000 ==> ServerName(data) == Malformed
    ensures 4 <= Get16(data, 3) <= 0x8000 && |data| >= 5 + Get16(data, 3) ==>
      (data[6] as int * 0x1_0000 + data[7] as int * 0x100 + data[8] as int > 0x10_0000 ==> ServerName(data) == Malformed)
  {
    hide ClientHello;
  }

  /** Whatever the extension block holds, the body's verdict is the verdict on it. */
  lemma BodyReads(h: Hello, xs: seq<byte>)
    requires ProperFixed(h) && |xs| < 0x1_0000
    ensures var pre := Fixed(h) + U16(|xs|); Body(pre + xs) == Extensions(pre + xs, |pre|, |pre| + |xs|)
  {
    hide Extensions, Get16, Fixed;
    var f := Fixed(h);
    assert f + U16(|xs|) + xs == f + (U16(|xs|) + xs);
    FixedReads(h, U16(|xs|) + xs);
    ReadU16(f, |xs|, xs);
  }

  /** The parser finds the host name of every proper ClientHello body. */
  lemma BodyFindsHost(h: Hello)
    requires Proper(h)
    ensures Body(BodyBytes(h)) == Name(Canonical(h.host))
  {
    hide Extensions, Canonical, Get16, Fixed, ServerNameExt, ExtsBytes, ExtBytes, NameList, Body;
    hide EntriesBytes, EntryBytes;
    var xs, pre := ExtsPart(h), Fixed(h) + U16(|ExtsPart(h)|);
    BodyReads(h, xs);
    ExtensionsFind(pre, h.before, NameList(h.names, h.host), ExtsBytes(h.after), |pre| + |xs|);
    NameListReads(h.names, h.host);
  }

  /** A ClientHello without a server_name extension, or without any extensions, is one that names no host. */
  lemma NamelessBody(h: Hello)
    requires ProperFixed(h) && |ExtsBytes(h.before)| < 0x1_0000
    ensures Body(Fixed(h) + U16(|ExtsBytes(h.before)|) + ExtsBytes(h.before)) == Name([])
    ensures Body(Fixed(h)) == Name([])
  {
    hide Get16, Fixed, ExtsBytes, ServerNameExt;
    var xs, pre := ExtsBytes(h.before), Fixed(h) + U16(|ExtsBytes(h.before)|);
    BodyReads(h, xs);
    assert pre + xs + [] == pre + xs;
    ExtensionsSkip(pre, h.before, [], |pre| + |xs|);
    FixedReads(h, []);
    assert Fixed(h) + [] == Fixed(h);
  }

  /** A handshake message: type, 24-bit length, body. */
  ghost function Wrapped(kind: byte, b: seq<byte>): (hs: seq<byte>)
    requires |b| <= MAX_HANDSHAKE
    ensures |hs| >= 4 && |hs| == 4 + Len24(hs) && Len24(hs) <= MAX_HANDSHAKE && hs[0] == kind && hs[4..] == b
  {
    Octets24(|b|);
    var hs := [kind, |b| / 0x1_0000, |b| / 0x100 % 0x100, |b| % 0x100] + b;
    assert hs[1] == |b| / 0x1_0000 && hs[2] == |b| / 0x100 % 0x100 && hs[3] == |b| % 0x100;
    assert hs[4..] == b;
    hs
  }

  ghost function Message(h: Hello): (hs: seq<byte>)
    requires Proper(h)
  {
    Wrapped(1, BodyBytes(h))
  }

  lemma Octets24(n: nat)
    requires n < 0x100_0000
    ensures n / 0x1_0000 < 0x100 && n / 0x1_0000 * 0x1_0000 + n / 0x100 % 0x100 * 0x100 + n % 0x100 == n
  {
    assert n / 0x100 / 0x100 == n / 0x1_0000;
  }

  /** A TLS record. */
  datatype Rec = Rec(kind: byte, data: seq<byte>)

  function RecordBytes(c: Rec): (b: seq<byte>)
    requires |c.data| <= MAX_RECORD
    ensures |b| == 5 + |c.data|
  {
    [c.kind, 3, 1] + U16(|c.data|) + c.data
  }

  function RecordsBytes(cs: seq<Rec>): (b: seq<byte>)
    requires forall i | 0 <= i < |cs| :: |cs[i].data| <= MAX_RECORD
  {
    if cs == [] then [] else RecordBytes(cs[0]) + RecordsBytes(cs[1..])
  }

  /** What the handshake records among them carry. */
  function Joined(cs: seq<Rec>): (b: seq<byte>) {
    if cs == [] then [] else (if cs[0].kind == 22 then cs[0].data else []) + Joined(cs[1..])
  }

  lemma RecordReads(pre: seq<byte>, c: Rec, post: seq<byte>)
    requires |c.data| <= MAX_RECORD
    ensures var d := pre + RecordBytes(c) + post; var off := |pre|;
      d[off] == c.kind && Get16(d, off + 3) == |c.data| && d[off + 5..off + 5 + |c.data|] == c.data
  {
    var d := pre + RecordBytes(c) + post;
    assert forall i | 0 <= i < 5 + |c.data| :: d[|pre| + i] == RecordBytes(c)[i];
  }

  lemma WeighPrefix(got: seq<byte>, hs: seq<byte>)
    requires |hs| >= 4 && |hs| == 4 + Len24(hs) && Len24(hs) <= MAX_HANDSHAKE && got <= hs
    ensures Weigh(got) == if |got| == |hs| then ClientHello(hs) else NeedMore
  {
    hide ClientHello;
    assert |got| == |hs| ==> got[..|hs|] == hs;
  }

  /** However a complete handshake message is cut into records, with others in between, gathering them gives its
      verdict. */
  lemma {:induction false} ScanGathers(pre: seq<byte>, cs: seq<Rec>, post: seq<byte>, got: seq<byte>, hs: seq<byte>)
    requires forall i | 0 <= i < |cs| :: |cs[i].data| <= MAX_RECORD
    requires |hs| >= 4 && |hs| == 4 + Len24(hs) && Len24(hs) <= MAX_HANDSHAKE
    requires got + Joined(cs) == hs && |got| < |hs|
    ensures Scan(pre + (RecordsBytes(cs) + post), |pre|, got) == ClientHello(hs)
    decreases |cs|
  {
    hide Weigh, Len24, Get16, RecordBytes;
    assert cs != [];
    var rec, rest := RecordBytes(cs[0]), RecordsBytes(cs[1..]);
    var data := pre + (RecordsBytes(cs) + post);
    assert data == pre + rec + (rest + post);
    RecordReads(pre, cs[0], rest + post);
    var more := got + if cs[0].kind == 22 then cs[0].data else [];
    assert more + Joined(cs[1..]) == hs && (cs[0].kind != 22 ==> more == got);
    assert more <= hs;
    WeighPrefix(more, hs);
    if |more| == |hs| {
      assert more == hs && hs[..|hs|] == hs;
    } else {
      assert cs[1..] != [];
      ScanGathers(pre + rec, cs[1..], post, more, hs);
      assert data == (pre + rec) + (rest + post);
    }
  }

  /** A handshake message cut into records in any way, the first of them a handshake record, followed by
      anything: a ClientHello gets the verdict on its body, and any other message is none. */
  lemma ServerNameReads(kind: byte, body: seq<byte>, cs: seq<Rec>, post: seq<byte>)
    requires |body| <= 0x10_0000 && Joined(cs) == Wrapped(kind, body)
    requires cs != [] && cs[0].kind == 22 && forall i | 0 <= i < |cs| :: |cs[i].data| <= 0x8000
    ensures ServerName(RecordsBytes(cs) + post) == if kind == 1 then Body(body) else NotHello
  {
    hide Scan, Body;
    var hs := Wrapped(kind, body);
    assert RecordsBytes(cs) == RecordBytes(cs[0]) + RecordsBytes(cs[1..]);
    ScanGathers([], cs, post, [], hs);
    assert [] + (RecordsBytes(cs) + post) == RecordsBytes(cs) + post && [] + Joined(cs) == hs;
  }

  /** Every proper ClientHello, cut into records in any way and followed by anything, yields its host name. */
  lemma ServerNameFindsHost(h: Hello, cs: seq<Rec>, post: seq<byte>)
    requires Proper(h) && Joined(cs) == Message(h)
    requires cs != [] && cs[0].kind == 22 && forall i | 0 <= i < |cs| :: |cs[i].data| <= MAX_RECORD
    ensures ServerName(RecordsBytes(cs) + post) == Name(Canonical(h.host))
  {
    hide Proper, BodyBytes, ServerName, Body, Canonical;
    ServerNameReads(1, BodyBytes(h), cs, post);
    BodyFindsHost(h);
  }
}
