/** Following the client side of a TCP stream until its server name is known. */
module Discovery {
  import opened Bytes
  import Packet
  import opened TlsHello
  import Routing

  const SEQ := 0x1_0000_0000
  const LIMIT := 0x1_0000
  const LIFETIME := 30

  datatype Found = More | Host(name: seq<byte>) | NoHello

  function FoundBy(v: Verdict): (f: Found) {
    match v
    case NeedMore => More
    case Name(n) => Host(n)
    case NotHello => NoHello
    case Malformed => NoHello
  }

  /** One stream: the bytes gathered so far, the sequence number expected next, and the final result once there
      is one. */
  datatype Stream = Stream(buf: seq<byte>, nextSeq: uint32, setSeq: bool, expires: int, result: Option<Found>)

  function Opened(now: int): (s: Stream) { Stream([], 0, false, now + LIFETIME, None) }

  /** The part of a segment that is new, given the next expected sequence number; `None` when nothing is. */
  function Trimmed(next: uint32, seqNo: uint32, payload: seq<byte>): (r: Option<(uint32, seq<byte>)>) {
    if seqNo >= next then Some((seqNo, payload))
    else if next - seqNo >= |payload| then None
    else Some((next, payload[next - seqNo..]))
  }

  /** Appends new bytes at `seqNo`, starting over after a gap, and asks for the verdict. */
  function Append(s: Stream, seqNo: uint32, payload: seq<byte>): (r: (Stream, Found)) {
    var buf := if seqNo != s.nextSeq then [] else s.buf;
    if |buf| + |payload| > LIMIT then (s.(buf := buf, nextSeq := seqNo, result := Some(NoHello)), NoHello)
    else
      var t := s.(buf := buf + payload, nextSeq := (seqNo + |payload|) % SEQ);
      var f := FoundBy(ServerName(t.buf));
      (if f == More then t else t.(result := Some(f)), f)
  }

  function Feed(s: Stream, seqNo: uint32, payload: seq<byte>): (r: (Stream, Found)) {
    if s.result.Some? then (s, s.result.value)
    else
      var t := if s.setSeq then s else s.(nextSeq := seqNo, setSeq := true);
      match Trimmed(t.nextSeq, seqNo, payload)
      case None => (t, More)
      case Some(n) => Append(t, n.0, n.1)
  }

  class Discovery {
    var tls: map<Routing.Key, Stream>

    constructor ()
      ensures tls == map[]
    {
      tls := map[];
    }

    /** Feeds one captured packet to the stream of its flow; a packet without payload changes nothing. */
    method FeedTLS(k: Routing.Key, raw: seq<byte>, now: int) returns (f: Found)
      modifies this
      ensures match Packet.ParseTcp(raw)
        case None => f == More && tls == old(tls)
        case Some(ti) =>
          if ti.payload == [] then f == More && tls == old(tls)
          else
            var s := if k in old(tls) && now <= old(tls)[k].expires then old(tls)[k] else Opened(now);
            var r := Feed(s, ti.seqNo, ti.payload);
            tls == old(tls)[k := r.0] && f == r.1
    {
      hide ServerName, Packet.ParseTcp;
      var ti := Packet.ParseTcp(raw);
      if ti.None? || ti.value.payload == [] {
        return More;
      }
      var s := if k in tls && now <= tls[k].expires then tls[k] else Opened(now);
      var seqNo, payload := ti.value.seqNo, ti.value.payload;
      if s.result.Some? {
        tls := tls[k := s];
        return s.result.value;
      }
      if !s.setSeq {
        s := s.(nextSeq := seqNo, setSeq := true);
      }
      if seqNo < s.nextSeq {
        var over := s.nextSeq - seqNo;
        if over >= |payload| {
          tls := tls[k := s];
          return More;
        }
        payload := payload[over..];
        seqNo := s.nextSeq;
      }
      if seqNo != s.nextSeq {
        s := s.(buf := [], nextSeq := seqNo);
      }
      if |s.buf| + |payload| > LIMIT {
        tls := tls[k := s.(result := Some(NoHello))];
        return NoHello;
      }
      s := s.(buf := s.buf + payload, nextSeq := (s.nextSeq + |payload|) % SEQ);
      var v := ParseServerName(s.buf);
      f := FoundBy(v);
      tls := tls[k := if f == More then s else s.(result := Some(f))];
    }
  }

  /** Memory stays bounded, a verdict is final, a stream that would outgrow 64 KiB is given up, and after a gap
      gathering starts over. */
  lemma FeedIsBounded(s: Stream, seqNo: uint32, payload: seq<byte>)
    requires |s.buf| <= 0x1_0000
    ensures |Feed(s, seqNo, payload).0.buf| <= 0x1_0000
    ensures s.result.Some? ==> Feed(s, seqNo, payload) == (s, s.result.value)
    ensures s.result.None? && s.setSeq && seqNo == s.nextSeq && |s.buf| + |payload| > 0x1_0000 ==>
      Feed(s, seqNo, payload).1 == NoHello && Feed(s, seqNo, payload).0.result == Some(NoHello)
    ensures s.result.None? && s.setSeq && seqNo > s.nextSeq && |payload| <= 0x1_0000 ==>
      var t := Feed(s, seqNo, payload).0;
      t.buf == payload && t.nextSeq == (seqNo + |payload|) % 0x1_0000_0000
  {
    hide ServerName;
  }

  // ---------- Any segmentation of one stream ----------

  /** Bytes `from` to `to` of the stream, captured at time `now`. */
  datatype Segment = Segment(from: nat, to: nat, now: int)

  /** How far the first `i` segments reach. */
  function Reach(segs: seq<Segment>, i: nat): (n: nat)
    requires i <= |segs|
  {
    if i == 0 then 0
    else if segs[i - 1].to > Reach(segs, i - 1) then segs[i - 1].to else Reach(segs, i - 1)
  }

  /** A retransmission starts at a numerically smaller sequence number than the one expected. */
  ghost predicate NoWrapInOverlap(isn: uint32, from: nat, reach: nat) {
    from < reach ==> (isn + from) % SEQ < (isn + reach) % SEQ
  }

  /** What keeps the follower on track: the verdict is there already, the overlap does not wrap, or the
      segment repeats everything from the start. */
  ghost predicate OnTrack(stream: seq<byte>, isn: uint32, from: nat, to: nat, reach: nat)
    requires reach <= |stream|
  {
    || ServerName(stream[..reach]) != NeedMore
    || NoWrapInOverlap(isn, from, reach)
    || (from == 0 && to >= reach)
  }

  /** `segs` deliver `stream` without gaps, overlaps repeating what was sent, within the lifetime. */
  ghost predicate GapFree(stream: seq<byte>, isn: uint32, segs: seq<Segment>) {
    && |stream| <= 0x1_0000
    && forall i: nat | i < |segs| :: InOrder(stream, isn, segs, i)
  }

  ghost predicate InOrder(stream: seq<byte>, isn: uint32, segs: seq<Segment>, i: nat)
    requires i < |segs|
  {
    && segs[i].from < segs[i].to <= |stream| && segs[i].from <= Reach(segs, i)
    && Reach(segs, i) <= |stream| && OnTrack(stream, isn, segs[i].from, segs[i].to, Reach(segs, i))
    && segs[i].now <= segs[0].now + 30
  }

  function FeedSegment(stream: seq<byte>, isn: uint32, s: Stream, g: Segment): (r: (Stream, Found))
    requires g.from <= g.to <= |stream|
  {
    Feed(if g.now <= s.expires then s else Opened(g.now), (isn + g.from) % SEQ, stream[g.from..g.to])
  }

  ghost function After(stream: seq<byte>, isn: uint32, segs: seq<Segment>, i: nat): (s: Stream)
    requires GapFree(stream, isn, segs) && i <= |segs| && |segs| > 0
  {
    if i == 0 then Opened(segs[0].now)
    else
      assert InOrder(stream, isn, segs, i - 1);
      FeedSegment(stream, isn, After(stream, isn, segs, i - 1), segs[i - 1]).0
  }

  /** The stream state stands for the first `reach` bytes. */
  ghost predicate Follows(s: Stream, stream: seq<byte>, isn: uint32, reach: nat) {
    && reach <= |stream|
    && (reach == 0 ==> !s.setSeq && s.buf == [] && s.result == None)
    && (reach > 0 ==> s.setSeq)
    && (s.result.None? ==>
          ServerName(stream[..reach]) == NeedMore && s.buf == stream[..reach]
          && (s.setSeq ==> s.nextSeq == (isn + reach) % SEQ))
    && (s.result.Some? ==>
          ServerName(stream[..reach]) != NeedMore && s.result.value == FoundBy(ServerName(stream[..reach])))
  }

  /** The sequence arithmetic: what is left of a segment after trimming is exactly the new part. */
  lemma TrimIsExact(stream: seq<byte>, isn: uint32, from: nat, to: nat, reach: nat)
    requires from < to <= |stream| <= LIMIT && from <= reach <= |stream| && NoWrapInOverlap(isn, from, reach)
    ensures Trimmed((isn + reach) % SEQ, (isn + from) % SEQ, stream[from..to])
         == if to <= reach && from < reach then None else Some(((isn + reach) % SEQ, stream[reach..to]))
  {
    if from < reach {
      assert (isn + reach) % SEQ - (isn + from) % SEQ == reach - from;
      if reach < to {
        assert stream[from..to][reach - from..] == stream[reach..to];
      }
    }
  }

  lemma AppendFollows(s: Stream, stream: seq<byte>, isn: uint32, reach: nat, to: nat)
    requires reach < to <= |stream| <= LIMIT
    requires s.result.None? && s.setSeq && s.buf == stream[..reach] && s.nextSeq == (isn + reach) % SEQ
    ensures var r := Append(s, (isn + reach) % SEQ, stream[reach..to]);
      Follows(r.0, stream, isn, to) && r.1 == FoundBy(ServerName(stream[..to])) && r.0.expires == s.expires
  {
    hide ServerName;
    assert stream[..reach] + stream[reach..to] == stream[..to];
    assert (((isn + reach) % SEQ) + (to - reach)) % SEQ == (isn + to) % SEQ;
  }

  /** A retransmission from the start that wraps is taken for a new beginning, and so it is. */
  lemma RestartFollows(s: Stream, stream: seq<byte>, isn: uint32, reach: nat, to: nat)
    requires 0 < reach <= to <= |stream| <= LIMIT && isn % SEQ > (isn + reach) % SEQ
    requires s.result.None? && s.setSeq && s.nextSeq == (isn + reach) % SEQ
    ensures var r := Feed(s, isn % SEQ, stream[0..to]);
      Follows(r.0, stream, isn, to) && r.1 == FoundBy(ServerName(stream[..to])) && r.0.expires == s.expires
  {
    hide ServerName;
    assert [] + stream[0..to] == stream[..to];
    assert (isn % SEQ + to) % SEQ == (isn + to) % SEQ;
  }

  lemma FollowsStep(s: Stream, stream: seq<byte>, isn: uint32, reach: nat, g: Segment)
    requires Follows(s, stream, isn, reach) && |stream| <= LIMIT
    requires g.from < g.to <= |stream| && g.from <= reach && OnTrack(stream, isn, g.from, g.to, reach)
    ensures var r := Feed(s, (isn + g.from) % SEQ, stream[g.from..g.to]);
            var after := if g.to > reach then g.to else reach;
      Follows(r.0, stream, isn, after) && r.1 == FoundBy(ServerName(stream[..after])) && r.0.expires == s.expires
  {
    hide ServerName, Append, Trimmed;
    var after := if g.to > reach then g.to else reach;
    if s.result.Some? {
      assert stream[..reach] <= stream[..after];
      VerdictIsStable(stream[..reach], stream[..after]);
    } else if !NoWrapInOverlap(isn, g.from, reach) {
      assert (isn + 0) % SEQ == isn % SEQ;
      RestartFollows(s, stream, isn, reach, g.to);
    } else {
      TrimIsExact(stream, isn, g.from, g.to, reach);
      if g.to > reach {
        var t := if s.setSeq then s else s.(nextSeq := (isn + g.from) % SEQ, setSeq := true);
        AppendFollows(t, stream, isn, reach, g.to);
      }
    }
  }

  lemma {:induction false} AfterFollows(stream: seq<byte>, isn: uint32, segs: seq<Segment>, i: nat)
    requires GapFree(stream, isn, segs) && i <= |segs| && |segs| > 0
    ensures var s := After(stream, isn, segs, i);
      Follows(s, stream, isn, Reach(segs, i)) && s.expires == segs[0].now + LIFETIME
  {
    hide ServerName, Feed;
    if i > 0 {
      AfterFollows(stream, isn, segs, i - 1);
      assert InOrder(stream, isn, segs, i - 1);
      FollowsStep(After(stream, isn, segs, i - 1), stream, isn, Reach(segs, i - 1), segs[i - 1]);
    } else {
      assert ServerName(stream[..0]) == NeedMore by { ShortNeedsMore(stream[..0]); }
    }
  }

  lemma ShortNeedsMore(d: seq<byte>)
    requires |d| < 5
    ensures ServerName(d) == NeedMore
  {
  }

  /** However a stream is cut into segments, with whatever consistent retransmissions, each answer
      is the verdict on the bytes seen so far; so the last answer is the verdict on the whole stream. */
  lemma ChunkingDoesNotMatter(stream: seq<byte>, isn: uint32, segs: seq<Segment>, i: nat)
    requires GapFree(stream, isn, segs) && i < |segs|
    ensures InOrder(stream, isn, segs, i) && Reach(segs, i + 1) <= |stream|
    ensures FeedSegment(stream, isn, After(stream, isn, segs, i), segs[i]).1
         == FoundBy(ServerName(stream[..Reach(segs, i + 1)]))
  {
    hide ServerName, Feed;
    AfterFollows(stream, isn, segs, i);
    assert InOrder(stream, isn, segs, i);
    FollowsStep(After(stream, isn, segs, i), stream, isn, Reach(segs, i), segs[i]);
  }

  /** From host name to host name: a ClientHello cut into records in any way, and those into segments in
      any way, is recognised as soon as the segments reach the end of its last record. */
  lemma HelloIsDiscovered(h: TlsHello.Hello, cs: seq<Rec>, post: seq<byte>, isn: uint32, segs: seq<Segment>,
                          i: nat)
    requires Proper(h) && Joined(cs) == Message(h)
    requires cs != [] && cs[0].kind == 22 && forall n | 0 <= n < |cs| :: |cs[n].data| <= MAX_RECORD
    requires GapFree(RecordsBytes(cs) + post, isn, segs) && i < |segs|
    requires |RecordsBytes(cs)| <= Reach(segs, i + 1)
    ensures var stream := RecordsBytes(cs) + post;
      && InOrder(stream, isn, segs, i)
      && FeedSegment(stream, isn, After(stream, isn, segs, i), segs[i]).1 == Host(Canonical(h.host))
  {
    hide ServerName, FeedSegment, After, RecordsBytes, Message, Canonical;
    var stream := RecordsBytes(cs) + post;
    ChunkingDoesNotMatter(stream, isn, segs, i);
    var reach := Reach(segs, i + 1);
    assert stream[..reach] == RecordsBytes(cs) + post[..reach - |RecordsBytes(cs)|];
    ServerNameFindsHost(h, cs, post[..reach - |RecordsBytes(cs)|]);
  }

  /** Where the overlap does wrap, the retransmission is taken for a gap and the gathered bytes are thrown away. */
  lemma WrappedOverlapStartsOver(s: Stream, isn: uint32, stream: seq<byte>, from: nat, to: nat, reach: nat)
    requires from < reach && from < to <= |stream| <= LIMIT && !NoWrapInOverlap(isn, from, reach) && reach <= |stream|
    requires Follows(s, stream, isn, reach) && s.result.None?
    ensures Feed(s, (isn + from) % SEQ, stream[from..to]).0.buf == stream[from..to]
  {
    hide ServerName;
    assert (isn + from) % SEQ > (isn + reach) % SEQ;
  }

  /** Exactly when the follower stays on track: as long as the answer is still pending, it stands for all
      bytes seen if and only if the overlap does not wrap or the segment repeats everything. */
  lemma OnTrackExactly(s: Stream, isn: uint32, stream: seq<byte>, reach: nat, g: Segment)
    requires Follows(s, stream, isn, reach) && s.result.None? && |stream| <= LIMIT
    requires g.from < g.to <= |stream| && g.from <= reach
    requires Feed(s, (isn + g.from) % SEQ, stream[g.from..g.to]).0.result.None?
    ensures var r := Feed(s, (isn + g.from) % SEQ, stream[g.from..g.to]);
            var after := if g.to > reach then g.to else reach;
      Follows(r.0, stream, isn, after) <==> NoWrapInOverlap(isn, g.from, reach) || (g.from == 0 && g.to >= reach)
  {
    hide ServerName, Feed;
    if OnTrack(stream, isn, g.from, g.to, reach) {
      FollowsStep(s, stream, isn, reach, g);
    } else {
      WrappedOverlapStartsOver(s, isn, stream, g.from, g.to, reach);
    }
  }

  /** Off track the answer can be wrong: the record is malformed and the follower still asks for more. */
  lemma WrappedOverlapMisleads()
    ensures var stream, isn := [22, 3, 1, 0x80, 1], SEQ - 2;
            var s := FeedSegment(stream, isn, Opened(0), Segment(0, 3, 0)).0;
      && ServerName(stream) == Malformed
      && FeedSegment(stream, isn, s, Segment(1, 5, 0)).1 == More
  {
    var stream: seq<byte>, isn := [22, 3, 1, 0x80, 1], SEQ - 2;
    assert stream[0..3] == [22, 3, 1] && stream[1..5] == [3, 1, 0x80, 1];
    assert ServerName(stream) == Malformed by { assert Get16(stream, 3) == 0x8001; }
    hide ServerName;
    ShortNeedsMore([22, 3, 1]);
    ShortNeedsMore([3, 1, 0x80, 1]);
  }
}
