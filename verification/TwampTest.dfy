/** A TWAMP test: probes numbered modulo 2^32, replies decoded field by field and checked against the
    probe's number, and the statistics of a run of probes. */
module TwampTest {
  import opened GoTypes
  import opened Timestamps
  import opened TwampStats
  import opened Wire

  const HEADER_LENGTH: nat := 14
  const REPLY_LENGTH: nat := 64

  datatype TwampResults = TwampResults(
    seqNum: u32, timestamp: Time, errorEstimate: u16, receiveTimestamp: Time,
    senderSeqNum: u32, senderTimestamp: Time, senderErrorEstimate: u16, senderTTL: u8,
    finishedTimestamp: Time, senderSize: int)

  function Nanos(t: Time): int { t.sec * SECOND + t.nsec }

  // time.Time.Sub saturates.
  function Sub(t: Time, u: Time): i64
  {
    var d := Nanos(t) - Nanos(u);
    if d < -TWO63 then -TWO63 else if d >= TWO63 then TWO63 - 1 else d
  }

  function GetRTT(r: TwampResults): i64 { Sub(r.finishedTimestamp, r.senderTimestamp) }

  // How long the reflector held the probe.
  function GetWait(r: TwampResults): i64 { Sub(r.timestamp, r.receiveTimestamp) }

  function StampAt(b: seq<u8>, i: nat): TwampTimestamp
    requires i + 8 <= |b|
  {
    TwampTimestamp(U32At(b, i), U32At(b, i + 4))
  }

  // The fields of the reply of section 4.2.1 of RFC 5357.
  datatype Reply = Reply(seqNum: u32, timestamp: TwampTimestamp, errorEstimate: u16, receive: TwampTimestamp,
                         senderSeqNum: u32, sender: TwampTimestamp, senderErrorEstimate: u16, senderTTL: u8)

  function ReplyAt(b: seq<u8>): Reply
    requires |b| == REPLY_LENGTH
  {
    Reply(U32At(b, 0), StampAt(b, 4), U16At(b, 12), StampAt(b, 16), U32At(b, 24), StampAt(b, 28), U16At(b, 36), b[40])
  }

  function Decoded(f: Reply, size: int, finished: Time): TwampResults
  {
    TwampResults(f.seqNum, GetTime(f.timestamp), f.errorEstimate, GetTime(f.receive), f.senderSeqNum,
                 GetTime(f.sender), f.senderErrorEstimate, f.senderTTL, finished, size)
  }

  // What surrounds one probe: the clock before and after it, the filling, and what the socket returned,
  // None when the read failed.
  datatype Probe = Probe(sent: Time, filling: seq<u8>, reply: Option<seq<u8>>, finished: Time)

  // Only a readable reply that carries the probe's own number is accepted.
  function Judged(number: u32, size: int, p: Probe): Option<TwampResults>
  {
    if p.reply.None? then None
    else
      var f := ReplyAt(Filled(p.reply.value, REPLY_LENGTH));
      if f.seqNum != number then None else Some(Decoded(f, size, p.finished))
  }

  predicate IsHeader(h: seq<u8>, number: u32, stamp: TwampTimestamp)
  {
    |h| == HEADER_LENGTH && U32At(h, 0) == number && StampAt(h, 4) == stamp && h[12] == 1 && h[13] == 1
  }

  // The message of section 4.1.2 of RFC 5357.
  predicate IsTestMessage(pdu: seq<u8>, number: u32, stamp: TwampTimestamp, filling: seq<u8>)
  {
    |pdu| >= HEADER_LENGTH && IsHeader(pdu[..HEADER_LENGTH], number, stamp) && pdu[HEADER_LENGTH..] == filling
  }

  datatype Stats = Stats(min: i64, max: i64, avg: int, transmitted: nat, received: nat, jitter: int)

  // ---- Runs of probes ----

  // The outcomes of successive probes, the first of them numbered `first`.
  function Outcomes(first: nat, size: int, ps: seq<Probe>): (r: seq<Option<TwampResults>>)
    ensures |r| == |ps| && forall i :: 0 <= i < |ps| ==> r[i] == Judged(ToU32(first + i), size, ps[i])
  {
    seq(|ps|, i requires 0 <= i < |ps| => Judged(ToU32(first + i), size, ps[i]))
  }

  function Kept(os: seq<Option<TwampResults>>): (r: seq<TwampResults>)
    ensures |r| <= |os|
  {
    if os == [] then []
    else
      var before := Kept(os[..|os| - 1]);
      match os[|os| - 1]
      case None => before
      case Some(r) => before + [r]
  }

  function Rtts(rs: seq<TwampResults>): (s: seq<int>)
    ensures |s| == |rs| && forall i :: 0 <= i < |rs| ==> s[i] == GetRTT(rs[i])
  {
    seq(|rs|, i requires 0 <= i < |rs| => GetRTT(rs[i]))
  }

  predicate FirstKept(os: seq<Option<TwampResults>>) { os != [] && os[0].Some? }

  // The statistics of a run that asked for `count` probes.
  predicate Summarizes(st: Stats, os: seq<Option<TwampResults>>, count: int)
    requires count != 0
  {
    && st.transmitted == |os| && st.received == |Kept(os)|
    && Extremes(st.min, st.max, FirstKept(os), Rtts(Kept(os)))
    && st.avg == Average(Rtts(Kept(os)), count) && st.jitter == JitterOf(Rtts(Kept(os)))
  }

  // The running figures of RunX.
  datatype Tally = Tally(min: i64, max: i64, total: i64, received: nat, results: seq<TwampResults>)

  predicate Tallies(t: Tally, os: seq<Option<TwampResults>>)
  {
    && t.results == Kept(os) && t.received == |t.results|
    && Extremes(t.min, t.max, FirstKept(os), Rtts(t.results))
    && t.total == ToI64(Sum(Rtts(t.results)))
  }

  // What RunX does with the outcome of a probe; `start` says that it was the first.
  function Counted(t: Tally, start: bool, o: Option<TwampResults>): Tally
  {
    match o
    case None => t
    case Some(r) =>
      var rtt := GetRTT(r);
      var min, max := if start then rtt else t.min, if start then rtt else t.max;
      Tally(if min > rtt then rtt else min, if max < rtt then rtt else max, ToI64(t.total + rtt),
            t.received + 1, t.results + [r])
  }

  lemma TallyStep(os: seq<Option<TwampResults>>, o: Option<TwampResults>, t: Tally)
    requires Tallies(t, os)
    ensures Tallies(Counted(t, os == [], o), os + [o])
  {
    hide GetRTT, ToI64, Kept, Rtts, Sum, Extremes;
    KeptStep(os, o);
    FirstStays(os, o);
    if o.Some? {
      var rtt := GetRTT(o.value);
      SumStep(Rtts(t.results), rtt);
      ExtremesStep(t.min, t.max, FirstKept(os), Rtts(t.results), rtt);
      if os == [] {
        NothingKept();
        assert Rtts(t.results) + [rtt] == [rtt];
      }
    }
  }

  lemma NothingKept()
    ensures Rtts(Kept([])) == []
  {
  }

  lemma FirstStays(os: seq<Option<TwampResults>>, o: Option<TwampResults>)
    ensures FirstKept(os + [o]) <==> if os == [] then o.Some? else FirstKept(os)
  {
  }

  lemma NoTally()
    ensures Tallies(Tally(0, 0, 0, 0, []), [])
  {
  }

  lemma NextNumber(first: u32, i: nat)
    ensures ToU32(ToU32(first + i) + 1) == ToU32(first + i + 1)
  {
  }

  lemma InitialNumber(first: u32)
    ensures ToU32(first) == first
  {
  }

  lemma KeptStep(os: seq<Option<TwampResults>>, o: Option<TwampResults>)
    ensures Kept(os + [o]) == match o case None => Kept(os) case Some(r) => Kept(os) + [r]
    ensures Rtts(Kept(os + [o])) ==
      match o case None => Rtts(Kept(os)) case Some(r) => Rtts(Kept(os)) + [GetRTT(r)]
  {
    assert (os + [o])[..|os|] == os;
  }

  lemma OutcomesStep(first: nat, size: int, ps: seq<Probe>, k: nat)
    requires k < |ps|
    ensures Outcomes(first, size, ps[..k + 1])
         == Outcomes(first, size, ps[..k]) + [Judged(ToU32(first + k), size, ps[k])]
  {
    hide Judged, Outcomes;
    var p := ps[..k + 1];
    assert p[..k] == ps[..k] && p[k] == ps[k];
    LastOutcome(first, size, p);
  }

  lemma LastOutcome(first: nat, size: int, ps: seq<Probe>)
    requires ps != []
    ensures var k := |ps| - 1;
      Outcomes(first, size, ps) == Outcomes(first, size, ps[..k]) + [Judged(ToU32(first + k), size, ps[k])]
  {
    hide Judged;
    var k := |ps| - 1;
    var whole, part := Outcomes(first, size, ps), Outcomes(first, size, ps[..k]);
    forall i | 0 <= i < k
      ensures whole[i] == part[i]
    {
      assert ps[..k][i] == ps[i];
    }
    assert whole[..k] == part && whole[k] == Judged(ToU32(first + k), size, ps[k]);
    assert whole == whole[..k] + [whole[k]];
  }

  class TwampTest {
    const padding: nat
    var number: u32

    constructor (padding: nat)
      ensures number == 0 && this.padding == padding
    {
      this.padding, number := padding, 0;
    }

    static method PutHeader(pdu: array<u8>, number: u32, stamp: TwampTimestamp)
      requires pdu.Length >= HEADER_LENGTH
      modifies pdu
      ensures IsHeader(pdu[..HEADER_LENGTH], number, stamp)
    {
      PutU32(pdu, 0, number);
      PutU32(pdu, 4, stamp.integer);
      PutU32(pdu, 8, stamp.fraction);
      pdu[12] := 1;
      pdu[13] := 1;
    }

    // `filling` stands for the pseudo-random bytes.
    method SendTestMessage(now: Time, useAllZeroes: bool, filling: seq<u8>) returns (size: int, pdu: array<u8>)
      requires |filling| == padding
      modifies this
      ensures fresh(pdu) && size == HEADER_LENGTH + padding
      ensures IsTestMessage(pdu[..], old(number), NewTwampTimestamp(now),
                            if useAllZeroes then seq(padding, _ => 0) else filling)
      ensures number == ToU32(old(number) + 1)
    {
      hide NewTwampTimestamp, ToU32, IsHeader;
      var stamp := NewTwampTimestamp(now);
      size := HEADER_LENGTH + padding;
      pdu := new u8[size](_ => 0);
      PutHeader(pdu, number, stamp);
      ghost var header := pdu[..HEADER_LENGTH];
      var x := HEADER_LENGTH;
      while x < size
        invariant HEADER_LENGTH <= x <= size && number == old(number) && pdu[..HEADER_LENGTH] == header
        invariant forall k :: HEADER_LENGTH <= k < x ==>
          pdu[k] == if useAllZeroes then 0 else filling[k - HEADER_LENGTH]
      {
        pdu[x] := if useAllZeroes then 0 else filling[x - HEADER_LENGTH];
        x := x + 1;
      }
      assert pdu[..][..HEADER_LENGTH] == header;
      number := ToU32(number + 1);
    }

    method Run(p: Probe) returns (r: Option<TwampResults>)
      requires |p.filling| == padding
      modifies this
      ensures r == Judged(old(number), HEADER_LENGTH + padding, p)
      ensures number == ToU32(old(number) + 1)
    {
      var senderSeqNum := number;
      var size, pdu := SendTestMessage(p.sent, false, p.filling);
      if p.reply.None? {
        return None;
      }
      var buf := new Buffer(Filled(p.reply.value, REPLY_LENGTH));
      var f := NextReply(buf);
      r := if senderSeqNum != f.seqNum then None else Some(Decoded(f, size, p.finished));
    }

    method RunX(count: int, ps: seq<Probe>) returns (st: Stats, results: seq<TwampResults>)
      requires count != 0 && |ps| == (if count < 0 then 0 else count)
      requires forall i :: 0 <= i < |ps| ==> |ps[i].filling| == padding
      modifies this
      ensures results == Kept(Outcomes(old(number), HEADER_LENGTH + padding, ps))
      ensures Summarizes(st, Outcomes(old(number), HEADER_LENGTH + padding, ps), count)
      ensures number == ToU32(old(number) + |ps|)
    {
      hide Judged, Tallies, Outcomes, ToU32, ToI64, GetRTT;
      ghost var first := number;
      InitialNumber(first);
      NoTally();
      ghost var size := HEADER_LENGTH + padding;
      var min: i64, max: i64, total: i64 := 0, 0, 0;
      var transmitted, received := 0, 0;
      results := [];
      var i := 0;
      while i < count
        invariant 0 <= i <= |ps|
        invariant number == ToU32(first + i)
        invariant transmitted == i
        invariant Tallies(Tally(min, max, total, received, results), Outcomes(first, size, ps[..i]))
      {
        OutcomesStep(first, size, ps, i);
        NextNumber(first, i);
        transmitted := transmitted + 1;
        var r := Run(ps[i]);
        TallyStep(Outcomes(first, size, ps[..i]), r, Tally(min, max, total, received, results));
        if r.Some? {
          var rtt := GetRTT(r.value);
          if i == 0 {
            min, max := rtt, rtt;
          }
          if min > rtt {
            min := rtt;
          }
          if max < rtt {
            max := rtt;
          }
          total := ToI64(total + rtt);
          received := received + 1;
          results := results + [r.value];
        }
        i := i + 1;
      }
      assert ps[..i] == ps;
      var jitter := Jitter(Rtts(results));
      st := Stats(min, max, Quotient(total, count), transmitted, received, jitter);
      Summary(Outcomes(first, size, ps), Tally(min, max, total, received, results), st, count);
    }
  }

  lemma Summary(os: seq<Option<TwampResults>>, t: Tally, st: Stats, count: int)
    requires count != 0 && Tallies(t, os)
    requires st == Stats(t.min, t.max, Quotient(t.total, count), |os|, t.received, JitterOf(Rtts(t.results)))
    ensures t.results == Kept(os) && Summarizes(st, os, count)
  {
  }

  method NextReply(buf: Buffer) returns (f: Reply)
    requires |buf.rest| == REPLY_LENGTH
    modifies buf
    ensures f == ReplyAt(old(buf.rest))
  {
    var seqNum := buf.NextU32();
    var timestamp := NextStamp(buf);
    var errorEstimate := buf.NextU16();
    var _ := buf.Next(2);
    var receive := NextStamp(buf);
    var senderSeqNum := buf.NextU32();
    var sender := NextStamp(buf);
    var senderErrorEstimate := buf.NextU16();
    var _ := buf.Next(2);
    var ttl := buf.Next(1);
    f := Reply(seqNum, timestamp, errorEstimate, receive, senderSeqNum, sender, senderErrorEstimate, ttl[0]);
  }

  method NextStamp(buf: Buffer) returns (stamp: TwampTimestamp)
    requires |buf.rest| >= 8
    modifies buf
    ensures stamp == StampAt(old(buf.rest), 0) && buf.rest == old(buf.rest)[8..]
  {
    var integer := buf.NextU32();
    var fraction := buf.NextU32();
    stamp := TwampTimestamp(integer, fraction);
  }
}
