/** What a TWAMP test promises over whole runs: its numbers, its round-trip times and its statistics. */
module TwampTheorems {
  import opened GoTypes
  import opened Timestamps
  import opened TwampStats
  import opened TwampTest
  import opened Wire

  // ---- The layouts of the standard ----

  function StampBytes(t: TwampTimestamp): (s: seq<u8>)
    ensures |s| == 8 && StampAt(s, 0) == t
  {
    Behind(U32Bytes(t.integer), U32Bytes(t.fraction));
    U32Bytes(t.integer) + U32Bytes(t.fraction)
  }

  // Section 4.1.2 of RFC 5357: number, timestamp, error estimate, filling.
  function TestMessage(number: u32, stamp: TwampTimestamp, filling: seq<u8>): seq<u8>
  {
    U32Bytes(number) + (StampBytes(stamp) + ([1, 1] + filling))
  }

  // What the client writes at fixed offsets is that message, and no other.
  lemma TestMessageExactly(pdu: seq<u8>, number: u32, stamp: TwampTimestamp, filling: seq<u8>)
    ensures IsTestMessage(pdu, number, stamp, filling) <==> pdu == TestMessage(number, stamp, filling)
  {
    StandardTestMessage(number, stamp, filling);
    if IsTestMessage(pdu, number, stamp, filling) {
      SameTestMessage(pdu, TestMessage(number, stamp, filling), number, stamp, filling);
    }
  }

  lemma StandardTestMessage(number: u32, stamp: TwampTimestamp, filling: seq<u8>)
    ensures IsTestMessage(TestMessage(number, stamp, filling), number, stamp, filling)
  {
    hide U32At, U32Bytes, StampBytes;
    var h := U32Bytes(number) + (StampBytes(stamp) + [1, 1]);
    Behind(StampBytes(stamp), [1, 1]);
    StampAhead(stamp, [1, 1]);
    Behind(U32Bytes(number), StampBytes(stamp) + [1, 1]);
    var s := TestMessage(number, stamp, filling);
    assert s == h + filling;
    assert s[..HEADER_LENGTH] == h && s[HEADER_LENGTH..] == filling;
  }

  lemma StampAhead(stamp: TwampTimestamp, b: seq<u8>)
    ensures StampAt(StampBytes(stamp) + b, 0) == stamp
  {
    var s := StampBytes(stamp);
    assert (s + b)[..8] == s;
    assert forall k :: 0 <= k < 8 ==> (s + b)[k] == s[k];
  }

  lemma SameTestMessage(s: seq<u8>, t: seq<u8>, number: u32, stamp: TwampTimestamp, filling: seq<u8>)
    requires IsTestMessage(s, number, stamp, filling) && IsTestMessage(t, number, stamp, filling)
    ensures s == t
  {
    var x, y := s[..HEADER_LENGTH], t[..HEADER_LENGTH];
    U32Identifies(x, 0, y, 0);
    U32Identifies(x, 4, y, 4);
    U32Identifies(x, 8, y, 8);
    assert x == x[0..4] + x[4..8] + x[8..12] + [x[12], x[13]];
    assert y == y[0..4] + y[4..8] + y[8..12] + [y[12], y[13]];
    assert s == x + s[HEADER_LENGTH..] && t == y + t[HEADER_LENGTH..];
  }

  // Section 4.2.1 of RFC 5357: number, timestamp, error estimate, two unused bytes, receive timestamp,
  // the sender's number, timestamp and error estimate, two unused bytes, the sender's TTL, padding.
  function ReplyMessage(f: Reply, unused: seq<u8>, unused': seq<u8>, padding: seq<u8>): (s: seq<u8>)
    requires |unused| == |unused'| == 2
    ensures |s| == 41 + |padding|
  {
    U32Bytes(f.seqNum) + (StampBytes(f.timestamp) + (U16Bytes(f.errorEstimate) +
    (unused + FromReceive(f, unused', padding))))
  }

  function FromReceive(f: Reply, unused: seq<u8>, padding: seq<u8>): (s: seq<u8>)
    requires |unused| == 2
    ensures |s| == 25 + |padding|
  {
    StampBytes(f.receive) + (U32Bytes(f.senderSeqNum) + (StampBytes(f.sender) + (U16Bytes(f.senderErrorEstimate) +
    (unused + ([f.senderTTL] + padding)))))
  }

  predicate ReceiveFields(s: seq<u8>, at: nat, f: Reply)
    requires at + 25 <= |s|
  {
    && StampAt(s, at) == f.receive && U32At(s, at + 8) == f.senderSeqNum && StampAt(s, at + 12) == f.sender
    && U16At(s, at + 20) == f.senderErrorEstimate && s[at + 24] == f.senderTTL
  }

  lemma FromReceiveFields(f: Reply, unused: seq<u8>, padding: seq<u8>)
    requires |unused| == 2
    ensures ReceiveFields(FromReceive(f, unused, padding), 0, f)
  {
    hide U16At, U32At, U16Bytes, U32Bytes, StampBytes;
    var a := unused + ([f.senderTTL] + padding);
    var b := U16Bytes(f.senderErrorEstimate) + a;
    var c := StampBytes(f.sender) + b;
    var d := U32Bytes(f.senderSeqNum) + c;
    assert a[2] == f.senderTTL;
    Behind(U16Bytes(f.senderErrorEstimate), a);
    Behind(StampBytes(f.sender), b);
    StampAhead(f.sender, b);
    Behind(U32Bytes(f.senderSeqNum), c);
    Behind(StampBytes(f.receive), d);
    StampAhead(f.receive, d);
  }

  lemma ReceiveBehind(a: seq<u8>, s: seq<u8>, at: nat, f: Reply)
    requires at + 25 <= |s| && ReceiveFields(s, at, f)
    ensures ReceiveFields(a + s, |a| + at, f)
  {
    hide U16At, U32At;
    Behind(a, s);
  }

  predicate ReplyFields(s: seq<u8>, f: Reply)
    requires 41 <= |s|
  {
    && U32At(s, 0) == f.seqNum && StampAt(s, 4) == f.timestamp && U16At(s, 12) == f.errorEstimate
    && ReceiveFields(s, 16, f)
  }

  lemma ReplyMessageFields(f: Reply, unused: seq<u8>, unused': seq<u8>, padding: seq<u8>)
    requires |unused| == |unused'| == 2
    ensures ReplyFields(ReplyMessage(f, unused, unused', padding), f)
  {
    hide U16At, U32At, U16Bytes, U32Bytes, StampBytes, ReceiveFields, FromReceive;
    var m := FromReceive(f, unused', padding);
    var a := unused + m;
    var b := U16Bytes(f.errorEstimate) + a;
    var c := StampBytes(f.timestamp) + b;
    FromReceiveFields(f, unused', padding);
    ReceiveBehind(unused, m, 0, f);
    ReceiveBehind(U16Bytes(f.errorEstimate), a, 2, f);
    ReceiveBehind(StampBytes(f.timestamp), b, 4, f);
    ReceiveBehind(U32Bytes(f.seqNum), c, 12, f);
    Behind(U16Bytes(f.errorEstimate), a);
    Behind(StampBytes(f.timestamp), b);
    StampAhead(f.timestamp, b);
    Behind(U32Bytes(f.seqNum), c);
  }

  // A reply laid out as the standard has it is decoded to its own fields, whatever the unused bytes and
  // the padding are, and however much of the padding is read.
  lemma ReplyDecodes(f: Reply, unused: seq<u8>, unused': seq<u8>, padding: seq<u8>)
    requires |unused| == |unused'| == 2
    ensures ReplyAt(Filled(ReplyMessage(f, unused, unused', padding), REPLY_LENGTH)) == f
  {
    var s := ReplyMessage(f, unused, unused', padding);
    ReplyMessageFields(f, unused, unused', padding);
    FieldsKept(s, Filled(s, REPLY_LENGTH), f);
  }

  lemma FieldsKept(s: seq<u8>, t: seq<u8>, f: Reply)
    requires 41 <= |s| && |t| == REPLY_LENGTH && ReplyFields(s, f)
    requires forall k :: 0 <= k < 41 ==> s[k] == t[k]
    ensures ReplyAt(t) == f
  {
  }

  // ---- Sequence numbers ----

  lemma AcceptedCarriesNumber(number: u32, size: int, p: Probe)
    ensures Judged(number, size, p).Some? ==> Judged(number, size, p).value.seqNum == number
    ensures Judged(number, size, p).Some? <==> p.reply.Some? && U32At(Filled(p.reply.value, REPLY_LENGTH), 0) == number
  {
  }

  // Outcome k, when there is one, carries the number of probe k.
  predicate Numbered(first: nat, os: seq<Option<TwampResults>>)
  {
    forall k :: 0 <= k < |os| && os[k].Some? ==> os[k].value.seqNum == ToU32(first + k)
  }

  lemma OutcomesNumbered(first: nat, size: int, ps: seq<Probe>)
    ensures Numbered(first, Outcomes(first, size, ps))
  {
    hide Judged;
    var os := Outcomes(first, size, ps);
    forall k | 0 <= k < |os| && os[k].Some?
      ensures os[k].value.seqNum == ToU32(first + k)
    {
      AcceptedCarriesNumber(ToU32(first + k), size, ps[k]);
    }
  }

  predicate Increasing(lo: int, rs: seq<TwampResults>, hi: int)
  {
    && (forall i :: 0 <= i < |rs| ==> lo <= rs[i].seqNum < hi)
    && forall i, j :: 0 <= i < j < |rs| ==> rs[i].seqNum < rs[j].seqNum
  }

  lemma {:induction false} NumberedIncreasing(first: nat, os: seq<Option<TwampResults>>)
    requires Numbered(first, os) && first + |os| <= TWO32
    ensures Increasing(first, Kept(os), first + |os|)
  {
    hide ToU32, Increasing;
    if os == [] {
      NothingIncreasing(first);
    } else {
      var k := |os| - 1;
      NumberedIncreasing(first, os[..k]);
      InRange32(first + k);
      IncreasingStep(first, Kept(os[..k]), first + k, os[k]);
    }
  }

  lemma NothingIncreasing(lo: int)
    ensures Increasing(lo, [], lo)
  {
  }

  lemma IncreasingStep(lo: int, rs: seq<TwampResults>, k: int, o: Option<TwampResults>)
    requires lo <= k && Increasing(lo, rs, k) && (o.Some? ==> o.value.seqNum == k)
    ensures Increasing(lo, if o.None? then rs else rs + [o.value], k + 1)
  {
  }

  lemma InRange32(x: int)
    requires 0 <= x < TWO32
    ensures ToU32(x) == x
  {
  }

  // Whatever replies arrive, stale, reordered or repeated: the accepted results of fewer than 2^32 sends
  // carry strictly increasing numbers, those of their own probes.
  lemma AcceptedIncreasing(first: nat, size: int, ps: seq<Probe>)
    requires first + |ps| <= TWO32
    ensures Numbered(first, Outcomes(first, size, ps))
    ensures Increasing(first, Kept(Outcomes(first, size, ps)), first + |ps|)
  {
    OutcomesNumbered(first, size, ps);
    NumberedIncreasing(first, Outcomes(first, size, ps));
  }

  // Beyond that, two accepted results share a number exactly when whole multiples of 2^32 sends lie
  // between them.
  lemma NumbersRepeatExactly(first: nat, size: int, ps: seq<Probe>, i: nat, j: nat)
    requires i < |ps| && j < |ps|
    requires Outcomes(first, size, ps)[i].Some? && Outcomes(first, size, ps)[j].Some?
    ensures Outcomes(first, size, ps)[i].value.seqNum == Outcomes(first, size, ps)[j].value.seqNum
      <==> (i - j) % TWO32 == 0
  {
    hide Judged, ToU32;
    OutcomesNumbered(first, size, ps);
    Congruent32(first + i, first + j);
    assert (first + i) - (first + j) == i - j;
  }

  lemma Congruent32(x: int, y: int)
    ensures ToU32(x) == ToU32(y) <==> (x - y) % TWO32 == 0
  {
  }

  // Successive runs on one test are one run over all their probes.
  lemma RunsCompose(first: nat, size: int, ps: seq<Probe>, qs: seq<Probe>)
    ensures Outcomes(first, size, ps + qs)
         == Outcomes(first, size, ps) + Outcomes(ToU32(first + |ps|), size, qs)
  {
    hide Judged;
    var whole := Outcomes(first, size, ps + qs);
    var parts := Outcomes(first, size, ps) + Outcomes(ToU32(first + |ps|), size, qs);
    forall k | 0 <= k < |whole|
      ensures whole[k] == parts[k]
    {
      if k >= |ps| {
        Carry(first + |ps|, k - |ps|);
      }
    }
  }

  lemma Carry(x: nat, k: nat)
    ensures ToU32(ToU32(x) + k) == ToU32(x + k)
  {
  }

  // ---- A reflector that numbers its own replies, as section 4.2.1 of RFC 5357 has it ----

  function CountTrue(a: seq<bool>): nat
  {
    if a == [] then 0 else CountTrue(a[..|a| - 1]) + if a[|a| - 1] then 1 else 0
  }

  predicate All(a: seq<bool>) { forall i :: 0 <= i < |a| ==> a[i] }

  lemma {:induction false} CountAll(a: seq<bool>)
    ensures CountTrue(a) <= |a|
    ensures CountTrue(a) == |a| <==> All(a)
  {
    if a != [] {
      var b := a[..|a| - 1];
      CountAll(b);
      assert All(a) <==> All(b) && a[|a| - 1];
    }
  }

  // The reply to a probe that arrived carries the number of probes that arrived before it.
  predicate NumbersReplies(ps: seq<Probe>, arrived: seq<bool>)
  {
    |arrived| == |ps| && forall i :: 0 <= i < |ps| && ps[i].reply.Some? ==>
      arrived[i] && U32At(Filled(ps[i].reply.value, REPLY_LENGTH), 0) == ToU32(CountTrue(arrived[..i]))
  }

  // Against such a reflector the client accepts a reply exactly when every probe up to it arrived: the
  // first probe lost on the way out makes every later reply count as lost, too.
  lemma AcceptedUntilFirstLoss(size: int, ps: seq<Probe>, arrived: seq<bool>, i: nat)
    requires NumbersReplies(ps, arrived) && |ps| <= TWO32 && i < |ps|
    ensures Outcomes(0, size, ps)[i].Some? <==> ps[i].reply.Some? && All(arrived[..i + 1])
  {
    hide Judged;
    AcceptedCarriesNumber(ToU32(0 + i), size, ps[i]);
    InRange32(i);
    CountAll(arrived[..i]);
    InRange32(CountTrue(arrived[..i]));
    if ps[i].reply.Some? {
      assert All(arrived[..i + 1]) <==> All(arrived[..i]) by {
        assert arrived[..i + 1] == arrived[..i] + [true];
        assert All(arrived[..i]) ==> All(arrived[..i] + [true]);
        assert All(arrived[..i + 1]) ==> forall k :: 0 <= k < i ==> arrived[..i][k] == arrived[..i + 1][k];
      }
    }
  }

  // ---- Round-trip time ----

  // The reflector copies the sender's number and timestamp into its reply.
  predicate Echoes(reply: seq<u8>, pdu: seq<u8>)
    requires |reply| == REPLY_LENGTH && |pdu| >= HEADER_LENGTH
  {
    reply[24..36] == pdu[..12]
  }

  lemma EchoedFields(reply: seq<u8>, pdu: seq<u8>, number: u32, stamp: TwampTimestamp, filling: seq<u8>)
    requires |reply| == REPLY_LENGTH && IsTestMessage(pdu, number, stamp, filling) && Echoes(reply, pdu)
    ensures ReplyAt(reply).senderSeqNum == number && ReplyAt(reply).sender == stamp
  {
    var h := pdu[..HEADER_LENGTH];
    assert forall k :: 0 <= k < 12 ==> reply[24..36][k] == reply[24 + k] && pdu[..12][k] == h[k];
    Moved(h, 0, reply, 24);
    Moved(h, 4, reply, 28);
    Moved(h, 8, reply, 32);
  }

  lemma Moved(s: seq<u8>, i: nat, t: seq<u8>, j: nat)
    requires i + 4 <= |s| && j + 4 <= |t|
    requires s[i] == t[j] && s[i + 1] == t[j + 1] && s[i + 2] == t[j + 2] && s[i + 3] == t[j + 3]
    ensures U32At(s, i) == U32At(t, j)
  {
  }

  lemma NanosIdentify(t: Time, u: Time)
    requires IsTime(t) && IsTime(u)
    ensures Nanos(t) == Nanos(u) <==> t == u
  {
  }

  // Of all durations, Sub gives the nearest to the true difference.
  lemma SubIsNearest(t: Time, u: Time, x: i64)
    ensures Abs(Sub(t, u) - (Nanos(t) - Nanos(u))) <= Abs(x - (Nanos(t) - Nanos(u)))
  {
  }

  // A difference that Sub does not have to cut short.
  predicate Representable(d: int) { -TWO63 < d < TWO63 - 1 }

  lemma SubExactly(f: Time, s: Time, u: Time)
    requires IsTime(f) && IsTime(s) && IsTime(u) && Representable(Nanos(f) - Nanos(s))
    ensures Sub(f, u) == Nanos(f) - Nanos(s) <==> u == s
  {
    NanosIdentify(s, u);
  }

  // With an echoing reflector, the round-trip time is the finish minus the send exactly when the send
  // instant fits a timestamp and is no 29 February; on a 29 February it comes out a day too small.
  lemma EndToEnd(number: u32, size: int, p: Probe, pdu: seq<u8>)
    requires IsTime(p.sent) && IsTime(p.finished)
    requires IsTestMessage(pdu, number, NewTwampTimestamp(p.sent), p.filling)
    requires p.reply.Some? && Echoes(Filled(p.reply.value, REPLY_LENGTH), pdu)
    requires Judged(number, size, p).Some? && Representable(Nanos(p.finished) - Nanos(p.sent))
    ensures var r := Judged(number, size, p).value;
      && r.senderSeqNum == number
      && (GetRTT(r) == Nanos(p.finished) - Nanos(p.sent) <==> InRange(p.sent) && !OnLeapDay(p.sent))
      && (InRange(p.sent) && OnLeapDay(p.sent) && Representable(Nanos(p.finished) - Nanos(p.sent) - DAY * SECOND) ==>
            GetRTT(r) == Nanos(p.finished) - Nanos(p.sent) - DAY * SECOND)
  {
    hide GetTime, NewTwampTimestamp, Judged, GetRTT, OnLeapDay;
    var stamp := NewTwampTimestamp(p.sent);
    EchoedTime(number, size, p, pdu, stamp);
    ReadIsTime(stamp);
    RoundTripExactly(p.sent);
    SubExactly(p.finished, p.sent, GetTime(stamp));
    if InRange(p.sent) && OnLeapDay(p.sent) {
      LeapDayReadsAsMarch(p.sent);
    }
  }

  lemma EchoedTime(number: u32, size: int, p: Probe, pdu: seq<u8>, stamp: TwampTimestamp)
    requires IsTestMessage(pdu, number, stamp, p.filling)
    requires p.reply.Some? && Echoes(Filled(p.reply.value, REPLY_LENGTH), pdu) && Judged(number, size, p).Some?
    ensures var r := Judged(number, size, p).value;
      r.senderSeqNum == number && GetRTT(r) == Sub(p.finished, GetTime(stamp))
  {
    hide GetTime, ReplyAt, IsTestMessage, Sub;
    EchoedFields(Filled(p.reply.value, REPLY_LENGTH), pdu, number, stamp, p.filling);
  }

  lemma ReadIsTime(ts: TwampTimestamp)
    ensures IsTime(GetTime(ts))
  {
  }

  // ---- The reflector's side ----

  // A reply with the reflector's and the sender's clocks in it, laid out as the standard has it.
  function ReplyOf(number: u32, sent: Time, received: Time, senderNumber: u32, senderSent: Time,
                   error: u16, senderError: u16, ttl: u8): Reply
  {
    Reply(number, NewTwampTimestamp(sent), error, NewTwampTimestamp(received), senderNumber,
          NewTwampTimestamp(senderSent), senderError, ttl)
  }

  predicate Kept32(t: Time) { InRange(t) && !OnLeapDay(t) }

  // What the client makes of it: the number, the three clocks, each exactly when it fits a timestamp and is
  // no 29 February, the two error estimates and the time to live, each its own; and the local figures.
  lemma ReplyJudged(p: Probe, size: int, number: u32, sent: Time, received: Time, senderNumber: u32,
                    senderSent: Time, error: u16, senderError: u16, ttl: u8, unused: seq<u8>, padding: seq<u8>)
    requires IsTime(sent) && IsTime(received) && IsTime(senderSent) && |unused| == 2
    requires var f := ReplyOf(number, sent, received, senderNumber, senderSent, error, senderError, ttl);
      p.reply == Some(ReplyMessage(f, unused, unused, padding))
    ensures Judged(number, size, p).Some?
    ensures var r := Judged(number, size, p).value;
      && r.seqNum == number && r.senderSeqNum == senderNumber && r.senderTTL == ttl
      && r.errorEstimate == error && r.senderErrorEstimate == senderError
      && r.finishedTimestamp == p.finished && r.senderSize == size
      && (r.timestamp == sent <==> Kept32(sent)) && (r.receiveTimestamp == received <==> Kept32(received))
      && (r.senderTimestamp == senderSent <==> Kept32(senderSent))
      && IsTime(r.timestamp) && IsTime(r.receiveTimestamp)
  {
    hide GetTime, NewTwampTimestamp, ReplyMessage, ReplyAt, InRange, OnLeapDay;
    var f := ReplyOf(number, sent, received, senderNumber, senderSent, error, senderError, ttl);
    ReplyDecodes(f, unused, unused, padding);
    RoundTripExactly(sent);
    RoundTripExactly(received);
    RoundTripExactly(senderSent);
    ReadIsTime(NewTwampTimestamp(sent));
    ReadIsTime(NewTwampTimestamp(received));
  }

  // The reported wait is the time from receiving the probe to answering it, if both clocks are kept.
  lemma WaitOfReply(p: Probe, size: int, number: u32, sent: Time, received: Time, senderNumber: u32,
                    senderSent: Time, error: u16, senderError: u16, ttl: u8, unused: seq<u8>, padding: seq<u8>)
    requires IsTime(sent) && IsTime(received) && IsTime(senderSent) && |unused| == 2
    requires var f := ReplyOf(number, sent, received, senderNumber, senderSent, error, senderError, ttl);
      p.reply == Some(ReplyMessage(f, unused, unused, padding))
    requires Kept32(sent) && Kept32(received) && Representable(Nanos(sent) - Nanos(received))
    ensures Judged(number, size, p).Some?
    ensures GetWait(Judged(number, size, p).value) == Nanos(sent) - Nanos(received)
  {
    hide NewTwampTimestamp, ReplyMessage, Judged, InRange, OnLeapDay;
    ReplyJudged(p, size, number, sent, received, senderNumber, senderSent, error, senderError, ttl, unused, padding);
  }

  // The results of a run are exactly the accepted outcomes.
  lemma {:induction false} KeptExactly(os: seq<Option<TwampResults>>, r: TwampResults)
    ensures r in Kept(os) <==> Some(r) in os
    ensures |Kept(os)| == |os| <==> forall i :: 0 <= i < |os| ==> os[i].Some?
  {
    if os != [] {
      var n := |os| - 1;
      KeptExactly(os[..n], r);
      assert os == os[..n] + [os[n]];
      assert forall i :: 0 <= i < n ==> os[..n][i] == os[i];
    }
  }

  // ---- Statistics ----

  // For non-negative times: the extremes bound every time and are taken on, except that a lost first probe
  // makes the minimum zero; the jitter is the mean step rounded down, between the mean distance from first
  // to last and the spread.
  lemma StatisticsBounds(st: Stats, os: seq<Option<TwampResults>>, count: int)
    requires 1 <= count == |os| < TWO63 && Summarizes(st, os, count)
    requires Between(0, Rtts(Kept(os)), TWO63 - 1)
    ensures st.received == |Rtts(Kept(os))| <= st.transmitted == count
    ensures Between(st.min, Rtts(Kept(os)), st.max)
    ensures if Kept(os) == [] then st.max == 0 else st.max in Rtts(Kept(os))
    ensures st.min in Rtts(Kept(os)) <==> FirstKept(os) || 0 in Rtts(Kept(os))
    ensures !FirstKept(os) ==> st.min == 0
    ensures 0 <= st.jitter <= st.max - st.min
    ensures st.received < 2 ==> st.jitter == 0
    ensures st.received >= 2 ==>
      var s := Rtts(Kept(os)); var n := st.received - 1;
      && st.jitter * n <= Variation(s) < st.jitter * n + n
      && st.jitter >= Abs(s[n] - s[0]) / n
  {
    hide GetRTT, ToI64, Average, JitterOf, Kept, Rtts, Variation;
    var s := Rtts(Kept(os));
    ExtremesBound(st.min, st.max, FirstKept(os), s);
    JitterBound(s, st.min, st.max);
    JitterLaws(s);
  }

  // The average counts lost probes as zero; it is bounded as long as the sum is a duration.
  lemma AverageInBounds(st: Stats, os: seq<Option<TwampResults>>, count: int)
    requires 1 <= count == |os| < TWO63 && Summarizes(st, os, count)
    requires Between(0, Rtts(Kept(os)), TWO63 - 1) && Sum(Rtts(Kept(os))) < TWO63
    ensures 0 <= st.avg <= st.max && st.avg == Sum(Rtts(Kept(os))) / count
    ensures st.received == count ==> st.min <= st.avg
  {
    hide GetRTT, ToI64, Average, JitterOf, Kept, Rtts;
    var s := Rtts(Kept(os));
    ExtremesBound(st.min, st.max, FirstKept(os), s);
    SumBound(s, 0, TWO63 - 1);
    AverageBounds(s, st.min, st.max, count);
    AverageExactly(s, count);
  }

  // A reflector that leaves the sender's timestamp zero.
  predicate ZeroStamped(p: Probe, number: u32)
  {
    && p.reply.Some? && U32At(Filled(p.reply.value, REPLY_LENGTH), 0) == number
    && StampAt(Filled(p.reply.value, REPLY_LENGTH), 28) == TwampTimestamp(0, 0)
    && IsTime(p.finished) && 891011200 <= p.finished.sec < 3791011200
  }

  lemma ZeroStampedTime(number: u32, size: int, p: Probe)
    requires ZeroStamped(p, number)
    ensures Judged(number, size, p).Some?
    ensures 3100000000 * SECOND <= GetRTT(Judged(number, size, p).value) <= 6000000000 * SECOND
  {
    hide GetTime, U16At, U32At;
    ZeroReadsAsFirst();
  }

  // Against it, any three probes that finish between the years 1998 and 2090 are all accepted and give
  // positive times, but a negative average: the sum leaves 63 bits.
  lemma ZeroStampsTurnAverageNegative(size: int, ps: seq<Probe>, st: Stats)
    requires |ps| == 3 && forall i :: 0 <= i < 3 ==> ZeroStamped(ps[i], i)
    requires Summarizes(st, Outcomes(0, size, ps), 3)
    ensures st.received == 3 && st.min > 0 && st.avg < 0
  {
    hide GetRTT, Judged, ToI64, Average, JitterOf, ZeroStamped;
    var os := Outcomes(0, size, ps);
    forall i | 0 <= i < 3
      ensures os[i].Some? && 3100000000 * SECOND <= GetRTT(os[i].value) <= 6000000000 * SECOND
    {
      InRange32(i);
      ZeroStampedTime(i, size, ps[i]);
    }
    KeptThree(os);
    var s := Rtts(Kept(os));
    SumBound(s, 3100000000 * SECOND, 6000000000 * SECOND);
    AverageNegativeExactly(s, 3);
    assert st.min in s;
  }

  lemma KeptThree(os: seq<Option<TwampResults>>)
    requires |os| == 3 && os[0].Some? && os[1].Some? && os[2].Some?
    ensures Kept(os) == [os[0].value, os[1].value, os[2].value]
  {
    assert os[..2][..1] == os[..1] && os[..1][..0] == [];
    assert Kept(os[..1]) == [os[0].value];
    assert Kept(os[..2]) == [os[0].value, os[1].value];
  }

  lemma ExtremesBound(min: int, max: int, firstKept: bool, s: seq<int>)
    requires Extremes(min, max, firstKept, s) && Between(0, s, TWO63 - 1)
    ensures Between(min, s, max) && 0 <= min <= max
    ensures if s == [] then max == 0 else max in s
    ensures min in s <==> firstKept || 0 in s
    ensures !firstKept ==> min == 0
  {
    var c := Considered(firstKept, s);
    if !firstKept {
      forall i | 0 <= i < |s|
        ensures min <= s[i] <= max
      {
        assert c[i + 1] == s[i];
      }
      assert c[0] == 0 && min == 0;
      if s != [] && max == 0 {
        assert s[0] == 0;
      }
    }
  }
}
