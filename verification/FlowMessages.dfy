/** Flow accounting over the messages themselves: what `Publish` makes of them, per flow and in total. */
module FlowMessages {
  import opened GoTypes
  import opened IpAddress
  import opened FlowKeys
  import opened FlowWindows

  // A message with the registry at the time it came in.
  datatype Receipt = Receipt(names: Names, msg: Message)

  function Updates(rs: seq<Receipt>): (us: seq<Update>)
    ensures |us| == |rs| && forall i :: 0 <= i < |rs| ==> us[i] == UpdateOf(rs[i].names, rs[i].msg)
  {
    seq(|rs|, i requires 0 <= i < |rs| => UpdateOf(rs[i].names, rs[i].msg))
  }

  function Batch(names: Names, msgs: seq<Message>): (rs: seq<Receipt>)
    ensures |rs| == |msgs| && forall i :: 0 <= i < |msgs| ==> rs[i] == Receipt(names, msgs[i])
  {
    seq(|msgs|, i requires 0 <= i < |msgs| => Receipt(names, msgs[i]))
  }

  lemma BatchUpdates(names: Names, msgs: seq<Message>)
    ensures Updates(Batch(names, msgs)) == UpdatesOf(names, msgs)
  {
  }

  // ---- Messages of a flow ----

  // The message has the five-tuple of the flow: protocol and ports cut to their widths.
  predicate Belongs(msg: Message, fk: FlowKey)
  {
    && msg.proto % 0x100 == fk.protocol && msg.srcPort % 0x1_0000 == fk.srcPort && msg.dstPort % 0x1_0000 == fk.dstPort
    && Meaning(msg.srcAddr) == Meaning(fk.srcAddr) && Meaning(msg.dstAddr) == Meaning(fk.dstAddr)
  }

  // A message is filed under the key of a flow exactly when it belongs to it, IPv6 to IPv6 aside.
  lemma FiledExactly(msg: Message, fk: FlowKey)
    requires !(Meaning(fk.srcAddr).V6? && Meaning(fk.dstAddr).V6?)
    ensures AsKey(FlowOf(msg)) == AsKey(fk) <==> Belongs(msg, fk)
  {
    AsKeyIdentifies(fk, FlowOf(msg));
  }

  predicate Filed(r: Receipt, key: string) { AsKey(FlowOf(r.msg)) == key }

  function Own(rs: seq<Receipt>, key: string): seq<Receipt>
  {
    if rs == [] then []
    else
      var n := |rs| - 1;
      Own(rs[..n], key) + if Filed(rs[n], key) then [rs[n]] else []
  }

  lemma {:induction false} OwnExactly(rs: seq<Receipt>, key: string)
    ensures forall r :: r in Own(rs, key) <==> r in rs && Filed(r, key)
  {
    if rs != [] {
      hide Filed;
      var n := |rs| - 1;
      OwnExactly(rs[..n], key);
      assert rs == rs[..n] + [rs[n]];
    }
  }

  // ---- Sums ----

  function BytesOf(rs: seq<Receipt>): nat { if rs == [] then 0 else BytesOf(rs[..|rs| - 1]) + rs[|rs| - 1].msg.bytes }

  function PacketsOf(rs: seq<Receipt>): nat
  {
    if rs == [] then 0 else PacketsOf(rs[..|rs| - 1]) + rs[|rs| - 1].msg.packets
  }

  lemma {:induction false} SumsOfUpdates(rs: seq<Receipt>)
    ensures Sum(Updates(rs), Bytes) == BytesOf(rs) && Sum(Updates(rs), Packets) == PacketsOf(rs)
  {
    if rs != [] {
      hide AsKey;
      var n := |rs| - 1;
      SumsOfUpdates(rs[..n]);
      assert Updates(rs)[..n] == Updates(rs[..n]);
    }
  }

  lemma {:induction false} OwnUpdates(rs: seq<Receipt>, key: string)
    ensures Of(Updates(rs), key) == Updates(Own(rs, key))
  {
    if rs != [] {
      hide AsKey;
      var n := |rs| - 1;
      OwnUpdates(rs[..n], key);
      assert Updates(rs)[..n] == Updates(rs[..n]);
      UpdatesSnoc(Own(rs[..n], key), rs[n]);
      assert Updates(Own(rs[..n], key) + []) == Updates(Own(rs[..n], key)) + [];
    }
  }

  lemma UpdatesSnoc(rs: seq<Receipt>, r: Receipt)
    ensures Updates(rs + [r]) == Updates(rs) + [UpdateOf(r.names, r.msg)]
  {
  }

  // ---- What a window holds ----

  function RegisteredName(names: Names, id: u32): string { if id in names then names[id] else "N/A" }

  // For every key, the window holds the sums of the bytes and of the packets of its own messages modulo
  // 2^64, the flow of the first of them, and the interface names that the registry had for the last.
  ghost predicate Accounts(a: Aggregate, own: seq<Receipt>)
    requires own != []
  {
    var first, last := own[0].msg, own[|own| - 1];
    && a.bytes == BytesOf(own) % TWO64 && a.packets == PacketsOf(own) % TWO64
    && a.inIf == RegisteredName(last.names, last.msg.inIf) && a.outIf == RegisteredName(last.names, last.msg.outIf)
    && a.flow == FlowKey(first.proto % 0x100, first.srcAddr, first.dstAddr, first.srcPort % 0x1_0000,
                         first.dstPort % 0x1_0000)
  }

  lemma WindowAccounts(rs: seq<Receipt>, key: string)
    ensures key in Published(map[], Updates(rs)) <==> Own(rs, key) != []
    ensures Own(rs, key) != [] ==> Accounts(Published(map[], Updates(rs))[key], Own(rs, key))
  {
    hide AsKey, Published, Of, Own;
    PublishedSums(Updates(rs), key);
    OwnUpdates(rs, key);
    if Own(rs, key) != [] {
      ExpectedAccounts(Own(rs, key));
    }
  }

  lemma ExpectedAccounts(own: seq<Receipt>)
    requires own != []
    ensures Accounts(Expected(Updates(own)), own)
  {
    hide AsKey, Sum, BytesOf, PacketsOf;
    SumsOfUpdates(own);
  }

  // The same for the flow that a caller has in mind: its own messages are those that belong to it.
  lemma FlowAccounts(rs: seq<Receipt>, fk: FlowKey)
    requires !(Meaning(fk.srcAddr).V6? && Meaning(fk.dstAddr).V6?)
    ensures AsKey(fk) in Published(map[], Updates(rs)) <==> exists i :: 0 <= i < |rs| && Belongs(rs[i].msg, fk)
    ensures forall r :: r in Own(rs, AsKey(fk)) <==> r in rs && Belongs(r.msg, fk)
  {
    hide AsKey, Belongs, Published, Own;
    WindowAccounts(rs, AsKey(fk));
    OwnExactly(rs, AsKey(fk));
    forall r: Receipt
      ensures Filed(r, AsKey(fk)) <==> Belongs(r.msg, fk)
    {
      FiledExactly(r.msg, fk);
    }
    if i :| 0 <= i < |rs| && Belongs(rs[i].msg, fk) {
      assert rs[i] in Own(rs, AsKey(fk));
    }
    if Own(rs, AsKey(fk)) != [] {
      var r := Own(rs, AsKey(fk))[0];
      assert r in rs;
      var i :| 0 <= i < |rs| && rs[i] == r;
    }
  }

  // ---- Conservation ----

  // A run of the program: batches of messages, each with the registry of its time, and drains.
  datatype Action = Receive(batch: seq<Receipt>) | Drain(now: int)

  function EventOf(a: Action): Event
  {
    match a
    case Receive(batch) => Publish(Updates(batch))
    case Drain(now) => GetFlows(now)
  }

  function Events(run: seq<Action>): (es: seq<Event>)
    ensures |es| == |run|
  {
    seq(|run|, i requires 0 <= i < |run| => EventOf(run[i]))
  }

  function AllReceived(run: seq<Action>): seq<Receipt>
  {
    if run == [] then []
    else
      var n := |run| - 1;
      AllReceived(run[..n]) + if run[n].Receive? then run[n].batch else []
  }

  lemma {:induction false} AllPublishedIs(run: seq<Action>)
    ensures AllPublished(Events(run)) == Updates(AllReceived(run))
  {
    if run != [] {
      hide AsKey;
      var n := |run| - 1;
      AllPublishedIs(run[..n]);
      assert Events(run)[..n] == Events(run[..n]);
      UpdatesConcat(AllReceived(run[..n]), if run[n].Receive? then run[n].batch else []);
    }
  }

  lemma UpdatesConcat(a: seq<Receipt>, b: seq<Receipt>)
    ensures Updates(a + b) == Updates(a) + Updates(b)
  {
  }

  // The bytes and packets in the live window and in all drained ones.
  ghost function LiveAndDrained(run: seq<Action>, start: int, m: Metric): nat
  {
    Accounted(After(start, Events(run)), m)
  }

  // Over every run, bytes in the live and the drained windows are the bytes of all messages received, and
  // so for packets: modulo 2^64, and exactly below it.
  lemma MessagesConserved(run: seq<Action>, start: int)
    ensures Congruent(LiveAndDrained(run, start, Bytes), BytesOf(AllReceived(run)))
    ensures Congruent(LiveAndDrained(run, start, Packets), PacketsOf(AllReceived(run)))
    ensures BytesOf(AllReceived(run)) < TWO64 ==> LiveAndDrained(run, start, Bytes) == BytesOf(AllReceived(run))
    ensures PacketsOf(AllReceived(run)) < TWO64 ==> LiveAndDrained(run, start, Packets) == PacketsOf(AllReceived(run))
  {
    hide Accounted, Congruent, Sum, BytesOf, PacketsOf;
    Conservation(start, Events(run), Bytes);
    Conservation(start, Events(run), Packets);
    AllPublishedIs(run);
    SumsOfUpdates(AllReceived(run));
  }

  // ---- The counters of a window ----

  ghost function ByteCounters(w: Window): map<string, nat> { map k | k in w :: w[k].bytes }

  ghost function PacketCounters(w: Window): map<string, nat> { map k | k in w :: w[k].packets }

  lemma TotalsOfWindow(w: Window)
    ensures Total(w, Bytes) == SumMap(ByteCounters(w)) && Total(w, Packets) == SumMap(PacketCounters(w))
  {
    assert Counters(w, Bytes) == ByteCounters(w) && Counters(w, Packets) == PacketCounters(w);
  }
}
