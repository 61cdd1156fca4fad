/** The Request-TW-Session message of section 3.5 of RFC 5357, written in place at fixed offsets, and
    the Accept-Session message that answers it. */
module TwampSession {
  import opened GoTypes
  import opened Wire
  import opened Timestamps

  datatype Config = Config(senderPort: int, receiverPort: int, padding: int, timeout: int, tos: int)

  const REQUEST_LENGTH: nat := 112

  // The fields of the message. The timeout's fraction is a field of its own.
  datatype Request = Request(command: u8, senderPort: u16, receiverPort: u16, sender: u32, receiver: u32,
                             padding: u32, start: TwampTimestamp, timeout: TwampTimestamp, typeP: u32)

  function ReadRequest(s: seq<u8>): Request
    requires |s| == REQUEST_LENGTH
  {
    Request(s[0], U16At(s, 12), U16At(s, 14), U32At(s, 16), U32At(s, 32), U32At(s, 64),
            TwampTimestamp(U32At(s, 68), U32At(s, 72)), TwampTimestamp(U32At(s, 76), U32At(s, 80)), U32At(s, 84))
  }

  // The bytes that belong to a field.
  predicate InField(k: int) { k == 0 || 12 <= k < 20 || 32 <= k < 36 || 64 <= k < 88 }

  predicate Carries(s: seq<u8>, r: Request)
  {
    |s| == REQUEST_LENGTH && ReadRequest(s) == r && forall k :: 0 <= k < |s| && !InField(k) ==> s[k] == 0
  }

  // What a client at `local`, connected to `remote`, asks for.
  function RequestOf(c: Config, local: u32, remote: u32, start: TwampTimestamp): Request
  {
    Request(5, ToU16(c.senderPort), ToU16(c.receiverPort), local, remote, ToU32(c.padding),
            start, TwampTimestamp(ToU32(c.timeout), 0), ToU32(c.tos))
  }

  method Encode(b: array<u8>, c: Config, local: u32, remote: u32, now: Time)
    requires b.Length == REQUEST_LENGTH
    modifies b
    ensures ReadRequest(b[..]) == RequestOf(c, local, remote, NewTwampTimestamp(now))
    ensures forall k :: 0 <= k < b.Length && !InField(k) ==> b[k] == old(b[k])
  {
    var start := NewTwampTimestamp(now);
    b[0] := 5;
    PutU16(b, 12, ToU16(c.senderPort));
    PutU16(b, 14, ToU16(c.receiverPort));
    PutU32(b, 16, local);
    PutU32(b, 32, remote);
    PutU32(b, 64, ToU32(c.padding));
    PutU32(b, 68, start.integer);
    PutU32(b, 72, start.fraction);
    PutU32(b, 76, ToU32(c.timeout));
    PutU32(b, 80, 0);
    PutU32(b, 84, ToU32(c.tos));
  }

  // A message carries one request, and a request makes one message: its fields do not overlap and
  // nothing else varies.
  lemma MessagesIdentify(s: seq<u8>, r: Request, t: seq<u8>, q: Request)
    requires Carries(s, r) && Carries(t, q)
    ensures s == t <==> r == q
  {
    if r == q {
      SameField16(s, t, 12);
      SameField16(s, t, 14);
      SameField32(s, t, 16);
      SameField32(s, t, 32);
      SameField32(s, t, 64);
      SameField32(s, t, 68);
      SameField32(s, t, 72);
      SameField32(s, t, 76);
      SameField32(s, t, 80);
      SameField32(s, t, 84);
    }
  }

  lemma SameField16(s: seq<u8>, t: seq<u8>, i: nat)
    requires i + 2 <= |s| && i + 2 <= |t| && U16At(s, i) == U16At(t, i)
    ensures forall k :: i <= k < i + 2 ==> s[k] == t[k]
  {
    U16Identifies(s, i, t, i);
    forall k | i <= k < i + 2
      ensures s[k] == t[k]
    {
      assert s[i..i + 2][k - i] == t[i..i + 2][k - i];
    }
  }

  lemma SameField32(s: seq<u8>, t: seq<u8>, i: nat)
    requires i + 4 <= |s| && i + 4 <= |t| && U32At(s, i) == U32At(t, i)
    ensures forall k :: i <= k < i + 4 ==> s[k] == t[k]
  {
    U32Identifies(s, i, t, i);
    forall k | i <= k < i + 4
      ensures s[k] == t[k]
    {
      assert s[i..i + 4][k - i] == t[i..i + 4][k - i];
    }
  }

  // ---- The layout of the standard ----

  // The fields of section 3.5 of RFC 5357 in their order: command, version, conf-sender and
  // conf-receiver, slots, packets, ports, addresses of sixteen bytes each, session id, padding length, start
  // time, timeout, type-P descriptor, reserved bytes and HMAC. Those the client does not set are zero.
  function RequestMessage(r: Request): (s: seq<u8>)
    ensures |s| == REQUEST_LENGTH
  {
    [r.command] + Zeros(1) + Zeros(2) + Zeros(4) + Zeros(4) + FromPorts(r)
  }

  function FromPorts(r: Request): (s: seq<u8>)
    ensures |s| == 100
  {
    U16Bytes(r.senderPort) + (U16Bytes(r.receiverPort) + (U32Bytes(r.sender) + (Zeros(12) + FromReceiver(r))))
  }

  function FromReceiver(r: Request): (s: seq<u8>)
    ensures |s| == 80
  {
    U32Bytes(r.receiver) + (Zeros(12) + (Zeros(16) + FromPadding(r)))
  }

  function FromPadding(r: Request): (s: seq<u8>)
    ensures |s| == 48
  {
    U32Bytes(r.padding) + (U32Bytes(r.start.integer) + (U32Bytes(r.start.fraction) +
    (U32Bytes(r.timeout.integer) + (U32Bytes(r.timeout.fraction) + (U32Bytes(r.typeP) + (Zeros(8) + Zeros(16)))))))
  }

  predicate PaddingFields(s: seq<u8>, at: nat, r: Request)
    requires |s| == at + 48
  {
    && U32At(s, at) == r.padding && U32At(s, at + 4) == r.start.integer && U32At(s, at + 8) == r.start.fraction
    && U32At(s, at + 12) == r.timeout.integer && U32At(s, at + 16) == r.timeout.fraction && U32At(s, at + 20) == r.typeP
    && ZerosAt(s, at + 24, at + 48)
  }

  predicate ZerosAt(s: seq<u8>, from: int, to: int) { forall k :: 0 <= from <= k < to <= |s| ==> s[k] == 0 }

  lemma FromPaddingFields(r: Request)
    ensures PaddingFields(FromPadding(r), 0, r)
  {
    hide U32Bytes, Zeros, U32At;
    var f := Zeros(8) + Zeros(16);
    var e := U32Bytes(r.typeP) + f;
    var d := U32Bytes(r.timeout.fraction) + e;
    var c := U32Bytes(r.timeout.integer) + d;
    var b := U32Bytes(r.start.fraction) + c;
    var a := U32Bytes(r.start.integer) + b;
    Behind(U32Bytes(r.typeP), f);
    Behind(U32Bytes(r.timeout.fraction), e);
    Behind(U32Bytes(r.timeout.integer), d);
    Behind(U32Bytes(r.start.fraction), c);
    Behind(U32Bytes(r.start.integer), b);
    Behind(U32Bytes(r.padding), a);
  }

  predicate ReceiverFields(s: seq<u8>, at: nat, r: Request)
    requires |s| == at + 80
  {
    U32At(s, at) == r.receiver && ZerosAt(s, at + 4, at + 32) && PaddingFields(s, at + 32, r)
  }

  lemma PaddingBehind(a: seq<u8>, s: seq<u8>, at: nat, r: Request)
    requires |s| == at + 48 && PaddingFields(s, at, r)
    ensures PaddingFields(a + s, |a| + at, r)
  {
    hide U32At;
    Behind(a, s);
  }

  lemma FromReceiverFields(r: Request)
    ensures ReceiverFields(FromReceiver(r), 0, r)
  {
    hide U32Bytes, Zeros, U32At, PaddingFields, FromPadding;
    var m := FromPadding(r);
    FromPaddingFields(r);
    PaddingBehind(Zeros(16), m, 0, r);
    PaddingBehind(Zeros(12), Zeros(16) + m, 16, r);
    PaddingBehind(U32Bytes(r.receiver), Zeros(12) + (Zeros(16) + m), 28, r);
    Behind(U32Bytes(r.receiver), Zeros(12) + (Zeros(16) + m));
  }

  lemma ReceiverBehind(a: seq<u8>, s: seq<u8>, at: nat, r: Request)
    requires |s| == at + 80 && ReceiverFields(s, at, r)
    ensures ReceiverFields(a + s, |a| + at, r)
  {
    hide U32At, PaddingFields;
    Behind(a, s);
    PaddingBehind(a, s, at + 32, r);
    assert |a| + (at + 32) == |a| + at + 32;
  }

  predicate PortFields(s: seq<u8>, at: nat, r: Request)
    requires |s| == at + 100
  {
    && U16At(s, at) == r.senderPort && U16At(s, at + 2) == r.receiverPort && U32At(s, at + 4) == r.sender
    && ZerosAt(s, at + 8, at + 20) && ReceiverFields(s, at + 20, r)
  }

  lemma FromPortsFields(r: Request)
    ensures PortFields(FromPorts(r), 0, r)
  {
    hide U16Bytes, U32Bytes, Zeros, U16At, U32At, ReceiverFields, FromReceiver;
    var a := Zeros(12) + FromReceiver(r);
    var b := U32Bytes(r.sender) + a;
    var c := U16Bytes(r.receiverPort) + b;
    FromReceiverFields(r);
    ReceiverBehind(Zeros(12), FromReceiver(r), 0, r);
    ReceiverBehind(U32Bytes(r.sender), a, 12, r);
    ReceiverBehind(U16Bytes(r.receiverPort), b, 16, r);
    ReceiverBehind(U16Bytes(r.senderPort), c, 18, r);
    Behind(U32Bytes(r.sender), a);
    Behind(U16Bytes(r.receiverPort), b);
    Behind(U16Bytes(r.senderPort), c);
  }

  lemma PortsBehind(a: seq<u8>, s: seq<u8>, r: Request)
    requires |s| == 100 && PortFields(s, 0, r)
    ensures PortFields(a + s, |a|, r)
  {
    hide U16At, U32At, ReceiverFields;
    Behind(a, s);
    ReceiverBehind(a, s, 20, r);
  }

  // The message the client writes at fixed offsets is the standard's sequence of fields, and no other.
  lemma CarriesExactly(s: seq<u8>, r: Request)
    ensures Carries(s, r) <==> s == RequestMessage(r)
  {
    StandardCarries(r);
    if Carries(s, r) {
      MessagesIdentify(s, r, RequestMessage(r), r);
    }
  }

  lemma StandardCarries(r: Request)
    ensures Carries(RequestMessage(r), r)
  {
    hide U16Bytes, U32Bytes, U16At, U32At, FromPorts;
    var head := [r.command] + Zeros(1) + Zeros(2) + Zeros(4) + Zeros(4);
    FromPortsFields(r);
    PortsBehind(head, FromPorts(r), r);
    var s := RequestMessage(r);
    assert s[0] == r.command && ZerosAt(s, 1, 12);
    assert s == head + FromPorts(r);
    forall k | 0 <= k < |s| && !InField(k)
      ensures s[k] == 0
    {
    }
  }

  predicate FitsWidths(c: Config)
  {
    && 0 <= c.senderPort < TWO16 && 0 <= c.receiverPort < TWO16
    && 0 <= c.padding < TWO32 && 0 <= c.timeout < TWO32 && 0 <= c.tos < TWO32
  }

  // The configuration a server reads.
  function ConfigOf(r: Request): Config
  {
    Config(r.senderPort, r.receiverPort, r.padding, r.timeout.integer, r.typeP)
  }

  lemma Kept16(x: int)
    ensures ToU16(x) == x <==> 0 <= x < TWO16
  {
  }

  lemma Kept32(x: int)
    ensures ToU32(x) == x <==> 0 <= x < TWO32
  {
  }

  lemma ConfigKept(c: Config, local: u32, remote: u32, start: TwampTimestamp)
    ensures ConfigOf(RequestOf(c, local, remote, start)) == c <==> FitsWidths(c)
  {
    Kept16(c.senderPort);
    Kept16(c.receiverPort);
    Kept32(c.padding);
    Kept32(c.timeout);
    Kept32(c.tos);
  }

  // Which byte carries what: the command is 5, ports and lengths are cut to their widths, the client's own
  // address comes before the server's.
  lemma RequestBytes(s: seq<u8>, c: Config, local: u32, remote: u32, start: TwampTimestamp)
    requires Carries(s, RequestOf(c, local, remote, start))
    ensures s[0] == 5 && U32At(s, 16) == local && U32At(s, 32) == remote
    ensures (U16At(s, 12) - c.senderPort) % 0x1_0000 == 0 && (U16At(s, 14) - c.receiverPort) % 0x1_0000 == 0
    ensures (U32At(s, 64) - c.padding) % 0x1_0000_0000 == 0 && (U32At(s, 76) - c.timeout) % 0x1_0000_0000 == 0
    ensures (U32At(s, 84) - c.tos) % 0x1_0000_0000 == 0 && U32At(s, 80) == 0
    ensures U32At(s, 68) == start.integer && U32At(s, 72) == start.fraction
  {
    hide ToU16, ToU32, U16At, U32At;
    Cut16(c.senderPort);
    Cut16(c.receiverPort);
    Cut32(c.padding);
    Cut32(c.timeout);
    Cut32(c.tos);
  }

  lemma Cut16(x: int)
    ensures (ToU16(x) - x) % 0x1_0000 == 0
  {
  }

  lemma Cut32(x: int)
    ensures (ToU32(x) - x) % 0x1_0000_0000 == 0
  {
  }

  // A server reads the client's configuration exactly when every field fits its width, and the client's
  // clock exactly when the instant fits and is no 29 February.
  lemma ServerReadsExactly(s: seq<u8>, c: Config, local: u32, remote: u32, now: Time)
    requires Carries(s, RequestOf(c, local, remote, NewTwampTimestamp(now))) && IsTime(now)
    ensures ConfigOf(ReadRequest(s)) == c <==> FitsWidths(c)
    ensures GetTime(ReadRequest(s).start) == now <==> InRange(now) && !OnLeapDay(now)
  {
    ConfigKept(c, local, remote, NewTwampTimestamp(now));
    RoundTripExactly(now);
  }

  // Two clients send the same message exactly when they agree on addresses and on the encoded start
  // time, and their fields agree modulo the widths.
  lemma SameMessageExactly(s: seq<u8>, c: Config, local: u32, remote: u32, start: TwampTimestamp,
                           t: seq<u8>, d: Config, local': u32, remote': u32, start': TwampTimestamp)
    requires Carries(s, RequestOf(c, local, remote, start)) && Carries(t, RequestOf(d, local', remote', start'))
    ensures s == t <==>
      && local == local' && remote == remote' && start == start'
      && (c.senderPort - d.senderPort) % TWO16 == 0 && (c.receiverPort - d.receiverPort) % TWO16 == 0
      && (c.padding - d.padding) % TWO32 == 0 && (c.timeout - d.timeout) % TWO32 == 0 && (c.tos - d.tos) % TWO32 == 0
  {
    MessagesIdentify(s, RequestOf(c, local, remote, start), t, RequestOf(d, local', remote', start'));
    Congruent16(c.senderPort, d.senderPort);
    Congruent16(c.receiverPort, d.receiverPort);
    Congruent32(c.padding, d.padding);
    Congruent32(c.timeout, d.timeout);
    Congruent32(c.tos, d.tos);
  }

  lemma Congruent16(x: int, y: int)
    ensures ToU16(x) == ToU16(y) <==> (x - y) % TWO16 == 0
  {
  }

  lemma Congruent32(x: int, y: int)
    ensures ToU32(x) == ToU32(y) <==> (x - y) % TWO32 == 0
  {
  }

  // ---- The answer ----

  datatype Acceptance = Acceptance(accept: u8, port: u16, sid: seq<u8>)

  // The buffer is passed by value: the caller's is not consumed.
  method NewTwampAcceptSession(data: seq<u8>) returns (m: Acceptance)
    requires |data| >= 20
    ensures m == Acceptance(data[0], U16At(data, 2), data[4..20])
  {
    var buf := new Buffer(data);
    var first := buf.Next(1);
    var mbz := buf.Next(1);
    var port := buf.NextU16();
    var sid := buf.Next(16);
    m := Acceptance(first[0], port, sid);
  }

  // checkAcceptStatus: the five codes of the standard are errors, and every other one passes.
  predicate Refused(accept: u8)
  {
    || accept == 1 || accept == 2 || accept == 3 || accept == 4 || accept == 5
  }

  const ACCEPT_LENGTH: nat := 48

  // `reply` is what one read returned, None when it failed. The result is the port of the session, which
  // exists for code 0, of an empty answer too, and for unknown codes.
  method CreateSession(c: Config, local: u32, remote: u32, now: Time, reply: Option<seq<u8>>)
    returns (message: seq<u8>, port: Option<u16>)
    ensures Carries(message, RequestOf(c, local, remote, NewTwampTimestamp(now)))
    ensures port.Some? <==> reply.Some? && (reply.value == [] || reply.value[0] == 0 || reply.value[0] >= 6)
    ensures port.Some? ==> port.value == U16At(Filled(reply.value, ACCEPT_LENGTH), 2)
  {
    var pdu := new u8[REQUEST_LENGTH](_ => 0);
    Encode(pdu, c, local, remote, now);
    message := pdu[..];
    if reply.None? {
      return message, None;
    }
    var acceptance := NewTwampAcceptSession(Filled(reply.value, ACCEPT_LENGTH));
    port := if Refused(acceptance.accept) then None else Some(acceptance.port);
  }
}
