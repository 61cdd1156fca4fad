/** Bytes on the wire: the big-endian integers of package `encoding/binary` and the read cursor of
    `bytes.Buffer`. */
module Wire {
  import opened GoTypes

  function U16At(s: seq<u8>, i: nat): u16
    requires i + 2 <= |s|
  {
    s[i] as int * 0x100 + s[i + 1]
  }

  function U32At(s: seq<u8>, i: nat): u32
    requires i + 4 <= |s|
  {
    s[i] as int * 0x100_0000 + s[i + 1] as int * 0x1_0000 + s[i + 2] as int * 0x100 + s[i + 3]
  }

  // Equal numbers are equal bytes.
  lemma U16Identifies(s: seq<u8>, i: nat, t: seq<u8>, j: nat)
    requires i + 2 <= |s| && j + 2 <= |t|
    ensures U16At(s, i) == U16At(t, j) <==> s[i..i + 2] == t[j..j + 2]
  {
    if U16At(s, i) == U16At(t, j) {
      assert s[i] == t[j];
    } else {
      assert s[i..i + 2][0] == s[i] && s[i..i + 2][1] == s[i + 1];
      assert t[j..j + 2][0] == t[j] && t[j..j + 2][1] == t[j + 1];
    }
  }

  lemma U32Identifies(s: seq<u8>, i: nat, t: seq<u8>, j: nat)
    requires i + 4 <= |s| && j + 4 <= |t|
    ensures U32At(s, i) == U32At(t, j) <==> s[i..i + 4] == t[j..j + 4]
  {
    if U32At(s, i) == U32At(t, j) {
      assert s[i] == t[j];
      assert s[i + 1] == t[j + 1];
      assert s[i + 2] == t[j + 2];
    } else {
      var x, y := s[i..i + 4], t[j..j + 4];
      assert x[0] == s[i] && x[1] == s[i + 1] && x[2] == s[i + 2] && x[3] == s[i + 3];
      assert y[0] == t[j] && y[1] == t[j + 1] && y[2] == t[j + 2] && y[3] == t[j + 3];
    }
  }

  // Of two runs of bytes of one length, the first is smaller where they first differ.
  predicate BytesLess(a: seq<u8>, b: seq<u8>)
    requires |a| == |b|
  {
    a != [] && (a[0] < b[0] || (a[0] == b[0] && BytesLess(a[1..], b[1..])))
  }

  // Numbers compare as their bytes do.
  lemma U16Order(a: seq<u8>, b: seq<u8>)
    requires |a| == |b| == 2
    ensures U16At(a, 0) < U16At(b, 0) <==> BytesLess(a, b)
  {
    assert a[1..] == [a[1]] && b[1..] == [b[1]];
    assert BytesLess([a[1]], [b[1]]) <==> a[1] < b[1];
  }

  lemma U32Order(a: seq<u8>, b: seq<u8>)
    requires |a| == |b| == 4
    ensures U32At(a, 0) < U32At(b, 0) <==> BytesLess(a, b)
  {
    var x, y := a[2..], b[2..];
    U16Order(x, y);
    assert U32At(a, 0) == U16At(a, 0) as int * 0x1_0000 + U16At(x, 0);
    assert U32At(b, 0) == U16At(b, 0) as int * 0x1_0000 + U16At(y, 0);
    assert a[1..][1..] == x && b[1..][1..] == y && a[1..][0] == a[1] && b[1..][0] == b[1];
    assert BytesLess(a[1..], b[1..]) <==> a[1] < b[1] || (a[1] == b[1] && BytesLess(x, y));
  }

  // The four bytes of a number add up to it.
  lemma Bytes(v: u32)
    ensures v == v / 0x100_0000 * 0x100_0000 + v / 0x1_0000 % 0x100 * 0x1_0000 + v / 0x100 % 0x100 * 0x100 + v % 0x100
    ensures 0 <= v / 0x100_0000 < TWO8 && 0 <= v / 0x1_0000 % 0x100 < TWO8 && 0 <= v / 0x100 % 0x100 < TWO8
  {
    var w := v / 0x100;
    var x := w / 0x100;
    assert x == v / 0x1_0000 && x / 0x100 == v / 0x100_0000;
  }

  // The bytes of a number, most significant first.
  function U16Bytes(v: u16): (s: seq<u8>)
    ensures |s| == 2 && U16At(s, 0) == v
  {
    [v / 0x100, v % 0x100]
  }

  function U32Bytes(v: u32): (s: seq<u8>)
    ensures |s| == 4 && U32At(s, 0) == v
  {
    Bytes(v);
    [v / 0x100_0000, v / 0x1_0000 % 0x100, v / 0x100 % 0x100, v % 0x100]
  }

  function Zeros(n: nat): (s: seq<u8>)
    ensures |s| == n && forall k :: 0 <= k < n ==> s[k] == 0
  {
    seq(n, _ => 0)
  }

  // Concatenation keeps the fields of the first part and moves those of the second.
  lemma Behind(a: seq<u8>, b: seq<u8>)
    ensures |a| == 2 ==> U16At(a + b, 0) == U16At(a, 0)
    ensures |a| == 4 ==> U32At(a + b, 0) == U32At(a, 0)
    ensures forall i: nat :: i + 2 <= |b| ==> U16At(a + b, |a| + i) == U16At(b, i)
    ensures forall i: nat :: i + 4 <= |b| ==> U32At(a + b, |a| + i) == U32At(b, i)
    ensures forall k :: 0 <= k < |b| ==> (a + b)[|a| + k] == b[k]
  {
  }

  method PutU16(b: array<u8>, i: nat, v: u16)
    requires i + 2 <= b.Length
    modifies b
    ensures U16At(b[..], i) == v
    ensures forall k :: 0 <= k < b.Length && !(i <= k < i + 2) ==> b[k] == old(b[k])
  {
    b[i], b[i + 1] := v / 0x100, v % 0x100;
  }

  method PutU32(b: array<u8>, i: nat, v: u32)
    requires i + 4 <= b.Length
    modifies b
    ensures U32At(b[..], i) == v
    ensures forall k :: 0 <= k < b.Length && !(i <= k < i + 4) ==> b[k] == old(b[k])
  {
    Bytes(v);
    b[i], b[i + 1], b[i + 2], b[i + 3] := v / 0x100_0000, v / 0x1_0000 % 0x100, v / 0x100 % 0x100, v % 0x100;
  }

  // What readFromSocket hands on of one read into a zeroed buffer: excess bytes are cut, missing ones zero.
  function Filled(data: seq<u8>, size: nat): (r: seq<u8>)
    ensures |r| == size
    ensures forall k :: 0 <= k < size ==> r[k] == if k < |data| then data[k] else 0
  {
    if |data| >= size then data[..size] else data + seq(size - |data|, _ => 0)
  }

  class Buffer {
    var rest: seq<u8>

    constructor (data: seq<u8>)
      ensures rest == data
    {
      rest := data;
    }

    // Next hands out what is left when fewer bytes remain.
    method Next(n: nat) returns (s: seq<u8>)
      modifies this
      ensures old(rest) == s + rest
      ensures |s| == if n <= |old(rest)| then n else |old(rest)|
    {
      var m := if n <= |rest| then n else |rest|;
      s := rest[..m];
      rest := rest[m..];
    }

    method NextU16() returns (v: u16)
      requires |rest| >= 2
      modifies this
      ensures v == U16At(old(rest), 0) && rest == old(rest)[2..]
    {
      var s := Next(2);
      v := U16At(s, 0);
    }

    method NextU32() returns (v: u32)
      requires |rest| >= 4
      modifies this
      ensures v == U32At(old(rest), 0) && rest == old(rest)[4..]
    {
      var s := Next(4);
      v := U32At(s, 0);
    }
  }
}
