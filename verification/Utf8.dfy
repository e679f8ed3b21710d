/** Well-formed UTF-8, as in Table 3-7 of the Unicode Standard. */
module Utf8 {
  import opened Bytes

  predicate Tail(b: byte) {
    0x80 <= b <= 0xbf
  }

  /** The length of the well-formed character at the start of `s`, 0 if there is none. */
  function FirstChar(s: seq<byte>): (k: nat)
    ensures k <= |s|
  {
    if |s| >= 1 && s[0] <= 0x7f then 1
    else if |s| >= 2 && 0xc2 <= s[0] <= 0xdf && Tail(s[1]) then 2
    else if |s| >= 3 && 0xe0 <= s[0] <= 0xef && Tail(s[1]) && Tail(s[2])
            && (s[0] == 0xe0 ==> s[1] >= 0xa0) && (s[0] == 0xed ==> s[1] <= 0x9f) then 3
    else if |s| >= 4 && 0xf0 <= s[0] <= 0xf4 && Tail(s[1]) && Tail(s[2]) && Tail(s[3])
            && (s[0] == 0xf0 ==> s[1] >= 0x90) && (s[0] == 0xf4 ==> s[1] <= 0x8f) then 4
    else 0
  }

  predicate Valid(s: seq<byte>)
    decreases |s|
  {
    s == [] || (FirstChar(s) > 0 && Valid(s[FirstChar(s)..]))
  }

  /** Text fragments that are valid one by one are valid together. */
  lemma {:induction false} ValidConcat(s: seq<byte>, t: seq<byte>)
    requires Valid(s) && Valid(t)
    ensures Valid(s + t)
    decreases |s|
  {
    if s == [] {
      assert s + t == t;
    } else {
      var k := FirstChar(s);
      assert FirstChar(s + t) == k;
      assert (s + t)[k..] == s[k..] + t;
      ValidConcat(s[k..], t);
    }
  }

  /** Unicode scalar values. */
  type Scalar = c: int | 0 <= c < 0xd800 || 0xe000 <= c < 0x11_0000

  /** The encoding of Table 3-6 of the Unicode Standard. */
  function EncodeScalar(c: Scalar): (s: seq<byte>)
    ensures 1 <= |s| <= 4
  {
    if c < 0x80 then [c]
    else if c < 0x800 then [0xc0 + c / 0x40, 0x80 + c % 0x40]
    else if c < 0x1_0000 then [0xe0 + c / 0x1000, 0x80 + c / 0x40 % 0x40, 0x80 + c % 0x40]
    else [0xf0 + c / 0x4_0000, 0x80 + c / 0x1000 % 0x40, 0x80 + c / 0x40 % 0x40, 0x80 + c % 0x40]
  }

  /** The value that leading and continuation bytes carry. */
  function ValueOf(s: seq<byte>): int
    requires 1 <= |s| <= 4
  {
    var a: int, b: int, c: int, d: int := s[0], if |s| > 1 then s[1] else 0, if |s| > 2 then s[2] else 0,
                                          if |s| > 3 then s[3] else 0;
    match |s|
    case 1 => a
    case 2 => (a - 192) * 64 + (b - 128)
    case 3 => (a - 224) * 4096 + (b - 128) * 64 + (c - 128)
    case _ => (a - 240) * 262144 + (b - 128) * 4096 + (c - 128) * 64 + (d - 128)
  }

  /** The encoding carries the scalar value, in as many bytes as the value needs. */
  lemma CarriesValue(c: Scalar)
    ensures var s := EncodeScalar(c);
            && ValueOf(s) == c && |s| == (if c < 128 then 1 else if c < 2048 then 2 else if c < 65536 then 3 else 4)
            && forall i :: 0 < i < |s| ==> 128 <= s[i] < 192
  {
    var hi: int := c / 0x40;
    assert c == hi * 0x40 + c % 0x40;
    var top: int := hi / 0x40;
    assert c / 0x1000 == top && hi == top * 0x40 + hi % 0x40;
    assert c / 0x4_0000 == top / 0x40 && top == top / 0x40 * 0x40 + top % 0x40;
  }

  function Encode(text: seq<Scalar>): seq<byte> {
    if text == [] then [] else EncodeScalar(text[0]) + Encode(text[1..])
  }

  lemma FirstCharStays(s: seq<byte>, rest: seq<byte>)
    requires FirstChar(s) > 0
    ensures FirstChar(s + rest) == FirstChar(s)
  {
  }

  lemma ScalarIsChar(c: Scalar, rest: seq<byte>)
    ensures FirstChar(EncodeScalar(c) + rest) == |EncodeScalar(c)|
  {
    LeadingByte(c);
    FirstCharStays(EncodeScalar(c), rest);
  }

  lemma LeadingByte(c: Scalar)
    ensures FirstChar(EncodeScalar(c)) == |EncodeScalar(c)|
  {
    var s := EncodeScalar(c);
    assert forall i :: 0 < i < |s| ==> Tail(s[i]);
    if 0x800 <= c < 0x1_0000 {
      var y: int := c / 0x40;
      assert c / 0x1000 == y / 0x40;
    } else if 0x1_0000 <= c {
      var y: int := c / 0x1000;
      assert c / 0x4_0000 == y / 0x40;
    }
  }

  /** Base-64 digits are read back by division and remainder. */
  lemma Digits(hi: nat, lo: nat)
    requires lo < 0x40
    ensures (hi * 0x40 + lo) / 0x40 == hi && (hi * 0x40 + lo) % 0x40 == lo
  {
  }

  lemma ThreeBytes(s: seq<byte>) returns (c: Scalar)
    requires FirstChar(s) == 3
    ensures EncodeScalar(c) == s[..3]
  {
    var x: int, y: int, z: int := s[0], s[1], s[2];
    x, y, z := x - 0xe0, y - 0x80, z - 0x80;
    Digits(x * 0x40 + y, z);
    Digits(x, y);
    c := (x * 0x40 + y) * 0x40 + z;
    assert c / 0x1000 == c / 0x40 / 0x40;
  }

  lemma FourBytes(s: seq<byte>) returns (c: Scalar)
    requires FirstChar(s) == 4
    ensures EncodeScalar(c) == s[..4]
  {
    var w: int, x: int, y: int, z: int := s[0], s[1], s[2], s[3];
    w, x, y, z := w - 0xf0, x - 0x80, y - 0x80, z - 0x80;
    Digits((w * 0x40 + x) * 0x40 + y, z);
    Digits(w * 0x40 + x, y);
    Digits(w, x);
    c := ((w * 0x40 + x) * 0x40 + y) * 0x40 + z;
    assert c / 0x1000 == c / 0x40 / 0x40;
    assert c / 0x4_0000 == c / 0x1000 / 0x40;
  }

  lemma CharIsScalar(s: seq<byte>) returns (c: Scalar)
    requires FirstChar(s) > 0
    ensures EncodeScalar(c) == s[..FirstChar(s)]
  {
    var k := FirstChar(s);
    var a: int := s[0];
    if k == 1 {
      c := a;
    } else if k == 2 {
      var b: int := s[1];
      c := (a - 0xc0) * 0x40 + (b - 0x80);
    } else if k == 3 {
      c := ThreeBytes(s);
    } else {
      c := FourBytes(s);
    }
  }

  lemma {:induction false} EncodedIsValid(text: seq<Scalar>)
    ensures Valid(Encode(text))
  {
    if text != [] {
      EncodedIsValid(text[1..]);
      ScalarIsChar(text[0], Encode(text[1..]));
      var k := |EncodeScalar(text[0])|;
      assert Encode(text)[k..] == Encode(text[1..]);
    }
  }

  /** What is well formed is the encoding of some text, and of nothing else. */
  lemma {:induction false} ValidIsEncoded(s: seq<byte>) returns (text: seq<Scalar>)
    requires Valid(s)
    ensures s == Encode(text)
    decreases |s|
  {
    if s == [] {
      text := [];
    } else {
      var c := CharIsScalar(s);
      var later := ValidIsEncoded(s[FirstChar(s)..]);
      text := [c] + later;
      assert text[1..] == later;
    }
  }
}
