/** The payload mask of section 5.3 of RFC 6455, and the word-wise loop that applies it. */
module Mask {
  import opened Bytes

  function Pow2(k: nat): (p: nat)
    ensures p > 0
  {
    if k == 0 then 1 else 2 * Pow2(k - 1)
  }

  lemma Pow2Of8()
    ensures Pow2(8) == 256
  {
    assert Pow2(4) == 16 by { assert Pow2(2) == 4; }
    assert Pow2(6) == 64;
  }

  /** Exclusive or of the `n` low bits. */
  function XorBits(a: nat, b: nat, n: nat): (x: nat)
    ensures x < Pow2(n)
    decreases n, a, b
  {
    if n == 0 then 0 else 2 * XorBits(a / 2, b / 2, n - 1) + (if a % 2 == b % 2 then 0 else 1)
  }

  lemma {:induction false} XorInvolution(a: nat, b: nat, n: nat)
    requires a < Pow2(n)
    ensures XorBits(XorBits(a, b, n), b, n) == a
    decreases n
  {
    if n > 0 {
      XorInvolution(a / 2, b / 2, n - 1);
    }
  }

  lemma {:induction false} XorZero(a: nat, n: nat)
    requires a < Pow2(n)
    ensures XorBits(a, 0, n) == a
    decreases n
  {
    if n > 0 {
      XorZero(a / 2, n - 1);
    }
  }

  /** `a` shifted left by `k`, with the `k` low bits of `x` moved in. */
  function Shift(a: nat, x: nat, k: nat): nat
    decreases k, a, x
  {
    if k == 0 then a else 2 * Shift(a, x / 2, k - 1) + x % 2
  }

  /** Exclusive or works on the high and the low part of a number separately. */
  lemma {:induction false} XorShift(a: nat, x: nat, b: nat, y: nat, n: nat, k: nat)
    ensures XorBits(Shift(a, x, k), Shift(b, y, k), n + k) == Shift(XorBits(a, b, n), XorBits(x, y, k), k)
    decreases k
  {
    if k > 0 {
      XorShift(a, x / 2, b, y / 2, n, k - 1);
      XorDoubled(Shift(a, x / 2, k - 1), x % 2, Shift(b, y / 2, k - 1), y % 2, n + k);
      var bit := if x % 2 == y % 2 then 0 else 1;
      assert XorBits(x, y, k) == 2 * XorBits(x / 2, y / 2, k - 1) + bit;
      assert XorBits(x, y, k) / 2 == XorBits(x / 2, y / 2, k - 1) && XorBits(x, y, k) % 2 == bit;
    }
  }

  lemma XorDoubled(a: nat, x: nat, b: nat, y: nat, n: nat)
    requires x < 2 && y < 2 && n > 0
    ensures XorBits(2 * a + x, 2 * b + y, n) == 2 * XorBits(a, b, n - 1) + (if x == y then 0 else 1)
  {
    assert (2 * a + x) / 2 == a && (2 * b + y) / 2 == b;
  }

  lemma {:induction false} ShiftBy8(a: nat, x: byte)
    ensures Shift(a, x, 8) == a * 256 + x
  {
    ShiftBy4(a, x / 16);
    assert Shift(a, x / 4, 6) == 4 * Shift(a, x / 16, 4) + x / 4 % 4;
    assert Shift(a, x, 8) == 4 * Shift(a, x / 4, 6) + x % 4;
  }

  lemma {:induction false} ShiftBy4(a: nat, x: nat)
    requires x < 16
    ensures Shift(a, x, 4) == a * 16 + x
  {
    assert Shift(a, x / 8, 1) == a * 2 + x / 8;
    assert Shift(a, x / 4, 2) == a * 4 + x / 4;
    assert Shift(a, x / 2, 3) == a * 8 + x / 2;
  }

  function Xor(a: byte, b: byte): byte {
    Pow2Of8();
    XorBits(a, b, 8)
  }

  function XorSeq(s: seq<byte>, t: seq<byte>): (r: seq<byte>)
    requires |s| == |t|
    ensures |r| == |s|
    ensures forall i :: 0 <= i < |s| ==> r[i] == Xor(s[i], t[i])
  {
    seq(|s|, i requires 0 <= i < |s| => Xor(s[i], t[i]))
  }

  /** One exclusive or of two words is the exclusive or of their bytes. */
  lemma {:induction false} XorWords(s: seq<byte>, t: seq<byte>)
    requires |s| == |t|
    ensures XorBits(FromBe(s), FromBe(t), 8 * |s|) == FromBe(XorSeq(s, t))
  {
    if s != [] {
      var n := |s| - 1;
      XorWords(s[..n], t[..n]);
      assert XorSeq(s, t)[..n] == XorSeq(s[..n], t[..n]);
      XorLowByte(FromBe(s[..n]), s[n], FromBe(t[..n]), t[n], 8 * n);
    }
  }

  lemma XorLowByte(a: nat, x: byte, b: nat, y: byte, n: nat)
    ensures XorBits(a * 256 + x, b * 256 + y, n + 8) == XorBits(a, b, n) * 256 + Xor(x, y)
  {
    XorShift(a, x, b, y, n, 8);
    ShiftBy8(a, x);
    ShiftBy8(b, y);
    ShiftBy8(XorBits(a, b, n), Xor(x, y));
  }

  /** Byte `j` of the key, most significant first. */
  function KeyByte(key: u32, j: int): byte
    requires 0 <= j < 4
    decreases 3 - j, key
  {
    if j == 3 then key % 0x100 else KeyByte(key / 0x100, j + 1)
  }

  function KeySeq(key: u32): (s: seq<byte>)
    ensures |s| == 4
    ensures forall j :: 0 <= j < 4 ==> s[j] == KeyByte(key, j)
  {
    seq(4, j requires 0 <= j < 4 => KeyByte(key, j))
  }

  /** `u32::rotate_left(8)`. */
  function RotateLeft8(key: u32): u32 {
    key * 0x100 % 0x1_0000_0000 + key / 0x100_0000
  }

  lemma {:induction false} TopByte(key: u32)
    ensures KeyByte(key, 0) == key / 0x100_0000
  {
    assert KeyByte(key, 0) == KeyByte(key / 0x100, 1) == KeyByte(key / 0x100 / 0x100, 2);
    assert key / 0x100 / 0x100 / 0x100 < 0x100;
  }

  lemma DropByte(hi: nat, low: nat)
    ensures (hi * 0x100 + low) / 0x100 == hi + low / 0x100
    ensures (hi * 0x100 + low) % 0x100 == low % 0x100
  {}

  lemma {:induction false} LowBytes(key: u32, j: int)
    requires 1 <= j < 4
    ensures KeyByte(key % 0x100_0000, j) == KeyByte(key, j)
  {
    var hi, low: u32 := key / 0x100_0000, key % 0x100_0000;
    DropByte(hi * 0x1_0000, low);
    DropByte(hi * 0x100, low / 0x100);
    DropByte(hi, low / 0x100 / 0x100);
    var key1: u32, low1: u32 := key / 0x100, low / 0x100;
    var key2: u32, low2: u32 := key1 / 0x100, low1 / 0x100;
    assert key % 0x100 == low % 0x100;
    assert key1 % 0x100 == low1 % 0x100;
    assert key2 % 0x100 == low2 % 0x100;
    assert KeyByte(key, 1) == KeyByte(key1, 2) == KeyByte(key2, 3);
    assert KeyByte(low, 1) == KeyByte(low1, 2) == KeyByte(low2, 3);
  }

  lemma RotatedParts(key: u32)
    ensures RotateLeft8(key) % 0x100 == key / 0x100_0000
    ensures RotateLeft8(key) / 0x100 == key % 0x100_0000
  {
    var top: int, low: int := key / 0x100_0000, key % 0x100_0000;
    assert key * 0x100 == top * 0x1_0000_0000 + low * 0x100;
    assert RotateLeft8(key) == low * 0x100 + top;
  }

  lemma {:induction false} RotateMovesBytes(key: u32, j: int)
    requires 0 <= j < 4
    ensures KeyByte(RotateLeft8(key), j) == KeyByte(key, (j + 1) % 4)
  {
    var r := RotateLeft8(key);
    RotatedParts(key);
    if j < 3 {
      assert KeyByte(r, j) == KeyByte(r / 0x100, j + 1);
      LowBytes(key, j + 1);
      assert (j + 1) % 4 == j + 1;
    } else {
      TopByte(key);
    }
  }

  /** The definition in section 5.3 of RFC 6455: octet i is combined with key octet i mod 4. */
  function Masked(data: seq<byte>, key: u32): (r: seq<byte>)
    ensures |r| == |data|
    ensures forall i :: 0 <= i < |data| ==> r[i] == Xor(data[i], KeySeq(key)[i % 4])
  {
    var k4 := KeySeq(key);
    seq(|data|, i requires 0 <= i < |data| => Xor(data[i], k4[i % 4]))
  }

  lemma MaskedTwice(data: seq<byte>, key: u32)
    ensures Masked(Masked(data, key), key) == data
  {
    var m := Masked(data, key);
    forall i | 0 <= i < |data|
      ensures Masked(m, key)[i] == data[i]
    {
      Pow2Of8();
      XorInvolution(data[i], KeySeq(key)[i % 4], 8);
    }
  }

  lemma MaskedWithZeroKey(data: seq<byte>)
    ensures Masked(data, 0) == data
  {
    forall j | 0 <= j < 4
      ensures KeySeq(0)[j] == 0
    {
      assert KeyByte(0, 3) == 0 && KeyByte(0, 2) == 0;
      assert KeyByte(0, 1) == KeyByte(0, 2);
    }
    forall i | 0 <= i < |data|
      ensures Masked(data, 0)[i] == data[i]
    {
      Pow2Of8();
      XorZero(data[i], 8);
    }
  }

  /** The four bytes of a word in memory, on a host of either byte order. */
  function InMemory(s: seq<byte>, littleEndian: bool): (t: seq<byte>)
    requires |s| == 4
    ensures |t| == 4
  {
    if littleEndian then [s[3], s[2], s[1], s[0]] else s
  }

  function LoadWord(s: seq<byte>, littleEndian: bool): nat
    requires |s| == 4
  {
    FromBe(InMemory(s, littleEndian))
  }

  function StoreWord(w: nat, littleEndian: bool): (s: seq<byte>)
    ensures |s| == 4
  {
    InMemory(ToBe(w, 4), littleEndian)
  }

  /** `u32::to_be`: the identity on a big-endian host, a byte swap on a little-endian one. */
  function NativeKey(key: u32, littleEndian: bool): nat {
    LoadWord(KeySeq(key), littleEndian)
  }

  /** `*val ^= mask.to_be()`: a word-wise step does to four bytes what four byte-wise steps do. */
  method MaskWord(s: seq<byte>, mask: u32, littleEndian: bool) returns (t: seq<byte>)
    requires |s| == 4
    ensures t == XorSeq(s, KeySeq(mask))
  {
    t := StoreWord(XorBits(LoadWord(s, littleEndian), NativeKey(mask, littleEndian), 32), littleEndian);
    WordStep(s, KeySeq(mask), littleEndian);
  }

  lemma WordStep(s: seq<byte>, k4: seq<byte>, littleEndian: bool)
    requires |s| == 4 && |k4| == 4
    ensures StoreWord(XorBits(LoadWord(s, littleEndian), LoadWord(k4, littleEndian), 32), littleEndian)
         == XorSeq(s, k4)
  {
    var a, b := InMemory(s, littleEndian), InMemory(k4, littleEndian);
    XorWords(a, b);
    BeInverse(XorSeq(a, b));
    assert InMemory(XorSeq(a, b), littleEndian) == XorSeq(s, k4);
  }

  /** `mask` begins at byte `r` of the repeated key. */
  ghost predicate RotatedTo(mask: u32, k4: seq<byte>, r: nat)
    requires |k4| == 4
  {
    forall j :: 0 <= j < 4 ==> KeyByte(mask, j) == k4[(r + j) % 4]
  }

  lemma RotateOnce(mask: u32, k4: seq<byte>, r: nat)
    requires |k4| == 4 && r < 4 && RotatedTo(mask, k4, r)
    ensures RotatedTo(RotateLeft8(mask), k4, (r + 1) % 4)
    ensures mask / 0x100_0000 == k4[r]
  {
    TopByte(mask);
    assert KeyByte(mask, 0) == k4[(r + 0) % 4];
    forall j | 0 <= j < 4
      ensures KeyByte(RotateLeft8(mask), j) == k4[((r + 1) % 4 + j) % 4]
    {
      RotateMovesBytes(mask, j);
      assert KeyByte(mask, (j + 1) % 4) == k4[(r + (j + 1) % 4) % 4];
      RotatedIndex(r, j);
    }
  }

  lemma RotatedIndex(r: nat, j: nat)
    ensures (r + (j + 1) % 4) % 4 == ((r + 1) % 4 + j) % 4
  {
    ResidueSum(j + 1, r);
    ResidueSum(r + 1, j);
  }

  /** The first `n` bytes are masked, the others are as they were. */
  ghost predicate MaskedUpTo(now: seq<byte>, was: seq<byte>, k4: seq<byte>, n: int)
    requires |k4| == 4
  {
    && |now| == |was|
    && 0 <= n <= |was|
    && (forall k :: 0 <= k < n ==> now[k] == Xor(was[k], k4[k % 4]))
    && (forall k :: n <= k < |was| ==> now[k] == was[k])
  }

  lemma OneMore(before: seq<byte>, was: seq<byte>, k4: seq<byte>, i: nat)
    requires |k4| == 4 && i < |was|
    requires MaskedUpTo(before, was, k4, i)
    ensures MaskedUpTo(before[i := Xor(was[i], k4[i % 4])], was, k4, i + 1)
  {}

  /** The loops over the unaligned bytes before and after the words. */
  method MaskBytes(data: array<byte>, lo: nat, hi: nat, rotated: u32, ghost k4: seq<byte>, ghost was: seq<byte>)
      returns (mask: u32)
    requires lo <= hi <= data.Length && |k4| == 4
    requires MaskedUpTo(data[..], was, k4, lo) && RotatedTo(rotated, k4, lo % 4)
    modifies data
    ensures MaskedUpTo(data[..], was, k4, hi) && RotatedTo(mask, k4, hi % 4)
  {
    mask := rotated;
    var i := lo;
    while i < hi
      invariant lo <= i <= hi
      invariant MaskedUpTo(data[..], was, k4, i) && RotatedTo(mask, k4, i % 4)
    {
      RotateOnce(mask, k4, i % 4);
      OneMore(data[..], was, k4, i);
      NextResidue(i);
      ghost var before := data[..];
      data[i] := Xor(data[i], mask / 0x100_0000);
      assert data[..] == before[i := Xor(was[i], k4[i % 4])];
      mask := RotateLeft8(mask);
      i := i + 1;
    }
  }

  lemma NextResidue(i: nat)
    ensures (i + 1) % 4 == (i % 4 + 1) % 4
  {}

  /** The loop over the aligned words: the key is not rotated, since a word holds all of it. */
  method MaskWords(data: array<byte>, pre: nat, post: nat, mask: u32, littleEndian: bool,
                   ghost k4: seq<byte>, ghost was: seq<byte>)
    requires pre <= post <= data.Length && (post - pre) % 4 == 0 && |k4| == 4
    requires MaskedUpTo(data[..], was, k4, pre) && RotatedTo(mask, k4, pre % 4)
    modifies data
    ensures MaskedUpTo(data[..], was, k4, post) && RotatedTo(mask, k4, post % 4)
  {
    var i := pre;
    while i < post
      invariant pre <= i <= post && (post - i) % 4 == 0 && i % 4 == pre % 4
      invariant MaskedUpTo(data[..], was, k4, i)
    {
      MaskOneWord(data, i, mask, littleEndian, k4, was);
      i := i + 4;
    }
  }

  method MaskOneWord(data: array<byte>, i: nat, mask: u32, littleEndian: bool,
                     ghost k4: seq<byte>, ghost was: seq<byte>)
    requires i + 4 <= data.Length && |k4| == 4
    requires MaskedUpTo(data[..], was, k4, i) && RotatedTo(mask, k4, i % 4)
    modifies data
    ensures MaskedUpTo(data[..], was, k4, i + 4)
  {
    ghost var before := data[..];
    var val := MaskWord(data[i..i + 4], mask, littleEndian);
    assert data[i..i + 4] == before[i..i + 4];
    StoreFour(data, i, val);
    FourMore(before, data[..], was, k4, mask, val, i);
  }

  method StoreFour(data: array<byte>, i: nat, val: seq<byte>)
    requires i + 4 <= data.Length && |val| == 4
    modifies data
    ensures data[..] == old(data[..i]) + val + old(data[i + 4..])
  {
    data[i], data[i + 1], data[i + 2], data[i + 3] := val[0], val[1], val[2], val[3];
  }

  lemma FourMore(before: seq<byte>, now: seq<byte>, was: seq<byte>, k4: seq<byte>, mask: u32, val: seq<byte>,
                 i: nat)
    requires |k4| == 4
    requires i + 4 <= |was|
    requires MaskedUpTo(before, was, k4, i) && RotatedTo(mask, k4, i % 4)
    requires val == XorSeq(before[i..i + 4], KeySeq(mask))
    requires now == before[..i] + val + before[i + 4..]
    ensures MaskedUpTo(now, was, k4, i + 4)
  {
    WordByte(before, was, k4, mask, val, i, 0);
    WordByte(before, was, k4, mask, val, i, 1);
    WordByte(before, was, k4, mask, val, i, 2);
    WordByte(before, was, k4, mask, val, i, 3);
    OneMore(before, was, k4, i);
    var b1 := before[i := val[0]];
    OneMore(b1, was, k4, i + 1);
    var b2 := b1[i + 1 := val[1]];
    OneMore(b2, was, k4, i + 2);
    var b3 := b2[i + 2 := val[2]];
    OneMore(b3, was, k4, i + 3);
    FourUpdates(before, val, i);
  }

  lemma FourUpdates(s: seq<byte>, val: seq<byte>, i: nat)
    requires i + 4 <= |s| && |val| == 4
    ensures s[..i] + val + s[i + 4..]
         == s[i := val[0]][i + 1 := val[1]][i + 2 := val[2]][i + 3 := val[3]]
  {}

  lemma WordByte(before: seq<byte>, was: seq<byte>, k4: seq<byte>, mask: u32, val: seq<byte>, i: nat, j: nat)
    requires |k4| == 4 && j < 4
    requires i + 4 <= |was|
    requires MaskedUpTo(before, was, k4, i) && RotatedTo(mask, k4, i % 4)
    requires val == XorSeq(before[i..i + 4], KeySeq(mask))
    ensures val[j] == Xor(was[i + j], k4[(i + j) % 4])
  {
    assert KeyByte(mask, j) == k4[(i % 4 + j) % 4];
    ResidueSum(i, j);
    assert before[i..i + 4][j] == was[i + j];
  }

  lemma ResidueSum(i: nat, j: nat)
    ensures (i % 4 + j) % 4 == (i + j) % 4
  {}

  lemma AllMasked(now: seq<byte>, was: seq<byte>, key: u32)
    requires MaskedUpTo(now, was, KeySeq(key), |was|)
    ensures now == Masked(was, key)
  {}

  lemma NoneMasked(was: seq<byte>, key: u32)
    ensures MaskedUpTo(was, was, KeySeq(key), 0) && RotatedTo(key, KeySeq(key), 0)
  {}

  /** `align_to_mut::<u32>`: any cut whose middle is a whole number of words. */
  method AlignTo(length: nat) returns (pre: nat, post: nat)
    ensures pre <= post <= length && (post - pre) % 4 == 0
  {
    pre :| 0 <= pre <= length;
    var words :| 0 <= words <= (length - pre) / 4;
    post := pre + 4 * words;
  }

  /** `mask`: the slice is cut into a prefix, a run of aligned words and a suffix, in a way
      that depends on where it lies in memory; the rotated key is carried from part to part. */
  method ApplyMask(data: array<byte>, key: u32, littleEndian: bool)
    modifies data
    ensures data[..] == Masked(old(data[..]), key)
  {
    ghost var was, k4 := data[..], KeySeq(key);
    NoneMasked(was, key);
    var pre, post := AlignTo(data.Length);
    var mask := MaskBytes(data, 0, pre, key, k4, was);
    MaskWords(data, pre, post, mask, littleEndian, k4, was);
    mask := MaskBytes(data, post, data.Length, mask, k4, was);
    AllMasked(data[..], was, key);
  }
}
