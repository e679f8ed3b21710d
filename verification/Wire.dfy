/** The frame header of section 5.2 of RFC 6455: its layout, its writer and its reader. */
module Wire {
  import opened Bytes
  import opened Mask
  import opened Stream

  datatype Op = Invalid | Continuation | Text | Binary | Close | Ping | Pong {
    predicate IsControl() {
      Ping? || Pong? || Close?
    }

    predicate IsData() {
      Continuation? || Text? || Binary?
    }

    function Code(): (c: byte)
      requires !Invalid?
      ensures c < 16
    {
      match this
      case Continuation => 0x0
      case Text => 0x1
      case Binary => 0x2
      case Close => 0x8
      case Ping => 0x9
      case Pong => 0xa
    }

    static function From(code: int): Op {
      match code
      case 0x0 => Continuation
      case 0x1 => Text
      case 0x2 => Binary
      case 0x8 => Close
      case 0x9 => Ping
      case 0xa => Pong
      case _ => Invalid
    }
  }

  datatype FrameHeader = FrameHeader(fin: bool, op: Op, mask: Option<u32>, len: u64)

  /** `encode_len`: the seven-bit field, and the bytes of the extended length. */
  function EncodeLen(len: u64): (r: (byte, seq<byte>))
    ensures r.0 < 0x80
  {
    if len < 0x7e then (len, [])
    else if len <= 0xffff then (0x7e, ToBe(len, 2))
    else (0x7f, ToBe(len, 8))
  }

  function Bit7(on: bool): byte {
    if on then 0x80 else 0
  }

  function MaskBytesOf(mask: Option<u32>): seq<byte> {
    if mask.Some? then ToBe(mask.value, 4) else []
  }

  /** What `FrameHeader::write` puts on the wire. */
  function EncodeHeader(h: FrameHeader): (s: seq<byte>)
    requires !h.op.Invalid?
    ensures 2 <= |s| <= 14
    ensures h.len < 0x7e ==> |s| <= 6
  {
    [Bit7(h.fin) + h.op.Code(), Bit7(h.mask.Some?) + EncodeLen(h.len).0]
    + EncodeLen(h.len).1 + MaskBytesOf(h.mask)
  }

  datatype HeaderRead = EndOfStream | Truncated | Header(header: FrameHeader, size: nat)

  function ExtendedLength(field: int): nat {
    if field < 0x7e then 0 else if field == 0x7e then 2 else 8
  }

  function FromBe64(s: seq<byte>): u64
    requires |s| <= 8
  {
    BeInverse(s);
    PowersOf256();
    PowerGrows(|s|, 8);
    FromBe(s)
  }

  function FromBe32(s: seq<byte>): u32
    requires |s| == 4
  {
    BeInverse(s);
    PowersOf256();
    FromBe(s)
  }

  lemma {:induction false} PowerGrows(j: nat, k: nat)
    requires j <= k
    ensures Pow256(j) <= Pow256(k)
    decreases k - j
  {
    if j < k {
      PowerGrows(j + 1, k);
    }
  }

  /** The header at the start of `w`. The three reserved bits are ignored, and a length need
      not be in its shortest form. */
  function ReadHeader(w: seq<byte>): (r: HeaderRead)
    ensures r.Header? ==> 2 <= r.size <= |w|
  {
    if w == [] then EndOfStream
    else if |w| < 2 then Truncated
    else
      var field, ext := w[1] % 0x80, ExtendedLength(w[1] % 0x80);
      var size := 2 + ext + if w[1] >= 0x80 then 4 else 0;
      if |w| < size then Truncated
      else
        var len := if ext == 0 then field else FromBe64(w[2..2 + ext]);
        var mask := if w[1] >= 0x80 then Some(FromBe32(w[2 + ext..size])) else None;
        Header(FrameHeader(w[0] >= 0x80, Op.From(w[0] % 0x10), mask, len), size)
  }

  lemma LengthRoundTrip(len: u64)
    ensures |EncodeLen(len).1| == ExtendedLength(EncodeLen(len).0)
    ensures len >= 0x7e ==> FromBe(EncodeLen(len).1) == len
    ensures len < 0x7e ==> EncodeLen(len).0 == len
  {
    PowersOf256();
    if 0x7e <= len <= 0xffff {
      BeRoundTrip(len, 2);
    } else if 0xffff < len {
      BeRoundTrip(len, 8);
    }
  }

  /** A header taken apart. */
  lemma HeaderParts(b0: byte, b1: byte, ext: seq<byte>, key: seq<byte>, rest: seq<byte>)
    requires |ext| == ExtendedLength(b1 % 0x80)
    requires |key| == if b1 >= 0x80 then 4 else 0
    ensures ReadHeader([b0, b1] + ext + key + rest)
         == Header(FrameHeader(b0 >= 0x80, Op.From(b0 % 0x10), if b1 >= 0x80 then Some(FromBe32(key)) else None,
                               if ext == [] then b1 % 0x80 else FromBe64(ext)), 2 + |ext| + |key|)
  {
    var w := [b0, b1] + ext + key + rest;
    assert w[0] == b0 && w[1] == b1;
    assert w[2..2 + |ext|] == ext;
    assert w[2 + |ext|..2 + |ext| + |key|] == key;
  }

  /** Reading the written header, whatever follows it, gives the header and stops right after it. */
  lemma HeaderRoundTrip(h: FrameHeader, rest: seq<byte>)
    requires !h.op.Invalid?
    ensures ReadHeader(EncodeHeader(h) + rest) == Header(h, |EncodeHeader(h)|)
  {
    var (field, ext) := EncodeLen(h.len);
    var b0: byte, b1: byte := Bit7(h.fin) + h.op.Code(), Bit7(h.mask.Some?) + field;
    FlagAndField(h.fin, h.op.Code());
    FlagAndField(h.mask.Some?, field);
    assert Op.From(b0 % 0x10) == h.op;
    LengthRoundTrip(h.len);
    if h.mask.Some? {
      PowersOf256();
      BeRoundTrip(h.mask.value, 4);
    }
    HeaderParts(b0, b1, ext, MaskBytesOf(h.mask), rest);
  }

  lemma FlagAndField(on: bool, field: byte)
    requires field < 0x80
    ensures Bit7(on) + field < 0x100
    ensures Bit7(on) + field >= 0x80 <==> on
    ensures (Bit7(on) + field) % 0x80 == field
    ensures field < 0x10 ==> (Bit7(on) + field) % 0x10 == field
  {}

  /** The length is in the shortest form that can hold it. */
  predicate Shortest(field: int, len: u64) {
    (field == 0x7e ==> 0x7e <= len) && (field == 0x7f ==> 0xffff < len)
  }

  lemma LengthReencoded(field: byte, ext: seq<byte>, len: u64)
    requires field < 0x80 && |ext| == ExtendedLength(field)
    requires len == if ext == [] then field else FromBe64(ext)
    ensures EncodeLen(len).0 == field <==> Shortest(field, len)
    ensures Shortest(field, len) ==> EncodeLen(len).1 == ext
  {
    PowersOf256();
    BeInverse(ext);
  }

  /** The other direction: what was read is written back byte for byte exactly when the
      sender left the reserved bits clear and used the shortest form of the length. */
  lemma ReencodedIff(w: seq<byte>)
    requires ReadHeader(w).Header? && !ReadHeader(w).header.op.Invalid?
    ensures EncodeHeader(ReadHeader(w).header) == w[..ReadHeader(w).size]
       <==> w[0] / 0x10 % 8 == 0 && Shortest(w[1] % 0x80, ReadHeader(w).header.len)
  {
    var Header(h, size) := ReadHeader(w);
    var field: byte := w[1] % 0x80;
    var ext, key := w[2..2 + ExtendedLength(field)], w[2 + ExtendedLength(field)..size];
    PrefixInParts(w, ExtendedLength(field), size);
    LengthReencoded(field, ext, h.len);
    if h.mask.Some? {
      BeInverse(key);
    }
    FirstByte(w[0]);
    HeadersEqualIff(h, w[0], w[1], ext, key);
  }

  lemma PrefixInParts(w: seq<byte>, ext: nat, size: nat)
    requires 2 + ext <= size <= |w|
    ensures w[..size] == [w[0], w[1]] + w[2..2 + ext] + w[2 + ext..size]
  {}

  lemma HeadersEqualIff(h: FrameHeader, b0: byte, b1: byte, ext: seq<byte>, key: seq<byte>)
    requires !h.op.Invalid? && key == MaskBytesOf(h.mask) && (b1 >= 0x80 <==> h.mask.Some?)
    requires EncodeLen(h.len).0 == b1 % 0x80 ==> EncodeLen(h.len).1 == ext
    ensures EncodeHeader(h) == [b0, b1] + ext + key
       <==> Bit7(h.fin) + h.op.Code() == b0 && EncodeLen(h.len).0 == b1 % 0x80
  {
    var s, t := EncodeHeader(h), [b0, b1] + ext + key;
    assert s[0] == Bit7(h.fin) + h.op.Code() && t[0] == b0;
    assert s[1] == Bit7(h.mask.Some?) + EncodeLen(h.len).0 && t[1] == b1;
  }

  lemma FirstByte(b: byte)
    requires !Op.From(b % 0x10).Invalid?
    ensures Bit7(b >= 0x80) + Op.From(b % 0x10).Code() == b <==> b / 0x10 % 8 == 0
  {
    assert Op.From(b % 0x10).Code() == b % 0x10;
  }

  /** `Cursor<&mut [u8]>`: a fixed array filled from the front. */
  class Cursor {
    const bytes: array<byte>
    var position: nat

    ghost predicate Valid()
      reads this
    {
      position <= bytes.Length
    }

    ghost function Written(): seq<byte>
      requires Valid()
      reads this, bytes
    {
      bytes[..position]
    }

    constructor (length: nat)
      ensures Valid() && fresh(bytes) && bytes.Length == length && Written() == []
    {
      bytes := new byte[length];
      position := 0;
    }

    /** `write_all`: fails when the array is too short. */
    method WriteAll(data: seq<byte>) returns (ok: bool)
      requires Valid()
      modifies this, bytes
      ensures Valid()
      ensures ok <==> |old(Written())| + |data| <= bytes.Length
      ensures Written() == if ok then old(Written()) + data else old(Written())
    {
      ok := position + |data| <= bytes.Length;
      if ok {
        forall i | 0 <= i < |data| {
          bytes[position + i] := data[i];
        }
        position := position + |data|;
      }
    }
  }

  /** `FrameHeader::write`; the result is false if the cursor was too short. */
  method WriteHeader(h: FrameHeader, writer: Cursor) returns (ok: bool)
    requires !h.op.Invalid? && writer.Valid()
    modifies writer, writer.bytes
    ensures writer.Valid()
    ensures ok <==> |old(writer.Written())| + |EncodeHeader(h)| <= writer.bytes.Length
    ensures ok ==> writer.Written() == old(writer.Written()) + EncodeHeader(h)
  {
    var (len, length) := EncodeLen(h.len);
    ok := writer.WriteAll([Bit7(h.fin) + h.op.Code(), Bit7(h.mask.Some?) + len]);
    if !ok {
      return;
    }
    ok := writer.WriteAll(length);
    if !ok {
      return;
    }
    if h.mask.Some? {
      ok := writer.WriteAll(ToBe(h.mask.value, 4));
    }
  }

  /** `FrameHeader::read`, on a buffered stream: the fills do not matter. */
  method ReadHeaderFrom(reader: BufReader) returns (r: HeaderRead)
    requires reader.Valid()
    modifies reader
    ensures reader.Valid()
    ensures r == ReadHeader(old(reader.Pending()))
    ensures reader.Pending() == if r.Header? then old(reader.Pending())[r.size..] else []
  {
    ghost var w := reader.Pending();
    if |reader.buffer| == 0 {
      var n := reader.Fill();
      if n == 0 {
        return EndOfStream;
      }
    }
    var flags := reader.ReadExact(2);
    if flags.None? {
      return Truncated;
    }
    var field := flags.value[1] % 0x80;
    var ext := ExtendedLength(field);
    var len: u64 := field;
    if ext > 0 {
      var bytes := reader.ReadExact(ext);
      if bytes.None? {
        return Truncated;
      }
      assert bytes.value == w[2..2 + ext];
      len := FromBe64(bytes.value);
    }
    assert reader.Pending() == w[2 + ext..];
    var mask := None;
    if flags.value[1] >= 0x80 {
      var bytes := reader.ReadExact(4);
      if bytes.None? {
        return Truncated;
      }
      assert bytes.value == w[2 + ext..2 + ext + 4];
      mask := Some(FromBe32(bytes.value));
    }
    var size := 2 + ext + if mask.Some? then 4 else 0;
    r := Header(FrameHeader(flags.value[0] >= 0x80, Op.From(flags.value[0] % 0x10), mask, len), size);
  }

  /** A frame before masking. */
  datatype Frame = Frame(fin: bool, op: Op, key: Option<u32>, payload: seq<byte>) {
    predicate Sendable() {
      !op.Invalid? && |payload| < 0x1_0000_0000_0000_0000
    }

    function Header(): FrameHeader
      requires Sendable()
    {
      FrameHeader(fin, op, key, |payload|)
    }

    function Body(): (b: seq<byte>)
      ensures |b| == |payload|
    {
      Unmasked(payload, key)
    }
  }

  /** Masking is its own inverse, so one function serves both directions. */
  function Unmasked(data: seq<byte>, key: Option<u32>): (r: seq<byte>)
    ensures |r| == |data|
  {
    if key.Some? then Masked(data, key.value) else data
  }

  lemma UnmaskedTwice(data: seq<byte>, key: Option<u32>)
    ensures Unmasked(Unmasked(data, key), key) == data
  {
    if key.Some? {
      MaskedTwice(data, key.value);
    }
  }

  type SendableFrame = f: Frame | f.Sendable() witness Frame(true, Text, None, [])

  function Encode(f: SendableFrame): (s: seq<byte>)
    ensures |s| >= 2
  {
    EncodeHeader(f.Header()) + f.Body()
  }

  function EncodeAll(fs: seq<SendableFrame>): seq<byte> {
    if fs == [] then [] else Encode(fs[0]) + EncodeAll(fs[1..])
  }

  lemma FrameParsesUniquely(f: SendableFrame, g: SendableFrame, r: seq<byte>, s: seq<byte>)
    requires Encode(f) + r == Encode(g) + s
    ensures f == g && r == s
  {
    var w := Encode(f) + r;
    assert w == EncodeHeader(f.Header()) + (f.Body() + r);
    assert w == EncodeHeader(g.Header()) + (g.Body() + s);
    HeaderRoundTrip(f.Header(), f.Body() + r);
    HeaderRoundTrip(g.Header(), g.Body() + s);
    var k := |EncodeHeader(f.Header())|;
    assert f.Body() == w[k..k + |f.payload|] == g.Body();
    UnmaskedTwice(f.payload, f.key);
    UnmaskedTwice(g.payload, g.key);
    assert r == w[k + |f.payload|..] == s;
  }

  /** A byte string is the encoding of at most one sequence of frames. */
  lemma {:induction false} FramesParseUniquely(fs: seq<SendableFrame>, gs: seq<SendableFrame>)
    requires EncodeAll(fs) == EncodeAll(gs)
    ensures fs == gs
  {
    if fs != [] && gs != [] {
      FrameParsesUniquely(fs[0], gs[0], EncodeAll(fs[1..]), EncodeAll(gs[1..]));
      FramesParseUniquely(fs[1..], gs[1..]);
      assert fs == [fs[0]] + fs[1..] && gs == [gs[0]] + gs[1..];
    }
  }
}
