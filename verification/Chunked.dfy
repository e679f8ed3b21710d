/** What an HTTP response body is, as a function of everything that follows the headers
    (sections 6.3 and 7.1 of RFC 9112). Nothing here knows about buffers or single reads. */
module Chunked {
  import opened Bytes

  const NEWLINE: byte := 10

  /** The index of the first `b`, or the length of `w`. */
  function Find(w: seq<byte>, b: byte): (i: nat)
    ensures i <= |w|
  {
    if w == [] || w[0] == b then 0 else 1 + Find(w[1..], b)
  }

  lemma {:induction false} Found(w: seq<byte>, b: byte)
    ensures Find(w, b) < |w| ==> w[Find(w, b)] == b
    ensures forall j :: 0 <= j < Find(w, b) ==> w[j] != b
  {
    if w != [] && w[0] != b {
      Found(w[1..], b);
    }
  }

  lemma {:induction false} NotFound(w: seq<byte>, b: byte)
    requires forall j :: 0 <= j < |w| ==> w[j] != b
    ensures Find(w, b) == |w|
  {
    Found(w, b);
  }

  /** Looking at a prefix first: a hit there is the hit. */
  lemma {:induction false} FindFrom(v: seq<byte>, w: seq<byte>, b: byte)
    ensures Find(v + w, b) == if Find(v, b) < |v| then Find(v, b) else |v| + Find(w, b)
  {
    if v == [] {
      assert v + w == w;
    } else {
      assert (v + w)[1..] == v[1..] + w;
      FindFrom(v[1..], w, b);
    }
  }

  predicate IsHex(b: byte) {
    0x30 <= b <= 0x39 || 0x41 <= b <= 0x46 || 0x61 <= b <= 0x66
  }

  predicate AllHex(s: seq<byte>) {
    forall i :: 0 <= i < |s| ==> IsHex(s[i])
  }

  /** How many hexadecimal digits `w` begins with. */
  function LeadingHex(w: seq<byte>): (k: nat)
    ensures k <= |w| && AllHex(w[..k])
    ensures k < |w| ==> !IsHex(w[k])
  {
    if w == [] || !IsHex(w[0]) then 0
    else
      assert w[..1 + LeadingHex(w[1..])] == [w[0]] + w[1..][..LeadingHex(w[1..])];
      1 + LeadingHex(w[1..])
  }

  lemma {:induction false} LeadingHexFrom(v: seq<byte>, w: seq<byte>)
    ensures LeadingHex(v + w) == if LeadingHex(v) < |v| then LeadingHex(v) else |v| + LeadingHex(w)
  {
    if v == [] {
      assert v + w == w;
    } else {
      assert (v + w)[1..] == v[1..] + w;
      LeadingHexFrom(v[1..], w);
    }
  }

  lemma {:induction false} LeadingHexOfDigits(s: seq<byte>)
    requires AllHex(s)
    ensures LeadingHex(s) == |s|
  {
    if s != [] {
      LeadingHexOfDigits(s[1..]);
    }
  }

  function Digit(b: byte): (d: nat)
    requires IsHex(b)
    ensures d < 16
  {
    if b <= 0x39 then b - 0x30 else if b <= 0x46 then b - 0x41 + 10 else b - 0x61 + 10
  }

  function HexValue(s: seq<byte>): nat
    requires AllHex(s)
  {
    if s == [] then 0 else HexValue(s[..|s| - 1]) * 16 + Digit(s[|s| - 1])
  }

  /** The digits and their values: "0123456789abcdef", and the capitals. */
  lemma DigitsAre(b: byte)
    ensures var lower: seq<byte> := [48, 49, 50, 51, 52, 53, 54, 55, 56, 57, 97, 98, 99, 100, 101, 102];
            var upper: seq<byte> := [48, 49, 50, 51, 52, 53, 54, 55, 56, 57, 65, 66, 67, 68, 69, 70];
            && (IsHex(b) <==> b in lower || b in upper)
            && (IsHex(b) ==> lower[Digit(b)] == b || upper[Digit(b)] == b)
  {}

  function HexDigit(d: nat, upper: bool): byte
    requires d < 16
  {
    if d < 10 then 0x30 + d else if upper then 0x41 + d - 10 else 0x61 + d - 10
  }

  /** A number in hexadecimal, in either case, without leading zeros. */
  function ToHex(n: nat, upper: bool): (s: seq<byte>)
    ensures s != []
    decreases n
  {
    if n < 16 then [HexDigit(n, upper)] else ToHex(n / 16, upper) + [HexDigit(n % 16, upper)]
  }

  lemma {:induction false} ReadsPrintedHex(n: nat, upper: bool)
    ensures AllHex(ToHex(n, upper)) && HexValue(ToHex(n, upper)) == n
    decreases n
  {
    var s := ToHex(n, upper);
    if n >= 16 {
      ReadsPrintedHex(n / 16, upper);
      assert s[..|s| - 1] == ToHex(n / 16, upper);
    }
  }

  function Pow16(k: nat): nat {
    if k == 0 then 1 else 16 * Pow16(k - 1)
  }

  /** Leading zeros apart, more digits mean a larger number: 16 digits always fit 64 bits. */
  lemma {:induction false} HexBounds(s: seq<byte>)
    requires AllHex(s)
    ensures HexValue(s) < Pow16(|s|)
    ensures s != [] && s[0] != 0x30 ==> HexValue(s) >= Pow16(|s| - 1)
  {
    if s != [] {
      HexBounds(s[..|s| - 1]);
    }
  }

  /** So without leading zeros a size is too large exactly when it has more than 16 digits. */
  lemma {:induction false} SixteenDigits(s: seq<byte>)
    requires AllHex(s) && s != [] && s[0] != 0x30
    ensures HexValue(s) < 0x1_0000_0000_0000_0000 <==> |s| <= 16
  {
    HexBounds(s);
    Pow16Adds(4, 4);
    Pow16Adds(8, 8);
    if |s| <= 16 {
      Pow16Grows(|s|, 16);
    } else {
      Pow16Grows(16, |s| - 1);
    }
  }

  lemma {:induction false} Pow16Adds(j: nat, k: nat)
    ensures Pow16(j + k) == Pow16(j) * Pow16(k)
  {
    if k > 0 {
      Pow16Adds(j, k - 1);
    }
  }

  lemma {:induction false} Pow16Grows(j: nat, k: nat)
    requires j <= k
    ensures Pow16(j) <= Pow16(k)
    decreases k - j
  {
    if j < k {
      Pow16Grows(j + 1, k);
    }
  }

  datatype ChunkedState = Size | Extension(size: u64) | Data(size: u64) | Trailer

  datatype Transfer = Empty | Connection | Length(length: u64) | Chunks(state: ChunkedState) | Trailers

  datatype Error = PartialFile | ChunkTooLarge

  /** How a body ends, and the transfer state it leaves: after its last byte, or with an error. */
  datatype End = Finished(transfer: Transfer) | Broken(error: Error, transfer: Transfer)

  /** The bytes of a body, how it ends, and what is left on the connection. */
  datatype Decoded = Decoded(data: seq<byte>, end: End, rest: seq<byte>)

  /** Nothing but an error in state `t`. */
  function Failure(error: Error, t: Transfer, rest: seq<byte>): Decoded {
    Decoded([], Broken(error, t), rest)
  }

  const MAX_HEX: nat := 32

  datatype SizeField = SizeField(size: u64, digits: nat) | BadSize(error: Error)

  /** The size at the start of a chunk: 1 to 32 digits, followed by something else, with a value
      that fits 64 bits. */
  function ParseSize(w: seq<byte>): (r: SizeField)
    ensures r.SizeField? ==> 1 <= r.digits < |w|
  {
    var k := LeadingHex(w);
    if k == |w| && k <= MAX_HEX then BadSize(PartialFile)
    else if k == 0 || k > MAX_HEX || HexValue(w[..k]) >= 0x1_0000_0000_0000_0000 then BadSize(ChunkTooLarge)
    else SizeField(HexValue(w[..k]), k)
  }

  /** What a bad size leaves: the digits of a value that does not fit are consumed, nothing else. */
  function AfterBadSize(w: seq<byte>): seq<byte> {
    var k := LeadingHex(w);
    if k < |w| && k <= MAX_HEX then w[k..] else w
  }

  function AtSize(w: seq<byte>): Decoded
    decreases |w|, 1
  {
    match ParseSize(w)
    case BadSize(error) => Failure(error, Chunks(Size), AfterBadSize(w))
    case SizeField(size, digits) => AtExtension(size, w[digits..])
  }

  function AtExtension(size: u64, w: seq<byte>): Decoded
    decreases |w|, 0
  {
    var i := Find(w, NEWLINE);
    if i == |w| then Failure(PartialFile, Chunks(Extension(size)), [])
    else if size == 0 then Decoded([], Finished(Trailers), w[i + 1..])
    else AtData(size, w[i + 1..])
  }

  function AtData(size: u64, w: seq<byte>): Decoded
    decreases |w|, 1
  {
    if |w| < size then Decoded(w, Broken(PartialFile, Chunks(Data(size - |w|))), [])
    else
      var later := AtTrailer(w[size..]);
      Decoded(w[..size] + later.data, later.end, later.rest)
  }

  function AtTrailer(w: seq<byte>): Decoded
    decreases |w|, 0
  {
    var i := Find(w, NEWLINE);
    if i == |w| then Failure(PartialFile, Chunks(Trailer), []) else AtSize(w[i + 1..])
  }

  /** What is still to come in transfer state `t` when `w` is what the connection still holds. */
  function Meaning(t: Transfer, w: seq<byte>): Decoded {
    match t
    case Empty => Decoded([], Finished(Empty), w)
    case Trailers => Decoded([], Finished(Trailers), w)
    case Connection => Decoded(w, Finished(Empty), [])
    case Length(n) =>
      if n == 0 then Decoded([], Finished(Length(0)), w)
      else if |w| < n then Decoded(w, Broken(PartialFile, Length(n - |w|)), [])
      else Decoded(w[..n], Finished(Empty), w[n..])
    case Chunks(Size) => AtSize(w)
    case Chunks(Extension(n)) => AtExtension(n, w)
    case Chunks(Data(n)) => AtData(n, w)
    case Chunks(Trailer) => AtTrailer(w)
  }

  // ----- The encoding that the decoder undoes -----

  predicate NoNewline(s: seq<byte>) {
    forall i :: 0 <= i < |s| ==> s[i] != NEWLINE
  }

  /** A size line, with whatever extension and line ending the sender chose. */
  datatype SizeLine = SizeLine(digits: seq<byte>, extension: seq<byte>) {
    predicate Valid() {
      && 1 <= |digits| <= MAX_HEX && AllHex(digits) && HexValue(digits) < 0x1_0000_0000_0000_0000
      && NoNewline(extension) && (extension != [] ==> !IsHex(extension[0]))
    }

    function Encode(): seq<byte> {
      digits + extension + [10]
    }
  }

  /** A chunk: its size line, its data, and the end of line after the data. */
  datatype Chunk = Chunk(line: SizeLine, data: seq<byte>, after: seq<byte>) {
    predicate Valid() {
      line.Valid() && HexValue(line.digits) == |data| && data != [] && NoNewline(after)
    }

    function Encode(): seq<byte> {
      line.Encode() + data + after + [10]
    }
  }

  ghost predicate AllValid(chunks: seq<Chunk>) {
    forall c :: c in chunks ==> c.Valid()
  }

  predicate IsLast(line: SizeLine) {
    line.Valid() && HexValue(line.digits) == 0
  }

  function Encode(chunks: seq<Chunk>, last: SizeLine): seq<byte> {
    if chunks == [] then last.Encode() else chunks[0].Encode() + Encode(chunks[1..], last)
  }

  function Payload(chunks: seq<Chunk>): seq<byte> {
    if chunks == [] then [] else chunks[0].data + Payload(chunks[1..])
  }

  lemma {:induction false} NewlineAfter(s: seq<byte>, w: seq<byte>)
    requires NoNewline(s)
    ensures Find(s + [NEWLINE] + w, NEWLINE) == |s|
    ensures (s + [NEWLINE] + w)[|s| + 1..] == w
  {
    FindFrom(s, [NEWLINE] + w, NEWLINE);
    NotFound(s, NEWLINE);
    assert s + [NEWLINE] + w == s + ([NEWLINE] + w);
  }

  /** Every `w` is some digits and a rest that does not begin with one; this is what is made of it. */
  lemma {:induction false} SizeFieldIff(d: seq<byte>, v: seq<byte>)
    requires AllHex(d) && (v != [] ==> !IsHex(v[0]))
    ensures ParseSize(d + v)
         == if v == [] && |d| <= 32 then BadSize(PartialFile)
            else if 1 <= |d| <= 32 && HexValue(d) < 0x1_0000_0000_0000_0000 then SizeField(HexValue(d), |d|)
            else BadSize(ChunkTooLarge)
  {
    LeadingHexFrom(d, v);
    LeadingHexOfDigits(d);
    assert (d + v)[..|d|] == d;
  }

  lemma {:induction false} DecodesSizeLine(line: SizeLine, w: seq<byte>)
    requires line.Valid()
    ensures var size := HexValue(line.digits);
            AtSize(line.Encode() + w) == if size == 0 then Decoded([], Finished(Trailers), w) else AtData(size, w)
  {
    var d, v := line.digits, line.extension + [NEWLINE] + w;
    assert line.Encode() + w == d + v && (d + v)[|d|..] == v;
    SizeFieldIff(d, v);
    NewlineAfter(line.extension, w);
  }

  lemma {:induction false} DecodesChunk(c: Chunk, w: seq<byte>)
    requires c.Valid()
    ensures var later := AtSize(w);
            AtSize(c.Encode() + w) == Decoded(c.data + later.data, later.end, later.rest)
  {
    var v := c.data + (c.after + [NEWLINE] + w);
    assert c.Encode() + w == c.line.Encode() + v;
    DecodesSizeLine(c.line, v);
    DecodesData(c.data, c.after, w);
  }

  lemma {:induction false} DecodesData(data: seq<byte>, after: seq<byte>, w: seq<byte>)
    requires 0 < |data| < 0x1_0000_0000_0000_0000 && NoNewline(after)
    ensures var later := AtSize(w);
            AtData(|data|, data + (after + [NEWLINE] + w)) == Decoded(data + later.data, later.end, later.rest)
  {
    var v := data + (after + [NEWLINE] + w);
    assert v[..|data|] == data && v[|data|..] == after + [NEWLINE] + w;
    NewlineAfter(after, w);
  }

  /** Decoding inverts encoding, and stops at the first byte after the last size line. */
  lemma {:induction false} DecodesEncoding(chunks: seq<Chunk>, last: SizeLine, rest: seq<byte>)
    requires AllValid(chunks) && IsLast(last)
    ensures AtSize(Encode(chunks, last) + rest) == Decoded(Payload(chunks), Finished(Trailers), rest)
  {
    if chunks == [] {
      DecodesSizeLine(last, rest);
    } else {
      var w := Encode(chunks[1..], last) + rest;
      DecodesEncoding(chunks[1..], last, rest);
      DecodesChunk(chunks[0], w);
      assert Encode(chunks, last) + rest == chunks[0].Encode() + w;
    }
  }

  /** Digits and a rest with a newline in it make a size line. */
  lemma {:induction false} MakesSizeLine(d: seq<byte>, u: seq<byte>, i: nat)
    requires 1 <= |d| <= MAX_HEX && AllHex(d) && HexValue(d) < 0x1_0000_0000_0000_0000
    requires i == Find(u, NEWLINE) && i < |u| && !IsHex(u[0])
    ensures SizeLine(d, u[..i]).Valid() && d + u == SizeLine(d, u[..i]).Encode() + u[i + 1..]
  {
    CutAt(d, u, i);
    Found(u, NEWLINE);
  }

  lemma CutAt(d: seq<byte>, u: seq<byte>, i: nat)
    requires i < |u|
    ensures d + u == d + u[..i] + [u[i]] + u[i + 1..]
  {}

  lemma {:induction false} FinishedExtension(size: u64, u: seq<byte>)
    requires AtExtension(size, u).end.Finished?
    ensures var i := Find(u, NEWLINE);
            && i < |u|
            && if size == 0 then AtExtension(size, u) == Decoded([], Finished(Trailers), u[i + 1..])
               else size <= |u[i + 1..]| && AtExtension(size, u) == AtData(size, u[i + 1..])
  {}

  /** A body that ends well begins with a size line. */
  lemma FinishedSize(w: seq<byte>) returns (line: SizeLine, v: seq<byte>)
    requires AtSize(w).end.Finished?
    ensures line.Valid() && w == line.Encode() + v
    ensures if HexValue(line.digits) == 0 then AtSize(w) == Decoded([], Finished(Trailers), v)
            else HexValue(line.digits) <= |v| && AtSize(w) == AtData(HexValue(line.digits), v)
  {
    assert ParseSize(w).SizeField?;
    var u := w[ParseSize(w).digits..];
    assert AtSize(w) == AtExtension(ParseSize(w).size, u);
    var i := Find(u, NEWLINE);
    FinishedExtension(ParseSize(w).size, u);
    var d := w[..ParseSize(w).digits];
    line, v := SizeLine(d, u[..i]), u[i + 1..];
    assert w == line.Encode() + v by {
      assert w == d + u;
      MakesSizeLine(d, u, i);
    }
    assert line.Valid() by {
      MakesSizeLine(d, u, i);
    }
  }

  lemma FinishedData(size: u64, v: seq<byte>) returns (after: seq<byte>, w: seq<byte>)
    requires 0 < size <= |v| && AtData(size, v).end.Finished?
    ensures NoNewline(after) && v[size..] == after + [NEWLINE] + w
  {
    var t := v[size..];
    var j := Find(t, NEWLINE);
    assert AtTrailer(t).end.Finished? && j < |t|;
    after, w := t[..j], t[j + 1..];
    Found(t, NEWLINE);
  }

  /** Then comes a whole chunk, unless the size was zero. */
  lemma FinishedChunk(line: SizeLine, v: seq<byte>) returns (c: Chunk, w: seq<byte>)
    requires line.Valid() && 0 < HexValue(line.digits) <= |v|
    requires AtData(HexValue(line.digits), v).end.Finished?
    ensures c.Valid() && line.Encode() + v == c.Encode() + w
  {
    var size := HexValue(line.digits);
    var after;
    after, w := FinishedData(size, v);
    c := Chunk(line, v[..size], after);
    assert v == v[..size] + v[size..];
  }

  /** And nothing else is decoded: a body that ends well is the encoding of some chunks. */
  lemma {:induction false} OnlyEncodingsDecode(w: seq<byte>) returns (chunks: seq<Chunk>, last: SizeLine)
    requires AtSize(w).end.Finished?
    ensures AllValid(chunks) && IsLast(last)
    ensures w == Encode(chunks, last) + AtSize(w).rest && AtSize(w).data == Payload(chunks)
    decreases |w|
  {
    var line, v := FinishedSize(w);
    if HexValue(line.digits) == 0 {
      chunks, last := [], line;
    } else {
      var c, w' := FinishedChunk(line, v);
      DecodesChunk(c, w');
      var later;
      later, last := OnlyEncodingsDecode(w');
      chunks := [c] + later;
      assert chunks[1..] == later;
      assert w == c.Encode() + Encode(later, last) + AtSize(w).rest;
    }
  }
}
