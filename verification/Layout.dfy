/** The bytes of a frame as section 5.2 of RFC 6455 lays them out, and what the reader makes of them. */
module Layout {
  import opened Bytes
  import opened Mask
  import opened Wire
  import opened Protocol
  import Utf8
  import EndToEnd

  // ----- Single bytes -----

  /** Bit `k` of a number, the lowest being bit 0. */
  function BitOf(n: nat, k: nat): nat {
    if k == 0 then n % 2 else BitOf(n / 2, k - 1)
  }

  /** Bit by bit, the result is set where exactly one of the two is. */
  lemma {:induction false} XorIsBitwise(a: nat, b: nat, n: nat, k: nat)
    requires k < n
    ensures BitOf(XorBits(a, b, n), k) == if BitOf(a, k) != BitOf(b, k) then 1 else 0
    decreases k
  {
    var x := XorBits(a, b, n);
    assert x / 2 == XorBits(a / 2, b / 2, n - 1) && x % 2 == if a % 2 == b % 2 then 0 else 1;
    if k > 0 {
      XorIsBitwise(a / 2, b / 2, n - 1, k - 1);
    }
  }

  /** A number of two or four bytes, the most significant first. */
  function Number2(a: int, b: int): int {
    a * 0x100 + b
  }

  function Number4(a: int, b: int, c: int, d: int): int {
    a * 0x100_0000 + b * 0x1_0000 + c * 0x100 + d
  }

  function Number8(s: seq<byte>): int
    requires |s| == 8
  {
    Number4(s[0], s[1], s[2], s[3]) * 0x1_0000_0000 + Number4(s[4], s[5], s[6], s[7])
  }

  lemma LastByte(s: seq<byte>, n: nat)
    requires 0 < n <= |s|
    ensures FromBe(s[..n]) == FromBe(s[..n - 1]) * 0x100 + s[n - 1]
  {
    assert s[..n][..n - 1] == s[..n - 1];
  }

  lemma TwoBytes(s: seq<byte>)
    requires |s| >= 2
    ensures FromBe(s[..2]) == Number2(s[0], s[1])
  {
    LastByte(s, 1);
    LastByte(s, 2);
  }

  lemma FourBytes(s: seq<byte>)
    requires |s| >= 4
    ensures FromBe(s[..4]) == Number4(s[0], s[1], s[2], s[3])
  {
    TwoBytes(s);
    LastByte(s, 3);
    LastByte(s, 4);
  }

  lemma {:induction false} EightBytes(s: seq<byte>)
    requires |s| == 8
    ensures FromBe(s) == Number8(s)
  {
    FourBytes(s);
    LastByte(s, 5);
    LastByte(s, 6);
    LastByte(s, 7);
    LastByte(s, 8);
    assert s[..8] == s;
  }

  /** The four bytes a key is read from are the bytes it masks with, in their order. */
  lemma KeyOfBytes(s: seq<byte>)
    requires |s| == 4
    ensures KeySeq(FromBe32(s)) == s
  {
    var key: u32 := FromBe32(s);
    FourBytes(s);
    assert s[..4] == s;
    KeyBytes(key, s[0], s[1], s[2], s[3]);
  }

  lemma {:induction false} KeyBytes(key: u32, a: byte, b: byte, c: byte, d: byte)
    requires key == Number4(a, b, c, d)
    ensures KeyByte(key, 0) == a && KeyByte(key, 1) == b && KeyByte(key, 2) == c && KeyByte(key, 3) == d
  {
    var k1: u32, k2: u32, k3: u32 := key / 0x100, key / 0x100 / 0x100, key / 0x100 / 0x100 / 0x100;
    assert k1 == Number4(0, a, b, c) && key % 0x100 == d;
    assert k2 == Number4(0, 0, a, b) && k1 % 0x100 == c;
    assert k3 == a && k2 % 0x100 == b;
    assert KeyByte(key, 2) == KeyByte(k1, 3);
    assert KeyByte(key, 1) == KeyByte(k1, 2) == KeyByte(k2, 3);
    assert KeyByte(key, 0) == KeyByte(k1, 1) == KeyByte(k2, 2) == KeyByte(k3, 3);
  }

  // ----- The header -----

  /** The opcodes by their numbers. */
  predicate Numbered(op: Op, n: int) {
    && (n == 0 <==> op.Continuation?) && (n == 1 <==> op.Text?) && (n == 2 <==> op.Binary?)
    && (n == 8 <==> op.Close?) && (n == 9 <==> op.Ping?) && (n == 10 <==> op.Pong?)
  }

  /** The first `size` bytes are this header. */
  predicate Laid(w: seq<byte>, h: FrameHeader, size: nat) {
    && 2 <= size <= |w|
    && (h.fin <==> w[0] / 128 == 1)
    && Numbered(h.op, w[0] % 16)
    && (h.mask.Some? <==> w[1] / 128 == 1)
    && (h.mask.Some? ==> 6 <= size && KeySeq(h.mask.value) == w[size - 4..size])
    && var length := size - if h.mask.Some? then 4 else 0;
    && length == (if w[1] % 128 == 126 then 4 else if w[1] % 128 == 127 then 10 else 2)
    && h.len == (if length == 2 then w[1] % 128
                 else if length == 4 then Number2(w[2], w[3])
                 else Number8(w[2..10]))
  }

  /** The header that is read is the one the bytes lay out. */
  lemma ReadsLayout(w: seq<byte>)
    requires ReadHeader(w).Header?
    ensures Laid(w, ReadHeader(w).header, ReadHeader(w).size)
  {
    var Header(h, size) := ReadHeader(w);
    var ext := ExtendedLength(w[1] % 0x80);
    if h.mask.Some? {
      assert size == 2 + ext + 4;
      KeyOfBytes(w[2 + ext..size]);
    }
    if ext == 2 {
      TwoBytes(w[2..4]);
      assert w[2..4][..2] == w[2..4];
    } else if ext == 8 {
      EightBytes(w[2..10]);
    }
  }

  /** There is a header unless the stream ends first. */
  lemma HeaderIff(w: seq<byte>)
    ensures ReadHeader(w).EndOfStream? <==> w == []
    ensures ReadHeader(w).Truncated?
       <==> |w| == 1 || (|w| >= 2 && |w| < (if w[1] % 128 == 126 then 4 else if w[1] % 128 == 127 then 10 else 2)
                                          + if w[1] / 128 == 1 then 4 else 0)
  {}

  /** A header that is written is laid out so, reserved bits clear, its length in the shortest form. */
  lemma WritesLayout(h: FrameHeader)
    requires !h.op.Invalid?
    ensures var s := EncodeHeader(h);
            && Laid(s, h, |s|) && s[0] / 16 % 8 == 0
            && s[1] % 128 == if h.len <= 125 then h.len else if h.len <= 65535 then 126 else 127
  {
    var s := EncodeHeader(h);
    HeaderRoundTrip(h, []);
    assert s + [] == s;
    ReadsLayout(s);
    ReencodedIff(s);
    assert s[..|s|] == s;
    FlagAndField(h.mask.Some?, EncodeLen(h.len).0);
  }

  // ----- The payload -----

  /** Byte `i` of the payload, before masking or after: a byte of the wire combined with byte `i`
      modulo 4 of the key on the wire. What the end of the stream cuts off counts as zero. */
  function PayloadByte(w: seq<byte>, size: nat, i: nat): byte
    requires 2 <= size <= |w| && (w[1] / 128 == 1 ==> size >= 6)
  {
    var b := if size + i < |w| then w[size + i] else 0;
    if w[1] / 128 == 1 then Xor(b, w[size - 4 + i % 4]) else b
  }

  ghost predicate HasPayload(w: seq<byte>, size: nat, data: seq<byte>) {
    && 2 <= size <= |w| && (w[1] / 128 == 1 ==> size >= 6)
    && forall i :: 0 <= i < |data| ==> data[i] == PayloadByte(w, size, i)
  }

  lemma ReadsPayload(w: seq<byte>)
    requires ReadHeader(w).Header?
    ensures var Header(h, size) := ReadHeader(w);
            HasPayload(w, size, Unmasked(Padded(w[size..], h.len), h.mask))
  {
    ReadsLayout(w);
    var Header(h, size) := ReadHeader(w);
    var raw := Padded(w[size..], h.len);
    assert h.mask.Some? <==> w[1] / 128 == 1;
    forall i: nat | i < h.len
      ensures Unmasked(raw, h.mask)[i] == PayloadByte(w, size, i)
    {
      PaddedAt(w[size..], h.len, i);
      UnmaskedAt(w, h.mask, size, raw, i);
    }
  }

  lemma UnmaskedAt(w: seq<byte>, mask: Option<u32>, size: nat, raw: seq<byte>, i: nat)
    requires 2 <= size <= |w| && (mask.Some? <==> w[1] / 128 == 1)
    requires mask.Some? ==> 6 <= size && KeySeq(mask.value) == w[size - 4..size]
    requires i < |raw| && raw[i] == if size + i < |w| then w[size + i] else 0
    ensures Unmasked(raw, mask)[i] == PayloadByte(w, size, i)
  {
    if mask.Some? {
      assert w[size - 4..size][i % 4] == w[size - 4 + i % 4];
    }
  }

  lemma PaddedAt(w: seq<byte>, len: nat, i: nat)
    requires i < len
    ensures Padded(w, len)[i] == if i < |w| then w[i] else 0
  {}

  /** On the wire, a payload is masked with the key that stands before it. */
  lemma WritesPayload(f: SendableFrame, rest: seq<byte>)
    ensures HasPayload(Encode(f) + rest, |EncodeHeader(f.Header())|, f.payload)
  {
    var w, h, size := Encode(f) + rest, f.Header(), |EncodeHeader(f.Header())|;
    assert w == EncodeHeader(h) + (f.Body() + rest);
    HeaderRoundTrip(h, f.Body() + rest);
    ReadsPayload(w);
    assert w[size..] == f.Body() + rest;
    assert Padded(w[size..], h.len) == f.Body();
    UnmaskedTwice(f.payload, f.key);
  }

  lemma {:induction false} MaskIsBitwise(a: byte, b: byte, k: nat)
    requires k < 8
    ensures BitOf(Xor(a, b), k) == if BitOf(a, k) != BitOf(b, k) then 1 else 0
  {
    XorIsBitwise(a, b, 8, k);
  }

  // ----- What the reader makes of the bytes -----

  /** The opcode is known and has its place here: by its number, the flag and the length. */
  predicate InPlace(expecting: bool, n: int, fin: bool, len: nat) {
    (8 <= n <= 10 && fin && len <= 125) || (n == 0 && expecting) || (1 <= n <= 2 && !expecting)
  }

  function OpenLength(st: Receiver): nat {
    if st.current.Some? then |st.current.value.data| else 0
  }

  /** Which error a frame meets, by the bytes of its header. Nothing is left out but text that is not
      well formed, and the two arms that cannot be reached. */
  lemma FailsIff(cfg: Config, st: Receiver, w: seq<byte>)
    requires CanRead(st.close) && ReadHeader(w).Header?
    ensures var step, len := ReadFrame(cfg, st, w).step, ReadHeader(w).header.len;
            var n, fin, masked := w[0] % 16, w[0] / 128 == 1, w[1] / 128 == 1;
            && (step == Fail(InvalidOpcode) <==> 3 <= n <= 7 || 11 <= n)
            && (step == Fail(ControlWithoutFin) <==> 8 <= n <= 10 && !fin)
            && (step == Fail(ControlTooLong) <==> 8 <= n <= 10 && fin && len > 125)
            && (step == Fail(ExpectedContinuation) <==> 1 <= n <= 2 && st.expecting)
            && (step == Fail(UnexpectedContinuation) <==> n == 0 && !st.expecting)
            && (step == Fail(ServerMasked) <==> InPlace(st.expecting, n, fin, len) && masked && cfg.isClient)
            && (step == Fail(MessageTooLong) <==>
                  && InPlace(st.expecting, n, fin, len) && !(masked && cfg.isClient)
                  && (if n <= 2 then OpenLength(st) + len else len) > cfg.maxMessage)
            && step != Fail(ShutDown) && step != Fail(UnexpectedEof)
  {
    ReadsLayout(w);
    var Header(h, size) := ReadHeader(w);
    AdmitsIff(cfg.isClient, st, h, w[0] % 16);
    var (error, next) := Admit(cfg.isClient, st, h);
    if error.None? {
      BodyFails(cfg, next, h, w[size..]);
    }
  }

  lemma AdmitsIff(isClient: bool, st: Receiver, h: FrameHeader, n: int)
    requires 0 <= n < 16 && Numbered(h.op, n)
    ensures var (error, next) := Admit(isClient, st, h);
            && (error == Some(InvalidOpcode) <==> 3 <= n <= 7 || 11 <= n)
            && (error == Some(ControlWithoutFin) <==> 8 <= n <= 10 && !h.fin)
            && (error == Some(ControlTooLong) <==> 8 <= n <= 10 && h.fin && h.len > 125)
            && (error == Some(ExpectedContinuation) <==> 1 <= n <= 2 && st.expecting)
            && (error == Some(UnexpectedContinuation) <==> n == 0 && !st.expecting)
            && (error == Some(ServerMasked) <==> InPlace(st.expecting, n, h.fin, h.len) && h.mask.Some? && isClient)
            && (error.None? <==> InPlace(st.expecting, n, h.fin, h.len) && !(h.mask.Some? && isClient))
            && error != Some(MessageTooLong) && error != Some(ShutDown) && error != Some(UnexpectedEof)
            && next.current == st.current && (error.None? && n <= 2 ==> next.expecting == !h.fin)
  {}

  lemma BodyFails(cfg: Config, st: Receiver, h: FrameHeader, w: seq<byte>)
    requires !h.op.Invalid?
    ensures var step := ReadBody(cfg, st, h, w).step;
            && (step.Fail? ==> step.error in {MessageTooLong, InvalidUtf8, Panicked})
            && (step == Fail(MessageTooLong) <==>
                  (if h.op.IsControl() then h.len else OpenLength(st) + h.len) > cfg.maxMessage)
  {}

  /** Before any frame: a reader that is shut, a stream that has ended, a header that is cut off. When
      the stream has ended, the Close that is reported has code 1006. */
  lemma NoFrame(cfg: Config, st: Receiver, w: seq<byte>)
    ensures ReadFrame(cfg, st, w).step == Fail(ShutDown) <==> !CanRead(st.close)
    ensures !CanRead(st.close) ==> ReadFrame(cfg, st, w).next == st && ReadFrame(cfg, st, w).rest == w
    ensures CanRead(st.close) && w == [] ==>
              && ReadFrame(cfg, st, w).step == Deliver(CloseMessage(1006, []))
              && !CanRead(ReadFrame(cfg, st, w).next.close)
    ensures ReadFrame(cfg, st, w).step == Fail(UnexpectedEof)
       <==> CanRead(st.close) && ReadHeader(w).Truncated?
  {
    if CanRead(st.close) && ReadHeader(w).Header? {
      FailsIff(cfg, st, w);
    }
  }

  /** What a Close frame delivers: its first two bytes are the code, and without them the code is 1005. */
  function CloseRead(data: seq<byte>): Message {
    if |data| < 2 then CloseMessage(1005, data) else CloseMessage(Number2(data[0], data[1]), data[2..])
  }

  lemma ContentsAre(data: seq<byte>)
    ensures CloseContents(data) == CloseRead(data)
  {
    if |data| >= 2 {
      TwoBytes(data);
    }
  }

  /** What a whole message delivers. */
  function MessageRead(text: bool, data: seq<byte>): Step {
    if !text then Deliver(BinaryMessage(data))
    else if Utf8.Valid(data) then Deliver(TextMessage(data)) else Fail(InvalidUtf8)
  }

  /** What is delivered, by the bytes: the opcode by its number, the payload unmasked with the key
      before it, and the message under way. */
  lemma Delivers(cfg: Config, st: Receiver, w: seq<byte>) returns (data: seq<byte>)
    requires Consistent(cfg, st) && CanRead(st.close) && ReadHeader(w).Header?
    requires InPlace(st.expecting, w[0] % 16, w[0] / 128 == 1, ReadHeader(w).header.len)
    requires !(w[1] / 128 == 1 && cfg.isClient)
    requires (if w[0] % 16 <= 2 then OpenLength(st) else 0) + ReadHeader(w).header.len <= cfg.maxMessage
    ensures var Header(h, size) := ReadHeader(w);
            var n, fin, got := w[0] % 16, w[0] / 128 == 1, ReadFrame(cfg, st, w);
            && |data| == h.len && HasPayload(w, size, data)
            && got.rest == w[Min(size + h.len, |w|)..]
            && got.step == (if n == 9 then Deliver(PingMessage(data))
                            else if n == 10 then Deliver(PongMessage(data))
                            else if n == 8 then Deliver(CloseRead(data))
                            else if !fin then Partial
                            else if n == 0 then
                              MessageRead(st.current.value.op.Text?, st.current.value.data + data)
                            else MessageRead(n == 1, data))
  {
    ReadsLayout(w);
    ReadsPayload(w);
    var Header(h, size) := ReadHeader(w);
    data := Unmasked(Padded(w[size..], h.len), h.mask);
    AdmitsIff(cfg.isClient, st, h, w[0] % 16);
    BodyDelivers(cfg, Admit(cfg.isClient, st, h).1, h, w[size..], data);
    ContentsAre(data);
    DropsMore(w, size, h.len);
  }

  lemma DropsMore(w: seq<byte>, size: nat, len: nat)
    requires size <= |w|
    ensures w[size..][Min(len, |w[size..]|)..] == w[Min(size + len, |w|)..]
  {}

  lemma BodyDelivers(cfg: Config, st: Receiver, h: FrameHeader, w: seq<byte>, data: seq<byte>)
    requires !h.op.Invalid? && (h.op.Continuation? <==> h.op.IsData() && st.current.Some?)
    requires st.current.Some? ==> st.current.value.op.Text? || st.current.value.op.Binary?
    requires (if h.op.IsControl() then 0 else OpenLength(st)) + h.len <= cfg.maxMessage
    requires data == Unmasked(Padded(w, h.len), h.mask)
    ensures var got := ReadBody(cfg, st, h, w);
            && got.rest == w[Min(h.len, |w|)..]
            && got.step == (match h.op
                            case Ping => Deliver(PingMessage(data))
                            case Pong => Deliver(PongMessage(data))
                            case Close => Deliver(CloseContents(data))
                            case Continuation =>
                              if !h.fin then Partial
                              else MessageRead(st.current.value.op.Text?, st.current.value.data + data)
                            case _ => if !h.fin then Partial else MessageRead(h.op.Text?, data))
  {
    assert [] + data == data;
  }

  // ----- What the writer makes of a call -----

  /** Which calls are refused, and how. */
  lemma RefusesIff(isClient: bool, snd: Sender, f: Outgoing)
    ensures var p, control := Prepare(isClient, snd, f), f.op.Ping? || f.op.Pong? || f.op.Close?;
            && (p == Refused(ShutDown) <==> !CanWrite(snd.close))
            && (p == Refused(UserInvalidControlFrame) <==>
                  CanWrite(snd.close) && control && |f.payload| > if f.op.Close? then 123 else 125)
            && (p == Refused(DataTypeMismatch) <==>
                  CanWrite(snd.close) && !control && snd.last.Some? && snd.last.value != f.op)
            && (p.Refused? ==> p.error in {ShutDown, UserInvalidControlFrame, DataTypeMismatch})
  {}

  /** The bytes of a call: flag and opcode, mask flag and length, the length in its shortest form and
      without the code of a Close, a client's key of zeros, the code, the payload. */
  lemma SendsBytes(isClient: bool, snd: Sender, f: Outgoing) returns (size: nat)
    requires Prepare(isClient, snd, f).Ready?
    ensures var h := Prepare(isClient, snd, f).header;
            var s := SentBytes(h, f);
            && Laid(s, h, size) && h.len == |f.payload|
            && s[0] == (if f.fin then 128 else 0)
                       + (if f.op.Ping? then 9 else if f.op.Pong? then 10 else if f.op.Close? then 8
                          else if snd.last.Some? then 0 else if f.op.Text? then 1 else 2)
            && s[1] == (if isClient then 128 else 0)
                       + (if |f.payload| <= 125 then |f.payload| else if |f.payload| <= 65535 then 126 else 127)
            && (isClient ==> s[size - 4..size] == [0, 0, 0, 0])
            && s[size..] == (if f.op.Close? then [f.closeCode / 256, f.closeCode % 256] else []) + f.payload
  {
    var h := Prepare(isClient, snd, f).header;
    var head, tail := EncodeHeader(h), (if f.op.Close? then ToBe(f.closeCode, 2) else []) + f.payload;
    size := |head|;
    HeaderOf(isClient, snd, f);
    FlagsSent(h, head);
    WritesLayout(h);
    LaidOn(head, h, tail);
    SentInParts(h, f, head, tail);
    ZeroKey();
  }

  lemma SentInParts(h: FrameHeader, f: Outgoing, head: seq<byte>, tail: seq<byte>)
    requires !h.op.Invalid? && head == EncodeHeader(h) && (h.op.Close? <==> f.op.Close?)
    requires tail == (if f.op.Close? then ToBe(f.closeCode, 2) else []) + f.payload
    ensures SentBytes(h, f) == head + tail
    ensures tail == (if f.op.Close? then [f.closeCode / 256, f.closeCode % 256] else []) + f.payload
  {
    EndToEnd.CodeBytes(f.closeCode);
  }

  /** The first two bytes of a header. */
  lemma FlagsSent(h: FrameHeader, s: seq<byte>)
    requires !h.op.Invalid? && s == EncodeHeader(h)
    ensures s[0] == (if h.fin then 128 else 0)
                    + (match h.op case Continuation => 0 case Text => 1 case Binary => 2
                       case Close => 8 case Ping => 9 case _ => 10)
    ensures s[1] == (if h.mask.Some? then 128 else 0)
                    + (if h.len <= 125 then h.len else if h.len <= 65535 then 126 else 127)
  {}

  lemma ZeroKey()
    ensures KeySeq(0) == [0, 0, 0, 0]
  {
    assert KeyByte(0, 3) == 0 && KeyByte(0, 2) == 0;
    assert KeyByte(0, 1) == KeyByte(0, 2) && KeyByte(0, 0) == KeyByte(0, 1);
  }

  lemma HeaderOf(isClient: bool, snd: Sender, f: Outgoing)
    requires Prepare(isClient, snd, f).Ready?
    ensures Prepare(isClient, snd, f).header
         == FrameHeader(f.fin, if !f.op.IsControl() && snd.last.Some? then Continuation else f.op,
                        if isClient then Some(0) else None, |f.payload|)
  {}

  lemma LaidOn(s: seq<byte>, h: FrameHeader, tail: seq<byte>)
    requires Laid(s, h, |s|)
    ensures Laid(s + tail, h, |s|) && (s + tail)[|s|..] == tail && (s + tail)[..|s|] == s
  {
    var w := s + tail;
    assert h.mask.Some? ==> w[|s| - 4..|s|] == s[|s| - 4..|s|];
    assert |s| >= 10 ==> w[2..10] == s[2..10];
  }

  /** A Close that was received and is forwarded: the peer gets as many bytes of code and reason as the
      reason alone is long. */
  lemma {:induction false} ForwardedClose(limit: nat, code: u16, reason: seq<byte>)
    requires |reason| <= 123 && |reason| <= limit
    ensures EndToEnd.Forward(CloseMessage(code, reason)).Built()
    ensures EndToEnd.Meaning(limit, [EndToEnd.Forward(CloseMessage(code, reason))], None)
         == Run([CloseRead(([code / 256, code % 256] + reason)[..|reason|])], Closed)
  {
    EndToEnd.CodeBytes(code);
    ContentsAre(([code / 256, code % 256] + reason)[..|reason|]);
  }
}
