/** What one step of the WebSocket reader and of the WebSocket writer does, as functions of
    their state and of the bytes; the classes in `WebSocket` are proved against these. */
module Protocol {
  import opened Bytes
  import opened Wire
  import Utf8

  datatype Shutdown = Read | Write | Both

  type CloseState = Option<Shutdown>

  function Shut(state: CloseState, how: Shutdown): (r: (CloseState, bool)) {
    match state
    case None => (Some(how), false)
    case Some(cur) => if cur == how then (state, false) else (Some(Both), true)
  }

  predicate CanRead(state: CloseState) {
    state.None? || state.value.Write?
  }

  predicate CanWrite(state: CloseState) {
    state.None? || state.value.Read?
  }

  predicate ShouldClose(state: CloseState) {
    state.Some? && state.value.Both?
  }

  /** Shutting a side shuts that side and no other, in either order, and says whether both are shut. */
  lemma ShutIs(state: CloseState, how: Shutdown, other: Shutdown)
    requires how != Both && other != Both
    ensures var (next, both) := Shut(state, how);
            && (CanRead(next) <==> CanRead(state) && how != Read)
            && (CanWrite(next) <==> CanWrite(state) && how != Write)
            && (both <==> !CanRead(next) && !CanWrite(next))
            && (both <==> ShouldClose(next))
            && Shut(next, other).0 == Shut(Shut(state, other).0, how).0
  {}

  datatype Error =
    | ShutDown
    | UnexpectedEof
    | InvalidOpcode
    | ControlWithoutFin
    | ControlTooLong
    | ExpectedContinuation
    | UnexpectedContinuation
    | ServerMasked
    | MessageTooLong
    | InvalidUtf8
    | UserInvalidControlFrame
    | DataTypeMismatch
    | Panicked

  /** `Frame`: what the application receives. */
  datatype Message =
    | PingMessage(data: seq<byte>)
    | PongMessage(data: seq<byte>)
    | CloseMessage(code: u16, data: seq<byte>)
    | TextMessage(data: seq<byte>)
    | BinaryMessage(data: seq<byte>)

  const NO_STATUS_CODE: u16 := 1005
  const NO_CLOSE: u16 := 1006
  const MAX_CONTROL: int := 0x7d

  // ----- Reader -----

  datatype Config = Config(maxMessage: nat, isClient: bool)

  datatype Fragments = Fragments(op: Op, data: seq<byte>)

  datatype Receiver = Receiver(expecting: bool, current: Option<Fragments>, close: CloseState)

  datatype Step = Deliver(message: Message) | Partial | Fail(error: Error)

  /** The checks of `read_frame_header` on a header that was read, and the fields it updates. */
  function Admit(isClient: bool, st: Receiver, h: FrameHeader): (r: (Option<Error>, Receiver)) {
    if h.op.Invalid? then (Some(InvalidOpcode), st)
    else if h.op.IsControl() then
      if !h.fin then (Some(ControlWithoutFin), st)
      else if h.len > MAX_CONTROL then (Some(ControlTooLong), st)
      else if h.mask.Some? && isClient then (Some(ServerMasked), st)
      else (None, if h.op.Close? then st.(close := Shut(st.close, Read).0) else st)
    else if st.expecting != h.op.Continuation? then
      (Some(if st.expecting then ExpectedContinuation else UnexpectedContinuation), st)
    else if h.mask.Some? && isClient then (Some(ServerMasked), st.(expecting := !h.fin))
    else (None, st.(expecting := !h.fin))
  }

  datatype HeaderResult = HeaderOk(header: FrameHeader) | HeaderEnd | HeaderErr(error: Error)

  /** `read_frame_header` on everything the peer is still going to send. */
  function NextHeader(isClient: bool, st: Receiver, w: seq<byte>): (r: (HeaderResult, Receiver, seq<byte>)) {
    if !CanRead(st.close) then (HeaderErr(ShutDown), st, w)
    else match ReadHeader(w)
      case EndOfStream => (HeaderEnd, st.(close := Shut(st.close, Read).0), [])
      case Truncated => (HeaderErr(UnexpectedEof), st, [])
      case Header(h, size) =>
        var (error, next) := Admit(isClient, st, h);
        (if error.Some? then HeaderErr(error.value) else HeaderOk(h), next, w[size..])
  }

  /** The message a data frame belongs to. */
  function Joined(st: Receiver, op: Op): Fragments {
    if st.current.Some? then st.current.value else Fragments(op, [])
  }

  /** The checks of `read_frame` on the length, and the message it may open. */
  function RefuseLength(cfg: Config, st: Receiver, h: FrameHeader): (r: (Option<Error>, Receiver)) {
    if h.len > cfg.maxMessage then (Some(MessageTooLong), st)
    else if h.op.IsControl() then (None, st)
    else
      var next := st.(current := Some(Joined(st, h.op)));
      (if |next.current.value.data| + h.len > cfg.maxMessage then Some(MessageTooLong) else None, next)
  }

  /** All checks made before the payload is read. */
  function Refuse(cfg: Config, st: Receiver, h: FrameHeader): (r: (Option<Error>, Receiver)) {
    var (error, next) := Admit(cfg.isClient, st, h);
    if error.Some? then (error, next) else RefuseLength(cfg, next, h)
  }

  /** The status code and the reason in the payload of a Close frame. */
  function CloseContents(data: seq<byte>): Message {
    if |data| >= 2 then CloseMessage(FromBe16(data[..2]), data[2..]) else CloseMessage(NO_STATUS_CODE, data)
  }

  function FromBe16(s: seq<byte>): u16
    requires |s| == 2
  {
    BeInverse(s);
    PowersOf256();
    FromBe(s)
  }

  /** A whole message, once its last fragment is in. The last arm is `unreachable!()`. */
  function Complete(m: Fragments): Step {
    match m.op
    case Binary => Deliver(BinaryMessage(m.data))
    case Text => if Utf8.Valid(m.data) then Deliver(TextMessage(m.data)) else Fail(InvalidUtf8)
    case _ => Fail(Panicked)
  }

  /** What is made of the unmasked payload of a frame that was not refused. */
  function Accept(st: Receiver, h: FrameHeader, data: seq<byte>): (r: (Step, Receiver))
    requires h.op.IsControl() || st.current.Some?
  {
    match h.op
    case Ping => (Deliver(PingMessage(data)), st)
    case Pong => (Deliver(PongMessage(data)), st)
    case Close => (Deliver(CloseContents(data)), st)
    case _ =>
      var m := Fragments(st.current.value.op, st.current.value.data + data);
      if h.fin then (Complete(m), st.(current := None)) else (Partial, st.(current := Some(m)))
  }

  /** `read_fully` into a zeroed slice: what is there, and zeros for what is not. */
  function Padded(w: seq<byte>, len: nat): (r: seq<byte>)
    ensures |r| == len
  {
    if len <= |w| then w[..len] else w + seq(len - |w|, _ => 0)
  }

  datatype Received = Received(step: Step, next: Receiver, rest: seq<byte>)

  /** `read_frame` past the header. */
  function ReadBody(cfg: Config, st: Receiver, h: FrameHeader, w: seq<byte>): (r: Received) {
    var (error, next) := RefuseLength(cfg, st, h);
    if error.Some? then Received(Fail(error.value), next, w)
    else
      var (step, after) := Accept(next, h, Unmasked(Padded(w, h.len), h.mask));
      Received(step, after, w[Min(h.len, |w|)..])
  }

  lemma BodyKeepsClose(cfg: Config, st: Receiver, h: FrameHeader, w: seq<byte>)
    ensures var got := ReadBody(cfg, st, h, w);
            && got.next.close == st.close
            && (got.step.Deliver? && got.step.message.CloseMessage? <==> h.op.Close? && h.len <= cfg.maxMessage)
  {}

  /** `Frames::read_frame` on everything the peer is still going to send. */
  function ReadFrame(cfg: Config, st: Receiver, w: seq<byte>): (r: Received) {
    match NextHeader(cfg.isClient, st, w)
    case (HeaderErr(error), next, rest) => Received(Fail(error), next, rest)
    case (HeaderEnd, next, rest) => Received(Deliver(CloseMessage(NO_CLOSE, [])), next, rest)
    case (HeaderOk(h), next, rest) => ReadBody(cfg, next, h, rest)
  }

  /** The reader has run through a Close frame. */
  predicate TookClose(got: Received, w: seq<byte>) {
    got.step.Deliver? && got.step.message.CloseMessage? && ReadHeader(w).Header?
  }

  /** How often a read runs `close`. */
  function CloseRuns(cfg: Config, st: Receiver, w: seq<byte>): nat {
    var got := ReadFrame(cfg, st, w);
    if TookClose(got, w) && ShouldClose(got.next.close) then 1 else 0
  }

  /** The same on one whole frame. */
  function TakeFrame(cfg: Config, st: Receiver, f: SendableFrame): (r: (Step, Receiver)) {
    if !CanRead(st.close) then (Fail(ShutDown), st)
    else
      var (error, st2) := Refuse(cfg, st, f.Header());
      if error.Some? then (Fail(error.value), st2) else Accept(st2, f.Header(), f.payload)
  }

  /** Reading the bytes of a frame, whatever its key and whatever follows, is taking the frame. */
  lemma ReadEncodedFrame(cfg: Config, st: Receiver, f: SendableFrame, rest: seq<byte>)
    ensures ReadFrame(cfg, st, Encode(f) + rest).step == TakeFrame(cfg, st, f).0
    ensures ReadFrame(cfg, st, Encode(f) + rest).next == TakeFrame(cfg, st, f).1
    ensures !TakeFrame(cfg, st, f).0.Fail? ==> ReadFrame(cfg, st, Encode(f) + rest).rest == rest
  {
    var w, h, size := Encode(f) + rest, f.Header(), |EncodeHeader(f.Header())|;
    assert w == EncodeHeader(h) + (f.Body() + rest);
    HeaderRoundTrip(h, f.Body() + rest);
    assert w[size..] == f.Body() + rest;
    assert Padded(w[size..], h.len) == f.Body();
    UnmaskedTwice(f.payload, f.key);
    assert w[size..][|f.payload|..] == rest;
  }

  /** The fields of an error-free reader agree, and the buffer is within the limit. */
  predicate Consistent(cfg: Config, st: Receiver) {
    && (st.expecting <==> st.current.Some?)
    && (st.current.Some? ==>
          && (st.current.value.op.Text? || st.current.value.op.Binary?)
          && |st.current.value.data| <= cfg.maxMessage)
  }

  /** Every step keeps the fields consistent or fails, and none of them panics. */
  lemma ReadKeepsConsistent(cfg: Config, st: Receiver, w: seq<byte>)
    requires Consistent(cfg, st)
    ensures ReadFrame(cfg, st, w).step != Fail(Panicked)
    ensures !ReadFrame(cfg, st, w).step.Fail? ==> Consistent(cfg, ReadFrame(cfg, st, w).next)
  {
    if CanRead(st.close) && ReadHeader(w).Header? {
      var h, size := ReadHeader(w).header, ReadHeader(w).size;
      if Refuse(cfg, st, h).0.None? {
        AcceptKeepsConsistent(cfg, st, h, Unmasked(Padded(w[size..], h.len), h.mask));
      }
    }
  }

  lemma AcceptKeepsConsistent(cfg: Config, st: Receiver, h: FrameHeader, data: seq<byte>)
    requires Consistent(cfg, st) && Refuse(cfg, st, h).0.None? && |data| == h.len
    ensures var (step, next) := Accept(Refuse(cfg, st, h).1, h, data);
            step != Fail(Panicked) && (!step.Fail? ==> Consistent(cfg, next))
  {}

  /** What the reader asks of the next frame. Of the rules of RFC 6455 it leaves out three: reserved
      bits may be set, a length need not be in its shortest form, and a client may send unmasked. */
  predicate Acceptable(cfg: Config, st: Receiver, h: FrameHeader, data: seq<byte>) {
    && !h.op.Invalid?
    && !(h.mask.Some? && cfg.isClient)
    && (h.op.IsControl() ==> h.fin && h.len <= MAX_CONTROL && h.len <= cfg.maxMessage)
    && (h.op.IsData() ==>
          var m := Joined(st, h.op);
          && (h.op.Continuation? <==> st.current.Some?)
          && |m.data| + h.len <= cfg.maxMessage
          && (h.fin && m.op.Text? ==> Utf8.Valid(m.data + data)))
  }

  /** A frame is taken if and only if it is acceptable. */
  lemma AcceptedIff(cfg: Config, st: Receiver, w: seq<byte>)
    requires Consistent(cfg, st) && CanRead(st.close) && ReadHeader(w).Header?
    ensures var Header(h, size) := ReadHeader(w);
            !ReadFrame(cfg, st, w).step.Fail?
            <==> Acceptable(cfg, st, h, Unmasked(Padded(w[size..], h.len), h.mask))
  {
    var Header(h, size) := ReadHeader(w);
    var data := Unmasked(Padded(w[size..], h.len), h.mask);
    RefusedUnless(cfg, st, h);
    if Refuse(cfg, st, h).0.None? {
      AcceptKeepsConsistent(cfg, st, h, data);
    }
  }

  lemma RefusedUnless(cfg: Config, st: Receiver, h: FrameHeader)
    requires Consistent(cfg, st)
    ensures var (error, next) := Refuse(cfg, st, h);
            && (error.None? <==>
                  && !h.op.Invalid?
                  && !(h.mask.Some? && cfg.isClient)
                  && (h.op.IsControl() ==> h.fin && h.len <= MAX_CONTROL && h.len <= cfg.maxMessage)
                  && (h.op.IsData() ==> (h.op.Continuation? <==> st.current.Some?)
                                        && |Joined(st, h.op).data| + h.len <= cfg.maxMessage))
            && (error.None? && h.op.IsData() ==> next.current == Some(Joined(st, h.op)))
  {}

  /** A payload that the end of the stream cuts off is not an error: zeros take the place of the
      bytes that did not arrive, before unmasking. */
  lemma CutOffPayload(cfg: Config, st: Receiver, f: SendableFrame, n: nat)
    requires n <= |f.payload|
    ensures var g := f.(payload := Unmasked(Padded(f.Body()[..n], |f.payload|), f.key));
            var got := ReadFrame(cfg, st, EncodeHeader(f.Header()) + f.Body()[..n]);
            got.step == TakeFrame(cfg, st, g).0 && got.next == TakeFrame(cfg, st, g).1
  {
    var h, body := f.Header(), f.Body()[..n];
    var w, size := EncodeHeader(h) + body, |EncodeHeader(h)|;
    HeaderRoundTrip(h, body);
    assert w[size..] == body;
    ReadIsTake(cfg, st, w, f.(payload := Unmasked(Padded(body, h.len), f.key)));
  }

  /** Reading any bytes that begin with a header is taking the frame with what follows as its payload. */
  lemma ReadIsTake(cfg: Config, st: Receiver, w: seq<byte>, g: SendableFrame)
    requires ReadHeader(w).Header? && ReadHeader(w).header == g.Header()
    requires g.payload == Unmasked(Padded(w[ReadHeader(w).size..], |g.payload|), g.key)
    ensures ReadFrame(cfg, st, w).step == TakeFrame(cfg, st, g).0
    ensures ReadFrame(cfg, st, w).next == TakeFrame(cfg, st, g).1
  {}

  /** When a refused header leaves the fields in agreement. */
  predicate StaysConsistent(cfg: Config, st: Receiver, h: FrameHeader) {
    || !h.op.IsData()
    || st.expecting != h.op.Continuation?
    || (if (h.mask.Some? && cfg.isClient) || h.len > cfg.maxMessage then st.expecting == !h.fin else !h.fin)
  }

  lemma RefusalKeepsConsistentIff(cfg: Config, st: Receiver, h: FrameHeader)
    requires Consistent(cfg, st) && Refuse(cfg, st, h).0.Some?
    ensures Consistent(cfg, Refuse(cfg, st, h).1) <==> StaysConsistent(cfg, st, h)
  {}

  /** A continuation is expected where there is nothing to continue, or has opened a message. */
  predicate Broken(st: Receiver) {
    match st.current
    case None => st.expecting
    case Some(m) => !m.op.Text? && !m.op.Binary?
  }

  /** These states, and no others, are those from which some bytes lead into `unreachable!()`. */
  lemma PanicsNextIff(cfg: Config, st: Receiver)
    ensures (exists w :: ReadFrame(cfg, st, w).step == Fail(Panicked)) <==> CanPanic(cfg, st)
  {
    if CanPanic(cfg, st) {
      var f := Frame(true, if st.expecting then Continuation else Text, None, []);
      ReadEncodedFrame(cfg, st, f, []);
      assert TakeFrame(cfg, st, f).0 == Fail(Panicked);
    }
    forall w | ReadFrame(cfg, st, w).step == Fail(Panicked)
      ensures CanPanic(cfg, st)
    {
      PanicsOnlyIf(cfg, st, w);
    }
  }

  predicate CanPanic(cfg: Config, st: Receiver) {
    CanRead(st.close) && Broken(st) && (st.current.Some? ==> |st.current.value.data| <= cfg.maxMessage)
  }

  lemma PanicsOnlyIf(cfg: Config, st: Receiver, w: seq<byte>)
    requires ReadFrame(cfg, st, w).step == Fail(Panicked)
    ensures CanPanic(cfg, st)
  {
    var h, size := ReadHeader(w).header, ReadHeader(w).size;
    var next := Refuse(cfg, st, h).1;
    var data := Unmasked(Padded(w[size..], h.len), h.mask);
    assert Accept(next, h, data).0 == Fail(Panicked);
    PanickedOnlyIf(cfg, st, h, data);
  }

  lemma PanickedOnlyIf(cfg: Config, st: Receiver, h: FrameHeader, data: seq<byte>)
    requires Refuse(cfg, st, h).0.None? && Accept(Refuse(cfg, st, h).1, h, data).0 == Fail(Panicked)
    ensures Broken(st) && (st.current.Some? ==> |st.current.value.data| <= cfg.maxMessage)
  {}

  /** The header that breaks the fields: the first fragment of a message, refused by its length
      or its mask after it has been taken note of. */
  predicate Breaks(cfg: Config, st: Receiver, h: FrameHeader) {
    && (h.op.Text? || h.op.Binary?) && !h.fin
    && st.current.None? && !st.expecting
    && ((h.mask.Some? && cfg.isClient) || h.len > cfg.maxMessage)
  }

  /** After a refusal an `unreachable!()` can be reached next exactly when the header was such. */
  lemma PanicAfterRefusalIff(cfg: Config, st: Receiver, h: FrameHeader)
    requires Consistent(cfg, st) && CanRead(st.close) && Refuse(cfg, st, h).0.Some?
    ensures (exists w :: ReadFrame(cfg, Refuse(cfg, st, h).1, w).step == Fail(Panicked)) <==> Breaks(cfg, st, h)
  {
    PanicsNextIff(cfg, Refuse(cfg, st, h).1);
    CanPanicIfBroken(cfg, st, h);
  }

  lemma CanPanicIfBroken(cfg: Config, st: Receiver, h: FrameHeader)
    requires Consistent(cfg, st) && CanRead(st.close) && Refuse(cfg, st, h).0.Some?
    ensures CanPanic(cfg, Refuse(cfg, st, h).1) <==> Breaks(cfg, st, h)
  {}

  predicate BreaksAt(cfg: Config, st: Receiver, w: seq<byte>) {
    CanRead(st.close) && ReadHeader(w).Header? && Breaks(cfg, st, ReadHeader(w).header)
  }

  /** One step of a reader that goes on after errors. */
  lemma BrokenIff(cfg: Config, st: Receiver, w: seq<byte>)
    requires !Broken(st)
    ensures ReadFrame(cfg, st, w).step != Fail(Panicked)
    ensures Broken(ReadFrame(cfg, st, w).next) <==> BreaksAt(cfg, st, w)
  {
    if CanRead(st.close) && ReadHeader(w).Header? {
      var h, size := ReadHeader(w).header, ReadHeader(w).size;
      RefusalBreaksIff(cfg, st, h);
      if Refuse(cfg, st, h).0.None? {
        AcceptDoesNotBreak(Refuse(cfg, st, h).1, h, Unmasked(Padded(w[size..], h.len), h.mask));
      }
    }
  }

  lemma RefusalBreaksIff(cfg: Config, st: Receiver, h: FrameHeader)
    requires !Broken(st)
    ensures var (error, next) := Refuse(cfg, st, h);
            && (Broken(next) <==> Breaks(cfg, st, h))
            && (error.None? && h.op.IsData() ==> next.current.Some? && next.expecting == !h.fin)
            && (Breaks(cfg, st, h) ==> error.Some?)
  {}

  lemma AcceptDoesNotBreak(st: Receiver, h: FrameHeader, data: seq<byte>)
    requires !Broken(st) && !h.op.Invalid?
    requires h.op.IsData() ==> st.current.Some? && st.expecting == !h.fin
    ensures Accept(st, h, data).0 != Fail(Panicked) && !Broken(Accept(st, h, data).1)
  {}

  /** Among `n` reads, errors or not, one panics; one meets such a header. */
  predicate SomePanics(cfg: Config, st: Receiver, w: seq<byte>, n: nat)
    decreases n
  {
    n > 0 && var got := ReadFrame(cfg, st, w);
    got.step == Fail(Panicked) || SomePanics(cfg, got.next, got.rest, n - 1)
  }

  predicate SomeBreaks(cfg: Config, st: Receiver, w: seq<byte>, n: nat)
    decreases n
  {
    n > 0 && var got := ReadFrame(cfg, st, w);
    BreaksAt(cfg, st, w) || SomeBreaks(cfg, got.next, got.rest, n - 1)
  }

  /** Over any run that goes on after errors: no panic without such a header before it. */
  lemma {:induction false} PanicsOnlyAfterBreak(cfg: Config, st: Receiver, w: seq<byte>, n: nat)
    requires !Broken(st) && SomePanics(cfg, st, w, n)
    ensures SomeBreaks(cfg, st, w, n - 1)
    decreases n
  {
    var got := ReadFrame(cfg, st, w);
    BrokenIff(cfg, st, w);
    if !BreaksAt(cfg, st, w) {
      PanicsOnlyAfterBreak(cfg, got.next, got.rest, n - 1);
    }
  }

  /** A fragment is left behind by the message it belonged to. */
  predicate Stale(st: Receiver) {
    !st.expecting && st.current.Some?
  }

  /** A refusal does so exactly at the last fragment of the message under way. */
  lemma StaleIff(cfg: Config, st: Receiver, h: FrameHeader)
    requires Consistent(cfg, st) && Refuse(cfg, st, h).0.Some?
    ensures Stale(Refuse(cfg, st, h).1) <==> st.current.Some? && h.op.Continuation? && h.fin
  {}

  /** A refusal leaves the payload on the stream: the next read takes it for a frame. */
  lemma RefusalLeavesPayload(cfg: Config, st: Receiver, h: FrameHeader, v: seq<byte>)
    requires CanRead(st.close) && !h.op.Invalid? && Refuse(cfg, st, h).0.Some?
    ensures ReadFrame(cfg, st, EncodeHeader(h) + v)
         == Received(Fail(Refuse(cfg, st, h).0.value), Refuse(cfg, st, h).1, v)
  {
    HeaderRoundTrip(h, v);
    assert (EncodeHeader(h) + v)[|EncodeHeader(h)|..] == v;
  }

  predicate IsData(step: Step) {
    step.Deliver? && (step.message.TextMessage? || step.message.BinaryMessage?)
  }

  /** The next frame is a whole message that fits behind the fragment `m`. */
  predicate Appends(cfg: Config, m: Fragments, h: FrameHeader, data: seq<byte>) {
    && (h.op.Text? || h.op.Binary?) && h.fin && !(h.mask.Some? && cfg.isClient)
    && |m.data| + h.len <= cfg.maxMessage
    && (m.op.Text? ==> Utf8.Valid(m.data + data))
  }

  /** A reader with a fragment left behind yields a data message next if and only if the bytes
      begin with a whole message that fits behind it; then both are delivered as one message, under
      the old opcode. */
  lemma SplicesIff(cfg: Config, st: Receiver, v: seq<byte>)
    requires CanRead(st.close) && Stale(st) && (st.current.value.op.Text? || st.current.value.op.Binary?)
    ensures var m, header, got := st.current.value, ReadHeader(v), ReadFrame(cfg, st, v);
            if header.Header? then
              var data := Unmasked(Padded(v[header.size..], header.header.len), header.header.mask);
              && (IsData(got.step) <==> Appends(cfg, m, header.header, data))
              && (IsData(got.step) ==> got.step == Complete(Fragments(m.op, m.data + data)))
            else !IsData(got.step)
  {
    if ReadHeader(v).Header? {
      var h, size := ReadHeader(v).header, ReadHeader(v).size;
      StaleTakes(cfg, st, h, Unmasked(Padded(v[size..], h.len), h.mask));
    }
  }

  lemma StaleTakes(cfg: Config, st: Receiver, h: FrameHeader, data: seq<byte>)
    requires Stale(st) && (st.current.value.op.Text? || st.current.value.op.Binary?)
    ensures var m, (error, next) := st.current.value, Refuse(cfg, st, h);
            var step := if error.Some? then Fail(error.value) else Accept(next, h, data).0;
            && (IsData(step) <==> Appends(cfg, m, h, data))
            && (IsData(step) ==> step == Complete(Fragments(m.op, m.data + data)))
  {}

  /** So it goes when the last fragment of a message is refused and its payload begins with such a
      frame: the message that is delivered is spliced from what came before and from inside it. */
  lemma RefusedEndIsSpliced(cfg: Config, st: Receiver, last: FrameHeader, f: SendableFrame, rest: seq<byte>)
    requires Consistent(cfg, st) && CanRead(st.close) && st.current.Some?
    requires last.op.Continuation? && last.fin && Refuse(cfg, st, last).0.Some?
    requires Appends(cfg, st.current.value, f.Header(), f.payload)
    ensures var m, one := st.current.value, ReadFrame(cfg, st, EncodeHeader(last) + (Encode(f) + rest));
            && one.step.Fail? && one.rest == Encode(f) + rest
            && ReadFrame(cfg, one.next, one.rest).step == Complete(Fragments(m.op, m.data + f.payload))
            && ReadFrame(cfg, one.next, one.rest).rest == rest
  {
    RefusalLeavesPayload(cfg, st, last, Encode(f) + rest);
    var next := Refuse(cfg, st, last).1;
    assert next == st.(expecting := false);
    ReadEncodedFrame(cfg, next, f, rest);
    StaleTakes(cfg, next, f.Header(), f.payload);
  }

  lemma ShortHeader(b0: byte, b1: byte, rest: seq<byte>)
    requires b1 < 0x7e
    ensures ReadHeader([b0, b1] + rest) == Header(FrameHeader(b0 >= 0x80, Op.From(b0 % 0x10), None, b1), 2)
    ensures ([b0, b1] + rest)[2..] == rest
  {
    assert [b0, b1] + [] + [] + rest == [b0, b1] + rest;
    HeaderParts(b0, b1, [], [], rest);
  }

  /** The bytes of honest writers, read frame by frame. Two binary fragments, with a limit of two
      bytes: the second is refused, and a message is spliced from the first and from inside the second.
      One fragment, with a limit of one byte: an `unreachable!()`. */
  lemma AfterRefusalExamples()
    ensures var cfg := Config(2, false);
            var one := ReadFrame(cfg, Receiver(false, None, None), [0x02, 0x01, 65, 0x80, 0x03, 0x82, 0x01, 67]);
            var two := ReadFrame(cfg, one.next, one.rest);
            && one.step == Partial && two.step == Fail(MessageTooLong)
            && ReadFrame(cfg, two.next, two.rest).step == Deliver(BinaryMessage([65, 67]))
    ensures var cfg := Config(1, false);
            var one := ReadFrame(cfg, Receiver(false, None, None), [0x02, 0x02, 0x80, 0x00]);
            && one.step == Fail(MessageTooLong)
            && ReadFrame(cfg, one.next, one.rest).step == Fail(Panicked)
  {
    FirstFragment();
    SecondFragment();
    PanicExample();
  }

  lemma FirstFragment()
    ensures ReadFrame(Config(2, false), Receiver(false, None, None), [0x02, 0x01, 65, 0x80, 0x03, 0x82, 0x01, 67])
         == Received(Partial, Receiver(true, Some(Fragments(Binary, [65])), None), [0x80, 0x03, 0x82, 0x01, 67])
  {
    var later: seq<byte> := [0x80, 0x03, 0x82, 0x01, 67];
    assert [0x02, 0x01, 65, 0x80, 0x03, 0x82, 0x01, 67] == [0x02, 0x01] + ([65] + later);
    ShortHeader(0x02, 0x01, [65] + later);
    assert ([65] + later)[..1] == [65] && ([65] + later)[1..] == later && [] + [65] == [65];
  }

  lemma SecondFragment()
    ensures var cfg, stale := Config(2, false), Receiver(false, Some(Fragments(Binary, [65])), None);
            && ReadFrame(cfg, stale.(expecting := true), [0x80, 0x03, 0x82, 0x01, 67])
               == Received(Fail(MessageTooLong), stale, [0x82, 0x01, 67])
            && ReadFrame(cfg, stale, [0x82, 0x01, 67]).step == Deliver(BinaryMessage([65, 67]))
  {
    assert [0x80, 0x03, 0x82, 0x01, 67] == [0x80, 0x03] + [0x82, 0x01, 67];
    ShortHeader(0x80, 0x03, [0x82, 0x01, 67]);
    assert [0x82, 0x01, 67] == [0x82, 0x01] + [67];
    ShortHeader(0x82, 0x01, [67]);
    assert [67][..1] == [67] && [65] + [67] == [65, 67];
  }

  lemma PanicExample()
    ensures var cfg := Config(1, false);
            var one := ReadFrame(cfg, Receiver(false, None, None), [0x02, 0x02, 0x80, 0x00]);
            && one.step == Fail(MessageTooLong)
            && ReadFrame(cfg, one.next, one.rest).step == Fail(Panicked)
  {
    var cfg := Config(1, false);
    assert [0x02, 0x02, 0x80, 0x00] == [0x02, 0x02] + [0x80, 0x00];
    ShortHeader(0x02, 0x02, [0x80, 0x00]);
    var st := Receiver(true, None, None);
    assert ReadFrame(cfg, Receiver(false, None, None), [0x02, 0x02] + [0x80, 0x00])
        == Received(Fail(MessageTooLong), st, [0x80, 0x00]);
    assert [0x80, 0x00] == [0x80, 0x00] + [];
    ShortHeader(0x80, 0x00, []);
  }

  /** A frame in its place is refused as too long exactly when the running total passes the limit. */
  lemma TooLongIff(cfg: Config, st: Receiver, f: SendableFrame)
    requires Consistent(cfg, st) && CanRead(st.close)
    requires f.op.IsData() && st.expecting == f.op.Continuation?
    requires !(f.key.Some? && cfg.isClient)
    ensures TakeFrame(cfg, st, f).0 == Fail(MessageTooLong)
       <==> |Joined(st, f.op).data| + |f.payload| > cfg.maxMessage
  {}

  lemma ReadShrinks(cfg: Config, st: Receiver, w: seq<byte>)
    requires ReadFrame(cfg, st, w).step.Partial?
    ensures |ReadFrame(cfg, st, w).rest| < |w|
  {}

  /** `next_frame`: reads frames until one of them completes a message. */
  function NextMessage(cfg: Config, st: Receiver, w: seq<byte>): (r: Received)
    ensures !r.step.Partial?
    decreases |w|
  {
    var got := ReadFrame(cfg, st, w);
    if got.step.Partial? then NextMessage(cfg, got.next, got.rest) else got
  }

  /** How often `next_frame` runs `close`. */
  function MessageCloseRuns(cfg: Config, st: Receiver, w: seq<byte>): nat
    decreases |w|
  {
    var got := ReadFrame(cfg, st, w);
    if got.step.Partial? then MessageCloseRuns(cfg, got.next, got.rest) else CloseRuns(cfg, st, w)
  }

  /** What `Frames::next` yields until it returns `None` or an error. */
  datatype End = Closed | Failed(error: Error)
  datatype Run = Run(messages: seq<Message>, end: End)

  function Receive(cfg: Config, st: Receiver, w: seq<byte>): (r: Run)
    decreases |w|, if CanRead(st.close) then 1 else 0
  {
    if !CanRead(st.close) then Run([], Closed)
    else
      var got := ReadFrame(cfg, st, w);
      match got.step
      case Fail(error) => Run([], Failed(error))
      case Partial => Receive(cfg, got.next, got.rest)
      case Deliver(m) =>
        var later := Receive(cfg, got.next, got.rest);
        Run([m] + later.messages, later.end)
  }

  /** A run is one `next` after the other. */
  lemma {:induction false} ReceiveByMessages(cfg: Config, st: Receiver, w: seq<byte>)
    requires CanRead(st.close)
    ensures var got := NextMessage(cfg, st, w);
            var later := Receive(cfg, got.next, got.rest);
            Receive(cfg, st, w) == if got.step.Fail? then Run([], Failed(got.step.error))
                                   else Run([got.step.message] + later.messages, later.end)
    decreases |w|
  {
    var got := ReadFrame(cfg, st, w);
    if got.step.Partial? {
      assert CanRead(got.next.close);
      ReceiveByMessages(cfg, got.next, got.rest);
    }
  }

  // ----- Writer -----

  /** `BorrowedFrame`, as its constructors build it: `text` takes a `&str`, and a slice in
      memory is at most `isize::MAX` bytes long. */
  datatype RawOutgoing = Outgoing(op: Op, closeCode: u16, payload: seq<byte>, fin: bool) {
    predicate Built() {
      && (op.Text? || op.Binary? || op.IsControl())
      && (op.IsControl() ==> fin)
      && (op.Text? ==> Utf8.Valid(payload))
      && |payload| < 0x8000_0000_0000_0000
    }
  }

  type Outgoing = f: RawOutgoing | f.Built() witness RawOutgoing.Outgoing(Binary, 0, [], true)

  datatype Sender = Sender(last: Option<Op>, close: CloseState)

  datatype Prepared = Refused(error: Error) | Ready(header: FrameHeader, next: Sender, closes: bool)

  /** `send_frame` up to the first byte it writes. */
  function Prepare(isClient: bool, st: Sender, f: Outgoing): (r: Prepared)
    ensures r.Ready? ==> !r.header.op.Invalid? && r.header.len == |f.payload|
    ensures r.Ready? ==> (r.header.op.Close? <==> f.op.Close?)
  {
    if !CanWrite(st.close) then Refused(ShutDown)
    else
      var header := FrameHeader(f.fin, f.op, if isClient then Some(0) else None, |f.payload|);
      if f.op.IsControl() then
        if |f.payload| > MAX_CONTROL - (if f.op.Close? then 2 else 0) then Refused(UserInvalidControlFrame)
        else if f.op.Close? then
          var (close, both) := Shut(st.close, Write);
          Ready(header, st.(close := close), both)
        else Ready(header, st, false)
      else if st.last.Some? && st.last.value != f.op then Refused(DataTypeMismatch)
      else
        var last := if f.fin then None else Some(f.op);
        Ready(if st.last.Some? then header.(op := Continuation) else header, st.(last := last), false)
  }

  /** What is written for a frame: `len` does not count the two bytes of a close code. */
  function HeaderBytes(header: FrameHeader, f: Outgoing): (s: seq<byte>)
    requires !header.op.Invalid?
    ensures header.len < 0x7e ==> |s| <= 8
    ensures !header.op.Close? ==> |s| <= 14
  {
    EncodeHeader(header) + if header.op.Close? then ToBe(f.closeCode, 2) else []
  }

  function SentBytes(header: FrameHeader, f: Outgoing): seq<byte>
    requires !header.op.Invalid?
  {
    HeaderBytes(header, f) + f.payload
  }

  /** The wire after a list of calls: refused ones leave no trace. */
  function SendAll(isClient: bool, st: Sender, calls: seq<Outgoing>): (w: seq<byte>)
    decreases |calls|
  {
    if calls == [] then []
    else
      var r := Prepare(isClient, st, calls[0]);
      if r.Refused? then SendAll(isClient, st, calls[1..])
      else SentBytes(r.header, calls[0]) + SendAll(isClient, r.next, calls[1..])
  }
}
