/** What one endpoint sends against what the other receives, over whole runs. */
module EndToEnd {
  import opened Bytes
  import opened Mask
  import opened Wire
  import opened Protocol
  import Utf8

  function Whole(m: Fragments): Message {
    if m.op.Text? then TextMessage(m.data) else BinaryMessage(m.data)
  }

  function Then(m: Message, later: Run): Run {
    Run([m] + later.messages, later.end)
  }

  /** What the peer makes of a Close frame: of code and reason together, as many bytes as the
      reason alone is long. */
  function CloseSeen(f: Outgoing): Message {
    CloseContents((ToBe(f.closeCode, 2) + f.payload)[..|f.payload|])
  }

  /** What a list of calls means, in terms of messages only: calls the writer refuses count for
      nothing, `open` is the message under way, and a message that outgrows the peer's limit
      ends the conversation. */
  function Meaning(limit: nat, calls: seq<Outgoing>, open: Option<Fragments>): Run
    decreases |calls|
  {
    if calls == [] then Run([CloseMessage(NO_CLOSE, [])], Closed)
    else
      var f, later := calls[0], calls[1..];
      if f.op.IsControl() then
        if |f.payload| > (if f.op.Close? then 123 else 125) then Meaning(limit, later, open)
        else if |f.payload| > limit then Run([], Failed(MessageTooLong))
        else match f.op
          case Ping => Then(PingMessage(f.payload), Meaning(limit, later, open))
          case Pong => Then(PongMessage(f.payload), Meaning(limit, later, open))
          case _ => Run([CloseSeen(f)], Closed)
      else if open.Some? && open.value.op != f.op then Meaning(limit, later, open)
      else
        var m := Fragments(f.op, (if open.Some? then open.value.data else []) + f.payload);
        if |m.data| > limit then Run([], Failed(MessageTooLong))
        else if f.fin then Then(Whole(m), Meaning(limit, later, None))
        else Meaning(limit, later, Some(m))
  }

  /** The two machines agree on the message under way. */
  ghost predicate InStep(cfg: Config, snd: Sender, st: Receiver, open: Option<Fragments>) {
    && CanWrite(snd.close) && CanRead(st.close)
    && Consistent(cfg, st)
    && st.current == open
    && snd.last == (if open.Some? then Some(open.value.op) else None)
    && (open.Some? && open.value.op.Text? ==> Utf8.Valid(open.value.data))
  }

  /** The frame a call is written as. */
  function AsFrame(header: FrameHeader, f: Outgoing): SendableFrame
    requires !header.op.Invalid?
  {
    Frame(header.fin, header.op, header.mask,
          if header.op.Close? then (ToBe(f.closeCode, 2) + f.payload)[..|f.payload|] else f.payload)
  }

  lemma SentAsFrame(isClient: bool, snd: Sender, f: Outgoing)
    requires Prepare(isClient, snd, f).Ready?
    ensures var h := Prepare(isClient, snd, f).header;
            SentBytes(h, f) == Encode(AsFrame(h, f))
              + if h.op.Close? then (ToBe(f.closeCode, 2) + f.payload)[|f.payload|..] else []
  {
    var h := Prepare(isClient, snd, f).header;
    var g := AsFrame(h, f);
    assert h.mask == None || h.mask == Some(0);
    assert g.Header() == h;
    EncodedInClear(g);
    if h.op.Close? {
      var body := ToBe(f.closeCode, 2) + f.payload;
      assert body == body[..|f.payload|] + body[|f.payload|..];
      assert SentBytes(h, f) == EncodeHeader(h) + body;
    } else {
      assert HeaderBytes(h, f) == EncodeHeader(h);
    }
  }

  /** The writer's key is zero, so that its payloads go out as they are. */
  lemma EncodedInClear(g: SendableFrame)
    requires g.key == None || g.key == Some(0)
    ensures Encode(g) == EncodeHeader(g.Header()) + g.payload
  {
    MaskedWithZeroKey(g.payload);
  }

  lemma PreparesDataCall(isClient: bool, snd: Sender, f: Outgoing)
    requires CanWrite(snd.close) && !f.op.IsControl()
    requires snd.last.Some? ==> snd.last.value == f.op
    ensures var key := if isClient then Some(0) else None;
            var op := if snd.last.Some? then Continuation else f.op;
            var next := snd.(last := if f.fin then None else Some(f.op));
            Prepare(isClient, snd, f) == Ready(FrameHeader(f.fin, op, key, |f.payload|), next, false)
  {}

  lemma RefusesDataOnlyByLength(cfg: Config, st: Receiver, h: FrameHeader)
    requires Consistent(cfg, st) && h.op.IsData() && st.expecting == h.op.Continuation?
    requires !(h.mask.Some? && cfg.isClient)
    ensures var m := Joined(st, h.op);
            if |m.data| + h.len > cfg.maxMessage then Refuse(cfg, st, h).0 == Some(MessageTooLong)
            else Refuse(cfg, st, h) == (None, st.(expecting := !h.fin, current := Some(m)))
  {}

  /** One call: the peer's reader takes the frame as the message model says. */
  lemma TakesDataCall(cfg: Config, snd: Sender, st: Receiver, f: Outgoing, open: Option<Fragments>)
    requires InStep(cfg, snd, st, open) && !f.op.IsControl()
    requires !(open.Some? && open.value.op != f.op)
    ensures var r := Prepare(!cfg.isClient, snd, f);
            var m := Fragments(f.op, (if open.Some? then open.value.data else []) + f.payload);
            && r.Ready?
            && var (step, next) := TakeFrame(cfg, st, AsFrame(r.header, f));
            if |m.data| > cfg.maxMessage then step == Fail(MessageTooLong)
            else if f.fin then step == Deliver(Whole(m)) && InStep(cfg, r.next, next, None)
            else step == Partial && InStep(cfg, r.next, next, Some(m))
  {
    PreparesDataCall(!cfg.isClient, snd, f);
    var h := Prepare(!cfg.isClient, snd, f).header;
    var m := Fragments(f.op, (if open.Some? then open.value.data else []) + f.payload);
    var g := AsFrame(h, f);
    assert g == Frame(h.fin, h.op, h.mask, f.payload) && g.Header() == h;
    assert Joined(st, h.op) == Fragments(f.op, if open.Some? then open.value.data else []);
    TakesDataFrame(cfg, st, g);
    if f.op.Text? {
      TextStaysValid(open, f);
    }
  }

  lemma TextStaysValid(open: Option<Fragments>, f: Outgoing)
    requires f.op.Text? && (open.Some? ==> Utf8.Valid(open.value.data))
    ensures Utf8.Valid((if open.Some? then open.value.data else []) + f.payload)
  {
    assert [] + f.payload == f.payload;
    if open.Some? {
      Utf8.ValidConcat(open.value.data, f.payload);
    }
  }

  lemma TakesDataFrame(cfg: Config, st: Receiver, g: SendableFrame)
    requires Consistent(cfg, st) && CanRead(st.close) && g.op.IsData() && st.expecting == g.op.Continuation?
    requires !(g.key.Some? && cfg.isClient)
    ensures var before := Joined(st, g.op);
            var m := Fragments(before.op, before.data + g.payload);
            if |m.data| > cfg.maxMessage then TakeFrame(cfg, st, g).0 == Fail(MessageTooLong)
            else if g.fin then TakeFrame(cfg, st, g) == (Complete(m), st.(expecting := false, current := None))
            else TakeFrame(cfg, st, g) == (Partial, st.(expecting := true, current := Some(m)))
  {
    RefusesDataOnlyByLength(cfg, st, g.Header());
  }

  lemma TakesControlCall(cfg: Config, snd: Sender, st: Receiver, f: Outgoing, open: Option<Fragments>)
    requires InStep(cfg, snd, st, open) && f.op.IsControl()
    requires |f.payload| <= if f.op.Close? then 123 else 125
    ensures var r := Prepare(!cfg.isClient, snd, f);
            && r.Ready?
            && var (step, next) := TakeFrame(cfg, st, AsFrame(r.header, f));
            if |f.payload| > cfg.maxMessage then step == Fail(MessageTooLong)
            else if f.op.Close? then step == Deliver(CloseSeen(f)) && !CanRead(next.close) && !CanWrite(r.next.close)
            else && step == Deliver(if f.op.Ping? then PingMessage(f.payload) else PongMessage(f.payload))
                 && InStep(cfg, r.next, next, open)
  {}

  /** A half that has sent a Close sends nothing more. */
  lemma {:induction false} SilentAfterClose(isClient: bool, snd: Sender, calls: seq<Outgoing>)
    requires !CanWrite(snd.close)
    ensures SendAll(isClient, snd, calls) == []
    decreases |calls|
  {
    if calls != [] {
      SilentAfterClose(isClient, snd, calls[1..]);
    }
  }

  /** A frame at the head of the wire is one step of the run. */
  lemma {:induction false} ReceiveFrame(cfg: Config, st: Receiver, f: SendableFrame, rest: seq<byte>)
    requires CanRead(st.close)
    ensures var (step, next) := TakeFrame(cfg, st, f);
            Receive(cfg, st, Encode(f) + rest) == match step
              case Fail(error) => Run([], Failed(error))
              case Partial => Receive(cfg, next, rest)
              case Deliver(m) => Then(m, Receive(cfg, next, rest))
  {
    ReadEncodedFrame(cfg, st, f, rest);
  }

  /** A call that is written, Close apart, is one step of the run. */
  lemma ReceiveCall(cfg: Config, snd: Sender, st: Receiver, calls: seq<Outgoing>)
    requires CanRead(st.close) && calls != [] && !calls[0].op.Close?
    requires Prepare(!cfg.isClient, snd, calls[0]).Ready?
    ensures var r := Prepare(!cfg.isClient, snd, calls[0]);
            var (step, next) := TakeFrame(cfg, st, AsFrame(r.header, calls[0]));
            var rest := SendAll(!cfg.isClient, r.next, calls[1..]);
            Receive(cfg, st, SendAll(!cfg.isClient, snd, calls)) == match step
              case Fail(error) => Run([], Failed(error))
              case Partial => Receive(cfg, next, rest)
              case Deliver(m) => Then(m, Receive(cfg, next, rest))
  {
    var r := Prepare(!cfg.isClient, snd, calls[0]);
    SentAsFrame(!cfg.isClient, snd, calls[0]);
    assert SentBytes(r.header, calls[0]) == Encode(AsFrame(r.header, calls[0]));
    ReceiveFrame(cfg, st, AsFrame(r.header, calls[0]), SendAll(!cfg.isClient, r.next, calls[1..]));
  }

  /** The end-to-end law: whatever is called on one endpoint, with fragments and control frames
      interleaved in any way, the other endpoint receives what the calls mean. */
  lemma {:induction false} DeliversMeaning(cfg: Config, snd: Sender, st: Receiver, calls: seq<Outgoing>,
                                           open: Option<Fragments>)
    requires InStep(cfg, snd, st, open)
    ensures Receive(cfg, st, SendAll(!cfg.isClient, snd, calls)) == Meaning(cfg.maxMessage, calls, open)
    decreases |calls|, 1
  {
    if calls == [] {
      var end := ReadFrame(cfg, st, []);
      assert end.step == Deliver(CloseMessage(NO_CLOSE, [])) && !CanRead(end.next.close);
      assert Receive(cfg, end.next, end.rest) == Run([], Closed);
    } else if Prepare(!cfg.isClient, snd, calls[0]).Refused? {
      DeliversMeaning(cfg, snd, st, calls[1..], open);
    } else if calls[0].op.Close? {
      DeliversClose(cfg, snd, st, calls, open);
    } else if calls[0].op.IsControl() {
      DeliversPing(cfg, snd, st, calls, open);
    } else {
      DeliversData(cfg, snd, st, calls, open);
    }
  }

  lemma {:induction false} DeliversData(cfg: Config, snd: Sender, st: Receiver, calls: seq<Outgoing>,
                                        open: Option<Fragments>)
    requires InStep(cfg, snd, st, open)
    requires calls != [] && !calls[0].op.IsControl() && Prepare(!cfg.isClient, snd, calls[0]).Ready?
    ensures Receive(cfg, st, SendAll(!cfg.isClient, snd, calls)) == Meaning(cfg.maxMessage, calls, open)
    decreases |calls|, 0
  {
    var r := Prepare(!cfg.isClient, snd, calls[0]);
    var (step, next) := TakeFrame(cfg, st, AsFrame(r.header, calls[0]));
    TakesDataCall(cfg, snd, st, calls[0], open);
    ReceiveCall(cfg, snd, st, calls);
    if !step.Fail? {
      DeliversMeaning(cfg, r.next, next, calls[1..], next.current);
    }
  }

  lemma {:induction false} DeliversPing(cfg: Config, snd: Sender, st: Receiver, calls: seq<Outgoing>,
                                        open: Option<Fragments>)
    requires InStep(cfg, snd, st, open)
    requires calls != [] && Prepare(!cfg.isClient, snd, calls[0]).Ready?
    requires calls[0].op.IsControl() && !calls[0].op.Close?
    ensures Receive(cfg, st, SendAll(!cfg.isClient, snd, calls)) == Meaning(cfg.maxMessage, calls, open)
    decreases |calls|, 0
  {
    var r := Prepare(!cfg.isClient, snd, calls[0]);
    var (step, next) := TakeFrame(cfg, st, AsFrame(r.header, calls[0]));
    TakesControlCall(cfg, snd, st, calls[0], open);
    ReceiveCall(cfg, snd, st, calls);
    if !step.Fail? {
      DeliversMeaning(cfg, r.next, next, calls[1..], open);
    }
  }

  lemma {:induction false} DeliversClose(cfg: Config, snd: Sender, st: Receiver, calls: seq<Outgoing>,
                                         open: Option<Fragments>)
    requires InStep(cfg, snd, st, open)
    requires calls != [] && calls[0].op.Close? && Prepare(!cfg.isClient, snd, calls[0]).Ready?
    ensures Receive(cfg, st, SendAll(!cfg.isClient, snd, calls)) == Meaning(cfg.maxMessage, calls, open)
  {
    var f := calls[0];
    var r := Prepare(!cfg.isClient, snd, f);
    var extra := (ToBe(f.closeCode, 2) + f.payload)[|f.payload|..];
    TakesControlCall(cfg, snd, st, f, open);
    SilentAfterClose(!cfg.isClient, r.next, calls[1..]);
    SentAsFrame(!cfg.isClient, snd, f);
    assert SendAll(!cfg.isClient, snd, calls) == Encode(AsFrame(r.header, f)) + extra;
    ReceiveFrame(cfg, st, AsFrame(r.header, f), extra);
  }

  /** From the start of a connection. */
  lemma {:induction false} DeliversFromStart(cfg: Config, calls: seq<Outgoing>)
    ensures Receive(cfg, Receiver(false, None, None), SendAll(!cfg.isClient, Sender(None, None), calls))
         == Meaning(cfg.maxMessage, calls, None)
  {
    DeliversMeaning(cfg, Sender(None, None), Receiver(false, None, None), calls, None);
  }

  /** The same frames but for the keys. */
  ghost predicate SameButKeys(fs: seq<SendableFrame>, gs: seq<SendableFrame>) {
    && |fs| == |gs|
    && forall i :: 0 <= i < |fs| ==>
         fs[i].fin == gs[i].fin && fs[i].op == gs[i].op && fs[i].payload == gs[i].payload
  }

  /** A server makes the same of a client's frames whatever keys they are masked with, so that the
      zero key of this client stands for all others. */
  lemma {:induction false} KeysDoNotMatter(cfg: Config, st: Receiver, fs: seq<SendableFrame>, gs: seq<SendableFrame>,
                                           rest: seq<byte>)
    requires !cfg.isClient && SameButKeys(fs, gs)
    ensures Receive(cfg, st, EncodeAll(fs) + rest) == Receive(cfg, st, EncodeAll(gs) + rest)
    decreases |fs|
  {
    if fs == [] {
      assert EncodeAll(fs) + rest == EncodeAll(gs) + rest;
    } else if CanRead(st.close) {
      assert EncodeAll(fs) + rest == Encode(fs[0]) + (EncodeAll(fs[1..]) + rest);
      assert EncodeAll(gs) + rest == Encode(gs[0]) + (EncodeAll(gs[1..]) + rest);
      ReceiveFrame(cfg, st, fs[0], EncodeAll(fs[1..]) + rest);
      ReceiveFrame(cfg, st, gs[0], EncodeAll(gs[1..]) + rest);
      SameTake(cfg, st, fs[0], gs[0]);
      KeysDoNotMatter(cfg, TakeFrame(cfg, st, fs[0]).1, fs[1..], gs[1..], rest);
    }
  }

  lemma SameTake(cfg: Config, st: Receiver, f: SendableFrame, g: SendableFrame)
    requires !cfg.isClient && f.fin == g.fin && f.op == g.op && f.payload == g.payload
    ensures TakeFrame(cfg, st, f) == TakeFrame(cfg, st, g)
  {}

  /** `From<&Frame>`: a received frame as one to be sent. */
  function Forward(m: Message): RawOutgoing {
    match m
    case PingMessage(data) => Outgoing(Ping, 0, data, true)
    case PongMessage(data) => Outgoing(Pong, 0, data, true)
    case CloseMessage(code, data) => Outgoing(Close, code, data, true)
    case TextMessage(data) => Outgoing(Text, 0, data, true)
    case BinaryMessage(data) => Outgoing(Binary, 0, data, true)
  }

  /** A message that was delivered, Close apart, is delivered again when it is forwarded. */
  lemma {:induction false} ForwardedMessageArrives(cfg: Config, st: Receiver, w: seq<byte>, limit: nat)
    requires Consistent(cfg, st) && cfg.maxMessage < 0x8000_0000_0000_0000
    requires ReadFrame(cfg, st, w).step.Deliver? && !ReadFrame(cfg, st, w).step.message.CloseMessage?
    ensures var m := ReadFrame(cfg, st, w).step.message;
            && Forward(m).Built()
            && (|m.data| <= limit ==>
                  Meaning(limit, [Forward(m)], None) == Run([m, CloseMessage(NO_CLOSE, [])], Closed))
  {
    var m := ReadFrame(cfg, st, w).step.message;
    DeliveredFits(cfg, st, w);
    if |m.data| <= limit {
      ForwardMeans(limit, m);
    }
  }

  lemma {:induction false} ForwardMeans(limit: nat, m: Message)
    requires !m.CloseMessage? && Forward(m).Built() && |m.data| <= limit
    requires m.PingMessage? || m.PongMessage? ==> |m.data| <= MAX_CONTROL
    ensures Meaning(limit, [Forward(m)], None) == Run([m, CloseMessage(NO_CLOSE, [])], Closed)
  {
    assert [Forward(m)][1..] == [];
    assert [] + m.data == m.data;
  }

  lemma DeliveredFits(cfg: Config, st: Receiver, w: seq<byte>)
    requires Consistent(cfg, st)
    requires ReadFrame(cfg, st, w).step.Deliver? && !ReadFrame(cfg, st, w).step.message.CloseMessage?
    ensures var m := ReadFrame(cfg, st, w).step.message;
            && |m.data| <= cfg.maxMessage
            && (m.TextMessage? ==> Utf8.Valid(m.data))
            && (m.PingMessage? || m.PongMessage? ==> |m.data| <= MAX_CONTROL)
  {}

  /** Every message and every control frame is within the limit; `open` is the opcode of the
      message under way and its length so far. Calls that are refused do not matter, nor does
      what follows a Close. */
  predicate Fits(limit: nat, calls: seq<Outgoing>, open: Option<(Op, nat)>)
    decreases |calls|
  {
    calls == []
    || var f, later := calls[0], calls[1..];
       if f.op.IsControl() then
         if |f.payload| > (if f.op.Close? then 123 else 125) then Fits(limit, later, open)
         else |f.payload| <= limit && (f.op.Close? || Fits(limit, later, open))
       else if open.Some? && open.value.0 != f.op then Fits(limit, later, open)
       else
         var total := (if open.Some? then open.value.1 else 0) + |f.payload|;
         total <= limit && Fits(limit, later, if f.fin then None else Some((f.op, total)))
  }

  function Sized(open: Option<Fragments>): Option<(Op, nat)> {
    if open.Some? then Some((open.value.op, |open.value.data|)) else None
  }

  lemma {:induction false} MeansClosedIff(limit: nat, calls: seq<Outgoing>, open: Option<Fragments>)
    ensures Meaning(limit, calls, open).end
         == if Fits(limit, calls, Sized(open)) then Closed else Failed(MessageTooLong)
    decreases |calls|
  {
    if calls != [] {
      var f := calls[0];
      MeansClosedIff(limit, calls[1..], open);
      if !f.op.IsControl() && !(open.Some? && open.value.op != f.op) {
        var m := Fragments(f.op, (if open.Some? then open.value.data else []) + f.payload);
        MeansClosedIff(limit, calls[1..], if f.fin then None else Some(m));
      }
    }
  }

  /** No protocol error, ever: the peer's run ends without an error if and only if each message and
      each control frame is within its limit, and otherwise with that error and no other. */
  lemma {:induction false} EndsWellIffFits(cfg: Config, snd: Sender, st: Receiver, calls: seq<Outgoing>,
                                           open: Option<Fragments>)
    requires InStep(cfg, snd, st, open)
    ensures Receive(cfg, st, SendAll(!cfg.isClient, snd, calls)).end
         == if Fits(cfg.maxMessage, calls, Sized(open)) then Closed else Failed(MessageTooLong)
  {
    DeliversMeaning(cfg, snd, st, calls, open);
    MeansClosedIff(cfg.maxMessage, calls, open);
  }

  // ----- Close frames: the declared length leaves out the status code -----

  /** The status code arrives exactly when the reason is at least two bytes long, or when it is
      the code the reader assumes for an absent one. */
  lemma CloseCodeArrivesIff(f: Outgoing)
    requires f.op.Close?
    ensures CloseSeen(f).code == f.closeCode <==> |f.payload| >= 2 || f.closeCode == NO_STATUS_CODE
  {
    if |f.payload| >= 2 {
      PowersOf256();
      BeRoundTrip(f.closeCode, 2);
      assert (ToBe(f.closeCode, 2) + f.payload)[..|f.payload|][..2] == ToBe(f.closeCode, 2);
    }
  }

  /** The reason loses its last two bytes. */
  lemma CloseReasonCut(f: Outgoing)
    requires f.op.Close? && |f.payload| >= 2
    ensures CloseSeen(f).data == f.payload[..|f.payload| - 2]
  {}

  lemma {:induction false} CodeBytes(code: u16)
    ensures ToBe(code, 2) == [code / 256, code % 256]
  {
    assert ToBe(code / 256, 1) == ToBe(code / 256 / 256, 0) + [code / 256 % 256];
  }

  /** A Close frame round-trips in no other case than these two. */
  lemma CloseRoundTripsIff(f: Outgoing)
    requires f.op.Close?
    ensures CloseSeen(f) == CloseMessage(f.closeCode, f.payload)
       <==> f.closeCode == NO_STATUS_CODE && (f.payload == [] || f.payload == [3])
  {
    if |f.payload| >= 2 {
      CloseReasonCut(f);
    } else {
      CodeBytes(f.closeCode);
      if |f.payload| == 1 {
        assert (ToBe(f.closeCode, 2) + f.payload)[..1] == [f.closeCode / 256];
      }
    }
  }

  /** Whatever the Close frame, the last two bytes written for it lie outside the frame. */
  lemma CloseLeavesTwoBytes(cfg: Config, snd: Sender, st: Receiver, f: Outgoing)
    requires f.op.Close? && Prepare(!cfg.isClient, snd, f).Ready? && CanRead(st.close)
    ensures var w := SentBytes(Prepare(!cfg.isClient, snd, f).header, f);
            var r := ReadFrame(cfg, st, w);
            |f.payload| <= cfg.maxMessage ==> r.step == Deliver(CloseSeen(f)) && r.rest == w[|w| - 2..]
  {
    var h := Prepare(!cfg.isClient, snd, f).header;
    var extra := (ToBe(f.closeCode, 2) + f.payload)[|f.payload|..];
    SentAsFrame(!cfg.isClient, snd, f);
    ReadEncodedFrame(cfg, st, AsFrame(h, f), extra);
  }
}
