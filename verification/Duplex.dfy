/** Two endpoints in conversation: each sends and receives on one close state, in any order.
    A read that has begun is finished before the same end does anything else; `CloseProtocol`
    has the steps in between. An end stops reading at an error. */
module Duplex {
  import opened Bytes
  import opened Wire
  import opened Protocol
  import opened WebSocket
  import EndToEnd
  import Conversation

  datatype Endpoint = Endpoint(
    isClient: bool,
    limit: nat,
    /** The state of the writer and of the reader; the close state belongs to both. */
    last: Option<Op>,
    receiver: Receiver,
    /** What was called on it, refused calls included. */
    calls: seq<Outgoing>,
    /** What the peer has written and this end has not read yet. */
    incoming: seq<byte>,
    delivered: seq<Message>,
    failed: Option<Error>,
    /** How often it ran `close`. */
    closings: nat,
    /** It has left, so that the peer comes to the end of the stream. */
    gone: bool)
  {
    function Close(): CloseState {
      receiver.close
    }

    function Writing(): Sender {
      Sender(last, receiver.close)
    }

    function Cfg(): Config {
      Config(limit, isClient)
    }

    predicate Live() {
      failed.None? && CanRead(receiver.close)
    }
  }

  function New(isClient: bool, limit: nat): Endpoint {
    Endpoint(isClient, limit, None, Receiver(false, None, None), [], [], [], None, 0, false)
  }

  /** A call, on the end it is made on. */
  function Calling(a: Endpoint, f: Outgoing): Endpoint {
    var p := Prepare(a.isClient, a.Writing(), f);
    var called := a.(calls := a.calls + [f]);
    if p.Refused? then called
    else called.(last := p.next.last, receiver := a.receiver.(close := p.next.close),
                 closings := a.closings + if p.closes then 1 else 0)
  }

  /** And on the other one. */
  function Called(a: Endpoint, b: Endpoint, f: Outgoing): Endpoint {
    var p := Prepare(a.isClient, a.Writing(), f);
    if p.Refused? then b else b.(incoming := b.incoming + SentBytes(p.header, f))
  }

  /** One `read_frame`. */
  function Reading(b: Endpoint): Endpoint {
    var got := ReadFrame(b.Cfg(), b.receiver, b.incoming);
    var read := b.(receiver := got.next, incoming := got.rest,
                   closings := b.closings + CloseRuns(b.Cfg(), b.receiver, b.incoming));
    match got.step
    case Partial => read
    case Deliver(m) => read.(delivered := b.delivered + [m])
    case Fail(error) => read.(failed := Some(error))
  }

  /** A read waits for bytes, or for the end of the stream. */
  predicate CanProceed(b: Endpoint, peer: Endpoint) {
    b.Live() && !b.gone && (b.incoming != [] || peer.gone)
  }

  datatype System = System(client: Endpoint, server: Endpoint)

  datatype Side = Client | Server

  datatype Action = Call(side: Side, f: Outgoing) | Next(side: Side) | Leave(side: Side)

  predicate Enabled(s: System, x: Action) {
    match x
    case Call(side, _) => !(if side.Client? then s.client.gone else s.server.gone)
    case Next(side) => if side.Client? then CanProceed(s.client, s.server) else CanProceed(s.server, s.client)
    case Leave(_) => true
  }

  function Apply(s: System, x: Action): System {
    match x
    case Call(Client, f) => System(Calling(s.client, f), Called(s.client, s.server, f))
    case Call(Server, f) => System(Called(s.server, s.client, f), Calling(s.server, f))
    case Next(Client) => s.(client := Reading(s.client))
    case Next(Server) => s.(server := Reading(s.server))
    case Leave(Client) => s.(client := s.client.(gone := true))
    case Leave(Server) => s.(server := s.server.(gone := true))
  }

  predicate Possible(s: System, actions: seq<Action>)
    decreases |actions|
  {
    actions == [] || (Enabled(s, actions[0]) && Possible(Apply(s, actions[0]), actions[1..]))
  }

  function After(s: System, actions: seq<Action>): System
    decreases |actions|
  {
    if actions == [] then s else After(Apply(s, actions[0]), actions[1..])
  }

  function Start(clientLimit: nat, serverLimit: nat): System {
    System(New(true, clientLimit), New(false, serverLimit))
  }

  // ----- The two halves of an end disturb each other only through the close state -----

  /** The writer does not notice what its own end has read. */
  lemma {:induction false} SendsAlike(isClient: bool, snd: Sender, close: CloseState, calls: seq<Outgoing>)
    requires CanWrite(close) == CanWrite(snd.close)
    ensures SendAll(isClient, snd.(close := close), calls) == SendAll(isClient, snd, calls)
    decreases |calls|
  {
    if calls != [] {
      var p, q := Prepare(isClient, snd, calls[0]), Prepare(isClient, snd.(close := close), calls[0]);
      PreparesAlike(isClient, snd, close, calls[0]);
      if p.Refused? {
        SendsAlike(isClient, snd, close, calls[1..]);
      } else {
        SendsAlike(isClient, p.next, q.next.close, calls[1..]);
      }
    }
  }

  lemma PreparesAlike(isClient: bool, snd: Sender, close: CloseState, f: Outgoing)
    requires CanWrite(close) == CanWrite(snd.close)
    ensures var p, q := Prepare(isClient, snd, f), Prepare(isClient, snd.(close := close), f);
            && (p.Refused? <==> q.Refused?)
            && (p.Ready? ==> q.header == p.header && q.next == p.next.(close := q.next.close)
                             && CanWrite(q.next.close) == CanWrite(p.next.close))
  {}

  /** Nor does the reader notice what its own end has sent. */
  lemma {:induction false} ReceivesAlike(cfg: Config, st: Receiver, close: CloseState, w: seq<byte>)
    requires CanRead(close) == CanRead(st.close)
    ensures Receive(cfg, st.(close := close), w) == Receive(cfg, st, w)
    decreases |w|, CanRead(st.close)
  {
    if CanRead(st.close) {
      var got, other := ReadFrame(cfg, st, w), ReadFrame(cfg, st.(close := close), w);
      ReadsAlike(cfg, st, close, w);
      if !got.step.Fail? {
        ReadAdvances(cfg, st, w);
        ReceivesAlike(cfg, got.next, other.next.close, got.rest);
      }
    }
  }

  lemma ReadsAlike(cfg: Config, st: Receiver, close: CloseState, w: seq<byte>)
    requires CanRead(close) && CanRead(st.close)
    ensures var got, other := ReadFrame(cfg, st, w), ReadFrame(cfg, st.(close := close), w);
            && other.step == got.step && other.rest == got.rest
            && other.next == got.next.(close := other.next.close)
            && CanRead(other.next.close) == CanRead(got.next.close)
  {
    HeadersAlike(cfg.isClient, st, close, w);
    var (header, next, rest) := NextHeader(cfg.isClient, st, w);
    if header.HeaderOk? {
      var other := NextHeader(cfg.isClient, st.(close := close), w).1;
      BodiesAlike(cfg, next, other.close, header.header, rest);
    }
  }

  lemma HeadersAlike(isClient: bool, st: Receiver, close: CloseState, w: seq<byte>)
    requires CanRead(close) && CanRead(st.close)
    ensures var (header, next, rest) := NextHeader(isClient, st, w);
            var (header', next', rest') := NextHeader(isClient, st.(close := close), w);
            && header' == header && rest' == rest && next' == next.(close := next'.close)
            && CanRead(next'.close) == CanRead(next.close)
  {}

  lemma BodiesAlike(cfg: Config, st: Receiver, close: CloseState, h: FrameHeader, w: seq<byte>)
    ensures var got, other := ReadBody(cfg, st, h, w), ReadBody(cfg, st.(close := close), h, w);
            && other.step == got.step && other.rest == got.rest
            && other.next == got.next.(close := close) && got.next.close == st.close
  {
    var (error, next) := RefuseLength(cfg, st, h);
    if error.None? {
      AcceptsAlike(next, close, h, Unmasked(Padded(w, h.len), h.mask));
    }
  }

  lemma AcceptsAlike(st: Receiver, close: CloseState, h: FrameHeader, data: seq<byte>)
    requires h.op.IsControl() || st.current.Some?
    ensures var (step, next) := Accept(st, h, data);
            Accept(st.(close := close), h, data) == (step, next.(close := close)) && next.close == st.close
  {}

  lemma ReadAdvances(cfg: Config, st: Receiver, w: seq<byte>)
    requires CanRead(st.close)
    ensures var got := ReadFrame(cfg, st, w);
            |got.rest| < |w| || (got.rest == w == [] && !CanRead(got.next.close))
  {}

  // ----- One direction -----

  /** What `b` has got, and what it would still get from these bytes. */
  function Ahead(b: Endpoint, w: seq<byte>): Run {
    Conversation.Joined(b.delivered,
                        if b.failed.Some? then Run([], Failed(b.failed.value)) else Receive(b.Cfg(), b.receiver, w))
  }

  /** The bytes under way are whole frames; a Close is the last of them, with what it leaves behind. */
  ghost predicate InFlight(w: seq<byte>, frames: seq<SendableFrame>, tail: seq<byte>, over: bool) {
    && w == EncodeAll(frames) + tail
    && (over <==> frames != [] && frames[|frames| - 1].op.Close?)
    && (!over ==> tail == [])
    && forall i :: 0 <= i < |frames| - 1 ==> !frames[i].op.Close?
  }

  ghost predicate Framed(w: seq<byte>, over: bool) {
    exists frames, tail :: InFlight(w, frames, tail, over)
  }

  /** Whatever is still called, `b` gets what all the calls on `a` mean. */
  ghost predicate Carries(a: Endpoint, b: Endpoint, more: seq<Outgoing>) {
    Ahead(b, b.incoming + SendAll(a.isClient, a.Writing(), more)) == EndToEnd.Meaning(b.limit, a.calls + more, None)
  }

  ghost predicate Way(a: Endpoint, b: Endpoint) {
    && b.isClient == !a.isClient
    && (forall more :: (a.gone ==> more == []) ==> Carries(a, b, more))
    && (b.Live() ==> Framed(b.incoming, !CanWrite(a.Close())))
  }

  /** A Close that the writer accepts is among the calls. */
  predicate Closes(calls: seq<Outgoing>) {
    exists i :: 0 <= i < |calls| && calls[i].op.Close? && |calls[i].payload| <= 123
  }

  predicate GotClose(messages: seq<Message>) {
    messages != [] && messages[|messages| - 1].CloseMessage?
  }

  /** The close state says what was sent and received. */
  ghost predicate Tells(a: Endpoint, peer: Endpoint) {
    && (!CanWrite(a.Close()) <==> Closes(a.calls))
    && (a.failed.None? ==> (!CanRead(a.Close()) <==> GotClose(a.delivered)))
    && (a.failed.None? && !peer.gone ==> a.closings == if ShouldClose(a.Close()) then 1 else 0)
  }

  ghost predicate Invariant(s: System) {
    && Way(s.client, s.server) && Way(s.server, s.client)
    && Tells(s.client, s.server) && Tells(s.server, s.client)
  }

  // ----- Every step keeps both directions -----

  lemma {:induction false} OneCallMore(isClient: bool, snd: Sender, f: Outgoing, more: seq<Outgoing>)
    ensures var p := Prepare(isClient, snd, f);
            SendAll(isClient, snd, [f] + more)
            == if p.Refused? then SendAll(isClient, snd, more)
               else SentBytes(p.header, f) + SendAll(isClient, p.next, more)
  {
    assert ([f] + more)[1..] == more;
  }

  lemma CallCarries(a: Endpoint, b: Endpoint, f: Outgoing, more: seq<Outgoing>)
    requires Carries(a, b, [f] + more)
    ensures Carries(Calling(a, f), Called(a, b, f), more)
  {
    assert a.calls + ([f] + more) == a.calls + [f] + more;
    SameBytes(a, b, f, more);
    var b', w := Called(a, b, f), b.incoming + SendAll(a.isClient, a.Writing(), [f] + more);
    assert Ahead(b', w) == Ahead(b, w);
  }

  lemma {:induction false} SameBytes(a: Endpoint, b: Endpoint, f: Outgoing, more: seq<Outgoing>)
    ensures Called(a, b, f).incoming + SendAll(a.isClient, Calling(a, f).Writing(), more)
         == b.incoming + SendAll(a.isClient, a.Writing(), [f] + more)
  {
    OneCallMore(a.isClient, a.Writing(), f, more);
    var p := Prepare(a.isClient, a.Writing(), f);
    if p.Ready? {
      var sent, later := SentBytes(p.header, f), SendAll(a.isClient, p.next, more);
      AppendTwice(b.incoming, sent, later);
      assert Calling(a, f).Writing() == p.next;
    }
  }

  /** An accepted call is a whole frame more, and what a Close leaves behind. */
  lemma FramedCall(w: seq<byte>, isClient: bool, snd: Sender, f: Outgoing)
    requires Framed(w, !CanWrite(snd.close)) && Prepare(isClient, snd, f).Ready?
    ensures var p := Prepare(isClient, snd, f);
            Framed(w + SentBytes(p.header, f), !CanWrite(p.next.close))
  {
    var h := Prepare(isClient, snd, f).header;
    var frames, tail :| InFlight(w, frames, tail, !CanWrite(snd.close));
    var left := if h.op.Close? then (ToBe(f.closeCode, 2) + f.payload)[|f.payload|..] else [];
    EndToEnd.SentAsFrame(isClient, snd, f);
    ShutsByClose(isClient, snd, f);
    InFlightMore(w, frames, tail, EndToEnd.AsFrame(h, f), left);
  }

  lemma ShutsByClose(isClient: bool, snd: Sender, f: Outgoing)
    requires Prepare(isClient, snd, f).Ready?
    ensures var p := Prepare(isClient, snd, f);
            CanWrite(snd.close) && (!CanWrite(p.next.close) <==> p.header.op.Close?)
  {}

  lemma InFlightMore(w: seq<byte>, frames: seq<SendableFrame>, tail: seq<byte>, g: SendableFrame, left: seq<byte>)
    requires InFlight(w, frames, tail, false) && (!g.op.Close? ==> left == [])
    ensures InFlight(w + (Encode(g) + left), frames + [g], left, g.op.Close?)
  {
    EncodesOneMore(frames, g);
    assert tail == [] && w == EncodeAll(frames);
    AppendTwice(w, Encode(g), left);
  }

  lemma AppendTwice(a: seq<byte>, b: seq<byte>, c: seq<byte>)
    ensures a + (b + c) == a + b + c
  {}

  lemma {:induction false} EncodesOneMore(frames: seq<SendableFrame>, g: SendableFrame)
    ensures EncodeAll(frames + [g]) == EncodeAll(frames) + Encode(g)
    decreases |frames|
  {
    if frames == [] {
      assert [g][1..] == [];
    } else {
      assert (frames + [g])[1..] == frames[1..] + [g];
      EncodesOneMore(frames[1..], g);
    }
  }

  /** A call, and the direction it goes in. */
  lemma CallKeepsWay(a: Endpoint, b: Endpoint, f: Outgoing)
    requires Way(a, b) && !a.gone
    ensures Way(Calling(a, f), Called(a, b, f))
  {
    forall more: seq<Outgoing>
      ensures Carries(Calling(a, f), Called(a, b, f), more)
    {
      CallCarries(a, b, f, more);
    }
    if b.Live() && Prepare(a.isClient, a.Writing(), f).Ready? {
      FramedCall(b.incoming, a.isClient, a.Writing(), f);
    }
  }

  /** A call, and the other direction. */
  lemma CallKeepsOtherWay(a: Endpoint, b: Endpoint, f: Outgoing)
    requires Way(b, a)
    ensures Way(Called(a, b, f), Calling(a, f))
  {
    var a', b' := Calling(a, f), Called(a, b, f);
    forall more: seq<Outgoing> | b.gone ==> more == []
      ensures Carries(b', a', more)
    {
      assert Carries(b, a, more);
      ReceivesAlike(a.Cfg(), a.receiver, a'.Close(), a.incoming + SendAll(b.isClient, b.Writing(), more));
    }
  }

  lemma ReadKeepsWriting(cfg: Config, st: Receiver, w: seq<byte>)
    requires CanRead(st.close)
    ensures CanWrite(ReadFrame(cfg, st, w).next.close) == CanWrite(st.close)
  {
    HeaderKeepsWriting(cfg.isClient, st, w);
    var (header, next, rest) := NextHeader(cfg.isClient, st, w);
    if header.HeaderOk? {
      BodiesAlike(cfg, next, next.close, header.header, rest);
    }
  }

  lemma HeaderKeepsWriting(isClient: bool, st: Receiver, w: seq<byte>)
    requires CanRead(st.close)
    ensures CanWrite(NextHeader(isClient, st, w).1.close) == CanWrite(st.close)
  {}

  lemma SenderReads(a: Endpoint, b: Endpoint, more: seq<Outgoing>)
    requires Carries(b, a, more) && b.Live()
    ensures Carries(Reading(b), a, more)
  {
    ReadKeepsWriting(b.Cfg(), b.receiver, b.incoming);
    var close := Reading(b).Close();
    SendsAlike(b.isClient, b.Writing(), close, more);
    assert Reading(b).Writing() == b.Writing().(close := close);
  }

  /** A read, and the direction its own end sends in. */
  lemma ReadKeepsOtherWay(a: Endpoint, b: Endpoint)
    requires Way(b, a) && b.Live()
    ensures Way(Reading(b), a)
  {
    ReadKeepsWriting(b.Cfg(), b.receiver, b.incoming);
    forall more: seq<Outgoing> | b.gone ==> more == []
      ensures Carries(Reading(b), a, more)
    {
      SenderReads(a, b, more);
    }
  }

  lemma TakesClose(cfg: Config, st: Receiver, f: SendableFrame)
    requires CanRead(st.close)
    ensures var (step, next) := TakeFrame(cfg, st, f);
            && (f.op.Close? ==> step.Fail? || !CanRead(next.close))
            && (!f.op.Close? ==> next.close == st.close)
            && (step.Deliver? ==> (step.message.CloseMessage? <==> f.op.Close?))
  {}

  /** The frame that is read is the first of those under way. */
  lemma FirstFrame(w: seq<byte>, frames: seq<SendableFrame>, tail: seq<byte>, over: bool) returns (later: seq<byte>)
    requires InFlight(w, frames, tail, over) && frames != []
    ensures w == Encode(frames[0]) + later
    ensures !frames[0].op.Close? ==> InFlight(later, frames[1..], tail, over)
  {
    later := EncodeAll(frames[1..]) + tail;
    assert w == Encode(frames[0]) + later;
    assert forall i :: 0 <= i < |frames[1..]| ==> frames[1..][i] == frames[i + 1];
  }

  /** Reading the bytes of a frame is taking the frame. */
  lemma ReadsFirst(b: Endpoint, f: SendableFrame, later: seq<byte>) returns (c: Endpoint, step: Step)
    requires b.Live() && b.incoming == Encode(f) + later
    ensures c == Reading(b) && step == TakeFrame(b.Cfg(), b.receiver, f).0 && c.Cfg() == b.Cfg()
    ensures c.receiver == TakeFrame(b.Cfg(), b.receiver, f).1
    ensures !step.Fail? ==> c.incoming == later && c.failed.None?
    ensures c.delivered == if step.Deliver? then b.delivered + [step.message] else b.delivered
    ensures step.Fail? ==> c.failed == Some(step.error)
  {
    ReadEncodedFrame(b.Cfg(), b.receiver, f, later);
    c, step := Reading(b), TakeFrame(b.Cfg(), b.receiver, f).0;
  }

  /** What is ahead stays ahead when a frame is read. */
  lemma ReadCarries(b: Endpoint, f: SendableFrame, later: seq<byte>, x: seq<byte>)
    requires b.Live() && b.incoming == Encode(f) + later
    ensures Ahead(Reading(b), Reading(b).incoming + x) == Ahead(b, b.incoming + x)
  {
    var c, step := ReadsFirst(b, f, later);
    AppendTwice(Encode(f), later, x);
    EndToEnd.ReceiveFrame(b.Cfg(), b.receiver, f, later + x);
    var whole := Receive(b.Cfg(), b.receiver, b.incoming + x);
    IsAhead(b, b.incoming + x, whole);
    if !step.Fail? {
      var rest := Receive(c.Cfg(), c.receiver, later + x);
      IsAhead(c, later + x, rest);
      StaysAhead(b, c, step, whole, rest);
    }
  }

  lemma {:induction false} IsAhead(b: Endpoint, w: seq<byte>, later: Run)
    requires b.failed.None? && later == Receive(b.Cfg(), b.receiver, w)
    ensures Ahead(b, w) == Conversation.Joined(b.delivered, later)
  {}

  lemma StaysAhead(b: Endpoint, c: Endpoint, step: Step, whole: Run, later: Run)
    requires c.delivered == if step.Deliver? then b.delivered + [step.message] else b.delivered
    requires whole == if step.Deliver? then EndToEnd.Then(step.message, later) else later
    ensures Conversation.Joined(c.delivered, later) == Conversation.Joined(b.delivered, whole)
  {
    if step.Deliver? {
      assert b.delivered + ([step.message] + later.messages) == b.delivered + [step.message] + later.messages;
    }
  }

  /** At the end of the stream a Close is reported that nobody sent. */
  lemma EndCarries(b: Endpoint)
    requires b.Live() && b.incoming == []
    ensures !Reading(b).Live() && Ahead(Reading(b), Reading(b).incoming) == Ahead(b, [])
  {
    assert Receive(b.Cfg(), b.receiver, []) == Run([CloseMessage(NO_CLOSE, [])], Closed);
  }

  /** After a read that goes on, what is under way is framed. */
  lemma ReadKeepsFrames(b: Endpoint, frames: seq<SendableFrame>, tail: seq<byte>, over: bool)
    requires InFlight(b.incoming, frames, tail, over) && frames != [] && b.Live() && Reading(b).Live()
    ensures Framed(Reading(b).incoming, over)
  {
    var later := FirstFrame(b.incoming, frames, tail, over);
    var c, step := ReadsFirst(b, frames[0], later);
    TakesClose(b.Cfg(), b.receiver, frames[0]);
    assert InFlight(later, frames[1..], tail, over);
  }

  lemma ReaderReads(a: Endpoint, b: Endpoint, frames: seq<SendableFrame>, tail: seq<byte>, over: bool,
                    more: seq<Outgoing>)
    requires Carries(a, b, more) && CanProceed(b, a) && (a.gone ==> more == [])
    requires InFlight(b.incoming, frames, tail, over)
    ensures Carries(a, Reading(b), more)
  {
    var x := SendAll(a.isClient, a.Writing(), more);
    if frames == [] {
      assert b.incoming == [] && b.incoming + x == [];
      EndCarries(b);
      assert Reading(b).incoming + x == Reading(b).incoming;
    } else {
      var later := FirstFrame(b.incoming, frames, tail, over);
      ReadCarries(b, frames[0], later, x);
    }
  }

  /** A read, and the direction it takes from. */
  lemma ReadKeepsWay(a: Endpoint, b: Endpoint)
    requires Way(a, b) && CanProceed(b, a)
    ensures Way(a, Reading(b))
  {
    var over := !CanWrite(a.Close());
    var frames, tail :| InFlight(b.incoming, frames, tail, over);
    forall more: seq<Outgoing> | a.gone ==> more == []
      ensures Carries(a, Reading(b), more)
    {
      ReaderReads(a, b, frames, tail, over, more);
    }
    if Reading(b).Live() {
      ReadGoesOn(b, frames, tail, over);
    }
  }

  lemma ReadGoesOn(b: Endpoint, frames: seq<SendableFrame>, tail: seq<byte>, over: bool)
    requires InFlight(b.incoming, frames, tail, over) && b.Live() && Reading(b).Live()
    ensures Framed(Reading(b).incoming, over)
  {
    if frames == [] {
      EndCarries(b);
      assert false;
    }
    ReadKeepsFrames(b, frames, tail, over);
  }

  // ----- Every step keeps what the close state tells -----

  lemma ClosesOneMore(calls: seq<Outgoing>, f: Outgoing)
    ensures Closes(calls + [f]) <==> Closes(calls) || (f.op.Close? && |f.payload| <= 123)
  {
    var all := calls + [f];
    assert all[|calls|] == f;
    assert forall i :: 0 <= i < |calls| ==> all[i] == calls[i];
  }

  lemma CallTells(a: Endpoint, peer: Endpoint, f: Outgoing)
    requires Tells(a, peer)
    ensures Tells(Calling(a, f), Called(a, peer, f))
  {
    ClosesOneMore(a.calls, f);
  }

  lemma ClosingsOfRead(b: Endpoint, f: SendableFrame, later: seq<byte>)
    requires b.Live() && b.incoming == Encode(f) + later
    ensures var (step, next) := TakeFrame(b.Cfg(), b.receiver, f);
            CloseRuns(b.Cfg(), b.receiver, b.incoming)
            == if step.Deliver? && step.message.CloseMessage? && ShouldClose(next.close) then 1 else 0
  {
    ReadEncodedFrame(b.Cfg(), b.receiver, f, later);
    BeginsWithHeader(f, later);
    var (step, next) := TakeFrame(b.Cfg(), b.receiver, f);
    ClosingsOf(b.Cfg(), b.receiver, b.incoming, step, next);
  }

  lemma BeginsWithHeader(f: SendableFrame, later: seq<byte>)
    ensures ReadHeader(Encode(f) + later).Header?
  {
    assert Encode(f) + later == EncodeHeader(f.Header()) + (f.Body() + later);
    HeaderRoundTrip(f.Header(), f.Body() + later);
  }

  lemma ClosingsOf(cfg: Config, st: Receiver, w: seq<byte>, step: Step, next: Receiver)
    requires ReadHeader(w).Header? && ReadFrame(cfg, st, w).step == step && ReadFrame(cfg, st, w).next == next
    ensures CloseRuns(cfg, st, w)
         == if step.Deliver? && step.message.CloseMessage? && ShouldClose(next.close) then 1 else 0
  {}

  lemma ReadTells(b: Endpoint, peer: Endpoint, f: SendableFrame, later: seq<byte>)
    requires Tells(b, peer) && b.Live() && b.incoming == Encode(f) + later
    ensures Tells(Reading(b), peer)
  {
    var c, step := ReadsFirst(b, f, later);
    TakesClose(b.Cfg(), b.receiver, f);
    ReadLeaves(b, f, later);
    StillTells(b, c, peer, step);
  }

  lemma ReadLeaves(b: Endpoint, f: SendableFrame, later: seq<byte>)
    requires b.Live() && b.incoming == Encode(f) + later
    ensures var c, step := Reading(b), TakeFrame(b.Cfg(), b.receiver, f).0;
            && c.calls == b.calls && CanWrite(c.Close()) == CanWrite(b.Close())
            && c.closings == b.closings
                 + if step.Deliver? && step.message.CloseMessage? && ShouldClose(c.Close()) then 1 else 0
  {
    var c, step := ReadsFirst(b, f, later);
    ReadKeepsWriting(b.Cfg(), b.receiver, b.incoming);
    ClosingsOfRead(b, f, later);
  }

  lemma StillTells(b: Endpoint, c: Endpoint, peer: Endpoint, step: Step)
    requires Tells(b, peer) && b.Live()
    requires c.calls == b.calls && CanWrite(c.Close()) == CanWrite(b.Close())
    requires c.delivered == if step.Deliver? then b.delivered + [step.message] else b.delivered
    requires step.Fail? ==> c.failed.Some?
    requires !step.Fail? ==> (CanRead(c.Close()) <==> !(step.Deliver? && step.message.CloseMessage?))
    requires c.closings == b.closings
               + if step.Deliver? && step.message.CloseMessage? && ShouldClose(c.Close()) then 1 else 0
    ensures Tells(c, peer)
  {}

  lemma EndTells(b: Endpoint, peer: Endpoint)
    requires Tells(b, peer) && b.Live() && b.incoming == [] && peer.gone
    ensures Tells(Reading(b), peer)
  {
    ReadKeepsWriting(b.Cfg(), b.receiver, b.incoming);
  }

  lemma ReadKeepsTells(a: Endpoint, b: Endpoint)
    requires Way(a, b) && Tells(b, a) && CanProceed(b, a)
    ensures Tells(Reading(b), a)
  {
    var frames, tail :| InFlight(b.incoming, frames, tail, !CanWrite(a.Close()));
    if frames == [] {
      EndTells(b, a);
    } else {
      var later := FirstFrame(b.incoming, frames, tail, !CanWrite(a.Close()));
      ReadTells(b, a, frames[0], later);
    }
  }

  // ----- Whole runs -----

  lemma StepKeepsInvariant(s: System, x: Action)
    requires Invariant(s) && Enabled(s, x)
    ensures Invariant(Apply(s, x))
  {
    match x
    case Call(Client, f) => CallKeepsInvariant(s.client, s.server, f);
    case Call(Server, f) => CallKeepsInvariant(s.server, s.client, f);
    case Next(Client) => ReadKeepsInvariant(s.server, s.client);
    case Next(Server) => ReadKeepsInvariant(s.client, s.server);
    case Leave(Client) => LeaveKeepsInvariant(s.client, s.server);
    case Leave(Server) => LeaveKeepsInvariant(s.server, s.client);
  }

  lemma CallKeepsInvariant(a: Endpoint, b: Endpoint, f: Outgoing)
    requires Way(a, b) && Way(b, a) && Tells(a, b) && Tells(b, a) && !a.gone
    ensures var a', b' := Calling(a, f), Called(a, b, f);
            Way(a', b') && Way(b', a') && Tells(a', b') && Tells(b', a')
  {
    CallKeepsWay(a, b, f);
    CallKeepsOtherWay(a, b, f);
    CallTells(a, b, f);
  }

  lemma ReadKeepsInvariant(a: Endpoint, b: Endpoint)
    requires Way(a, b) && Way(b, a) && Tells(a, b) && Tells(b, a) && CanProceed(b, a)
    ensures var b' := Reading(b); Way(a, b') && Way(b', a) && Tells(a, b') && Tells(b', a)
  {
    ReadKeepsWay(a, b);
    ReadKeepsOtherWay(a, b);
    ReadKeepsTells(a, b);
  }

  lemma LeaveKeepsInvariant(a: Endpoint, b: Endpoint)
    requires Way(a, b) && Way(b, a) && Tells(a, b) && Tells(b, a)
    ensures var a' := a.(gone := true); Way(a', b) && Way(b, a') && Tells(a', b) && Tells(b, a')
  {
    var a' := a.(gone := true);
    assert Carries(a, b, []);
    assert Carries(a', b, []);
    forall more: seq<Outgoing> | b.gone ==> more == []
      ensures Carries(b, a', more)
    {
      assert Carries(b, a, more);
    }
  }

  lemma NewWay(a: Endpoint, b: Endpoint)
    requires a == New(a.isClient, a.limit) && b == New(!a.isClient, b.limit)
    ensures Way(a, b) && Tells(a, b)
  {
    forall more: seq<Outgoing>
      ensures Carries(a, b, more)
    {
      EndToEnd.DeliversFromStart(b.Cfg(), more);
      var w := SendAll(a.isClient, a.Writing(), more);
      assert [] + w == w && [] + more == more;
      IsAhead(b, w, Receive(b.Cfg(), b.receiver, w));
    }
    assert InFlight([], [], [], false);
  }

  /** Every reachable state of the two ends. */
  lemma {:induction false} EveryRun(s: System, actions: seq<Action>)
    requires Invariant(s) && Possible(s, actions)
    ensures Invariant(After(s, actions))
    decreases |actions|
  {
    if actions != [] {
      StepKeepsInvariant(s, actions[0]);
      EveryRun(Apply(s, actions[0]), actions[1..]);
    }
  }

  lemma StartsWell(clientLimit: nat, serverLimit: nat)
    ensures Invariant(Start(clientLimit, serverLimit))
  {
    var s := Start(clientLimit, serverLimit);
    NewWay(s.client, s.server);
    NewWay(s.server, s.client);
  }

  lemma {:induction false} LimitsStay(s: System, actions: seq<Action>)
    ensures After(s, actions).client.limit == s.client.limit && After(s, actions).server.limit == s.server.limit
    decreases |actions|
  {
    if actions != [] {
      LimitsStay(Apply(s, actions[0]), actions[1..]);
    }
  }

  lemma WayMeans(a: Endpoint, b: Endpoint)
    requires Way(a, b)
    ensures Ahead(b, b.incoming) == EndToEnd.Meaning(b.limit, a.calls, None)
    ensures b.delivered <= EndToEnd.Meaning(b.limit, a.calls, None).messages
    ensures b.failed.Some? ==> b.failed.value == MessageTooLong && !EndToEnd.Fits(b.limit, a.calls, None)
  {
    assert Carries(a, b, []);
    assert b.incoming + [] == b.incoming && a.calls + [] == a.calls;
    EndToEnd.MeansClosedIff(b.limit, a.calls, None);
  }

  /** Whatever the two ends do, in any order, and whatever is closed meanwhile: at every moment what
      either end has got and would still get from the bytes under way is what all the calls on the
      other end mean. So each gets the other's messages in their order and nothing else, and there
      is no protocol error. */
  lemma {:induction false} BothWays(clientLimit: nat, serverLimit: nat, actions: seq<Action>)
    requires Possible(Start(clientLimit, serverLimit), actions)
    ensures var System(client, server) := After(Start(clientLimit, serverLimit), actions);
            var toServer := EndToEnd.Meaning(serverLimit, client.calls, None);
            var toClient := EndToEnd.Meaning(clientLimit, server.calls, None);
            && Ahead(server, server.incoming) == toServer && server.delivered <= toServer.messages
            && Ahead(client, client.incoming) == toClient && client.delivered <= toClient.messages
            && (server.failed == None || server.failed == Some(MessageTooLong))
            && (client.failed == None || client.failed == Some(MessageTooLong))
  {
    var start := Start(clientLimit, serverLimit);
    var s := After(start, actions);
    StartsWell(clientLimit, serverLimit);
    EveryRun(start, actions);
    LimitsStay(start, actions);
    WayMeans(s.client, s.server);
    WayMeans(s.server, s.client);
  }

  // ----- The closing handshake -----

  /** No end can read on. */
  predicate Quiet(s: System) {
    !CanProceed(s.client, s.server) && !CanProceed(s.server, s.client)
  }

  lemma FramesHaveBytes(w: seq<byte>, frames: seq<SendableFrame>, tail: seq<byte>, over: bool)
    requires InFlight(w, frames, tail, over)
    ensures frames != [] ==> w != []
  {
    if frames != [] {
      var later := FirstFrame(w, frames, tail, over);
      BeginsWithHeader(frames[0], later);
    }
  }

  /** The end of the stream is a Close that nobody sent. */
  lemma NothingAhead(b: Endpoint)
    ensures b.Live() ==>
              Ahead(b, []) == Run(b.delivered + [CloseMessage(NO_CLOSE, [])], Closed)
    ensures !b.Live() ==>
              Ahead(b, b.incoming) == Run(b.delivered, if b.failed.Some? then Failed(b.failed.value) else Closed)
  {
    if b.Live() {
      assert Receive(b.Cfg(), b.receiver, []) == Run([CloseMessage(NO_CLOSE, [])], Closed);
    } else {
      assert b.delivered + [] == b.delivered;
    }
  }

  /** When `b` has read what there is, it has got all there is, or failed at what does not fit. */
  lemma Settled(a: Endpoint, b: Endpoint)
    requires Way(a, b) && Tells(b, a) && !b.gone && !CanProceed(b, a)
    ensures b.failed == if EndToEnd.Fits(b.limit, a.calls, None) then None else Some(MessageTooLong)
    ensures EndToEnd.Meaning(b.limit, a.calls, None)
         == Run(b.delivered + (if b.Live() then [CloseMessage(NO_CLOSE, [])] else []),
                if b.failed.Some? then Failed(MessageTooLong) else Closed)
    ensures b.failed.None? ==> (!b.Live() <==> GotClose(b.delivered))
    ensures !CanWrite(a.Close()) || a.gone ==> !b.Live()
  {
    WayMeans(a, b);
    NothingAhead(b);
    EndToEnd.MeansClosedIff(b.limit, a.calls, None);
    assert b.delivered + [] == b.delivered;
    if b.Live() {
      var frames, tail :| InFlight(b.incoming, frames, tail, !CanWrite(a.Close()));
      FramesHaveBytes(b.incoming, frames, tail, !CanWrite(a.Close()));
    }
  }

  function Left(b: Endpoint): nat {
    if b.Live() then |b.incoming| + 1 else 0
  }

  /** What reading leaves alone. */
  predicate OnlyRead(s: System, t: System) {
    && t.client.calls == s.client.calls && t.client.gone == s.client.gone && t.client.limit == s.client.limit
    && t.server.calls == s.server.calls && t.server.gone == s.server.gone && t.server.limit == s.server.limit
  }

  /** From everywhere, reading comes to an end. */
  lemma {:induction false} Settles(s: System) returns (actions: seq<Action>)
    ensures Possible(s, actions) && (forall x :: x in actions ==> x.Next?)
    ensures Quiet(After(s, actions)) && OnlyRead(s, After(s, actions))
    decreases Left(s.client) + Left(s.server)
  {
    actions := [];
    if !Quiet(s) {
      var x := Next(if CanProceed(s.client, s.server) then Client else Server);
      var b := if x.side.Client? then s.client else s.server;
      ReadAdvances(b.Cfg(), b.receiver, b.incoming);
      var others := Settles(Apply(s, x));
      actions := [x] + others;
      assert actions[1..] == others;
    }
  }

  /** `b` is shut on both sides, has run `close` once, and has got all that was said to it. */
  predicate ClosedWell(a: Endpoint, b: Endpoint) {
    && b.Close() == Some(Both) && b.closings == 1
    && EndToEnd.Meaning(b.limit, a.calls, None) == Run(b.delivered, Closed)
  }

  lemma ClosesWellIff(a: Endpoint, b: Endpoint)
    requires Way(a, b) && Tells(a, b) && Tells(b, a) && !a.gone && !b.gone && !CanProceed(b, a)
    requires Closes(a.calls) && Closes(b.calls)
    ensures ClosedWell(a, b) <==> EndToEnd.Fits(b.limit, a.calls, None)
  {
    Settled(a, b);
    assert b.delivered + [] == b.delivered;
  }

  /** The closing handshake, after any run in which both ends have called a Close: reading on comes
      to an end, and then each end is shut on both sides, has run `close` exactly once and has got
      exactly what the other said, if and only if the other's messages are within its limit. */
  lemma BothClose(clientLimit: nat, serverLimit: nat, before: seq<Action>) returns (ending: seq<Action>, s: System)
    requires Possible(Start(clientLimit, serverLimit), before)
    requires var t := After(Start(clientLimit, serverLimit), before);
             !t.client.gone && !t.server.gone && Closes(t.client.calls) && Closes(t.server.calls)
    ensures var t := After(Start(clientLimit, serverLimit), before);
            Possible(t, ending) && s == After(t, ending) && OnlyRead(t, s)
    ensures forall x :: x in ending ==> x.Next?
    ensures ClosedWell(s.client, s.server) <==> EndToEnd.Fits(serverLimit, s.client.calls, None)
    ensures ClosedWell(s.server, s.client) <==> EndToEnd.Fits(clientLimit, s.server.calls, None)
  {
    var start := Start(clientLimit, serverLimit);
    var t := After(start, before);
    StartsWell(clientLimit, serverLimit);
    EveryRun(start, before);
    LimitsStay(start, before);
    ending := Settles(t);
    EveryRun(t, ending);
    s := After(t, ending);
    ClosesWellIff(s.client, s.server);
    ClosesWellIff(s.server, s.client);
  }

  // ----- The steps are those of the reader and the writer -----

  /** What is read does not depend on what comes later. */
  lemma ReadIgnoresLater(b: Endpoint, over: bool, x: seq<byte>)
    requires b.Live() && Framed(b.incoming, over) && (b.incoming != [] || x == [])
    ensures var got := ReadFrame(b.Cfg(), b.receiver, b.incoming + x);
            && got.step == ReadFrame(b.Cfg(), b.receiver, b.incoming).step && got.next == Reading(b).receiver
            && (!got.step.Fail? ==> got.rest == Reading(b).incoming + x)
            && CloseRuns(b.Cfg(), b.receiver, b.incoming + x) == CloseRuns(b.Cfg(), b.receiver, b.incoming)
  {
    var frames, tail :| InFlight(b.incoming, frames, tail, over);
    assert x == [] ==> b.incoming + x == b.incoming && Reading(b).incoming + x == Reading(b).incoming;
    if frames != [] {
      var later := FirstFrame(b.incoming, frames, tail, over);
      FrameIgnoresLater(b, frames[0], later, x);
      ClosingsIgnoreLater(b, b.(incoming := b.incoming + x), frames[0], later, x);
    }
  }

  lemma FrameIgnoresLater(b: Endpoint, f: SendableFrame, later: seq<byte>, x: seq<byte>)
    requires b.Live() && b.incoming == Encode(f) + later
    ensures var got := ReadFrame(b.Cfg(), b.receiver, b.incoming + x);
            && got.step == ReadFrame(b.Cfg(), b.receiver, b.incoming).step && got.next == Reading(b).receiver
            && (!got.step.Fail? ==> got.rest == Reading(b).incoming + x)
  {
    assert b.incoming + x == Encode(f) + (later + x);
    var c, step := ReadsFirst(b, f, later);
    ReadEncodedFrame(b.Cfg(), b.receiver, f, later);
    ReadEncodedFrame(b.Cfg(), b.receiver, f, later + x);
  }

  lemma ClosingsIgnoreLater(b: Endpoint, c: Endpoint, f: SendableFrame, later: seq<byte>, x: seq<byte>)
    requires b.Live() && b.incoming == Encode(f) + later && c == b.(incoming := b.incoming + x)
    ensures CloseRuns(b.Cfg(), b.receiver, c.incoming) == CloseRuns(b.Cfg(), b.receiver, b.incoming)
  {
    assert c.incoming == Encode(f) + (later + x);
    ClosingsOfRead(b, f, later);
    ClosingsOfRead(c, f, later + x);
  }

  /** The two classes on one shared state are an end; `x` is what the peer has yet to write. */
  ghost predicate Shows(reader: Reader, writer: Writer, a: Endpoint, x: seq<byte>)
    reads reader, reader.stream, reader.data, writer, writer.data
  {
    && reader.Valid() && reader.data == writer.data
    && reader.Cfg() == a.Cfg() && reader.State() == a.receiver && writer.State() == a.Writing()
    && reader.stream.Pending() == a.incoming + x
    && reader.closings + writer.closings == a.closings
  }

  method CallStep(reader: Reader, writer: Writer, ghost a: Endpoint, ghost x: seq<byte>, f: Outgoing)
      returns (result: Option<Error>, ghost wrote: nat)
    requires Shows(reader, writer, a, x)
    modifies writer, writer.data`closeState, writer.stream
    ensures Shows(reader, writer, Calling(a, f), x)
    ensures var p := Prepare(a.isClient, a.Writing(), f);
            if p.Refused? then writer.stream.sent == old(writer.stream.sent)
            else
              var bytes := SentBytes(p.header, f);
              && wrote <= |bytes| && writer.stream.sent == old(writer.stream.sent) + bytes[..wrote]
              && (wrote == |bytes| || result == Some(UnexpectedEof) || p.closes)
  {
    result, wrote := writer.SendFrame(f);
  }

  method ReadStep(reader: Reader, writer: Writer, ghost b: Endpoint, ghost over: bool, ghost x: seq<byte>)
      returns (r: Step)
    requires Shows(reader, writer, b, x)
    requires b.Live() && Framed(b.incoming, over) && (b.incoming != [] || x == [])
    modifies reader, reader.data`closeState, reader.stream
    ensures r == ReadFrame(b.Cfg(), b.receiver, b.incoming).step
    ensures !r.Fail? ==> Shows(reader, writer, Reading(b), x)
    ensures reader.State() == Reading(b).receiver && writer.State() == Reading(b).Writing()
  {
    ReadIgnoresLater(b, over, x);
    ReadKeepsWriting(b.Cfg(), b.receiver, b.incoming);
    r := reader.ReadOneFrame();
  }
}
