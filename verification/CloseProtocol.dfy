/** The closing handshake as the two halves of one connection run it, step by step.
    A step ends where the half waits for the network, so that the other half may run. */
module CloseProtocol {
  import opened Bytes
  import opened Wire
  import opened Protocol

  datatype ReaderAt =
    | Idle
    | AwaitHeader    // `can_read` held, the header is being read
    | AwaitPayload   // a Close header was taken, its payload is being read

  datatype WriterAt = Free | Writing

  datatype System = System(
    close: CloseState,
    reader: ReaderAt,
    writer: WriterAt,
    /** The frames whose writing has begun, in order. */
    frames: seq<Op>,
    /** A Close was read to its last byte. */
    received: bool,
    /** How often each half ran `close`. */
    readerClosings: nat,
    writerClosings: nat,
    /** The writer began its Close while the reader waited for the payload of the peer's. */
    overlapped: bool)

  const START := System(None, Idle, Free, [], false, 0, 0, false)

  datatype Action =
    | BeginRead      // `read_frame_header` up to the first wait
    | TakeOther      // a frame other than Close, or any error
    | TakeEof        // the peer's side has ended
    | TakeClose      // a Close header
    | Abandon        // the payload of the Close is refused, or left to the caller
    | FinishClose    // the payload of the Close is in
    | BeginSend(op: Op)
    | EndSend

  predicate Enabled(s: System, a: Action) {
    match a
    case BeginRead => s.reader == Idle && CanRead(s.close)
    case TakeOther => s.reader == AwaitHeader
    case TakeEof => s.reader == AwaitHeader
    case TakeClose => s.reader == AwaitHeader
    case Abandon => s.reader == AwaitPayload
    case FinishClose => s.reader == AwaitPayload
    case BeginSend(_) => s.writer == Free && CanWrite(s.close)
    case EndSend => s.writer == Writing
  }

  function Apply(s: System, a: Action): System {
    match a
    case BeginRead => s.(reader := AwaitHeader)
    case TakeOther => s.(reader := Idle)
    case TakeEof => s.(reader := Idle, close := Shut(s.close, Read).0)
    case TakeClose => s.(reader := AwaitPayload, close := Shut(s.close, Read).0)
    case Abandon => s.(reader := Idle)
    case FinishClose =>
      s.(reader := Idle, received := true,
         readerClosings := s.readerClosings + if ShouldClose(s.close) then 1 else 0)
    case BeginSend(op) =>
      var t := s.(writer := Writing, frames := s.frames + [op]);
      if !op.Close? then t
      else
        var (close, both) := Shut(s.close, Write);
        t.(close := close, writerClosings := s.writerClosings + if both then 1 else 0,
           overlapped := s.reader == AwaitPayload)
    case EndSend => s.(writer := Free)
  }

  /** `actions` is one of the ways the two halves can interleave from `s`. */
  predicate Possible(s: System, actions: seq<Action>)
    decreases |actions|
  {
    actions == [] || (Enabled(s, actions[0]) && Possible(Apply(s, actions[0]), actions[1..]))
  }

  function After(s: System, actions: seq<Action>): System
    decreases |actions|
  {
    if actions == [] then s else After(Apply(s, actions[0]), actions[1..])
  }

  predicate ReadDown(close: CloseState) {
    !CanRead(close)
  }

  predicate WriteDown(close: CloseState) {
    !CanWrite(close)
  }

  /** At most one Close, and nothing after it. */
  ghost predicate CloseIsLast(frames: seq<Op>) {
    forall i :: 0 <= i < |frames| && frames[i].Close? ==> i == |frames| - 1
  }

  ghost predicate Invariant(s: System) {
    && CloseIsLast(s.frames)
    && (WriteDown(s.close) <==> exists i :: 0 <= i < |s.frames| && s.frames[i].Close?)
    && (s.reader == AwaitHeader ==> CanRead(s.close))
    && (s.reader == AwaitPayload ==> ReadDown(s.close) && !s.received)
    && (s.reader == AwaitPayload ==> (s.overlapped <==> s.writerClosings == 1))
    && (s.received ==> ReadDown(s.close))
    && (!s.received ==> s.readerClosings == 0)
    && s.readerClosings <= 1 && s.writerClosings <= 1
    && (s.readerClosings == 1 ==> ShouldClose(s.close))
    && (s.writerClosings == 1 ==> ShouldClose(s.close))
    && (s.overlapped ==> s.writerClosings == 1)
    && (s.received && ShouldClose(s.close) ==>
          s.readerClosings + s.writerClosings == if s.overlapped then 2 else 1)
  }

  /** None below Read and Write, both below Both. */
  predicate AtMost(c: CloseState, d: CloseState) {
    c == None || c == d || d == Some(Both)
  }

  lemma StepKeepsInvariant(s: System, a: Action)
    requires Invariant(s) && Enabled(s, a)
    ensures Invariant(Apply(s, a))
    ensures AtMost(s.close, Apply(s, a).close)
    ensures s.frames <= Apply(s, a).frames
  {
    if a.BeginSend? {
      var t := Apply(s, a);
      assert t.frames[|s.frames|] == a.op;
      assert forall i :: 0 <= i < |s.frames| ==> t.frames[i] == s.frames[i];
    }
  }

  /** Every interleaving: one half runs `close` at most once and only when both sides are shut,
      at most one Close is sent and no frame follows it, and the close state only climbs. */
  lemma {:induction false} EveryRun(s: System, actions: seq<Action>)
    requires Invariant(s) && Possible(s, actions)
    ensures Invariant(After(s, actions))
    ensures AtMost(s.close, After(s, actions).close)
    ensures s.frames <= After(s, actions).frames
    decreases |actions|
  {
    if actions != [] {
      StepKeepsInvariant(s, actions[0]);
      EveryRun(Apply(s, actions[0]), actions[1..]);
    }
  }

  /** How often `close` runs in all once both sides have sent and received a Close: once, or
      twice when the two halves overlapped. */
  lemma {:induction false} ClosingsExactly(actions: seq<Action>)
    requires Possible(START, actions)
    ensures var s := After(START, actions);
            && (s.received && Close in s.frames ==>
                  s.readerClosings + s.writerClosings == if s.overlapped then 2 else 1)
            && (s.readerClosings + s.writerClosings == 2 <==> s.overlapped && s.received)
  {
    EveryRun(START, actions);
    var s := After(START, actions);
    if Close in s.frames {
      var i :| 0 <= i < |s.frames| && s.frames[i] == Close;
      assert s.frames[i].Close?;
      assert WriteDown(s.close);
      if s.received {
        assert ReadDown(s.close);
        assert ShouldClose(s.close);
      }
    }
  }

  /** No send begins while a read is in progress, as when one owner uses both halves in turn. */
  predicate Sequential(s: System, actions: seq<Action>)
    decreases |actions|
  {
    actions == []
    || ((actions[0].BeginSend? ==> s.reader == Idle) && Sequential(Apply(s, actions[0]), actions[1..]))
  }

  lemma {:induction false} SequentialNeverOverlaps(s: System, actions: seq<Action>)
    requires Sequential(s, actions) && !s.overlapped
    ensures !After(s, actions).overlapped
    decreases |actions|
  {
    if actions != [] {
      SequentialNeverOverlaps(Apply(s, actions[0]), actions[1..]);
    }
  }

  /** Without overlap `close` runs at most once, and exactly once when a Close went both ways. */
  lemma {:induction false} SequentialClosesOnce(actions: seq<Action>)
    requires Possible(START, actions) && Sequential(START, actions)
    ensures var s := After(START, actions);
            && s.readerClosings + s.writerClosings <= 1
            && (s.received && Close in s.frames ==> s.readerClosings + s.writerClosings == 1)
  {
    SequentialNeverOverlaps(START, actions);
    ClosingsExactly(actions);
    EveryRun(START, actions);
  }

  /** Split halves can both run `close`. */
  lemma SplitHalvesCloseTwice()
    ensures var run := [BeginRead, TakeClose, BeginSend(Close), FinishClose];
            && Possible(START, run)
            && After(START, run).readerClosings == 1 && After(START, run).writerClosings == 1
  {
    var s2 := Apply(Apply(START, BeginRead), TakeClose);
    var s3 := Apply(s2, BeginSend(Close));
    assert s2.close == Some(Read) && s3.close == Some(Both);
    Steps(START, [BeginRead, TakeClose], [BeginSend(Close), FinishClose]);
    Steps(START, [BeginRead], [TakeClose]);
    Steps(s2, [BeginSend(Close)], [FinishClose]);
  }

  /** A run in two parts; a single step. */
  lemma {:induction false} Steps(s: System, first: seq<Action>, second: seq<Action>)
    ensures Possible(s, first + second) <==> Possible(s, first) && Possible(After(s, first), second)
    ensures Sequential(s, first + second) <==> Sequential(s, first) && Sequential(After(s, first), second)
    ensures After(s, first + second) == After(After(s, first), second)
    ensures |first| == 1 ==> After(s, first) == Apply(s, first[0]) && (Possible(s, first) <==> Enabled(s, first[0]))
    ensures |second| == 1 ==>
              var t := After(s, first);
              After(t, second) == Apply(t, second[0]) && (Possible(t, second) <==> Enabled(t, second[0]))
    decreases |first|
  {
    if first == [] {
      assert first + second == second;
    } else {
      assert (first + second)[1..] == first[1..] + second;
      Steps(Apply(s, first[0]), first[1..], second);
    }
  }

  // ----- The steps are those of the reader and the writer -----

  /** The steps one call of `read_frame` takes. */
  function ReadActions(cfg: Config, st: Receiver, w: seq<byte>): seq<Action> {
    if !CanRead(st.close) then []
    else match NextHeader(cfg.isClient, st, w).0
      case HeaderEnd => [BeginRead, TakeEof]
      case HeaderErr(_) => [BeginRead, TakeOther]
      case HeaderOk(h) =>
        if !h.op.Close? then [BeginRead, TakeOther]
        else if h.len > cfg.maxMessage then [BeginRead, TakeClose, Abandon]
        else [BeginRead, TakeClose, FinishClose]
  }

  /** A read touches the close state only at the header, and only at the end of the stream or at
      a Close. */
  lemma ReadShutsOnly(cfg: Config, st: Receiver, w: seq<byte>)
    requires CanRead(st.close)
    ensures var header, got := NextHeader(cfg.isClient, st, w).0, ReadFrame(cfg, st, w);
            && got.next.close == (if header.HeaderEnd? || (header.HeaderOk? && header.header.op.Close?)
                                  then Shut(st.close, Read).0 else st.close)
            && (TookClose(got, w) <==>
                  header.HeaderOk? && header.header.op.Close? && header.header.len <= cfg.maxMessage)
  {
    var (header, next, rest) := NextHeader(cfg.isClient, st, w);
    if header.HeaderOk? {
      BodyKeepsClose(cfg, next, header.header, rest);
    }
  }

  lemma {:induction false} ReadIsRun(cfg: Config, st: Receiver, w: seq<byte>, s: System)
    requires s.reader == Idle && s.close == st.close
    ensures var actions := ReadActions(cfg, st, w);
            var t, got := After(s, actions), ReadFrame(cfg, st, w);
            && Possible(s, actions) && Sequential(s, actions)
            && t.reader == Idle && t.close == got.next.close && t.frames == s.frames
            && t.readerClosings == s.readerClosings
                 + CloseRuns(cfg, st, w)
  {
    if CanRead(st.close) {
      ReadShutsOnly(cfg, st, w);
      CloseRun(s, Abandon);
      CloseRun(s, FinishClose);
      OtherRun(s, TakeEof);
      OtherRun(s, TakeOther);
    }
  }

  lemma {:induction false} CloseRun(s: System, last: Action)
    requires s.reader == Idle && CanRead(s.close) && (last == Abandon || last == FinishClose)
    ensures var run := [BeginRead, TakeClose, last];
            && Possible(s, run) && Sequential(s, run)
            && After(s, run) == Apply(Apply(Apply(s, BeginRead), TakeClose), last)
  {
    assert [BeginRead] + [TakeClose, last] == [BeginRead, TakeClose, last];
    assert [TakeClose] + [last] == [TakeClose, last];
    Steps(s, [BeginRead], [TakeClose, last]);
    Steps(Apply(s, BeginRead), [TakeClose], [last]);
  }

  lemma {:induction false} OtherRun(s: System, last: Action)
    requires s.reader == Idle && CanRead(s.close) && (last == TakeEof || last == TakeOther)
    ensures var run := [BeginRead, last];
            && Possible(s, run) && Sequential(s, run)
            && After(s, run) == Apply(Apply(s, BeginRead), last)
  {
    assert [BeginRead] + [last] == [BeginRead, last];
    Steps(s, [BeginRead], [last]);
  }

  lemma {:induction false} SendIsRun(isClient: bool, snd: Sender, f: Outgoing, s: System)
    requires s.writer == Free && s.close == snd.close && Prepare(isClient, snd, f).Ready?
    ensures var actions := [BeginSend(f.op), EndSend];
            var t, p := After(s, actions), Prepare(isClient, snd, f);
            && Possible(s, actions)
            && t.writer == Free && t.close == p.next.close && t.frames == s.frames + [f.op]
            && t.writerClosings == s.writerClosings + (if p.closes then 1 else 0)
  {
    assert [BeginSend(f.op)] + [EndSend] == [BeginSend(f.op), EndSend];
    Steps(s, [BeginSend(f.op)], [EndSend]);
  }
}
