/** Section 5.4 of RFC 6455, stated on the sequence of frames alone, against the writer that
    produces such sequences and the reader that checks and reassembles them. */
module Fragmentation {
  import opened Bytes
  import opened Wire
  import opened Protocol
  import opened EndToEnd

  /** The last data frame is not the last of its message. */
  predicate Unfinished(fs: seq<SendableFrame>) {
    fs != [] && var f := fs[|fs| - 1]; if f.op.IsControl() then Unfinished(fs[..|fs| - 1]) else !f.fin
  }

  /** A data frame is a continuation exactly when the message before it is unfinished;
      control frames may stand anywhere. */
  ghost predicate WellFragmented(fs: seq<SendableFrame>) {
    forall i :: 0 <= i < |fs| && fs[i].op.IsData() ==> (fs[i].op.Continuation? <==> Unfinished(fs[..i]))
  }

  /** `fs[i]` opens a message that is still under way at the end. */
  ghost predicate OpensAt(fs: seq<SendableFrame>, i: int) {
    && 0 <= i < |fs|
    && (fs[i].op.Text? || fs[i].op.Binary?) && !fs[i].fin
    && forall j :: i < j < |fs| && fs[j].op.IsData() ==> fs[j].op.Continuation? && !fs[j].fin
  }

  /** The payloads of the data frames, in order. */
  function Payloads(fs: seq<SendableFrame>): seq<byte> {
    if fs == [] then []
    else
      var f := fs[|fs| - 1];
      if f.op.IsData() then Payloads(fs[..|fs| - 1]) + f.payload else Payloads(fs[..|fs| - 1])
  }

  lemma {:induction false} OneMoreFrame(fs: seq<SendableFrame>, f: SendableFrame)
    requires WellFragmented(fs)
    ensures WellFragmented(fs + [f]) <==> (f.op.IsData() ==> (f.op.Continuation? <==> Unfinished(fs)))
  {
    var gs := fs + [f];
    assert gs[..|fs|] == fs;
    forall i | 0 <= i < |fs|
      ensures gs[i] == fs[i] && gs[..i] == fs[..i]
    {}
    assert gs[|fs|] == f;
  }

  lemma {:induction false} UnfinishedAfter(fs: seq<SendableFrame>, f: SendableFrame)
    ensures Unfinished(fs + [f]) == if f.op.IsControl() then Unfinished(fs) else !f.fin
  {
    assert (fs + [f])[..|fs|] == fs;
  }

  lemma OpensAtAfter(fs: seq<SendableFrame>, f: SendableFrame, i: int)
    ensures OpensAt(fs + [f], i) <==>
            if i == |fs| then (f.op.Text? || f.op.Binary?) && !f.fin
            else OpensAt(fs, i) && (f.op.IsData() ==> f.op.Continuation? && !f.fin)
  {
    var gs := fs + [f];
    if 0 <= i < |fs| {
      assert gs[i] == fs[i] && gs[|fs|] == f;
      if OpensAt(gs, i) {
        assert forall j :: i < j < |fs| ==> fs[j] == gs[j];
      }
    }
  }

  // ----- Writer -----

  /** The frames a list of calls is written as. */
  function Emitted(isClient: bool, snd: Sender, calls: seq<Outgoing>): seq<SendableFrame>
    decreases |calls|
  {
    if calls == [] then []
    else
      var r := Prepare(isClient, snd, calls[0]);
      if r.Refused? then Emitted(isClient, snd, calls[1..])
      else [AsFrame(r.header, calls[0])] + Emitted(isClient, r.next, calls[1..])
  }

  /** A client masks every frame, a server none (section 5.1 of RFC 6455). */
  lemma {:induction false} ClientsMask(isClient: bool, snd: Sender, calls: seq<Outgoing>)
    ensures forall f :: f in Emitted(isClient, snd, calls) ==> (f.key.Some? <==> isClient)
    decreases |calls|
  {
    if calls != [] {
      var r := Prepare(isClient, snd, calls[0]);
      ClientsMask(isClient, if r.Refused? then snd else r.next, calls[1..]);
    }
  }

  function After(isClient: bool, snd: Sender, calls: seq<Outgoing>): Sender
    decreases |calls|
  {
    if calls == [] then snd
    else
      var r := Prepare(isClient, snd, calls[0]);
      After(isClient, if r.Refused? then snd else r.next, calls[1..])
  }

  /** `last_sent_message_op` describes the frames written so far. */
  ghost predicate Describes(last: Option<Op>, fs: seq<SendableFrame>) {
    && (last.Some? <==> Unfinished(fs))
    && (last.Some? ==> last.value.Text? || last.value.Binary?)
    && (forall i :: OpensAt(fs, i) ==> last == Some(fs[i].op))
    && (last.Some? ==> exists i :: OpensAt(fs, i))
  }

  lemma DescribesOneMore(isClient: bool, snd: Sender, f: Outgoing, fs: seq<SendableFrame>)
    requires WellFragmented(fs) && Describes(snd.last, fs)
    requires Prepare(isClient, snd, f).Ready?
    ensures var r := Prepare(isClient, snd, f);
            var gs := fs + [AsFrame(r.header, f)];
            WellFragmented(gs) && Describes(r.next.last, gs)
  {
    var r := Prepare(isClient, snd, f);
    var g := AsFrame(r.header, f);
    var gs := fs + [g];
    OneMoreFrame(fs, g);
    UnfinishedAfter(fs, g);
    assert g.op.IsControl() <==> f.op.IsControl();
    forall i | OpensAt(gs, i)
      ensures r.next.last == Some(gs[i].op)
    {
      OpensAtAfter(fs, g, i);
    }
    if r.next.last.Some? {
      var i := if snd.last.Some? then var i :| OpensAt(fs, i); i else |fs|;
      OpensAtAfter(fs, g, i);
      assert OpensAt(gs, i);
    }
  }

  /** Over every run, accepted calls or refused: the frames are well fragmented and the field
      tells whether, and with which opcode, a message is under way. */
  lemma {:induction false} WriterFragmentsWell(isClient: bool, snd: Sender, calls: seq<Outgoing>,
                                               fs: seq<SendableFrame>)
    requires WellFragmented(fs) && Describes(snd.last, fs)
    ensures WellFragmented(fs + Emitted(isClient, snd, calls))
    ensures Describes(After(isClient, snd, calls).last, fs + Emitted(isClient, snd, calls))
    decreases |calls|
  {
    if calls == [] {
      assert fs + [] == fs;
    } else {
      var r := Prepare(isClient, snd, calls[0]);
      if r.Refused? {
        WriterFragmentsWell(isClient, snd, calls[1..], fs);
      } else {
        var g := AsFrame(r.header, calls[0]);
        assert fs + Emitted(isClient, snd, calls) == fs + [g] + Emitted(isClient, r.next, calls[1..]);
        assert After(isClient, snd, calls) == After(isClient, r.next, calls[1..]);
        DescribesOneMore(isClient, snd, calls[0], fs);
        WriterFragmentsWell(isClient, r.next, calls[1..], fs + [g]);
      }
    }
  }

  /** What lies after the last frame: of a Close, the last two bytes that are written. */
  function Leftover(isClient: bool, snd: Sender, calls: seq<Outgoing>): seq<byte>
    decreases |calls|
  {
    if calls == [] then []
    else
      var r := Prepare(isClient, snd, calls[0]);
      if r.Refused? then Leftover(isClient, snd, calls[1..])
      else if calls[0].op.Close? then (ToBe(calls[0].closeCode, 2) + calls[0].payload)[|calls[0].payload|..]
      else Leftover(isClient, r.next, calls[1..])
  }

  lemma {:induction false} NoFrameAfterClose(isClient: bool, snd: Sender, calls: seq<Outgoing>)
    requires !CanWrite(snd.close)
    ensures Emitted(isClient, snd, calls) == []
    decreases |calls|
  {
    if calls != [] {
      NoFrameAfterClose(isClient, snd, calls[1..]);
    }
  }

  /** `w` is these frames, one after the other, and two more bytes if the last is a Close. */
  predicate MadeOf(w: seq<byte>, fs: seq<SendableFrame>, rest: seq<byte>) {
    && w == EncodeAll(fs) + rest
    && |rest| == if fs != [] && fs[|fs| - 1].op.Close? then 2 else 0
  }

  lemma OneFrameFirst(g: SendableFrame, w: seq<byte>, fs: seq<SendableFrame>, rest: seq<byte>)
    requires MadeOf(w, fs, rest) && !g.op.Close?
    ensures MadeOf(Encode(g) + w, [g] + fs, rest)
  {
    assert ([g] + fs)[1..] == fs;
    assert Encode(g) + EncodeAll(fs) + rest == Encode(g) + (EncodeAll(fs) + rest);
  }

  lemma OnlyClose(g: SendableFrame, rest: seq<byte>)
    requires g.op.Close? && |rest| == 2
    ensures MadeOf(Encode(g) + rest, [g], rest)
  {
    assert [g][1..] == [];
  }

  /** This is the wire of every list of calls. */
  lemma {:induction false} WireIsEmitted(isClient: bool, snd: Sender, calls: seq<Outgoing>)
    ensures MadeOf(SendAll(isClient, snd, calls), Emitted(isClient, snd, calls), Leftover(isClient, snd, calls))
    decreases |calls|
  {
    if calls != [] {
      var r := Prepare(isClient, snd, calls[0]);
      if r.Refused? {
        WireIsEmitted(isClient, snd, calls[1..]);
      } else {
        var g := AsFrame(r.header, calls[0]);
        SentAsFrame(isClient, snd, calls[0]);
        if calls[0].op.Close? {
          SilentAfterClose(isClient, r.next, calls[1..]);
          NoFrameAfterClose(isClient, r.next, calls[1..]);
          OnlyClose(g, Leftover(isClient, snd, calls));
        } else {
          WireIsEmitted(isClient, r.next, calls[1..]);
          assert SentBytes(r.header, calls[0]) == Encode(g);
          OneFrameFirst(g, SendAll(isClient, r.next, calls[1..]), Emitted(isClient, r.next, calls[1..]),
                        Leftover(isClient, r.next, calls[1..]));
        }
      }
    }
  }

  // ----- Reader -----

  /** The reader after taking the frames one by one, unless one of them is an error. */
  function TakeAll(cfg: Config, st: Receiver, fs: seq<SendableFrame>): Option<Receiver> {
    if fs == [] then Some(st)
    else match TakeAll(cfg, st, fs[..|fs| - 1])
      case None => None
      case Some(before) =>
        var (step, next) := TakeFrame(cfg, before, fs[|fs| - 1]);
        if step.Fail? then None else Some(next)
  }

  const FRESH := Receiver(false, None, None)

  /** `expect_continuation` and `current_message` describe the frames taken so far. */
  ghost predicate Tracks(cfg: Config, st: Receiver, fs: seq<SendableFrame>) {
    && Consistent(cfg, st)
    && st.expecting == Unfinished(fs)
    && (st.expecting ==> exists i :: OpensAt(fs, i))
    && (forall i :: OpensAt(fs, i) ==> st.current == Some(Fragments(fs[i].op, Payloads(fs[i..]))))
  }

  /** What taking a frame without error does to the two fields. */
  lemma TakenFrame(cfg: Config, st: Receiver, f: SendableFrame)
    requires Consistent(cfg, st) && !TakeFrame(cfg, st, f).0.Fail?
    ensures var next := TakeFrame(cfg, st, f).1;
            && Consistent(cfg, next)
            && (f.op.IsData() ==> f.op.Continuation? == st.expecting && next.expecting == !f.fin)
            && (f.op.IsControl() ==> next.expecting == st.expecting && next.current == st.current)
            && (f.op.IsData() && !f.fin ==>
                  next.current == Some(Fragments(Joined(st, f.op).op, Joined(st, f.op).data + f.payload)))
  {
    AcceptKeepsConsistent(cfg, st, f.Header(), f.payload);
  }

  lemma {:induction false} TracksOneMore(cfg: Config, st: Receiver, fs: seq<SendableFrame>, f: SendableFrame)
    requires Tracks(cfg, st, fs) && !TakeFrame(cfg, st, f).0.Fail?
    ensures Tracks(cfg, TakeFrame(cfg, st, f).1, fs + [f])
    ensures f.op.IsData() ==> (f.op.Continuation? <==> Unfinished(fs))
  {
    var gs, next := fs + [f], TakeFrame(cfg, st, f).1;
    TakenFrame(cfg, st, f);
    UnfinishedAfter(fs, f);
    forall i | OpensAt(gs, i)
      ensures next.current == Some(Fragments(gs[i].op, Payloads(gs[i..])))
    {
      OpensAtAfter(fs, f, i);
      PayloadsAfter(fs, f, i);
      if i == |fs| {
        assert Payloads(fs[i..]) == [] && [] + f.payload == f.payload;
        assert Joined(st, f.op) == Fragments(f.op, []);
      } else {
        assert OpensAt(fs, i) && gs[i] == fs[i];
      }
    }
    if next.expecting {
      var i := if st.expecting then var i :| OpensAt(fs, i); i else |fs|;
      OpensAtAfter(fs, f, i);
      assert OpensAt(gs, i);
    }
  }

  lemma PayloadsAfter(fs: seq<SendableFrame>, f: SendableFrame, i: nat)
    requires i <= |fs|
    ensures Payloads((fs + [f])[i..]) == if f.op.IsData() then Payloads(fs[i..]) + f.payload else Payloads(fs[i..])
  {
    assert (fs + [f])[i..] == fs[i..] + [f];
    assert (fs[i..] + [f])[..|fs| - i] == fs[i..];
  }

  /** Reassembly: after any error-free sequence of frames, with any keys, the reader holds the
      concatenation of the payloads of the message under way, and nothing otherwise; and the
      sequence was well fragmented. */
  lemma {:induction false} ReaderReassembles(cfg: Config, fs: seq<SendableFrame>)
    requires TakeAll(cfg, FRESH, fs).Some?
    ensures Tracks(cfg, TakeAll(cfg, FRESH, fs).value, fs)
    ensures WellFragmented(fs)
    decreases |fs|
  {
    if fs != [] {
      var before, f := fs[..|fs| - 1], fs[|fs| - 1];
      ReaderReassembles(cfg, before);
      assert fs == before + [f];
      TracksOneMore(cfg, TakeAll(cfg, FRESH, before).value, before, f);
      OneMoreFrame(before, f);
    }
  }

  /** The reader complains about a continuation exactly when the frame breaks the rule. */
  lemma {:induction false} ContinuationErrorIff(cfg: Config, fs: seq<SendableFrame>, f: SendableFrame)
    requires TakeAll(cfg, FRESH, fs).Some? && CanRead(TakeAll(cfg, FRESH, fs).value.close)
    ensures var step := TakeFrame(cfg, TakeAll(cfg, FRESH, fs).value, f).0;
            step in {Fail(ExpectedContinuation), Fail(UnexpectedContinuation)} <==> !WellFragmented(fs + [f])
  {
    ReaderReassembles(cfg, fs);
    OneMoreFrame(fs, f);
  }
}
