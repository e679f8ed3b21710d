/** Whole runs of `Read` on one body, with any buffers and any delivery by the network. */
module BodyRuns {
  import opened Bytes
  import opened Chunked
  import opened Body

  /** One call, and the state it leaves behind. */
  datatype Call = Call(room: nat, out: Outcome, bytes: seq<byte>, transfer: Transfer, pending: seq<byte>) {
    /** The call reported the end of the body or an error. */
    predicate Ends() {
      out.Failed? || (out == Got(0) && room > 0)
    }
  }

  ghost predicate IsRun(t: Transfer, w: seq<byte>, calls: seq<Call>)
    decreases |calls|
  {
    calls == []
    || (var c := calls[0];
        Reads(t, w, c.room, c.out, c.bytes, c.transfer, c.pending) && IsRun(c.transfer, c.pending, calls[1..]))
  }

  function Delivered(calls: seq<Call>): seq<byte> {
    if calls == [] then [] else calls[0].bytes + Delivered(calls[1..])
  }

  function EndTransfer(t: Transfer, calls: seq<Call>): Transfer {
    if calls == [] then t else calls[|calls| - 1].transfer
  }

  function EndPending(w: seq<byte>, calls: seq<Call>): seq<byte> {
    if calls == [] then w else calls[|calls| - 1].pending
  }

  /** What was handed out and what is still to come make up the body, at every moment. */
  lemma {:induction false} RunConserves(t: Transfer, w: seq<byte>, calls: seq<Call>)
    requires IsRun(t, w, calls)
    ensures var whole, left := Meaning(t, w), Meaning(EndTransfer(t, calls), EndPending(w, calls));
            whole == Decoded(Delivered(calls) + left.data, left.end, left.rest)
    decreases |calls|
  {
    if calls != [] {
      var c := calls[0];
      var t', w' := EndTransfer(t, calls), EndPending(w, calls);
      assert t' == EndTransfer(c.transfer, calls[1..]) && w' == EndPending(c.pending, calls[1..]);
      RunConserves(c.transfer, c.pending, calls[1..]);
      Chained(Meaning(t, w), c.bytes, Meaning(c.transfer, c.pending), Delivered(calls[1..]), Meaning(t', w'));
    }
  }

  lemma Chained(whole: Decoded, a: seq<byte>, middle: Decoded, b: seq<byte>, left: Decoded)
    requires whole == Decoded(a + middle.data, middle.end, middle.rest)
    requires middle == Decoded(b + left.data, left.end, left.rest)
    ensures whole == Decoded(a + b + left.data, left.end, left.rest)
  {}

  lemma {:induction false} LastCall(t: Transfer, w: seq<byte>, calls: seq<Call>)
    requires IsRun(t, w, calls) && calls != []
    ensures var n := |calls| - 1;
            var c := calls[n];
            && IsRun(t, w, calls[..n])
            && Reads(EndTransfer(t, calls[..n]), EndPending(w, calls[..n]), c.room, c.out, c.bytes,
                     c.transfer, c.pending)
    decreases |calls|
  {
    if |calls| > 1 {
      var n := |calls| - 1;
      LastCall(calls[0].transfer, calls[0].pending, calls[1..]);
      assert calls[1..][..n - 1] == calls[..n][1..];
      assert EndTransfer(t, calls[..n]) == EndTransfer(calls[0].transfer, calls[1..][..n - 1]);
      assert EndPending(w, calls[..n]) == EndPending(calls[0].pending, calls[1..][..n - 1]);
    }
  }

  /** A run that came to its end has handed out the body, the whole body and nothing but it. */
  lemma {:induction false} CompleteRun(t: Transfer, w: seq<byte>, calls: seq<Call>)
    requires IsRun(t, w, calls) && calls != [] && calls[|calls| - 1].Ends()
    ensures var c := calls[|calls| - 1];
            Meaning(t, w) == Decoded(Delivered(calls),
                                     if c.out.Failed? then Broken(c.out.error, c.transfer) else Finished(c.transfer),
                                     c.pending)
  {
    LastCall(t, w, calls);
    RunConserves(t, w, calls);
    var c := calls[|calls| - 1];
    var left := Meaning(c.transfer, c.pending);
    assert left.data == [];
    assert Delivered(calls) + [] == Delivered(calls);
  }

  /** Two runs over the same bytes agree, however the network cut them up and whatever buffers
      were passed, even when the bytes are malformed. */
  lemma {:induction false} RunsAgree(t: Transfer, w: seq<byte>, calls: seq<Call>, others: seq<Call>)
    requires IsRun(t, w, calls) && calls != [] && calls[|calls| - 1].Ends()
    requires IsRun(t, w, others) && others != [] && others[|others| - 1].Ends()
    ensures Delivered(calls) == Delivered(others)
    ensures var c, d := calls[|calls| - 1], others[|others| - 1];
            c.out == d.out && c.transfer == d.transfer && c.pending == d.pending
  {
    CompleteRun(t, w, calls);
    CompleteRun(t, w, others);
  }

  /** Reading an encoded body to its end gives the data of the chunks, and leaves the connection
      at the first byte of the trailers. */
  lemma {:induction false} ReadsEncodedBody(chunks: seq<Chunk>, last: SizeLine, rest: seq<byte>, calls: seq<Call>)
    requires AllValid(chunks) && IsLast(last)
    requires IsRun(Chunks(Size), Encode(chunks, last) + rest, calls) && calls != [] && calls[|calls| - 1].Ends()
    ensures var c := calls[|calls| - 1];
            Delivered(calls) == Payload(chunks) && c.out == Got(0) && c.transfer == Trailers && c.pending == rest
  {
    DecodesEncoding(chunks, last, rest);
    CompleteRun(Chunks(Size), Encode(chunks, last) + rest, calls);
  }

  /** With buffers that are not empty, a run that has not ended has handed out a byte per call. */
  lemma {:induction false} RunsAreShort(t: Transfer, w: seq<byte>, calls: seq<Call>)
    requires IsRun(t, w, calls)
    requires forall c :: c in calls ==> c.room > 0 && !c.Ends()
    ensures |calls| <= |Delivered(calls)| <= |Meaning(t, w).data|
    decreases |calls|
  {
    if calls != [] {
      var c := calls[0];
      assert c in calls;
      assert forall d :: d in calls[1..] ==> d in calls;
      RunsAreShort(c.transfer, c.pending, calls[1..]);
    }
  }

  /** An error is final: every later call with a buffer reports it again. */
  lemma ErrorsStay(t: Transfer, w: seq<byte>, c: Call, d: Call)
    requires Reads(t, w, c.room, c.out, c.bytes, c.transfer, c.pending) && c.out.Failed?
    requires Reads(c.transfer, c.pending, d.room, d.out, d.bytes, d.transfer, d.pending) && d.room > 0
    ensures d.out == c.out
  {}

  /** A body of known length: what was handed out plus `remaining` is the declared length, and
      the connection stands right after what was handed out. */
  lemma {:induction false} LengthConserved(t: Transfer, w: seq<byte>, calls: seq<Call>)
    requires Remaining(t).Some? && IsRun(t, w, calls)
    ensures Remaining(EndTransfer(t, calls)) == Some(Remaining(t).value - |Delivered(calls)|)
    ensures Delivered(calls) + EndPending(w, calls) == w
    decreases |calls|
  {
    if calls != [] {
      var c := calls[0];
      LengthStep(t, w, c);
      LengthConserved(c.transfer, c.pending, calls[1..]);
      assert EndTransfer(t, calls) == EndTransfer(c.transfer, calls[1..]);
      assert EndPending(w, calls) == EndPending(c.pending, calls[1..]);
      Appended(c.bytes, Delivered(calls[1..]), EndPending(w, calls));
    }
  }

  lemma Appended(a: seq<byte>, b: seq<byte>, c: seq<byte>)
    ensures a + b + c == a + (b + c)
  {}

  lemma LengthStep(t: Transfer, w: seq<byte>, c: Call)
    requires Remaining(t).Some? && Reads(t, w, c.room, c.out, c.bytes, c.transfer, c.pending)
    ensures c.bytes + c.pending == w && Remaining(c.transfer) == Some(Remaining(t).value - |c.bytes|)
  {
    LengthSplits(t, w);
    LengthSplits(c.transfer, c.pending);
    Regrouped(Meaning(t, w), c.bytes, Meaning(c.transfer, c.pending));
  }

  lemma Regrouped(whole: Decoded, a: seq<byte>, left: Decoded)
    requires whole.data == a + left.data && whole.rest == left.rest
    ensures whole.data + whole.rest == a + (left.data + left.rest)
  {}

  lemma LengthSplits(t: Transfer, w: seq<byte>)
    requires Remaining(t).Some?
    ensures Meaning(t, w).data + Meaning(t, w).rest == w
  {}

  /** The end of such a body: all of it was there, or the connection was cut short. */
  lemma {:induction false} LengthEnds(n: u64, w: seq<byte>, calls: seq<Call>)
    requires IsRun(Length(n), w, calls) && calls != [] && calls[|calls| - 1].Ends()
    ensures var c := calls[|calls| - 1];
            if |w| < n then c.out == Failed(PartialFile) && Delivered(calls) == w
            else && c.out == Got(0) && Remaining(c.transfer) == Some(0)
                 && Delivered(calls) == w[..n] && c.pending == w[n..]
  {
    CompleteRun(Length(n), w, calls);
    LengthConserved(Length(n), w, calls);
    assert |w| >= n ==> w[..n] + w[n..] == w;
  }

  /** A body of unknown length: all that the connection holds until it ends. */
  lemma {:induction false} ConnectionEnds(w: seq<byte>, calls: seq<Call>)
    requires IsRun(Connection, w, calls) && calls != [] && calls[|calls| - 1].Ends()
    ensures var c := calls[|calls| - 1];
            Delivered(calls) == w && c.out == Got(0) && c.transfer == Empty && c.pending == []
  {
    CompleteRun(Connection, w, calls);
  }

  /** A body that is none, or is over: nothing is handed out or touched. */
  lemma {:induction false} NothingMore(t: Transfer, w: seq<byte>, calls: seq<Call>)
    requires (t == Empty || t == Trailers) && IsRun(t, w, calls) && calls != [] && calls[|calls| - 1].Ends()
    ensures var c := calls[|calls| - 1];
            Delivered(calls) == [] && c.out == Got(0) && c.transfer == t && c.pending == w
  {
    CompleteRun(t, w, calls);
  }

  lemma {:induction false} RunFrom(t: Transfer, w: seq<byte>, c: Call, calls: seq<Call>)
    requires Reads(t, w, c.room, c.out, c.bytes, c.transfer, c.pending) && IsRun(c.transfer, c.pending, calls)
    ensures IsRun(t, w, [c] + calls) && Delivered([c] + calls) == c.bytes + Delivered(calls)
  {
    assert ([c] + calls)[1..] == calls;
  }

  /** A caller that reads to the end, with any buffers, makes such a run. */
  method ReadAll(body: Body) returns (data: seq<byte>, out: Outcome, ghost calls: seq<Call>)
    requires body.Valid()
    modifies body, body.reader
    ensures body.Valid()
    ensures IsRun(old(body.transfer), old(body.reader.Pending()), calls) && Delivered(calls) == data
    ensures calls != [] && calls[|calls| - 1].Ends() && calls[|calls| - 1].out == out
    ensures calls[|calls| - 1].transfer == body.transfer && calls[|calls| - 1].pending == body.reader.Pending()
    decreases |Meaning(body.transfer, body.reader.Pending()).data|
  {
    ghost var t, w := body.transfer, body.reader.Pending();
    var size: nat :| size > 0;
    var buf := new byte[size](_ => 0);
    out := body.Read(buf);
    data := if out.Got? then buf[..out.n] else [];
    ghost var call := Call(size, out, data, body.transfer, body.reader.Pending());
    if out.Failed? || out.n == 0 {
      calls := [];
    } else {
      var later;
      later, out, calls := ReadAll(body);
      data := data + later;
    }
    RunFrom(t, w, call, calls);
    calls := [call] + calls;
  }

  /** And gets the body. */
  method ReadToEnd(body: Body) returns (data: seq<byte>, out: Outcome)
    requires body.Valid()
    modifies body, body.reader
    ensures body.Valid() && (out.Failed? || out == Got(0))
    ensures Meaning(old(body.transfer), old(body.reader.Pending()))
         == Decoded(data, if out.Failed? then Broken(out.error, body.transfer) else Finished(body.transfer),
                    body.reader.Pending())
    ensures old(body.transfer) == Connection ==>
              data == old(body.reader.Pending()) && out == Got(0) && body.reader.Pending() == []
    ensures old(body.transfer).Length? ==>
              var n, w := old(body.transfer).length, old(body.reader.Pending());
              if |w| < n then data == w && out == Failed(PartialFile) && body.reader.Pending() == []
              else data == w[..n] && out == Got(0) && body.reader.Pending() == w[n..]
  {
    ghost var t, w := body.transfer, body.reader.Pending();
    ghost var calls;
    data, out, calls := ReadAll(body);
    CompleteRun(t, w, calls);
    if t == Connection {
      ConnectionEnds(w, calls);
    } else if t.Length? {
      LengthEnds(t.length, w, calls);
    }
  }
}
