/** Callers of the writer and of the reader: whole runs of the two classes, one against the other. */
module Conversation {
  import opened Bytes
  import opened Stream
  import opened Protocol
  import opened WebSocket
  import EndToEnd

  const SHORT_WRITE: Option<Error> := Some(UnexpectedEof)

  /** The first of the calls. */
  method SendFirst(writer: Writer, calls: seq<Outgoing>) returns (result: Option<Error>, ghost whole: bool)
    requires calls != []
    modifies writer, writer.data`closeState, writer.stream
    ensures old(writer.closings) <= writer.closings
    ensures !whole ==> result == SHORT_WRITE || old(writer.closings) < writer.closings
    ensures whole ==>
              writer.stream.sent + SendAll(writer.data.isClient, writer.State(), calls[1..])
              == old(writer.stream.sent) + SendAll(writer.data.isClient, old(writer.State()), calls)
    ensures old(writer.data.closeState) != Some(Read) ==>
              writer.data.closeState != Some(Read) && writer.closings == old(writer.closings)
  {
    ghost var p := Prepare(writer.data.isClient, writer.State(), calls[0]);
    ghost var wrote;
    result, wrote := writer.SendFrame(calls[0]);
    whole := p.Refused? || wrote == |SentBytes(p.header, calls[0])|;
    if p.Ready? {
      var bytes := SentBytes(p.header, calls[0]);
      var later := SendAll(writer.data.isClient, p.next, calls[1..]);
      assert bytes[..|bytes|] == bytes;
      assert old(writer.stream.sent) + bytes + later == old(writer.stream.sent) + (bytes + later);
    }
  }

  /** One `send_frame` after the other, with what each returned. Unless `close` ran, which hides
      it, a short write shows in the results. */
  method SendEach(writer: Writer, calls: seq<Outgoing>) returns (results: seq<Option<Error>>)
    modifies writer, writer.data`closeState, writer.stream
    ensures |results| == |calls|
    ensures old(writer.data.closeState) != Some(Read) ==> writer.closings == old(writer.closings)
    ensures SHORT_WRITE !in results && writer.closings == old(writer.closings) ==>
              writer.stream.sent == old(writer.stream.sent)
                                    + SendAll(writer.data.isClient, old(writer.State()), calls)
  {
    results := [];
    ghost var whole := true;
    var i := 0;
    while i < |calls|
      invariant 0 <= i <= |calls| && |results| == i
      invariant old(writer.data.closeState) != Some(Read) ==>
                  writer.data.closeState != Some(Read) && writer.closings == old(writer.closings)
      invariant old(writer.closings) <= writer.closings
      invariant !whole ==> SHORT_WRITE in results || old(writer.closings) < writer.closings
      invariant whole ==>
                  writer.stream.sent + SendAll(writer.data.isClient, writer.State(), calls[i..])
                  == old(writer.stream.sent) + SendAll(writer.data.isClient, old(writer.State()), calls)
    {
      assert calls[i..][1..] == calls[i + 1..];
      var result, good := SendFirst(writer, calls[i..]);
      results := results + [result];
      whole := whole && good;
      i := i + 1;
    }
  }

  lemma {:induction false} MessageShrinks(cfg: Config, st: Receiver, w: seq<byte>)
    ensures var got := NextMessage(cfg, st, w);
            got.step.Deliver? ==> |got.rest| < |w| || (got.rest == w == [] && !CanRead(got.next.close))
    decreases |w|
  {
    var got := ReadFrame(cfg, st, w);
    if got.step.Partial? {
      MessageShrinks(cfg, got.next, got.rest);
    }
  }

  /** `Frames::next` until it returns nothing or an error. */
  method ReceiveAll(reader: Reader) returns (run: Run)
    requires reader.Valid()
    modifies reader, reader.data`closeState, reader.stream
    ensures reader.Valid()
    ensures run == Receive(old(reader.Cfg()), old(reader.State()), old(reader.stream.Pending()))
  {
    ghost var whole := Receive(reader.Cfg(), reader.State(), reader.stream.Pending());
    var messages := [];
    while true
      invariant reader.Valid()
      invariant whole == Joined(messages, Receive(reader.Cfg(), reader.State(), reader.stream.Pending()))
      decreases |reader.stream.Pending()|, CanRead(reader.data.closeState)
    {
      ghost var st, w := reader.State(), reader.stream.Pending();
      var step := reader.Next();
      if step == None {
        assert messages + [] == messages;
        return Run(messages, Closed);
      }
      ReceiveByMessages(reader.Cfg(), st, w);
      MessageShrinks(reader.Cfg(), st, w);
      if step.value.Fail? {
        assert messages + [] == messages;
        return Run(messages, Failed(step.value.error));
      }
      messages := messages + [step.value.message];
    }
  }

  function Joined(messages: seq<Message>, later: Run): Run {
    Run(messages + later.messages, later.end)
  }

  /** A new writer. */
  method SendFromStart(isClient: bool, usizeMax: nat, limit: nat, calls: seq<Outgoing>)
      returns (wire: seq<byte>, results: seq<Option<Error>>)
    requires limit <= usizeMax
    ensures |results| == |calls|
    ensures SHORT_WRITE !in results ==> wire == SendAll(isClient, Sender(None, None), calls)
  {
    var data := new Shared(isClient, usizeMax, limit);
    var socket := new Socket();
    var writer := new Writer(socket, data);
    results := SendEach(writer, calls);
    wire := socket.sent;
  }

  /** A new reader, with any buffer and any network. */
  method ReceiveFromStart(isClient: bool, usizeMax: nat, limit: nat, wire: seq<byte>, capacity: nat, network: Network)
      returns (run: Run)
    requires limit <= usizeMax && 0 < capacity
    ensures run == Receive(Config(limit, isClient), Receiver(false, None, None), wire)
  {
    var data := new Shared(isClient, usizeMax, limit);
    var stream := new BufReader(capacity, wire, network);
    var reader := new Reader(stream, data);
    assert stream.Pending() == wire;
    run := ReceiveAll(reader);
  }

  /** The end-to-end law of the classes: whatever is called on a new writer, a new reader on the
      other side receives what the calls mean, unless a call reports a short write. */
  method Converse(isClient: bool, usizeMax: nat, limit: nat, calls: seq<Outgoing>, capacity: nat, network: Network)
      returns (results: seq<Option<Error>>, run: Run)
    requires limit <= usizeMax && 0 < capacity
    ensures |results| == |calls|
    ensures SHORT_WRITE !in results ==>
              && run == EndToEnd.Meaning(limit, calls, None)
              && run.end == if EndToEnd.Fits(limit, calls, None) then Closed else Failed(MessageTooLong)
  {
    var wire;
    wire, results := SendFromStart(!isClient, usizeMax, limit, calls);
    run := ReceiveFromStart(isClient, usizeMax, limit, wire, capacity, network);
    EndToEnd.DeliversFromStart(Config(limit, isClient), calls);
    EndToEnd.MeansClosedIff(limit, calls, None);
  }
}
