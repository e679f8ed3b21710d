/** The reader and the writer of a WebSocket connection, with the state they update in place. */
module WebSocket {
  import opened Bytes
  import opened Mask
  import opened Stream
  import opened Wire
  import opened Protocol
  import Utf8

  /** What the two halves of a connection share. */
  class Shared {
    const isClient: bool
    /** The largest `usize` of the platform. */
    const usizeMax: nat
    var maxMessageLength: nat
    var closeState: CloseState

    ghost predicate Valid()
      reads this
    {
      maxMessageLength <= usizeMax
    }

    constructor (isClient: bool, usizeMax: nat, maxMessageLength: nat)
      requires maxMessageLength <= usizeMax
      ensures Valid() && this.isClient == isClient && this.maxMessageLength == maxMessageLength
      ensures closeState == None
    {
      this.isClient, this.usizeMax := isClient, usizeMax;
      this.maxMessageLength := maxMessageLength;
      closeState := None;
    }

    method ShutdownHalf(how: Shutdown) returns (both: bool)
      modifies this`closeState
      ensures (closeState, both) == Shut(old(closeState), how)
    {
      match closeState
      case None =>
        closeState := Some(how);
        both := false;
      case Some(cur) =>
        if cur == how {
          both := false;
        } else {
          closeState := Some(Both);
          both := true;
        }
    }
  }

  class Reader {
    const stream: BufReader
    const data: Shared
    var expectContinuation: bool
    var currentMessage: Option<Fragments>
    /** How often this half has run `close`. */
    var closings: nat

    ghost predicate Valid()
      reads this, stream, data
    {
      stream.Valid() && data.Valid()
    }

    ghost function Cfg(): Config
      reads data
    {
      Config(data.maxMessageLength, data.isClient)
    }

    ghost function State(): Receiver
      reads this, data
    {
      Receiver(expectContinuation, currentMessage, data.closeState)
    }

    constructor (stream: BufReader, data: Shared)
      requires stream.Valid() && data.Valid()
      ensures Valid() && this.stream == stream && this.data == data
      ensures State() == Receiver(false, None, data.closeState) && closings == 0
    {
      this.stream, this.data := stream, data;
      expectContinuation, currentMessage, closings := false, None, 0;
    }

    method ReadFrameHeader() returns (r: HeaderResult)
      requires Valid()
      modifies this`expectContinuation, data`closeState, stream
      ensures Valid()
      ensures (r, State(), stream.Pending()) == NextHeader(data.isClient, old(State()), old(stream.Pending()))
    {
      if !CanRead(data.closeState) {
        return HeaderErr(ShutDown);
      }
      var read := ReadHeaderFrom(stream);
      match read
      case EndOfStream =>
        var _ := data.ShutdownHalf(Read);
        return HeaderEnd;
      case Truncated =>
        return HeaderErr(UnexpectedEof);
      case Header(frame, _) =>
        if frame.op == Invalid {
          return HeaderErr(InvalidOpcode);
        }
        if frame.op.IsControl() {
          if !frame.fin {
            return HeaderErr(ControlWithoutFin);
          }
          if frame.len > 0x7d {
            return HeaderErr(ControlTooLong);
          }
        } else {
          if expectContinuation != (frame.op == Continuation) {
            return HeaderErr(if expectContinuation then ExpectedContinuation else UnexpectedContinuation);
          }
          expectContinuation := !frame.fin;
        }
        if frame.mask.Some? && data.isClient {
          return HeaderErr(ServerMasked);
        }
        if frame.op == Close {
          var _ := data.ShutdownHalf(Read);
        }
        return HeaderOk(frame);
    }

    /** Drops the payload of a frame without copying it. It succeeds exactly when the stream
        goes on after the payload, and then it has consumed the payload and nothing else. */
    method DiscardFrameData(header: FrameHeader) returns (ok: bool, left: FrameHeader)
      requires Valid()
      modifies stream
      ensures Valid()
      ensures ok <==> header.len < |old(stream.Pending())|
      ensures ok ==> stream.Pending() == old(stream.Pending())[header.len..] && left == header.(len := 0)
      ensures !ok ==> stream.Pending() == [] && left == header.(len := header.len - |old(stream.Pending())|)
    {
      left := header;
      ghost var w := stream.Pending();
      while true
        invariant stream.Valid()
        invariant 0 <= left.len <= header.len && left == header.(len := left.len)
        invariant header.len - left.len <= |w| && stream.Pending() == w[header.len - left.len..]
        decreases |stream.wire|
      {
        var available := |stream.buffer|;
        if available <= left.len {
          left := left.(len := left.len - available);
          stream.Discard();
          var n := stream.Fill();
          if n == 0 {
            return false, left;
          }
        } else {
          stream.Consume(left.len);
          left := left.(len := 0);
          return true, left;
        }
      }
    }

    /** Copies payload bytes into a caller's buffer, and counts them off the header. */
    method ReadFrameData(header: FrameHeader, buf: array<byte>) returns (read: nat, left: FrameHeader)
      requires Valid()
      modifies stream, buf
      ensures Valid()
      ensures read == Min(Min(buf.Length, header.len), |old(stream.Pending())|)
      ensures buf[..] == old(stream.Pending())[..read] + old(buf[..])[read..]
      ensures stream.Pending() == old(stream.Pending())[read..]
      ensures left == header.(len := header.len - read)
    {
      var bytes := stream.ReadFully(Min(buf.Length, header.len));
      read := |bytes|;
      forall i | 0 <= i < read {
        buf[i] := bytes[i];
      }
      left := header.(len := header.len - read);
    }

    /** The payload, unmasked in place in a zeroed buffer. */
    method ReadPayload(header: FrameHeader) returns (payload: seq<byte>)
      requires Valid()
      modifies stream
      ensures Valid()
      ensures payload == Unmasked(Padded(old(stream.Pending()), header.len), header.mask)
      ensures stream.Pending() == old(stream.Pending())[Min(header.len, |old(stream.Pending())|)..]
    {
      var buf := new byte[header.len](_ => 0);
      var _, _ := ReadFrameData(header, buf);
      assert buf[..] == Padded(old(stream.Pending()), header.len);
      if header.mask.Some? {
        var littleEndian := *;
        ApplyMask(buf, header.mask.value, littleEndian);
      }
      payload := buf[..];
    }

    /** A control frame, past its header. */
    method TakeControl(frame: FrameHeader) returns (r: Step)
      requires Valid() && frame.op.IsControl() && frame.len <= MAX_CONTROL
      requires frame.len <= data.maxMessageLength
      modifies this`closings, stream
      ensures Valid()
      ensures Received(r, State(), stream.Pending()) == ReadBody(Cfg(), old(State()), frame, old(stream.Pending()))
      ensures closings == old(closings) + if frame.op == Close && ShouldClose(data.closeState) then 1 else 0
    {
      var control := ReadPayload(frame);
      match frame.op
      case Ping => return Deliver(PingMessage(control));
      case Pong => return Deliver(PongMessage(control));
      case Close =>
        var message := CodeAndReason(control);
        if ShouldClose(data.closeState) {
          closings := closings + 1;
        }
        return Deliver(message);
    }

    static method CodeAndReason(control: seq<byte>) returns (m: Message)
      ensures m == CloseContents(control)
    {
      var code, reason := NO_STATUS_CODE, control;
      if |control| >= 2 {
        code, reason := FromBe16(control[..2]), control[2..];
      }
      m := CloseMessage(code, reason);
    }

    /** A data frame, past its header. */
    method TakeData(frame: FrameHeader) returns (r: Step)
      requires Valid() && !frame.op.IsControl()
      requires frame.len <= data.maxMessageLength
      modifies this`currentMessage, stream
      ensures Valid()
      ensures Received(r, State(), stream.Pending()) == ReadBody(Cfg(), old(State()), frame, old(stream.Pending()))
    {
      if currentMessage == None {
        currentMessage := Some(Fragments(frame.op, []));
      }
      var start := |currentMessage.value.data|;
      if data.maxMessageLength < start || data.maxMessageLength - start < frame.len {
        return Fail(MessageTooLong);
      }
      assert frame.len <= data.usizeMax;          // `frame.len as usize` keeps the value
      assert start + frame.len <= data.usizeMax;  // `checked_add` succeeds
      var payload := ReadPayload(frame);
      var message := currentMessage.value.(data := currentMessage.value.data + payload);
      currentMessage := Some(message);
      if !frame.fin {
        return Partial;
      }
      currentMessage := None;
      match message.op
      case Binary => return Deliver(BinaryMessage(message.data));
      case Text => return if Utf8.Valid(message.data) then Deliver(TextMessage(message.data)) else Fail(InvalidUtf8);
      case _ => return Fail(Panicked);
    }

    /** `read_frame` past the header. */
    method TakeBody(frame: FrameHeader) returns (r: Step)
      requires Valid() && (frame.op.IsControl() ==> frame.len <= MAX_CONTROL)
      modifies this`currentMessage, this`closings, stream
      ensures Valid()
      ensures Received(r, State(), stream.Pending()) == ReadBody(Cfg(), old(State()), frame, old(stream.Pending()))
      ensures closings == old(closings)
                + if r.Deliver? && r.message.CloseMessage? && ShouldClose(data.closeState) then 1 else 0
    {
      BodyKeepsClose(Cfg(), State(), frame, stream.Pending());
      if frame.len > data.maxMessageLength {
        return Fail(MessageTooLong);
      }
      if frame.op.IsControl() {
        assert frame.len <= MAX_CONTROL < 0x100;  // `frame.len as u8` keeps the value
        r := TakeControl(frame);
      } else {
        r := TakeData(frame);
      }
    }

    /** `read_frame`, for any way the network delivers the bytes. */
    method ReadOneFrame() returns (r: Step)
      requires Valid()
      modifies this, data`closeState, stream
      ensures Valid()
      ensures Received(r, State(), stream.Pending()) == ReadFrame(old(Cfg()), old(State()), old(stream.Pending()))
      ensures closings == old(closings) + CloseRuns(old(Cfg()), old(State()), old(stream.Pending()))
    {
      var header := ReadFrameHeader();
      match header
      case HeaderErr(error) =>
        return Fail(error);
      case HeaderEnd =>
        return Deliver(CloseMessage(NO_CLOSE, []));
      case HeaderOk(frame) =>
        r := TakeBody(frame);
    }

    /** `next_frame`: partial messages are not reported. */
    method NextFrame() returns (r: Step)
      requires Valid()
      modifies this, data`closeState, stream
      ensures Valid()
      ensures Received(r, State(), stream.Pending()) == NextMessage(old(Cfg()), old(State()), old(stream.Pending()))
      ensures closings == old(closings) + MessageCloseRuns(old(Cfg()), old(State()), old(stream.Pending()))
    {
      while true
        invariant Valid()
        invariant Cfg() == old(Cfg())
        invariant NextMessage(Cfg(), State(), stream.Pending())
               == NextMessage(old(Cfg()), old(State()), old(stream.Pending()))
        invariant closings + MessageCloseRuns(Cfg(), State(), stream.Pending())
               == old(closings) + MessageCloseRuns(old(Cfg()), old(State()), old(stream.Pending()))
        decreases |stream.Pending()|
      {
        ghost var st, w := State(), stream.Pending();
        r := ReadOneFrame();
        if r != Partial {
          return;
        }
        ReadShrinks(Cfg(), st, w);
      }
    }

    /** `Frames::next`. */
    method Next() returns (r: Option<Step>)
      requires Valid()
      modifies this, data`closeState, stream
      ensures Valid()
      ensures r.None? <==> !CanRead(old(data.closeState))
      ensures r.None? ==>
                State() == old(State()) && stream.Pending() == old(stream.Pending()) && closings == old(closings)
      ensures r.Some? ==>
                && Received(r.value, State(), stream.Pending())
                   == NextMessage(old(Cfg()), old(State()), old(stream.Pending()))
                && closings == old(closings) + MessageCloseRuns(old(Cfg()), old(State()), old(stream.Pending()))
    {
      if CanRead(data.closeState) {
        var step := NextFrame();
        r := Some(step);
      } else {
        r := None;
      }
    }
  }

  class Writer {
    const stream: Socket
    const data: Shared
    var lastSentMessageOp: Option<Op>
    /** How often this half has run `close`. */
    var closings: nat

    ghost function State(): Sender
      reads this, data
    {
      Sender(lastSentMessageOp, data.closeState)
    }

    constructor (stream: Socket, data: Shared)
      ensures this.stream == stream && this.data == data
      ensures State() == Sender(None, data.closeState) && closings == 0
    {
      this.stream, this.data := stream, data;
      lastSentMessageOp, closings := None, 0;
    }

    /** `send_frame`; `None` stands for success. A refused call changes nothing. A short write is
        reported, except by the `close` that both halves lead to. */
    method SendFrame(frame: Outgoing) returns (r: Option<Error>, ghost wrote: nat)
      modifies this, data`closeState, stream
      ensures var p := Prepare(data.isClient, old(State()), frame);
              if p.Refused? then
                && r == Some(p.error) && State() == old(State())
                && stream.sent == old(stream.sent) && closings == old(closings)
              else
                var bytes := SentBytes(p.header, frame);
                && State() == p.next && closings == old(closings) + (if p.closes then 1 else 0)
                && wrote <= |bytes| && stream.sent == old(stream.sent) + bytes[..wrote]
                && r == if wrote == |bytes| || p.closes then None else Some(UnexpectedEof)
    {
      wrote := 0;
      if !CanWrite(data.closeState) {
        return Some(ShutDown), 0;
      }
      var header := FrameHeader(frame.fin, frame.op, None, |frame.payload|);
      if data.isClient {
        header := header.(mask := Some(0));
      }
      if header.op.IsControl() {
        var additional := if header.op == Close then 2 else 0;
        if header.len > 0x7d - additional {
          return Some(UserInvalidControlFrame), 0;
        }
      } else {
        if lastSentMessageOp.Some? {
          if lastSentMessageOp.value != header.op {
            return Some(DataTypeMismatch), 0;
          }
          header := header.(op := Continuation);
        } else {
          lastSentMessageOp := Some(header.op);
        }
        if header.fin {
          lastSentMessageOp := None;
        }
      }
      r, wrote := Transmit(header, frame);
    }

    /** The writing half of `send_frame`. */
    method Transmit(header: FrameHeader, frame: Outgoing) returns (r: Option<Error>, ghost wrote: nat)
      requires !header.op.Invalid? && (header.op == Close <==> frame.op == Close)
      requires header.op.IsControl() ==> header.len <= MAX_CONTROL
      modifies this`closings, data`closeState, stream
      ensures var bytes := SentBytes(header, frame);
              var (state, both) := Shut(old(data.closeState), Write);
              && wrote <= |bytes| && stream.sent == old(stream.sent) + bytes[..wrote]
              && data.closeState == (if frame.op == Close then state else old(data.closeState))
              && closings == old(closings) + (if frame.op == Close && both then 1 else 0)
              && r == if wrote == |bytes| || (frame.op == Close && both) then None else Some(UnexpectedEof)
    {
      var bytes := HeaderInto16(header, frame);
      assert SentBytes(header, frame) == bytes + frame.payload;
      if frame.op == Close {
        var both := data.ShutdownHalf(Write);
        if both {
          closings := closings + 1;
          var n := stream.WriteAllVectored(bytes, frame.payload);
          return None, n;
        }
      }
      var n := stream.WriteAllVectored(bytes, frame.payload);
      wrote := n;
      r := if n < |bytes| + |frame.payload| then Some(UnexpectedEof) else None;
    }

    /** Sixteen bytes are enough for any header that is sent: no `unwrap` fails. */
    method HeaderInto16(header: FrameHeader, frame: Outgoing) returns (bytes: seq<byte>)
      requires !header.op.Invalid? && (header.op.IsControl() ==> header.len <= MAX_CONTROL)
      ensures bytes == HeaderBytes(header, frame)
    {
      var writer := new Cursor(16);
      var ok := WriteHeader(header, writer);
      assert ok;
      if header.op == Close {
        ok := writer.WriteAll(ToBe(frame.closeCode, 2));
        assert ok;
      }
      bytes := writer.bytes[..writer.position];
    }
  }
}
