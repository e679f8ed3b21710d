/** The reader of a response body, which is resumed by every call of `Read`. */
module Body {
  import opened Bytes
  import opened Stream
  import opened Chunked

  datatype Outcome = Got(n: nat) | Failed(error: Error)

  /** `remaining`. */
  function Remaining(t: Transfer): Option<u64> {
    match t
    case Empty => Some(0)
    case Length(n) => Some(n)
    case _ => None
  }

  /** One read, in terms of what is still to come before and after it: the bytes handed out come
      off the front of the body, and everything else stays as it was. A read into a buffer that
      is not empty makes progress, ends the body, or fails. */
  ghost predicate Reads(t: Transfer, w: seq<byte>, room: nat, out: Outcome, bytes: seq<byte>,
                        t': Transfer, w': seq<byte>)
  {
    var before, after := Meaning(t, w), Meaning(t', w');
    && after.end == before.end && after.rest == before.rest
    && before.data == bytes + after.data
    && |bytes| <= room
    && (out.Got? ==> out.n == |bytes|)
    && (out == Got(0) && room > 0 ==> before == Decoded([], Finished(t'), w'))
    && (out.Failed? ==> before == Failure(out.error, t', w') && bytes == [])
    && (Remaining(t).Some? ==> Remaining(t') == Some(Remaining(t).value - |bytes|))
  }

  class Body {
    const reader: BufReader
    var transfer: Transfer

    ghost predicate Valid()
      reads this, reader
    {
      && reader.Valid()
      && reader.capacity > MAX_HEX
      && (transfer.Chunks? && transfer.state.Data? ==> transfer.state.size > 0)
    }

    constructor (reader: BufReader, transfer: Transfer)
      requires reader.Valid() && reader.capacity > MAX_HEX
      requires transfer.Chunks? ==> transfer.state == Size
      ensures Valid() && this.reader == reader && this.transfer == transfer
    {
      this.reader, this.transfer := reader, transfer;
    }

    /** What is buffered first, then the socket itself. */
    method ReadBytes(buf: array<byte>, limit: nat) returns (n: nat)
      requires Valid() && limit <= buf.Length
      modifies reader, buf
      ensures Valid()
      ensures n <= limit && (n == 0 <==> limit == 0 || old(reader.Pending()) == [])
      ensures buf[..n] + reader.Pending() == old(reader.Pending())
      ensures buf[n..] == old(buf[..])[n..]
    {
      var bytes;
      if reader.buffer != [] {
        bytes := reader.ReadBuffered(limit);
      } else {
        bytes := reader.ReadSocket(limit);
      }
      n := |bytes|;
      forall i | 0 <= i < n {
        buf[i] := bytes[i];
      }
      assert buf[..n] == bytes;
    }

    /** The loop of `read_chunk_size`: it looks at no more than 33 bytes, and asks for more as
        long as all of them are digits. 33 digits count as too many, whatever comes next. */
    method CountDigits() returns (index: Option<nat>)
      requires Valid()
      modifies reader
      ensures Valid() && reader.Pending() == old(reader.Pending())
      ensures var w := reader.Pending();
              match index
              case Some(k) =>
                && k <= |reader.buffer| && (k < |w| || k > MAX_HEX)
                && (if k <= MAX_HEX then LeadingHex(w) == k else LeadingHex(w) > MAX_HEX)
              case None => LeadingHex(w) == |w| <= MAX_HEX
    {
      var maxHex := 8 * 2 * 2 + 1;
      ghost var w := reader.Pending();
      while true
        invariant Valid() && reader.Pending() == w
        decreases |reader.wire|
      {
        var len := Min(|reader.buffer|, maxHex);
        var k := LeadingHex(reader.buffer[..len]);
        DigitsInFront(reader.buffer, reader.wire, len);
        if k < len || len >= maxHex {
          return Some(k);
        }
        var n := reader.Fill();
        if n == 0 {
          return None;
        }
      }
    }

    method ReadChunkSize() returns (error: Option<Error>)
      requires Valid() && transfer == Chunks(Size)
      modifies this, reader
      ensures Valid()
      ensures match ParseSize(old(reader.Pending()))
              case SizeField(size, digits) =>
                && error == None && transfer == Chunks(Extension(size))
                && reader.Pending() == old(reader.Pending())[digits..]
              case BadSize(e) =>
                && error == Some(e) && transfer == Chunks(Size)
                && reader.Pending() == AfterBadSize(old(reader.Pending()))
                && AtSize(reader.Pending()) == AtSize(old(reader.Pending()))
    {
      var index := CountDigits();
      if index == None {
        return Some(PartialFile);
      }
      var k := index.value;
      if k > MAX_HEX {
        return Some(ChunkTooLarge);
      }
      assert reader.buffer[..k] == reader.Pending()[..k];
      var size := HexValue(reader.buffer[..k]);
      reader.Consume(k);
      if k == 0 || size >= 0x1_0000_0000_0000_0000 {
        assert LeadingHex(reader.Pending()) == 0;
        return Some(ChunkTooLarge);
      }
      transfer := Chunks(Extension(size));
      error := None;
    }

    /** The loop of `read_until_newline`: drops the rest of the line, buffer by buffer. */
    method SkipLine() returns (ok: bool)
      requires Valid()
      modifies reader
      ensures Valid()
      ensures ok <==> PastLine(old(reader.Pending())).Some?
      ensures reader.Pending() == if ok then PastLine(old(reader.Pending())).value else []
    {
      while true
        invariant Valid()
        invariant PastLine(reader.Pending()) == PastLine(old(reader.Pending()))
        decreases |reader.wire|
      {
        var index := Find(reader.buffer, NEWLINE);
        if index < |reader.buffer| {
          FindFrom(reader.buffer, reader.wire, NEWLINE);
          reader.Consume(index + 1);
          return true;
        }
        LineBeyondBuffer(reader.buffer, reader.wire);
        reader.Discard();
        var n := reader.Fill();
        if n == 0 {
          return false;
        }
      }
    }

    method ReadUntilNewline() returns (error: Option<Error>)
      requires Valid() && transfer.Chunks? && (transfer.state.Extension? || transfer.state.Trailer?)
      modifies this, reader
      ensures Valid()
      ensures var w, i := old(reader.Pending()), Find(old(reader.Pending()), NEWLINE);
              if i == |w| then
                error == Some(PartialFile) && transfer == old(transfer) && reader.Pending() == []
              else
                && error == None && reader.Pending() == w[i + 1..]
                && transfer == AfterLine(old(transfer.state))
    {
      var ok := SkipLine();
      if !ok {
        return Some(PartialFile);
      }
      if transfer.state.Extension? {
        transfer := if transfer.state.size == 0 then Trailers else Chunks(Data(transfer.state.size));
      } else {
        transfer := Chunks(Size);
      }
      error := None;
    }

    static function AfterLine(state: ChunkedState): Transfer {
      if !state.Extension? then Chunks(Size) else if state.size == 0 then Trailers else Chunks(Data(state.size))
    }

    /** How far a state is from handing out data. */
    static function Rank(state: ChunkedState): nat {
      match state
      case Trailer => 3
      case Size => 2
      case Extension(_) => 1
      case Data(_) => 0
    }

    /** Hands out data of the current chunk. */
    method ReadData(buf: array<byte>) returns (out: Outcome)
      requires Valid() && transfer.Chunks? && transfer.state.Data?
      modifies this, reader, buf
      ensures Valid()
      ensures Reads(old(transfer), old(reader.Pending()), buf.Length, out,
                    if out.Got? && out.n <= buf.Length then buf[..out.n] else [], transfer, reader.Pending())
      ensures out.Got? ==> out.n <= buf.Length && buf[out.n..] == old(buf[..])[out.n..]
    {
      var remaining := transfer.state.size;
      var limit := Min(buf.Length, remaining);
      if limit == 0 {
        return Got(0);
      }
      var read := ReadBytes(buf, limit);
      if read == 0 {
        return Failed(PartialFile);
      }
      DataTaken(remaining, buf[..read], reader.Pending());
      remaining := remaining - read;
      transfer := Chunks(if remaining == 0 then Trailer else Data(remaining));
      out := Got(read);
    }

    /** `read_chunks`: by the rank of the state, the loop runs at most four times. */
    method ReadChunks(buf: array<byte>) returns (out: Outcome)
      requires Valid() && transfer.Chunks?
      modifies this, reader, buf
      ensures Valid()
      ensures Reads(old(transfer), old(reader.Pending()), buf.Length, out,
                    if out.Got? && out.n <= buf.Length then buf[..out.n] else [], transfer, reader.Pending())
      ensures out.Got? ==> out.n <= buf.Length && buf[out.n..] == old(buf[..])[out.n..]
    {
      var state := transfer.state;
      ghost var turns := 0;
      while true
        invariant Valid() && transfer == Chunks(state) && buf[..] == old(buf[..])
        invariant Meaning(transfer, reader.Pending()) == Meaning(old(transfer), old(reader.Pending()))
        invariant turns + Rank(state) <= 3
        decreases Rank(state)
      {
        turns := turns + 1;
        var error;
        match state {
          case Size =>
            error := ReadChunkSize();
          case Data(_) =>
            out := ReadData(buf);
            return;
          case _ =>
            error := ReadUntilNewline();
        }
        if error.Some? {
          return Failed(error.value);
        }
        if transfer.Chunks? {
          state := transfer.state;
        } else {
          return Got(0);
        }
      }
    }

    method Read(buf: array<byte>) returns (out: Outcome)
      requires Valid()
      modifies this, reader, buf
      ensures Valid()
      ensures Reads(old(transfer), old(reader.Pending()), buf.Length, out,
                    if out.Got? && out.n <= buf.Length then buf[..out.n] else [], transfer, reader.Pending())
      ensures out.Got? ==> out.n <= buf.Length && buf[out.n..] == old(buf[..])[out.n..]
    {
      match transfer
      case Empty => return Got(0);
      case Trailers => return Got(0);
      case Chunks(_) => out := ReadChunks(buf);
      case Connection =>
        if buf.Length == 0 {
          return Got(0);
        }
        var read := ReadBytes(buf, buf.Length);
        if read == 0 {
          transfer := Empty;
        }
        out := Got(read);
      case Length(n) =>
        var remaining := n;
        var limit := Min(buf.Length, remaining);
        if limit == 0 {
          return Got(0);
        }
        var read := ReadBytes(buf, limit);
        if read == 0 {
          return Failed(PartialFile);
        }
        LengthTaken(remaining, buf[..read], reader.Pending());
        remaining := remaining - read;
        transfer := if remaining > 0 then Length(remaining) else Empty;
        out := Got(read);
    }
  }

  /** What follows the first line of `w`, if it has a newline at all. */
  function PastLine(w: seq<byte>): Option<seq<byte>> {
    var i := Find(w, NEWLINE);
    if i < |w| then Some(w[i + 1..]) else None
  }

  lemma {:induction false} LineBeyondBuffer(buffer: seq<byte>, wire: seq<byte>)
    requires Find(buffer, NEWLINE) == |buffer|
    ensures PastLine(buffer + wire) == PastLine(wire)
    decreases |buffer|
  {
    var w := buffer + wire;
    if buffer == [] {
      assert w == wire;
    } else {
      assert w[1..] == buffer[1..] + wire;
      LineBeyondBuffer(buffer[1..], wire);
      assert w[1..][Find(w[1..], NEWLINE)..] == w[Find(w, NEWLINE)..];
    }
  }

  /** The digits at the front of the buffer against those of everything that is pending. */
  lemma {:induction false} DigitsInFront(buffer: seq<byte>, wire: seq<byte>, len: nat)
    requires len <= |buffer|
    ensures var k, all := LeadingHex(buffer[..len]), LeadingHex(buffer + wire);
            && (k < len ==> all == k)
            && (k == len ==> len <= all)
            && (k == len == |buffer + wire| ==> all == k)
  {
    var rest := (buffer + wire)[len..];
    assert buffer + wire == buffer[..len] + rest;
    LeadingHexFrom(buffer[..len], rest);
  }

  lemma {:induction false} DataTaken(size: u64, bytes: seq<byte>, w: seq<byte>)
    requires 0 < |bytes| <= size
    ensures var before := AtData(size, bytes + w);
            var after := if |bytes| == size then AtTrailer(w) else AtData(size - |bytes|, w);
            before == Decoded(bytes + after.data, after.end, after.rest)
  {
    var v := bytes + w;
    if |v| >= size {
      assert v[size..] == w[size - |bytes|..];
      assert v[..size] == bytes + w[..size - |bytes|];
    }
  }

  lemma LengthTaken(n: u64, bytes: seq<byte>, w: seq<byte>)
    requires 0 < |bytes| <= n
    ensures var before := Meaning(Length(n), bytes + w);
            var after := Meaning(if |bytes| == n then Empty else Length(n - |bytes|), w);
            before == Decoded(bytes + after.data, after.end, after.rest)
  {
    var v := bytes + w;
    if |v| >= n {
      assert v[n..] == w[n - |bytes|..];
      assert v[..n] == bytes + w[..n - |bytes|];
    }
  }
}
