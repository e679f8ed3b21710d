/** Chunked bodies that do not end well: where they are cut off or malformed, which error that is,
    and what is handed out before it. */
module BrokenBody {
  import opened Bytes
  import opened Chunked
  import opened Body
  import opened BodyRuns

  function EncodeChunks(chunks: seq<Chunk>): seq<byte> {
    if chunks == [] then [] else chunks[0].Encode() + EncodeChunks(chunks[1..])
  }

  /** What follows the last whole chunk. */
  datatype Cut =
    /** Digits, and something else, that are no size: none, too many, too large a value, or the end. */
    | BadDigits(digits: seq<byte>, later: seq<byte>)
    /** A size, but no end of its line. */
    | CutLine(digits: seq<byte>, extension: seq<byte>)
    | CutData(line: SizeLine, data: seq<byte>)
    /** All the data, but no line end after it. */
    | CutAfter(line: SizeLine, data: seq<byte>, after: seq<byte>)
  {
    predicate Valid() {
      match this
      case BadDigits(d, v) =>
        && AllHex(d) && (v != [] ==> !IsHex(v[0]))
        && ((v == [] && |d| <= 32) || |d| == 0 || |d| > 32 || HexValue(d) >= 0x1_0000_0000_0000_0000)
      case CutLine(d, v) =>
        && AllHex(d) && 1 <= |d| <= 32 && HexValue(d) < 0x1_0000_0000_0000_0000
        && v != [] && !IsHex(v[0]) && NoNewline(v)
      case CutData(line, data) => line.Valid() && |data| < HexValue(line.digits)
      case CutAfter(line, data, after) =>
        line.Valid() && 0 < |data| == HexValue(line.digits) && NoNewline(after)
    }

    function Encode(): seq<byte> {
      match this
      case BadDigits(d, v) => d + v
      case CutLine(d, v) => d + v
      case CutData(line, data) => line.Encode() + data
      case CutAfter(line, data, after) => line.Encode() + (data + after)
    }

    function Data(): seq<byte> {
      if CutData? || CutAfter? then data else []
    }

    /** Too large only where a byte that is not a digit, or a 33rd digit, shows that it is. */
    function Reason(): Error {
      if BadDigits? && (later != [] || |digits| > 32) then ChunkTooLarge else PartialFile
    }

    /** What stays on the connection: from a value that is too large on, its digits are gone. */
    function Left(): seq<byte> {
      if !BadDigits? then [] else if later != [] && |digits| <= 32 then later else digits + later
    }
  }

  ghost predicate Breaks(w: seq<byte>, data: seq<byte>, error: Error, rest: seq<byte>) {
    var got := AtSize(w);
    got.data == data && got.end.Broken? && got.end.error == error && got.rest == rest
  }

  lemma BreaksAtDigits(d: seq<byte>, v: seq<byte>)
    requires BadDigits(d, v).Valid()
    ensures Breaks(d + v, [], BadDigits(d, v).Reason(), BadDigits(d, v).Left())
  {
    SizeFieldIff(d, v);
    LeadingHexFrom(d, v);
    LeadingHexOfDigits(d);
    assert (d + v)[|d|..] == v;
    assert v == [] ==> d + v == d;
  }

  lemma BreaksInLine(d: seq<byte>, v: seq<byte>)
    requires CutLine(d, v).Valid()
    ensures Breaks(d + v, [], PartialFile, [])
  {
    SizeFieldIff(d, v);
    assert (d + v)[|d|..] == v;
    NotFound(v, NEWLINE);
  }

  lemma BreaksInData(line: SizeLine, data: seq<byte>)
    requires CutData(line, data).Valid()
    ensures Breaks(line.Encode() + data, data, PartialFile, [])
  {
    DecodesSizeLine(line, data);
  }

  lemma BreaksAfterData(line: SizeLine, data: seq<byte>, after: seq<byte>)
    requires CutAfter(line, data, after).Valid()
    ensures Breaks(line.Encode() + (data + after), data, PartialFile, [])
  {
    var v := data + after;
    DecodesSizeLine(line, v);
    assert v[..|data|] == data && v[|data|..] == after;
    NotFound(after, NEWLINE);
    assert data + [] == data;
  }

  lemma BreaksAtCut(cut: Cut)
    requires cut.Valid()
    ensures Breaks(cut.Encode(), cut.Data(), cut.Reason(), cut.Left())
  {
    match cut
    case BadDigits(d, v) => BreaksAtDigits(d, v);
    case CutLine(d, v) => BreaksInLine(d, v);
    case CutData(line, data) => BreaksInData(line, data);
    case CutAfter(line, data, after) => BreaksAfterData(line, data, after);
  }

  /** Whole chunks and then a cut: the data of the chunks and of the cut is handed out, and the error
      is the one of the cut. */
  lemma {:induction false} DecodesBroken(chunks: seq<Chunk>, cut: Cut)
    requires AllValid(chunks) && cut.Valid()
    ensures Breaks(EncodeChunks(chunks) + cut.Encode(), Payload(chunks) + cut.Data(), cut.Reason(), cut.Left())
    decreases |chunks|
  {
    BreaksAtCut(cut);
    if chunks == [] {
      assert [] + cut.Encode() == cut.Encode() && [] + cut.Data() == cut.Data();
    } else {
      var w, data := EncodeChunks(chunks[1..]) + cut.Encode(), Payload(chunks[1..]) + cut.Data();
      DecodesBroken(chunks[1..], cut);
      BreaksLater(chunks[0], w, data, cut.Reason(), cut.Left());
      Appended(chunks[0].Encode(), EncodeChunks(chunks[1..]), cut.Encode());
      Appended(chunks[0].data, Payload(chunks[1..]), cut.Data());
    }
  }

  lemma BreaksLater(c: Chunk, w: seq<byte>, data: seq<byte>, error: Error, rest: seq<byte>)
    requires c.Valid() && Breaks(w, data, error, rest)
    ensures Breaks(c.Encode() + w, c.data + data, error, rest)
  {
    DecodesChunk(c, w);
  }

  /** Digits and what follows them. */
  lemma SplitDigits(w: seq<byte>) returns (d: seq<byte>, v: seq<byte>)
    ensures w == d + v && AllHex(d) && (v != [] ==> !IsHex(v[0]))
  {
    var k := LeadingHex(w);
    d, v := w[..k], w[k..];
  }

  /** A broken body begins with a cut, or with a whole chunk. */
  lemma BrokenBegins(w: seq<byte>) returns (cut: Cut, chunk: Option<Chunk>, rest: seq<byte>)
    requires AtSize(w).end.Broken?
    ensures chunk.None? ==> cut.Valid() && w == cut.Encode()
    ensures chunk.Some? ==> chunk.value.Valid() && w == chunk.value.Encode() + rest
  {
    var d, v := SplitDigits(w);
    cut, chunk, rest := BadDigits(d, v), None, [];
    SizeFieldIff(d, v);
    if ParseSize(w).SizeField? {
      var i := Find(v, NEWLINE);
      Found(v, NEWLINE);
      if i == |v| {
        cut := CutLine(d, v);
      } else {
        MakesSizeLine(d, v, i);
        var line := SizeLine(d, v[..i]);
        cut, chunk, rest := BrokenAfterLine(line, v[i + 1..]);
      }
    }
  }

  lemma BrokenAfterLine(line: SizeLine, v: seq<byte>) returns (cut: Cut, chunk: Option<Chunk>, rest: seq<byte>)
    requires line.Valid() && AtSize(line.Encode() + v).end.Broken?
    ensures chunk.None? ==> cut.Valid() && line.Encode() + v == cut.Encode()
    ensures chunk.Some? ==> chunk.value.Valid() && line.Encode() + v == chunk.value.Encode() + rest
  {
    var size := HexValue(line.digits);
    DecodesSizeLine(line, v);
    if size <= |v| {
      assert v == v[..size] + v[size..];
      cut, chunk, rest := BrokenAfterData(line, v[..size], v[size..]);
    } else {
      cut, chunk, rest := CutData(line, v), None, [];
    }
  }

  lemma BrokenAfterData(line: SizeLine, data: seq<byte>, t: seq<byte>)
    returns (cut: Cut, chunk: Option<Chunk>, rest: seq<byte>)
    requires line.Valid() && 0 < |data| == HexValue(line.digits)
    ensures chunk.None? ==> cut.Valid() && line.Encode() + (data + t) == cut.Encode()
    ensures chunk.Some? ==> chunk.value.Valid() && line.Encode() + (data + t) == chunk.value.Encode() + rest
  {
    var j := Find(t, NEWLINE);
    Found(t, NEWLINE);
    cut, chunk, rest := CutAfter(line, data, t), None, [];
    if j < |t| {
      chunk, rest := Some(Chunk(line, data, t[..j])), t[j + 1..];
      assert t == t[..j] + [NEWLINE] + rest;
      WholeChunk(line, data, t[..j], rest);
    }
  }

  lemma WholeChunk(line: SizeLine, data: seq<byte>, after: seq<byte>, rest: seq<byte>)
    ensures line.Encode() + (data + (after + [NEWLINE] + rest)) == Chunk(line, data, after).Encode() + rest
  {}

  /** And so does every body that breaks: the four cuts are all there is. */
  lemma {:induction false} BreaksOnlySo(w: seq<byte>) returns (chunks: seq<Chunk>, cut: Cut)
    requires AtSize(w).end.Broken?
    ensures AllValid(chunks) && cut.Valid() && w == EncodeChunks(chunks) + cut.Encode()
    decreases |w|
  {
    var chunk, rest;
    cut, chunk, rest := BrokenBegins(w);
    chunks := [];
    if chunk.None? {
      assert [] + cut.Encode() == cut.Encode();
    } else {
      DecodesChunk(chunk.value, rest);
      var later;
      later, cut := BreaksOnlySo(rest);
      chunks := [chunk.value] + later;
      ChunksOneMore(chunk.value, later);
      Appended(chunk.value.Encode(), EncodeChunks(later), cut.Encode());
    }
  }

  lemma {:induction false} ChunksOneMore(c: Chunk, later: seq<Chunk>)
    ensures EncodeChunks([c] + later) == c.Encode() + EncodeChunks(later)
  {
    assert ([c] + later)[1..] == later;
  }

  /** What any reader of such a body gets: the data before the cut, and then the error. */
  lemma {:induction false} ReadsBrokenBody(chunks: seq<Chunk>, cut: Cut, calls: seq<Call>)
    requires AllValid(chunks) && cut.Valid()
    requires IsRun(Chunks(Size), EncodeChunks(chunks) + cut.Encode(), calls)
    requires calls != [] && calls[|calls| - 1].Ends()
    ensures var c := calls[|calls| - 1];
            && Delivered(calls) == Payload(chunks) + cut.Data()
            && c.out == Failed(cut.Reason()) && c.pending == cut.Left()
  {
    DecodesBroken(chunks, cut);
    CompleteRun(Chunks(Size), EncodeChunks(chunks) + cut.Encode(), calls);
  }
}
