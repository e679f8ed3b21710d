/** `read_line_in_place`: finding the end of a line in a buffer that is filled piecemeal. */
module Lines {
  import opened Bytes
  import opened Stream
  import opened Chunked
  import Utf8

  /** Where a scan for the newline ends: `At` the byte after it, or nowhere. */
  datatype ScanResult = At(end: nat) | TooLong | EndOfFile | OutOfRange

  /** The first newline in a stretch of `w`, or the end of the stretch. */
  function NewlineIn(w: seq<byte>, lo: nat, hi: nat): (i: nat)
    requires lo <= hi <= |w|
    ensures lo <= i <= hi && (i < hi ==> w[i] == NEWLINE)
    decreases hi - lo
  {
    if lo == hi || w[lo] == NEWLINE then lo else NewlineIn(w, lo + 1, hi)
  }

  /** One look: `memchr` on the part of the buffer from the offset on. */
  datatype Look = Hit(end: nat) | Miss | Beyond

  function LookAt(w: seq<byte>, offset: nat, n: nat): (r: Look)
    requires n <= |w|
    ensures r.Hit? ==> offset < r.end <= n
    ensures r.Beyond? <==> n < offset
  {
    if n < offset then Beyond
    else
      var i := NewlineIn(w, offset, n);
      if i < n then Hit(i + 1) else Miss
  }

  /** What a scan finds, and how much is buffered at its last look. */
  datatype Scanned = Scanned(result: ScanResult, held: nat)

  /** The scan as it is written: it looks at what is buffered, and fills the buffer to look again.
      A miss advances the offset by all that is buffered, rather than to its end. */
  function Scan(s: Source, offset: nat): (r: Scanned)
    ensures s.buffered <= r.held <= s.capacity && r.held <= |s.pending|
    ensures r.result.At? ==> offset < r.result.end <= r.held
    decreases |s.pending| - s.buffered
  {
    match LookAt(s.pending, offset, s.buffered)
    case Beyond => Scanned(OutOfRange, s.buffered)
    case Hit(end) => Scanned(At(end), s.buffered)
    case Miss =>
      if s.NextFill() > 0 then Scan(Refilled(s), offset + s.buffered)
      else Scanned(if offset + s.buffered == s.capacity then TooLong else EndOfFile, s.buffered)
  }

  /** One look of the scan. */
  lemma ScanOnce(s: Source, offset: nat, look: Look)
    requires look == LookAt(s.pending, offset, s.buffered)
    ensures Scan(s, offset) == match look
              case Beyond => Scanned(OutOfRange, s.buffered)
              case Hit(end) => Scanned(At(end), s.buffered)
              case Miss =>
                if s.NextFill() > 0 then Scan(Refilled(s), offset + s.buffered)
                else Scanned(if offset + s.buffered == s.capacity then TooLong else EndOfFile, s.buffered)
  {}

  /** What the scan is for. */
  function FirstLineEnd(w: seq<byte>, capacity: nat): ScanResult {
    var p := Find(w, NEWLINE);
    if p < |w| && p < capacity then At(p + 1) else if capacity <= |w| then TooLong else EndOfFile
  }

  /** When every miss leaves the offset where the next look can still find the first newline. */
  predicate InTime(s: Source, offset: nat)
    decreases |s.pending| - s.buffered
  {
    var p := Find(s.pending, NEWLINE);
    && offset <= s.buffered
    && (if p < s.buffered then offset <= p
        else if s.NextFill() > 0 then InTime(Refilled(s), offset + s.buffered)
        else offset + s.buffered == s.capacity <==> s.buffered == s.capacity)
  }

  lemma {:induction false} NewlineInIsFirst(w: seq<byte>, lo: nat, hi: nat)
    requires lo <= hi <= |w| && lo <= Find(w, NEWLINE)
    ensures NewlineIn(w, lo, hi) == Min(Find(w, NEWLINE), hi)
    decreases hi - lo
  {
    Found(w, NEWLINE);
    if lo < hi && w[lo] != NEWLINE {
      NewlineInIsFirst(w, lo + 1, hi);
    }
  }

  /** A look that begins before the first newline finds that newline, or nothing. */
  lemma {:induction false} LookBeforeNewline(w: seq<byte>, lo: nat, hi: nat)
    requires lo <= hi <= |w| && lo <= Find(w, NEWLINE)
    ensures LookAt(w, lo, hi) == if Find(w, NEWLINE) < hi then Hit(Find(w, NEWLINE) + 1) else Miss
  {
    NewlineInIsFirst(w, lo, hi);
  }

  /** The scan finds the first line, or reports rightly that there is none, exactly when the
      looks are in time. */
  lemma {:induction false} ScanRightIff(s: Source, offset: nat)
    ensures Scan(s, offset).result == FirstLineEnd(s.pending, s.capacity) <==> InTime(s, offset)
    decreases |s.pending| - s.buffered
  {
    var p := Find(s.pending, NEWLINE);
    if offset <= s.buffered && offset <= p {
      LookBeforeNewline(s.pending, offset, s.buffered);
      if s.buffered <= p && s.NextFill() > 0 {
        ScanRightIff(Refilled(s), offset + s.buffered);
      }
    }
  }

  /** What is buffered once a fill has added to a buffer that was not empty. */
  function Reach(s: Source): nat {
    if s.buffered > 0 then Refilled(s).buffered else Refilled(Refilled(s)).buffered
  }

  /** A newline in reach is found, on the second look or, if nothing is buffered, on the third. */
  lemma {:induction false} ReachIsInTime(s: Source)
    requires Find(s.pending, NEWLINE) < Reach(s)
    ensures InTime(s, 0)
  {
    if s.buffered == 0 {
      assert Reach(s) == Reach(Refilled(s));
    }
  }

  /** A line that arrives in three pieces can be missed, or index past the buffer. */
  lemma ThreePiecesCanFail()
    ensures Scan(Source(100, (_: nat) => 1, [65, 66, NEWLINE], 1), 0).result == EndOfFile
    ensures Scan(Source(100, (_: nat) => 1, [65, 66, 67, NEWLINE], 2), 0).result == OutOfRange
  {
    var s := Source(100, (_: nat) => 1, [65, 66, NEWLINE], 1);
    assert Scan(s, 0) == Scan(Refilled(s), 1) == Scan(Refilled(Refilled(s)), 3);
    var t := Source(100, (_: nat) => 1, [65, 66, 67, NEWLINE], 2);
    assert Scan(t, 0) == Scan(Refilled(t), 2) == Scan(Refilled(Refilled(t)), 5);
  }

  /** A full buffer without a line can be taken for the end of the stream. */
  lemma FullBufferCanLookEnded()
    ensures FirstLineEnd([65, 66, 67], 3) == TooLong
    ensures Scan(Source(3, (_: nat) => 1, [65, 66, 67], 1), 0).result == EndOfFile
  {
    var s := Source(3, (_: nat) => 1, [65, 66, 67], 1);
    NotFound(s.pending, NEWLINE);
    ScanOnce(s, 0, Miss);
    LookBeforeNewline(s.pending, 1, 2);
    ScanOnce(Refilled(s), 1, Miss);
    LookBeforeNewline(s.pending, 3, 3);
    ScanOnce(Refilled(Refilled(s)), 3, Miss);
  }

  /** A second miss in a buffer that was not empty puts the offset behind all that has been looked
      at; when the next fill does not make up for it, the index is out of range. */
  lemma {:induction false} OutOfReach(s: Source)
    requires 0 < s.buffered && Reach(s) <= Find(s.pending, NEWLINE)
    requires Reach(s) < Refilled(Refilled(s)).buffered < s.buffered + Reach(s)
    ensures Scan(s, 0).result == OutOfRange
  {
    var t := Refilled(s);
    LookBeforeNewline(s.pending, 0, s.buffered);
    ScanOnce(s, 0, Miss);
    LookBeforeNewline(s.pending, s.buffered, t.buffered);
    ScanOnce(t, s.buffered, Miss);
    ScanOnce(Refilled(t), s.buffered + t.buffered, Beyond);
  }

  /** Two bytes, and then one at a time. */
  function Trickle(total: nat): Network {
    (left: nat) => if left == total then 2 else 1
  }

  /** No line of more than three bytes is safe from it, even in a buffer that starts empty. */
  lemma {:induction false} EveryLineCanFail(w: seq<byte>, capacity: nat)
    requires |w| >= 4 && capacity >= 4 && Find(w, NEWLINE) >= 3
    ensures Scan(Source(capacity, Trickle(|w|), w, 0), 0).result == OutOfRange
  {
    var s := Source(capacity, Trickle(|w|), w, 0);
    OutOfReach(Refilled(s));
    ScanOnce(s, 0, Miss);
  }

  datatype LineError = HeadersTooLong | UnexpectedEof | InvalidUtf8 | Panicked

  /** A line without its line ending, and how many bytes it took. */
  datatype LineResult = Line(text: seq<byte>, size: nat) | NoLine(error: LineError)

  const RETURN: byte := 13

  function Chomp(s: seq<byte>): (t: seq<byte>)
    ensures t <= s
  {
    var a := if s != [] && s[|s| - 1] == NEWLINE then s[..|s| - 1] else s;
    if a != [] && a[|a| - 1] == RETURN then a[..|a| - 1] else a
  }

  function LineFrom(w: seq<byte>, r: ScanResult): LineResult
    requires r.At? ==> r.end <= |w|
  {
    match r
    case At(end) => if Utf8.Valid(w[..end]) then Line(Chomp(w[..end]), end) else NoLine(InvalidUtf8)
    case TooLong => NoLine(HeadersTooLong)
    case EndOfFile => NoLine(UnexpectedEof)
    case OutOfRange => NoLine(Panicked)
  }

  /** The first line of what is pending. */
  function FirstLine(w: seq<byte>, capacity: nat): (r: LineResult)
    ensures r.Line? ==> 0 < r.size <= |w| && r.size <= capacity
  {
    LineFrom(w, FirstLineEnd(w, capacity))
  }

  /** What `read_line_in_place` returns, and how much is buffered when it does. */
  function LineSeen(s: Source): (r: LineResult)
    ensures r.Line? ==> 0 < r.size <= Scan(s, 0).held
  {
    LineFrom(s.pending, Scan(s, 0).result)
  }

  /** The reader when it has scanned the line, and when it has consumed it. */
  function Looked(s: Source): Source {
    s.(buffered := Scan(s, 0).held)
  }

  function Past(s: Source, size: nat): Source
    requires size <= Scan(s, 0).held
  {
    Source(s.capacity, s.network, s.pending[size..], Scan(s, 0).held - size)
  }

  lemma {:induction false} SeenInTime(s: Source)
    requires InTime(s, 0)
    ensures LineSeen(s) == FirstLine(s.pending, s.capacity)
  {
    ScanRightIff(s, 0);
  }

  /** Which look finds a line in reach. */
  lemma {:induction false} HeldInReach(s: Source)
    requires Find(s.pending, NEWLINE) < Reach(s)
    ensures var p, held := Find(s.pending, NEWLINE), Scan(s, 0).held;
            held == if p < s.buffered then s.buffered
                    else if p < Refilled(s).buffered then Refilled(s).buffered
                    else Reach(s)
  {
    var p, t := Find(s.pending, NEWLINE), Refilled(s);
    LookBeforeNewline(s.pending, 0, s.buffered);
    if p >= s.buffered {
      LookBeforeNewline(s.pending, s.buffered, t.buffered);
      assert Scan(s, 0) == Scan(t, s.buffered);
      if p >= t.buffered {
        LookBeforeNewline(s.pending, t.buffered, Refilled(t).buffered);
        assert Scan(t, 0) == Scan(Refilled(t), t.buffered);
      }
    }
  }

  /** Consuming a line in reach moves the reach no nearer. */
  lemma ReachStays(s: Source)
    requires Find(s.pending, NEWLINE) < Reach(s)
    ensures var size := Find(s.pending, NEWLINE) + 1;
            size <= Scan(s, 0).held && Reach(Past(s, size)) >= Reach(s) - size
  {
    var size, held := Find(s.pending, NEWLINE) + 1, Scan(s, 0).held;
    HeldInReach(s);
    MoreRoom(s, held, size);
  }

  lemma MoreRoom(s: Source, held: nat, size: nat)
    requires size <= held <= |s.pending| && held <= s.capacity
    ensures var later := Source(s.capacity, s.network, s.pending[size..], held - size);
            Reach(later) + size >= Refilled(s.(buffered := held)).buffered
  {}

  lemma {:induction false} ScanEndsInNewline(s: Source, offset: nat)
    ensures var r := Scan(s, offset).result; r.At? ==> s.pending[r.end - 1] == NEWLINE
    decreases |s.pending| - s.buffered
  {
    if LookAt(s.pending, offset, s.buffered).Miss? && s.NextFill() > 0 {
      ScanEndsInNewline(Refilled(s), offset + s.buffered);
    }
  }

  /** A line that is not in time is not found, or runs on to a later newline. */
  lemma {:induction false} LateLine(s: Source)
    requires !InTime(s, 0) && Find(s.pending, NEWLINE) < |s.pending| && Find(s.pending, NEWLINE) < s.capacity
    ensures var line := LineSeen(s);
            line.Line? ==> && Find(s.pending, NEWLINE) + 1 < line.size
                           && s.pending[line.size - 1] == NEWLINE && line.text == Chomp(s.pending[..line.size])
  {
    LateScan(s);
  }

  lemma {:induction false} LateScan(s: Source)
    requires !InTime(s, 0) && Find(s.pending, NEWLINE) < |s.pending| && Find(s.pending, NEWLINE) < s.capacity
    ensures var r := Scan(s, 0).result;
            r.At? ==> Find(s.pending, NEWLINE) + 1 < r.end && s.pending[r.end - 1] == NEWLINE
  {
    ScanRightIff(s, 0);
    var r := Scan(s, 0).result;
    assert r != At(Find(s.pending, NEWLINE) + 1);
    if r.At? {
      ScanEndsInNewline(s, 0);
      NotBeforeFirst(s.pending, r.end - 1);
    }
  }

  lemma {:induction false} NotBeforeFirst(w: seq<byte>, i: nat)
    requires i < |w| && w[i] == NEWLINE
    ensures Find(w, NEWLINE) <= i
  {
    Found(w, NEWLINE);
  }

  lemma {:induction false} LineInReach(s: Source)
    requires FirstLine(s.pending, s.capacity).Line? && FirstLine(s.pending, s.capacity).size <= Reach(s)
    ensures InTime(s, 0) && LineSeen(s) == FirstLine(s.pending, s.capacity)
    ensures Reach(Past(s, LineSeen(s).size)) + LineSeen(s).size >= Reach(s)
  {
    assert FirstLine(s.pending, s.capacity).size == Find(s.pending, NEWLINE) + 1;
    ReachIsInTime(s);
    SeenInTime(s);
    ReachStays(s);
  }

  /** `fill`, in terms of `Ahead`. */
  method FillAgain(reader: BufReader) returns (n: nat)
    requires reader.Valid()
    modifies reader
    ensures reader.Valid() && |reader.wire| == |old(reader.wire)| - n
    ensures n == old(reader.Ahead()).NextFill() && reader.Ahead() == Refilled(old(reader.Ahead()))
  {
    n := reader.Fill();
  }

  /** Nothing but the number of buffered bytes has changed. */
  ghost predicate SameStream(s: Source, t: Source) {
    s.capacity == t.capacity && s.network == t.network && s.pending == t.pending
  }

  ghost predicate ComesTo(s: Source, offset: nat, whole: Scanned) {
    Scan(s, offset) == whole
  }

  /** One turn of the loop of `read_line_in_place`: `None` if it is to go on. */
  method ScanTurn(reader: BufReader, offset: nat, ghost whole: Scanned) returns (r: Option<ScanResult>)
    requires reader.Valid() && ComesTo(reader.Ahead(), offset, whole)
    modifies reader
    ensures reader.Valid() && SameStream(reader.Ahead(), old(reader.Ahead()))
    ensures r.Some? ==> whole == Scanned(r.value, |reader.buffer|)
    ensures r.None? ==>
              && ComesTo(reader.Ahead(), offset + |old(reader.buffer)|, whole)
              && |reader.wire| < |old(reader.wire)|
  {
    var look := LookInBuffer(reader, offset);
    ScanOnce(reader.Ahead(), offset, look);
    if look.Beyond? {
      return Some(OutOfRange);
    }
    if look.Hit? {
      return Some(At(look.end));
    }
    var n := FillAgain(reader);
    if n > 0 {
      return None;
    }
    r := Some(if offset + |reader.buffer| == reader.capacity then TooLong else EndOfFile);
  }

  method ScanInPlace(reader: BufReader) returns (r: ScanResult)
    requires reader.Valid()
    modifies reader
    ensures reader.Valid() && SameStream(reader.Ahead(), old(reader.Ahead()))
    ensures ComesTo(old(reader.Ahead()), 0, Scanned(r, |reader.buffer|))
  {
    ghost var whole := Scan(reader.Ahead(), 0);
    var offset: nat := 0;
    while true
      invariant reader.Valid() && SameStream(reader.Ahead(), old(reader.Ahead()))
      invariant ComesTo(reader.Ahead(), offset, whole)
      decreases |reader.wire|
    {
      var available := |reader.buffer|;
      var turn := ScanTurn(reader, offset, whole);
      if turn.Some? {
        return turn.value;
      }
      offset := offset + available;
    }
  }

  /** The line is not consumed. */
  method ReadLineInPlace(reader: BufReader) returns (r: LineResult)
    requires reader.Valid()
    modifies reader
    ensures reader.Valid()
    ensures r == LineSeen(old(reader.Ahead())) && reader.Ahead() == Looked(old(reader.Ahead()))
  {
    var scanned := ScanInPlace(reader);
    match scanned
    case TooLong => r := NoLine(HeadersTooLong);
    case EndOfFile => r := NoLine(UnexpectedEof);
    case OutOfRange => r := NoLine(Panicked);
    case At(end) => r := LineInBuffer(reader, end);
  }

  method LookInBuffer(reader: BufReader, offset: nat) returns (look: Look)
    requires reader.Valid()
    ensures look == LookAt(reader.Pending(), offset, |reader.buffer|)
  {
    look := LookAt(reader.buffer, offset, |reader.buffer|);
    if offset <= |reader.buffer| {
      SameNewline(reader.buffer, reader.Pending(), offset);
    }
  }

  lemma {:induction false} SameNewline(v: seq<byte>, w: seq<byte>, lo: nat)
    requires lo <= |v| && v <= w
    ensures NewlineIn(v, lo, |v|) == NewlineIn(w, lo, |v|)
    decreases |v| - lo
  {
    if lo < |v| {
      SameNewline(v, w, lo + 1);
    }
  }

  method LineInBuffer(reader: BufReader, end: nat) returns (r: LineResult)
    requires reader.Valid() && end <= |reader.buffer|
    ensures r == LineFrom(reader.Pending(), At(end))
  {
    var text := reader.buffer[..end];
    assert text == reader.Pending()[..end];
    r := if Utf8.Valid(text) then Line(Chomp(text), end) else NoLine(InvalidUtf8);
  }
}
