/** The head of an HTTP message: how the client prints it and how it is parsed. */
module Headers {
  import opened Bytes
  import opened Stream
  import opened Chunked
  import opened Lines
  import Utf8

  type Text = seq<byte>
  type HeaderMap = map<Text, Text>

  const SPACE: byte := 32
  const COLON: byte := 58
  const HTTP: Text := [0x48, 0x54, 0x54, 0x50, 0x2f]  // "HTTP/"
  const GET: Text := [0x47, 0x45, 0x54]               // "GET"
  const CRLF: Text := [RETURN, NEWLINE]

  const MAXIMUM_HEADER_SIZE: nat := 128 * 1024

  // ----- Single lines -----

  predicate IsSpace(b: byte) {
    b == SPACE || 9 <= b <= 13
  }

  function TrimStart(s: Text): Text {
    if s != [] && IsSpace(s[0]) then TrimStart(s[1..]) else s
  }

  function TrimEnd(s: Text): Text {
    if s != [] && IsSpace(s[|s| - 1]) then TrimEnd(s[..|s| - 1]) else s
  }

  function Trim(s: Text): Text {
    TrimEnd(TrimStart(s))
  }

  /** The characters of a token (section 5.6.2 of RFC 9110). */
  predicate TokenChar(b: byte) {
    || 0x30 <= b <= 0x39 || 0x41 <= b <= 0x5a || 0x61 <= b <= 0x7a
    || b in {0x21, 0x23, 0x24, 0x25, 0x26, 0x27, 0x2a, 0x2b, 0x2d, 0x2e, 0x5e, 0x5f, 0x60, 0x7c, 0x7e}
  }

  function Lower(b: byte): byte {
    if 0x41 <= b <= 0x5a then b + 32 else b
  }

  /** `try_into_name`: a token, in lower case. */
  function ToName(s: Text): Option<Text> {
    if s != [] && forall i :: 0 <= i < |s| ==> TokenChar(s[i]) then
      Some(seq(|s|, i requires 0 <= i < |s| => Lower(s[i])))
    else None
  }

  /** `try_into_value`: no control characters but the tab. */
  function ToValue(s: Text): Option<Text> {
    if forall i :: 0 <= i < |s| ==> (s[i] >= 32 && s[i] != 127) || s[i] == 9 then Some(s) else None
  }

  datatype Error =
    | LineFailed(line: LineError)
    | InvalidHeaderName
    | InvalidHeaderValue
    | HeadTooLong
    | InvalidStatusLine
    | UnexpectedVersion

  datatype Field = NoMore | Field(name: Text, value: Option<Text>) | BadField(error: Error)

  function ParseField(text: Text): Field {
    if text == [] then NoMore
    else
      var i := Find(text, COLON);
      match ToName(Trim(text[..i]))
      case None => BadField(InvalidHeaderName)
      case Some(name) =>
        if i == |text| then Field(name, None)
        else match ToValue(TrimStart(text[i + 1..]))
          case None => BadField(InvalidHeaderValue)
          case Some(value) => Field(name, Some(value))
  }

  /** A field without a separator has an empty value. */
  function Insert(headers: HeaderMap, f: Field): HeaderMap {
    if f.Field? then headers[f.name := if f.value.Some? then f.value.value else []] else headers
  }

  // ----- The block of header lines -----

  datatype Head = Head(headers: HeaderMap, rest: seq<byte>) | NoHead(error: Error)

  /** What the line at the start of the stream is, and how many bytes it takes. */
  datatype Step = Blank(size: nat) | Item(field: Field, size: nat) | Stop(error: Error)

  type LineReader = seq<byte> -> Step

  ghost predicate Advances(step: LineReader) {
    forall w :: !step(w).Stop? ==> 0 < step(w).size <= |w|
  }

  /** The loop of `read_headers_limited`, for any way of reading a line. */
  ghost function HeadWith(step: LineReader, w: seq<byte>, limit: nat, headers: HeaderMap): (r: Head)
    requires Advances(step)
    ensures r.Head? ==> |r.rest| < |w|
    decreases |w|
  {
    match step(w)
    case Stop(error) => NoHead(error)
    case Blank(size) => Head(headers, w[size..])
    case Item(field, size) =>
      if limit < size then NoHead(HeadTooLong)
      else HeadWith(step, w[size..], limit - size, Insert(headers, field))
  }

  function StepFor(line: LineResult): Step {
    match line
    case NoLine(error) => Stop(LineFailed(error))
    case Line(text, size) =>
      match ParseField(text)
      case NoMore => Blank(size)
      case BadField(error) => Stop(error)
      case Field(name, value) => Item(Field(name, value), size)
  }

  function StepOf(w: seq<byte>, capacity: nat): (r: Step)
    ensures !r.Stop? ==> 0 < r.size <= |w|
  {
    StepFor(FirstLine(w, capacity))
  }

  function HeaderLines(capacity: nat): LineReader {
    (w: seq<byte>) => StepOf(w, capacity)
  }

  /** `read_headers_limited` on everything that is pending. */
  ghost function HeadersFrom(w: seq<byte>, capacity: nat, limit: nat, headers: HeaderMap): (r: Head)
    ensures r.Head? ==> |r.rest| < |w|
  {
    HeadWith(HeaderLines(capacity), w, limit, headers)
  }

  // ----- The block as it is read, line scan included -----

  /** What the scan makes of the line at the start of the stream, and the reader after it. */
  datatype Seen = Seen(step: Step, next: Source)

  type LineScanner = Source -> Seen

  ghost predicate Moves(scan: LineScanner) {
    forall s :: !scan(s).step.Stop? ==> |scan(s).next.pending| < |s.pending| && scan(s).next.capacity == s.capacity
  }

  ghost function SeenWith(scan: LineScanner, s: Source, limit: nat, headers: HeaderMap): (r: Head)
    requires Moves(scan)
    ensures r.Head? ==> |r.rest| < |s.pending|
    decreases |s.pending|
  {
    var Seen(step, next) := scan(s);
    match step
    case Stop(error) => NoHead(error)
    case Blank(_) => Head(headers, next.pending)
    case Item(field, size) =>
      if limit < size then NoHead(HeadTooLong) else SeenWith(scan, next, limit - size, Insert(headers, field))
  }

  function ScanLine(s: Source): (r: Seen)
    ensures !r.step.Stop? ==>
              && 0 < r.step.size <= Scan(s, 0).held && r.next == Past(s, r.step.size)
              && |r.next.pending| < |s.pending| && r.next.capacity == s.capacity
  {
    var step := StepFor(LineSeen(s));
    Seen(step, if step.Stop? then s else Past(s, step.size))
  }

  const LINE_SCANS: LineScanner := (s: Source) => ScanLine(s)

  /** `read_headers_limited`, for any network. */
  ghost function HeadSeen(s: Source, limit: nat, headers: HeaderMap): (r: Head)
    ensures r.Head? ==> |r.rest| < |s.pending|
  {
    SeenWith(LINE_SCANS, s, limit, headers)
  }

  lemma SeenWithStep(scan: LineScanner, s: Source, limit: nat, headers: HeaderMap, seen: Seen)
    requires Moves(scan) && seen == scan(s)
    ensures SeenWith(scan, s, limit, headers) == match seen.step
              case Stop(error) => NoHead(error)
              case Blank(_) => Head(headers, seen.next.pending)
              case Item(field, size) =>
                if limit < size then NoHead(HeadTooLong)
                else SeenWith(scan, seen.next, limit - size, Insert(headers, field))
  {}

  lemma HeadSeenStep(s: Source, limit: nat, headers: HeaderMap)
    ensures var Seen(step, next) := ScanLine(s);
            HeadSeen(s, limit, headers) == match step
              case Stop(error) => NoHead(error)
              case Blank(_) => Head(headers, next.pending)
              case Item(field, size) =>
                if limit < size then NoHead(HeadTooLong) else HeadSeen(next, limit - size, Insert(headers, field))
  {
    SeenWithStep(LINE_SCANS, s, limit, headers, ScanLine(s));
  }

  /** Every line that is read is timely. */
  ghost predicate AllTimely(scan: LineScanner, timely: Source -> bool, s: Source, limit: nat)
    requires Moves(scan)
    decreases |s.pending|
  {
    var Seen(step, next) := scan(s);
    timely(s) && (step.Item? && step.size <= limit ==> AllTimely(scan, timely, next, limit - step.size))
  }

  const IN_TIME: Source -> bool := (s: Source) => InTime(s, 0)

  ghost predicate LinesInTime(s: Source, limit: nat) {
    AllTimely(LINE_SCANS, IN_TIME, s, limit)
  }

  /** The scanner reads a timely line as the reader of whole lines does. */
  ghost predicate Agrees(scan: LineScanner, timely: Source -> bool, step: LineReader, capacity: nat)
    requires Advances(step)
  {
    forall s: Source :: s.capacity == capacity && timely(s) ==>
      var Seen(got, next) := scan(s);
      got == step(s.pending) && (!got.Stop? ==> next.pending == s.pending[got.size..])
  }

  lemma {:induction false} StepInTime(s: Source)
    requires InTime(s, 0)
    ensures ScanLine(s).step == HeaderLines(s.capacity)(s.pending)
  {
    SeenInTime(s);
  }

  lemma ScansAgree(capacity: nat)
    ensures Agrees(LINE_SCANS, IN_TIME, HeaderLines(capacity), capacity)
  {
    forall s: Source | s.capacity == capacity && InTime(s, 0)
      ensures ScanLine(s).step == StepOf(s.pending, capacity)
    {
      SeenInTime(s);
    }
  }

  lemma {:induction false} SameWhenTimely(scan: LineScanner, timely: Source -> bool, step: LineReader, s: Source,
                                          limit: nat, headers: HeaderMap)
    requires Moves(scan) && Advances(step) && Agrees(scan, timely, step, s.capacity)
    requires AllTimely(scan, timely, s, limit)
    ensures SeenWith(scan, s, limit, headers) == HeadWith(step, s.pending, limit, headers)
    decreases |s.pending|
  {
    var Seen(got, next) := scan(s);
    if got.Item? && got.size <= limit {
      SameWhenTimely(scan, timely, step, next, limit - got.size, Insert(headers, got.field));
    }
  }

  lemma AllTimelyStep(scan: LineScanner, timely: Source -> bool, s: Source, limit: nat, seen: Seen)
    requires Moves(scan) && seen == scan(s)
    ensures AllTimely(scan, timely, s, limit)
       <==> timely(s) && (seen.step.Item? && seen.step.size <= limit ==>
                            AllTimely(scan, timely, seen.next, limit - seen.step.size))
  {}

  lemma {:induction false} LinesInTimeStep(s: Source, limit: nat)
    ensures var Seen(step, next) := ScanLine(s);
            LinesInTime(s, limit)
            <==> InTime(s, 0) && (step.Item? && step.size <= limit ==> LinesInTime(next, limit - step.size))
  {
    AllTimelyStep(LINE_SCANS, IN_TIME, s, limit, ScanLine(s));
  }

  /** When all lines are in time, the head is what it should be. */
  lemma HeadInTime(s: Source, limit: nat, headers: HeaderMap)
    requires LinesInTime(s, limit)
    ensures HeadSeen(s, limit, headers) == HeadersFrom(s.pending, s.capacity, limit, headers)
  {
    ScansAgree(s.capacity);
    SameWhenTimely(LINE_SCANS, IN_TIME, HeaderLines(s.capacity), s, limit, headers);
  }

  /** A line in reach is timely, and what is in reach stays so when the line has been read. */
  ghost predicate ReachesTimely(scan: LineScanner, timely: Source -> bool, reach: Source -> nat, step: LineReader,
                                capacity: nat)
    requires Advances(step)
  {
    forall s: Source ::
      s.capacity == capacity && !step(s.pending).Stop? && step(s.pending).size <= reach(s) ==>
        timely(s) && reach(scan(s).next) + step(s.pending).size >= reach(s)
  }

  lemma LinesReachTimely(capacity: nat)
    ensures ReachesTimely(LINE_SCANS, IN_TIME, s => Reach(s), HeaderLines(capacity), capacity)
  {
    forall s: Source | s.capacity == capacity && !StepOf(s.pending, capacity).Stop?
                       && StepOf(s.pending, capacity).size <= Reach(s)
      ensures InTime(s, 0)
      ensures Reach(ScanLine(s).next) + StepOf(s.pending, capacity).size >= Reach(s)
    {
      LineReachesTimely(s);
    }
  }

  lemma {:induction false} LineReachesTimely(s: Source)
    requires var step := StepOf(s.pending, s.capacity); !step.Stop? && step.size <= Reach(s)
    ensures InTime(s, 0) && Reach(ScanLine(s).next) + StepOf(s.pending, s.capacity).size >= Reach(s)
  {
    var line := FirstLine(s.pending, s.capacity);
    assert line.Line? && StepFor(line).size == line.size;
    LineInReach(s);
    assert ScanLine(s).step == StepFor(line);
  }

  lemma {:induction false} AllInReach(scan: LineScanner, timely: Source -> bool, reach: Source -> nat,
                                      step: LineReader, s: Source, limit: nat, enough: nat, headers: HeaderMap)
    requires Moves(scan) && Advances(step) && Agrees(scan, timely, step, s.capacity)
    requires ReachesTimely(scan, timely, reach, step, s.capacity)
    requires HeadWith(step, s.pending, enough, headers).Head?
    requires |s.pending| - |HeadWith(step, s.pending, enough, headers).rest| <= reach(s)
    ensures AllTimely(scan, timely, s, limit)
    decreases |s.pending|
  {
    var got := step(s.pending);
    assert timely(s) && scan(s).step == got;
    if got.Item? && got.size <= limit {
      AllInReach(scan, timely, reach, step, scan(s).next, limit - got.size, enough - got.size,
                 Insert(headers, got.field));
    }
  }

  /** All lines are in time when the block, whatever budget it takes, is in reach. */
  lemma LinesInReach(s: Source, limit: nat, enough: nat, headers: HeaderMap)
    requires HeadersFrom(s.pending, s.capacity, enough, headers).Head?
    requires |s.pending| - |HeadersFrom(s.pending, s.capacity, enough, headers).rest| <= Reach(s)
    ensures LinesInTime(s, limit)
  {
    ScansAgree(s.capacity);
    LinesReachTimely(s.capacity);
    AllInReach(LINE_SCANS, IN_TIME, s => Reach(s), HeaderLines(s.capacity), s, limit, enough, headers);
  }

  function AsStep(r: Field, size: nat): Step {
    match r
    case NoMore => Blank(size)
    case BadField(error) => Stop(error)
    case _ => Item(r, size)
  }

  /** `read_header_line_limited`: consumes the line unless it is malformed. */
  method ReadHeaderLine(reader: BufReader) returns (r: Field, size: nat)
    requires reader.Valid()
    modifies reader
    ensures reader.Valid()
    ensures Seen(AsStep(r, size), if r.BadField? then old(reader.Ahead()) else reader.Ahead())
         == ScanLine(old(reader.Ahead()))
    ensures r.BadField? ==> reader.Pending() == old(reader.Pending())
  {
    size := 0;
    var line := ReadLineInPlace(reader);
    if line.NoLine? {
      return BadField(LineFailed(line.error)), 0;
    }
    r := ParseField(line.text);
    if !r.BadField? {
      size := line.size;
      reader.Consume(size);
    }
  }

  /** What a reading method returns; what is left after a success is on the stream. */
  datatype Result = Done(headers: HeaderMap) | Failed(error: Error)

  ghost predicate Matches(r: Result, left: seq<byte>, head: Head) {
    match head
    case Head(headers, rest) => r == Done(headers) && left == rest
    case NoHead(error) => r == Failed(error)
  }

  ghost predicate HeadComesTo(s: Source, limit: nat, headers: HeaderMap, whole: Head) {
    HeadSeen(s, limit, headers) == whole
  }

  lemma HeadGoesOn(s: Source, limit: nat, headers: HeaderMap, whole: Head, seen: Seen)
    requires seen == ScanLine(s) && HeadComesTo(s, limit, headers, whole)
    ensures match seen.step
            case Stop(error) => whole == NoHead(error)
            case Blank(_) => whole == Head(headers, seen.next.pending)
            case Item(field, size) =>
              if limit < size then whole == NoHead(HeadTooLong)
              else HeadComesTo(seen.next, limit - size, Insert(headers, field), whole)
  {
    HeadSeenStep(s, limit, headers);
  }

  /** `read_headers_limited`: the budget is charged line by line. */
  method ReadHeaders(reader: BufReader, sizeLimit: nat, headers: HeaderMap) returns (r: Result)
    requires reader.Valid()
    modifies reader
    ensures reader.Valid()
    ensures Matches(r, reader.Pending(), HeadSeen(old(reader.Ahead()), sizeLimit, headers))
  {
    var limit, found := sizeLimit, headers;
    ghost var whole := HeadSeen(reader.Ahead(), sizeLimit, headers);
    while true
      invariant reader.Valid() && HeadComesTo(reader.Ahead(), limit, found, whole)
      decreases |reader.Pending()|
    {
      HeadGoesOn(reader.Ahead(), limit, found, whole, ScanLine(reader.Ahead()));
      var field, size := ReadHeaderLine(reader);
      if field.NoMore? {
        return Done(found);
      }
      if field.BadField? {
        return Failed(field.error);
      }
      if limit < size {
        return Failed(HeadTooLong);
      }
      limit := limit - size;
      found := Insert(found, field);
    }
  }

  // ----- Request line and status line -----

  /** Up to the first `b`, and what follows it. */
  function SplitOnce(s: Text, b: byte): (Text, Option<Text>) {
    var i := Find(s, b);
    (s[..i], if i < |s| then Some(s[i + 1..]) else None)
  }

  datatype Version = Http09 | Http10 | Http11 | Http20 | Http30 {
    function Number(): nat {
      match this
      case Http09 => 9
      case Http10 => 10
      case Http11 => 11
      case Http20 => 20
      case Http30 => 30
    }

    function Print(): Text {
      HTTP + [0x30 + Number() / 10, 0x2e, 0x30 + Number() % 10]
    }

    static function From(n: int): Option<Version> {
      match n
      case 9 => Some(Http09)
      case 10 => Some(Http10)
      case 11 => Some(Http11)
      case 20 => Some(Http20)
      case 30 => Some(Http30)
      case _ => None
    }
  }

  predicate IsDigit(b: byte) {
    0x30 <= b <= 0x39
  }

  /** `parse_version`: looks at the digits and the dot, not at what comes before them. */
  function ParseVersion(s: Text): Option<Version> {
    if |s| != 8 || s[6] != 0x2e || !IsDigit(s[5]) || !IsDigit(s[7]) then None
    else Version.From(Digit(s[5]) * 10 + Digit(s[7]))
  }

  function ParseRequestLine(line: Text): Option<Version> {
    var (method_, afterMethod) := SplitOnce(line, SPACE);
    if method_ != GET || afterMethod.None? then None
    else
      var (url, afterUrl) := SplitOnce(afterMethod.value, SPACE);
      if afterUrl.None? then None else ParseVersion(SplitOnce(afterUrl.value, SPACE).0)
  }

  /** `StatusCode::from_str`: three digits, not below 100. */
  function ParseStatus(s: Text): Option<nat> {
    if |s| != 3 || !IsDigit(s[0]) || !IsDigit(s[1]) || !IsDigit(s[2]) || s[0] == 0x30 then None
    else Some(Digit(s[0]) * 100 + Digit(s[1]) * 10 + Digit(s[2]))
  }

  function ParseStatusLine(line: Text): Option<(Version, nat)> {
    var (version, later) := SplitOnce(line, SPACE);
    if later.None? || ParseVersion(version).None? then None
    else
      var status := ParseStatus(SplitOnce(later.value, SPACE).0);
      if status.None? then None else Some((ParseVersion(version).value, status.value))
  }

  // ----- Whole heads -----

  /** What follows the first line of a head: the block of header lines and its budget, no block at
      all, or an error. */
  datatype Next = Block(limit: nat) | NoBlock | Refused(error: Error)

  /** `handle_request` at its request line. */
  function AfterRequestLine(line: LineResult): Next {
    match line
    case NoLine(error) => Refused(LineFailed(error))
    case Line(text, size) =>
      match ParseRequestLine(text)
      case None => Refused(InvalidStatusLine)
      case Some(version) =>
        if version != Http11 then Refused(UnexpectedVersion)
        else if MAXIMUM_HEADER_SIZE < size then Refused(HeadTooLong)
        else Block(MAXIMUM_HEADER_SIZE - size)
  }

  /** The head, when the stream has come to `w`. */
  ghost function HeadFrom(next: Next, w: seq<byte>, capacity: nat): Head {
    match next
    case Refused(error) => NoHead(error)
    case NoBlock => Head(map[], w)
    case Block(limit) => HeadersFrom(w, capacity, limit, map[])
  }

  /** The same, line scan included. */
  ghost function HeadSeenFrom(next: Next, s: Source): Head {
    match next
    case Refused(error) => NoHead(error)
    case NoBlock => Head(map[], s.pending)
    case Block(limit) => HeadSeen(s, limit, map[])
  }

  ghost predicate BlockInTime(next: Next, s: Source) {
    next.Block? ==> LinesInTime(s, next.limit)
  }

  lemma SeenFromInTime(next: Next, s: Source)
    requires BlockInTime(next, s)
    ensures HeadSeenFrom(next, s) == HeadFrom(next, s.pending, s.capacity)
  {
    if next.Block? {
      HeadInTime(s, next.limit, map[]);
    }
  }

  lemma BlockInReach(next: Next, s: Source, enough: nat)
    requires next.Block? ==>
               var head := HeadersFrom(s.pending, s.capacity, enough, map[]);
               head.Head? && |s.pending| - |head.rest| <= Reach(s)
    ensures BlockInTime(next, s)
  {
    if next.Block? {
      LinesInReach(s, next.limit, enough, map[]);
    }
  }

  /** `handle_request` on everything that is pending. */
  ghost function RequestFrom(w: seq<byte>, capacity: nat): Head {
    var line := FirstLine(w, capacity);
    HeadFrom(AfterRequestLine(line), if line.Line? then w[line.size..] else w, capacity)
  }

  /** `handle_request` as it is, for any network. */
  ghost function RequestSeen(s: Source): Head {
    var line := LineSeen(s);
    HeadSeenFrom(AfterRequestLine(line), if line.Line? then Past(s, line.size) else s)
  }

  ghost predicate RequestInTime(s: Source) {
    InTime(s, 0) && var line := LineSeen(s); line.Line? ==> BlockInTime(AfterRequestLine(line), Past(s, line.size))
  }

  lemma RequestSeenInTime(s: Source)
    requires RequestInTime(s)
    ensures RequestSeen(s) == RequestFrom(s.pending, s.capacity)
  {
    SeenInTime(s);
    var line := LineSeen(s);
    SeenFromInTime(AfterRequestLine(line), if line.Line? then Past(s, line.size) else s);
  }

  /** A request is in time when its first line and the block after it, whatever budget that
      takes, are in reach. */
  lemma RequestInReach(s: Source, enough: nat)
    requires FirstLine(s.pending, s.capacity).Line?
    requires var head := HeadersFrom(s.pending[FirstLine(s.pending, s.capacity).size..], s.capacity, enough, map[]);
             head.Head? && |s.pending| - |head.rest| <= Reach(s)
    ensures RequestInTime(s)
  {
    var line := FirstLine(s.pending, s.capacity);
    LineInReach(s);
    BlockInReach(AfterRequestLine(line), Past(s, line.size), enough);
  }

  /** `handle_request` up to the header block. */
  method ReadRequestLine(reader: BufReader) returns (next: Next)
    requires reader.Valid()
    modifies reader
    ensures reader.Valid()
    ensures next == AfterRequestLine(LineSeen(old(reader.Ahead())))
    ensures next.Block? ==> reader.Ahead() == Past(old(reader.Ahead()), LineSeen(old(reader.Ahead())).size)
  {
    var line := ReadLineInPlace(reader);
    if line.NoLine? {
      return Refused(LineFailed(line.error));
    }
    var version := ParseRequestLine(line.text);
    if version.None? {
      return Refused(InvalidStatusLine);
    }
    reader.Consume(line.size);
    if version.value != Http11 {
      return Refused(UnexpectedVersion);
    }
    next := if MAXIMUM_HEADER_SIZE < line.size then Refused(HeadTooLong) else Block(MAXIMUM_HEADER_SIZE - line.size);
  }

  method HandleRequest(reader: BufReader) returns (r: Result)
    requires reader.Valid()
    modifies reader
    ensures reader.Valid()
    ensures Matches(r, reader.Pending(), RequestSeen(old(reader.Ahead())))
  {
    var next := ReadRequestLine(reader);
    match next
    case Refused(error) => r := Failed(error);
    case NoBlock => r := Done(map[]);
    case Block(limit) => r := ReadHeaders(reader, limit, map[]);
  }

  datatype Limits = Limits(minVersion: Version, maxVersion: Version, maximumHeaderSize: nat)

  datatype Response = Response(status: nat, version: Version, head: Head)

  /** The status line and its length. */
  datatype Status = Status(version: Version, code: nat, size: nat) | NoStatus(error: Error)

  function StatusFor(line: LineResult): Status {
    match line
    case NoLine(error) => NoStatus(LineFailed(error))
    case Line(text, size) =>
      match ParseStatusLine(text)
      case None => NoStatus(InvalidStatusLine)
      case Some((version, code)) => Status(version, code, size)
  }

  /** Without the prefix `HTTP/` the server is taken to speak HTTP/0.9, which has no head. */
  function StatusFrom(w: seq<byte>, capacity: nat): (r: Status)
    ensures r.Status? ==> r.size <= |w|
  {
    if |w| < |HTTP| || capacity < |HTTP| then NoStatus(LineFailed(UnexpectedEof))
    else if w[..|HTTP|] != HTTP then Status(Http09, 200, 0)
    else StatusFor(FirstLine(w, capacity))
  }

  /** `parse_response` past its status line. */
  function AfterStatus(version: Version, limits: Limits, size: nat): Next {
    if version.Number() < limits.minVersion.Number() || version.Number() > limits.maxVersion.Number() then
      Refused(UnexpectedVersion)
    else if version == Http09 then NoBlock
    else if limits.maximumHeaderSize < size then Refused(HeadTooLong)
    else Block(limits.maximumHeaderSize - size)
  }

  /** `parse_response`; a response without a status counts as 200 of HTTP/0.9. */
  ghost function ResponseFrom(w: seq<byte>, capacity: nat, limits: Limits): Response {
    match StatusFrom(w, capacity)
    case NoStatus(error) => Response(200, Http09, NoHead(error))
    case Status(version, code, size) =>
      Response(code, version, HeadFrom(AfterStatus(version, limits, size), w[size..], capacity))
  }

  /** The reader filled until so much is buffered, or no more can be. */
  function FilledTo(s: Source, n: nat): (t: Source)
    ensures t == s.(buffered := t.buffered)
    ensures t.buffered >= n <==> s.buffered >= n || (|s.pending| >= n && s.capacity >= n)
    decreases |s.pending| - s.buffered
  {
    if s.buffered >= n || s.NextFill() == 0 then s else FilledTo(Refilled(s), n)
  }

  /** The status line as it is read; what it leaves is `StatusPast`. */
  function StatusSeen(s: Source): (r: Status)
    ensures r.Status? && r.size > 0 ==> r.size <= Scan(FilledTo(s, |HTTP|), 0).held
  {
    var t := FilledTo(s, |HTTP|);
    if t.buffered < |HTTP| then NoStatus(LineFailed(UnexpectedEof))
    else if t.pending[..|HTTP|] != HTTP then Status(Http09, 200, 0)
    else StatusFor(LineSeen(t))
  }

  function StatusPast(s: Source): Source
    requires StatusSeen(s).Status?
  {
    var t := FilledTo(s, |HTTP|);
    if StatusSeen(s).size == 0 then t else Past(t, StatusSeen(s).size)
  }

  /** `parse_response` as it is, for any network. */
  ghost function ResponseSeen(s: Source, limits: Limits): Response {
    match StatusSeen(s)
    case NoStatus(error) => Response(200, Http09, NoHead(error))
    case Status(version, code, size) =>
      Response(code, version, HeadSeenFrom(AfterStatus(version, limits, size), StatusPast(s)))
  }

  predicate StatusInTime(s: Source) {
    StatusFrom(s.pending, s.capacity) == Status(Http09, 200, 0) || InTime(FilledTo(s, |HTTP|), 0)
  }

  ghost predicate ResponseInTime(s: Source, limits: Limits) {
    && StatusInTime(s)
    && match StatusSeen(s)
       case NoStatus(_) => true
       case Status(version, _, size) => BlockInTime(AfterStatus(version, limits, size), StatusPast(s))
  }

  lemma StatusSeenInTime(s: Source)
    requires StatusInTime(s)
    ensures StatusSeen(s) == StatusFrom(s.pending, s.capacity)
    ensures StatusSeen(s).Status? ==> StatusPast(s).pending == s.pending[StatusSeen(s).size..]
                                      && StatusPast(s).capacity == s.capacity
  {
    var t := FilledTo(s, |HTTP|);
    if t.buffered >= |HTTP| && t.pending[..|HTTP|] == HTTP {
      SeenInTime(t);
    }
  }

  lemma ResponseSeenInTime(s: Source, limits: Limits)
    requires ResponseInTime(s, limits)
    ensures ResponseSeen(s, limits) == ResponseFrom(s.pending, s.capacity, limits)
  {
    StatusSeenInTime(s);
    var status := StatusSeen(s);
    if status.Status? {
      SeenFromInTime(AfterStatus(status.version, limits, status.size), StatusPast(s));
    }
  }

  /** A response is in time when all of it is in reach once its first five bytes are there. */
  lemma {:induction false} ResponseInReach(s: Source, limits: Limits, enough: nat)
    requires var status := StatusFrom(s.pending, s.capacity);
             status.Status? && status.size > 0 &&
             var head := HeadersFrom(s.pending[status.size..], s.capacity, enough, map[]);
             head.Head? && |s.pending| - |head.rest| <= Reach(FilledTo(s, |HTTP|))
    ensures ResponseInTime(s, limits)
  {
    var status := StatusFrom(s.pending, s.capacity);
    StatusInReach(s);
    BlockInReach(AfterStatus(status.version, limits, status.size), StatusPast(s), enough);
  }

  lemma {:induction false} StatusInReach(s: Source)
    requires var status := StatusFrom(s.pending, s.capacity);
             status.Status? && 0 < status.size <= Reach(FilledTo(s, |HTTP|))
    ensures var status := StatusFrom(s.pending, s.capacity);
            && InTime(FilledTo(s, |HTTP|), 0) && StatusSeen(s) == status
            && StatusPast(s).pending == s.pending[status.size..] && StatusPast(s).capacity == s.capacity
            && Reach(StatusPast(s)) + status.size >= Reach(FilledTo(s, |HTTP|))
  {
    StatusEndsInNewline(s.pending, s.capacity);
    LineInReach(FilledTo(s, |HTTP|));
    StatusSeenInTime(s);
  }

  /** Whether the stream begins with `HTTP/`; `None` if too little can be buffered to tell. */
  method PrefixMatches(reader: BufReader) returns (r: Option<bool>)
    requires reader.Valid()
    modifies reader
    ensures reader.Valid() && reader.Ahead() == FilledTo(old(reader.Ahead()), |HTTP|)
    ensures var w := reader.Pending();
            r == if |w| < |HTTP| || reader.capacity < |HTTP| then None else Some(w[..|HTTP|] == HTTP)
  {
    while |reader.buffer| < |HTTP|
      invariant reader.Valid()
      invariant FilledTo(reader.Ahead(), |HTTP|) == FilledTo(old(reader.Ahead()), |HTTP|)
      decreases |reader.wire|
    {
      var n := FillAgain(reader);
      if n == 0 {
        return None;
      }
    }
    assert reader.buffer[..|HTTP|] == reader.Pending()[..|HTTP|];
    r := Some(reader.buffer[..|HTTP|] == HTTP);
  }

  /** `parse_response` up to the end of the status line. */
  method ReadStatus(reader: BufReader) returns (r: Status)
    requires reader.Valid()
    modifies reader
    ensures reader.Valid()
    ensures r == StatusSeen(old(reader.Ahead()))
    ensures r.Status? ==> reader.Ahead() == StatusPast(old(reader.Ahead()))
  {
    var prefix := PrefixMatches(reader);
    if prefix == None {
      return NoStatus(LineFailed(UnexpectedEof));
    }
    if prefix == Some(false) {
      return Status(Http09, 200, 0);
    }
    var line := ReadLineInPlace(reader);
    if line.NoLine? {
      return NoStatus(LineFailed(line.error));
    }
    var parsed := ParseStatusLine(line.text);
    reader.Consume(line.size);
    r := if parsed.None? then NoStatus(InvalidStatusLine)
         else Status(parsed.value.0, parsed.value.1, line.size);
  }

  /** `parse_response`. */
  method ReadResponse(reader: BufReader, limits: Limits) returns (status: nat, version: Version, r: Result)
    requires reader.Valid()
    modifies reader
    ensures reader.Valid()
    ensures var response := ResponseSeen(old(reader.Ahead()), limits);
            && status == response.status && version == response.version
            && Matches(r, reader.Pending(), response.head)
  {
    var line := ReadStatus(reader);
    if line.NoStatus? {
      return 200, Http09, Failed(line.error);
    }
    status, version := line.code, line.version;
    if version.Number() < limits.minVersion.Number() || version.Number() > limits.maxVersion.Number() {
      return status, version, Failed(UnexpectedVersion);
    }
    if version == Http09 {
      return status, version, Done(map[]);
    }
    if limits.maximumHeaderSize < line.size {
      return status, version, Failed(HeadTooLong);
    }
    r := ReadHeaders(reader, limits.maximumHeaderSize - line.size, map[]);
  }

  lemma {:induction false} StatusEndsInNewline(w: seq<byte>, capacity: nat)
    ensures var r := StatusFrom(w, capacity);
            r.Status? && r.size > 0 ==> r.size == FirstLine(w, capacity).size == Find(w, NEWLINE) + 1
                                        && FirstLine(w, capacity).Line?
    ensures var r := StatusFrom(w, capacity);
            r.Status? && r.size == 0 ==> r == Status(Http09, 200, 0)
  {}

  // ----- The budget, for any network -----

  /** Whatever is taken for lines: an accepted block keeps to its budget, and exactly it is consumed. */
  lemma {:induction false} BlockWithinBudget(s: Source, limit: nat, headers: HeaderMap, whole: Head)
    returns (fields: nat, blank: nat)
    requires HeadComesTo(s, limit, headers, whole) && whole.Head?
    ensures fields <= limit && 0 < blank && fields + blank <= |s.pending|
    ensures whole.rest == s.pending[fields + blank..]
    decreases |s.pending|
  {
    var seen := ScanLine(s);
    var Seen(step, next) := seen;
    HeadGoesOn(s, limit, headers, whole, seen);
    LineLeaves(s);
    if step.Blank? {
      fields, blank := 0, step.size;
    } else {
      fields, blank := BlockWithinBudget(next, limit - step.size, Insert(headers, step.field), whole);
      DropTwice(s.pending, step.size, fields + blank);
      fields := fields + step.size;
    }
  }

  lemma LineLeaves(s: Source)
    ensures var Seen(step, next) := ScanLine(s);
            !step.Stop? ==> 0 < step.size <= |s.pending| && next.pending == s.pending[step.size..]
  {}

  lemma DropTwice(w: seq<byte>, m: nat, n: nat)
    requires m + n <= |w|
    ensures w[m..][n..] == w[m + n..]
  {}

  /** What follows a request line of so many bytes. */
  lemma RequestBudget(line: LineResult)
    ensures var next := AfterRequestLine(line);
            !next.NoBlock? && (next.Block? ==> line.Line? && line.size + next.limit == MAXIMUM_HEADER_SIZE)
  {}

  lemma SeenFromWithinBudget(next: Next, s: Source) returns (fields: nat, blank: nat)
    requires !next.NoBlock? && HeadSeenFrom(next, s).Head?
    ensures next.Block? && fields <= next.limit && 0 < blank && fields + blank <= |s.pending|
    ensures HeadSeenFrom(next, s).rest == s.pending[fields + blank..]
  {
    fields, blank := BlockWithinBudget(s, next.limit, map[], HeadSeenFrom(next, s));
  }

  /** A request that is accepted, in time or not, keeps request line and fields within the limit,
      and exactly they and the blank line are consumed. */
  lemma RequestWithinBudget(s: Source) returns (fields: nat, blank: nat)
    requires RequestSeen(s).Head?
    ensures LineSeen(s).Line?
    ensures var size := LineSeen(s).size;
            && size + fields <= 131072 && 0 < blank && size + fields + blank <= |s.pending|
            && RequestSeen(s).rest == s.pending[size + fields + blank..]
  {
    var line := LineSeen(s);
    var next := AfterRequestLine(line);
    var t := if line.Line? then Past(s, line.size) else s;
    RequestBudget(line);
    fields, blank := SeenFromWithinBudget(next, t);
    DropTwice(s.pending, line.size, fields + blank);
  }

  /** The same of a response of HTTP/1.0 or later, status line included. */
  lemma ResponseSeenWithinBudget(s: Source, limits: Limits) returns (fields: nat, blank: nat)
    requires ResponseSeen(s, limits).head.Head? && ResponseSeen(s, limits).version != Http09
    ensures var size := StatusSeen(s).size;
            && size + fields <= limits.maximumHeaderSize && 0 < blank && size + fields + blank <= |s.pending|
            && ResponseSeen(s, limits).head.rest == s.pending[size + fields + blank..]
  {
    var size := StatusSeen(s).size;
    StatusLeaves(s);
    fields, blank := BlockWithinBudget(StatusPast(s), limits.maximumHeaderSize - size, map[],
                                        ResponseSeen(s, limits).head);
    DropTwice(s.pending, size, fields + blank);
  }

  lemma StatusLeaves(s: Source)
    requires StatusSeen(s).Status?
    ensures StatusSeen(s).size <= |s.pending| && StatusPast(s).pending == s.pending[StatusSeen(s).size..]
    ensures StatusPast(s).capacity == s.capacity
  {}

  // ----- The language of heads, and the budget -----

  function Concat(lines: seq<seq<byte>>): seq<byte> {
    if lines == [] then [] else lines[0] + Concat(lines[1..])
  }

  function InsertAll(headers: HeaderMap, fields: seq<Field>): HeaderMap
    decreases |fields|
  {
    if fields == [] then headers else InsertAll(Insert(headers, fields[0]), fields[1..])
  }

  /** Whatever follows it, `s` is read as `r`. */
  ghost predicate ReadAs(step: LineReader, s: seq<byte>, r: Step) {
    forall w :: step(s + w) == r
  }

  ghost predicate AllReadAs(step: LineReader, lines: seq<seq<byte>>, fields: seq<Field>) {
    |fields| == |lines| && forall i :: 0 <= i < |lines| ==> ReadAs(step, lines[i], Item(fields[i], |lines[i]|))
  }

  /** What is read does not depend on what follows. */
  ghost predicate Local(step: LineReader)
    requires Advances(step)
  {
    forall w :: !step(w).Stop? ==> ReadAs(step, w[..step(w).size], step(w))
  }

  lemma Regroup(a: seq<byte>, b: seq<byte>, c: seq<byte>, d: seq<byte>)
    ensures a + (b + c + d) == a + b + c + d
  {}

  /** Field lines and a blank line are parsed, and nothing after them is read; they are refused
      exactly when the field lines exceed the budget. */
  lemma {:induction false} ParsesLines(step: LineReader, lines: seq<seq<byte>>, fields: seq<Field>, blank: seq<byte>,
                                       rest: seq<byte>, limit: nat, headers: HeaderMap)
    requires Advances(step) && AllReadAs(step, lines, fields) && ReadAs(step, blank, Blank(|blank|))
    ensures HeadWith(step, Concat(lines) + blank + rest, limit, headers)
         == if |Concat(lines)| <= limit then Head(InsertAll(headers, fields), rest) else NoHead(HeadTooLong)
    decreases |lines|
  {
    if lines == [] {
      assert Concat(lines) + blank + rest == blank + rest;
    } else {
      var later := Concat(lines[1..]) + blank + rest;
      Regroup(lines[0], Concat(lines[1..]), blank, rest);
      assert step(lines[0] + later) == Item(fields[0], |lines[0]|);
      assert (lines[0] + later)[|lines[0]|..] == later;
      if |lines[0]| <= limit {
        ParsesLines(step, lines[1..], fields[1..], blank, rest, limit - |lines[0]|, Insert(headers, fields[0]));
      }
    }
  }

  /** `w` begins with field lines within the budget and a blank line, which are what `head` says. */
  ghost predicate IsBlock(step: LineReader, w: seq<byte>, head: Head, limit: nat, headers: HeaderMap,
                          lines: seq<seq<byte>>, fields: seq<Field>, blank: seq<byte>)
    requires head.Head?
  {
    && AllReadAs(step, lines, fields) && ReadAs(step, blank, Blank(|blank|))
    && |Concat(lines)| <= limit
    && w == Concat(lines) + blank + head.rest
    && head.headers == InsertAll(headers, fields)
  }

  lemma OneLineMore(step: LineReader, s: seq<byte>, field: Field, w: seq<byte>, head: Head, limit: nat,
                    headers: HeaderMap, lines: seq<seq<byte>>, fields: seq<Field>, blank: seq<byte>)
    requires head.Head? && |s| <= limit && ReadAs(step, s, Item(field, |s|))
    requires IsBlock(step, w, head, limit - |s|, Insert(headers, field), lines, fields, blank)
    ensures IsBlock(step, s + w, head, limit, headers, [s] + lines, [field] + fields, blank)
  {
    assert ([s] + lines)[1..] == lines && ([field] + fields)[1..] == fields;
    Regroup(s, Concat(lines), blank, head.rest);
  }

  /** And only those: a head that is accepted is made of such lines, its field lines keep within
      the budget, and exactly they and the blank line are consumed. */
  lemma {:induction false} OnlyLinesParse(step: LineReader, w: seq<byte>, limit: nat, headers: HeaderMap)
    returns (lines: seq<seq<byte>>, fields: seq<Field>, blank: seq<byte>)
    requires Advances(step) && Local(step) && HeadWith(step, w, limit, headers).Head?
    ensures IsBlock(step, w, HeadWith(step, w, limit, headers), limit, headers, lines, fields, blank)
    decreases |w|
  {
    var n := step(w).size;
    var s, v, head := w[..n], w[n..], HeadWith(step, w, limit, headers);
    assert w == s + v;
    if step(w).Blank? {
      lines, fields, blank := [], [], s;
      assert Concat([]) + s + v == s + v;
    } else {
      var field := step(w).field;
      lines, fields, blank := OnlyLinesParse(step, v, limit - n, Insert(headers, field));
      OneLineMore(step, s, field, v, head, limit, headers, lines, fields, blank);
      lines, fields := [s] + lines, [field] + fields;
    }
  }

  /** A line with its newline, and no other. */
  predicate IsLine(s: seq<byte>, capacity: nat) {
    s != [] && Find(s, NEWLINE) == |s| - 1 && |s| <= capacity && Utf8.Valid(s)
  }

  lemma LineFirst(s: seq<byte>, w: seq<byte>, capacity: nat)
    requires IsLine(s, capacity)
    ensures FirstLine(s + w, capacity) == Line(Chomp(s), |s|)
  {
    FindFrom(s, w, NEWLINE);
    assert (s + w)[..|s|] == s;
  }

  lemma FirstIsLine(w: seq<byte>, capacity: nat)
    requires FirstLine(w, capacity).Line?
    ensures var Line(text, n) := FirstLine(w, capacity);
            IsLine(w[..n], capacity) && text == Chomp(w[..n]) && w == w[..n] + w[n..]
  {
    var n := FirstLine(w, capacity).size;
    FindFrom(w[..n], w[n..], NEWLINE);
    assert w == w[..n] + w[n..];
    Found(w, NEWLINE);
    Found(w[..n], NEWLINE);
  }

  lemma LineReadAs(s: seq<byte>, capacity: nat)
    requires IsLine(s, capacity)
    ensures ReadAs(HeaderLines(capacity), s, match ParseField(Chomp(s))
              case NoMore => Blank(|s|)
              case BadField(error) => Stop(error)
              case Field(name, value) => Item(Field(name, value), |s|))
  {
    forall w
      ensures HeaderLines(capacity)(s + w) == StepOf(s + w, capacity)
      ensures FirstLine(s + w, capacity) == Line(Chomp(s), |s|)
    {
      LineFirst(s, w, capacity);
    }
  }

  lemma LinesAreLocal(capacity: nat)
    ensures Advances(HeaderLines(capacity)) && Local(HeaderLines(capacity))
  {
    var step := HeaderLines(capacity);
    forall w | !step(w).Stop?
      ensures ReadAs(step, w[..step(w).size], step(w))
    {
      FirstIsLine(w, capacity);
      LineReadAs(w[..step(w).size], capacity);
    }
  }

  /** A response of HTTP/1.0 or later that is accepted keeps to `maximum_header_size`, status line
      included, and exactly its status line, field lines and blank line are consumed. */
  lemma ResponseWithinBudget(w: seq<byte>, capacity: nat, limits: Limits)
    returns (first: seq<byte>, lines: seq<seq<byte>>, fields: seq<Field>, blank: seq<byte>)
    requires ResponseFrom(w, capacity, limits).head.Head? && ResponseFrom(w, capacity, limits).version != Http09
    ensures IsLine(first, capacity)
    ensures AllReadAs(HeaderLines(capacity), lines, fields) && ReadAs(HeaderLines(capacity), blank, Blank(|blank|))
    ensures w == first + Concat(lines) + blank + ResponseFrom(w, capacity, limits).head.rest
    ensures ResponseFrom(w, capacity, limits).head.headers == InsertAll(map[], fields)
    ensures |first| + |Concat(lines)| <= limits.maximumHeaderSize
  {
    var n, head := StatusFrom(w, capacity).size, ResponseFrom(w, capacity, limits).head;
    StatusEndsInNewline(w, capacity);
    assert head == HeadersFrom(w[n..], capacity, limits.maximumHeaderSize - n, map[]);
    first := w[..n];
    lines, fields, blank := HeaderBlockWithin(w[n..], capacity, limits.maximumHeaderSize - n, head);
    StatusLineAndBlock(w, n, Concat(lines), blank, head.rest, capacity);
  }

  lemma StatusLineAndBlock(w: seq<byte>, n: nat, lines: seq<byte>, blank: seq<byte>, rest: seq<byte>, capacity: nat)
    requires FirstLine(w, capacity).Line? && n == FirstLine(w, capacity).size
    requires w[n..] == lines + blank + rest
    ensures IsLine(w[..n], capacity) && w == w[..n] + lines + blank + rest
  {
    FirstIsLine(w, capacity);
    Regroup(w[..n], lines, blank, rest);
  }

  lemma HeaderBlockWithin(w: seq<byte>, capacity: nat, limit: nat, head: Head)
    returns (lines: seq<seq<byte>>, fields: seq<Field>, blank: seq<byte>)
    requires head.Head? && head == HeadersFrom(w, capacity, limit, map[])
    ensures AllReadAs(HeaderLines(capacity), lines, fields) && ReadAs(HeaderLines(capacity), blank, Blank(|blank|))
    ensures w == Concat(lines) + blank + head.rest && head.headers == InsertAll(map[], fields)
    ensures |Concat(lines)| <= limit
  {
    LinesAreLocal(capacity);
    lines, fields, blank := OnlyLinesParse(HeaderLines(capacity), w, limit, map[]);
  }
}
