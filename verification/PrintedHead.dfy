/** Heads as one side prints them against heads as the other side parses them. */
module PrintedHead {
  import opened Bytes
  import opened Stream
  import opened Chunked
  import opened Lines
  import opened Headers
  import Utf8

  function PrintField(name: Text, value: Text): Text {
    name + [COLON, SPACE] + value + CRLF
  }

  function PrintFields(headers: HeaderMap, order: seq<Text>): seq<byte>
    requires forall k :: k in order ==> k in headers
  {
    if order == [] then [] else PrintField(order[0], headers[order[0]]) + PrintFields(headers, order[1..])
  }

  /** In HTTP/0.9 the request line has no version. */
  function PrintRequestLine(method_: Text, path: Text, version: Version): Text {
    method_ + [SPACE] + path + (if version == Http09 then [] else [SPACE] + version.Print()) + CRLF
  }

  function PrintHead(method_: Text, path: Text, version: Version, headers: HeaderMap, order: seq<Text>): seq<byte>
    requires forall k :: k in order ==> k in headers
  {
    PrintRequestLine(method_, path, version) + PrintFields(headers, order) + CRLF
  }

  /** `send_request` up to the body; the map is walked in some order of its own. */
  method SendHead(method_: Text, path: Text, version: Version, headers: HeaderMap, order: seq<Text>)
      returns (out: seq<byte>)
    requires forall k :: k in order ==> k in headers
    ensures out == PrintHead(method_, path, version, headers, order)
  {
    out := method_ + [SPACE] + path;
    if version != Http09 {
      out := out + [SPACE] + version.Print();
    }
    out := out + CRLF;
    assert out == PrintRequestLine(method_, path, version);
    var i := 0;
    while i < |order|
      invariant 0 <= i <= |order|
      invariant out + PrintFields(headers, order[i..])
             == PrintRequestLine(method_, path, version) + PrintFields(headers, order)
    {
      ghost var before := out;
      out := out + order[i] + [COLON, SPACE];
      out := out + headers[order[i]];
      out := out + CRLF;
      assert out == before + PrintField(order[i], headers[order[i]]);
      assert order[i..][1..] == order[i + 1..];
      i := i + 1;
    }
    assert order[i..] == [];
    assert out + [] == out;
    out := out + CRLF;
  }

  predicate Ascii(s: Text) {
    forall i :: 0 <= i < |s| ==> s[i] < 0x80
  }

  lemma {:induction false} AsciiIsUtf8(s: Text)
    requires Ascii(s)
    ensures Utf8.Valid(s)
    decreases |s|
  {
    if s != [] {
      assert Utf8.FirstChar(s) == 1;
      AsciiIsUtf8(s[1..]);
    }
  }

  /** A field that can be printed: a token, and a value without leading blanks. */
  datatype Pair = Pair(name: Text, value: Text) {
    predicate Printable() {
      && ToName(name).Some?
      && ToValue(value) == Some(value) && Ascii(value) && (value != [] ==> !IsSpace(value[0]))
    }

    function Print(): Text {
      PrintField(name, value)
    }

    /** What it is parsed into: the name in lower case. */
    function Parsed(): Field
      requires ToName(name).Some?
    {
      Field(ToName(name).value, Some(value))
    }
  }

  ghost predicate AllPrintable(pairs: seq<Pair>, capacity: nat) {
    forall i :: 0 <= i < |pairs| ==> pairs[i].Printable() && |pairs[i].Print()| <= capacity
  }

  /** No blanks, no control characters. */
  predicate Visible(s: Text) {
    forall i :: 0 <= i < |s| ==> 0x20 < s[i] < 0x7f
  }

  predicate NoBreaks(s: Text) {
    forall i :: 0 <= i < |s| ==> s[i] != NEWLINE && s[i] < 0x80
  }

  lemma PrintedLine(text: Text, capacity: nat)
    requires NoBreaks(text) && |text| + 2 <= capacity && (text != [] ==> text[|text| - 1] != RETURN)
    ensures IsLine(text + CRLF, capacity) && Chomp(text + CRLF) == text
  {
    var s := text + [RETURN];
    assert text + CRLF == s + [NEWLINE];
    NotFound(s, NEWLINE);
    FindFrom(s, [NEWLINE], NEWLINE);
    AsciiIsUtf8(text + CRLF);
  }

  lemma NameIsVisible(name: Text)
    requires ToName(name).Some?
    ensures name != [] && Visible(name) && forall i :: 0 <= i < |name| ==> name[i] != COLON
  {}

  lemma VisibleIsTrimmed(s: Text)
    requires Visible(s)
    ensures Trim(s) == s
  {}

  lemma Cut(s: Text, b: byte, t: Text)
    ensures (s + [b] + t)[..|s|] == s && (s + [b] + t)[|s| + 1..] == t
    ensures s + [b] + t == s + ([b] + t)
  {}

  /** The first `b` comes right after a stretch without one. */
  lemma {:induction false} SplitsAt(s: Text, b: byte, t: Text)
    requires forall i :: 0 <= i < |s| ==> s[i] != b
    ensures Find(s + [b] + t, b) == |s|
    ensures SplitOnce(s + [b] + t, b) == (s, Some(t))
  {
    NotFound(s, b);
    FindFrom(s, [b] + t, b);
    Cut(s, b, t);
  }

  lemma DoesNotSplit(s: Text, b: byte)
    requires forall i :: 0 <= i < |s| ==> s[i] != b
    ensures SplitOnce(s, b) == (s, None)
  {
    NotFound(s, b);
    assert s[..|s|] == s;
  }

  lemma ParsesField(name: Text, value: Text)
    requires ToName(name).Some? && (value != [] ==> !IsSpace(value[0]))
    ensures ParseField(name + [COLON, SPACE] + value)
         == if ToValue(value).Some? then Field(ToName(name).value, ToValue(value)) else BadField(InvalidHeaderValue)
  {
    var text := name + [COLON, SPACE] + value;
    var t := [SPACE] + value;
    assert text == name + [COLON] + t;
    NameIsVisible(name);
    SplitsAt(name, COLON, t);
    VisibleIsTrimmed(name);
    Cut(name, COLON, t);
    assert t[1..] == value;
    assert TrimStart(t) == TrimStart(value) == value;
  }

  lemma ParsesPrintedField(p: Pair)
    requires p.Printable()
    ensures ParseField(p.name + [COLON, SPACE] + p.value) == p.Parsed()
  {
    ParsesField(p.name, p.value);
  }

  lemma FieldText(p: Pair, capacity: nat)
    requires p.Printable() && |p.Print()| <= capacity
    ensures var t := p.name + [COLON, SPACE] + p.value;
            p.Print() == t + CRLF && NoBreaks(t) && t[|t| - 1] != RETURN && |t| + 2 <= capacity
  {
    NameIsVisible(p.name);
  }

  lemma PrintedFieldReadAs(p: Pair, capacity: nat)
    requires p.Printable() && |p.Print()| <= capacity
    ensures ReadAs(HeaderLines(capacity), p.Print(), Item(p.Parsed(), |p.Print()|))
  {
    var text := p.name + [COLON, SPACE] + p.value;
    FieldText(p, capacity);
    PrintedLine(text, capacity);
    ParsesPrintedField(p);
    LineReadAs(text + CRLF, capacity);
  }

  lemma BlankReadAs(capacity: nat)
    requires 2 <= capacity
    ensures ReadAs(HeaderLines(capacity), CRLF, Blank(2))
  {
    PrintedLine([], capacity);
    assert [] + CRLF == CRLF;
    LineReadAs(CRLF, capacity);
  }

  function PrintAll(pairs: seq<Pair>): seq<byte> {
    if pairs == [] then [] else pairs[0].Print() + PrintAll(pairs[1..])
  }

  function PrintedLines(pairs: seq<Pair>): (lines: seq<seq<byte>>)
    ensures |lines| == |pairs|
    ensures forall i :: 0 <= i < |pairs| ==> lines[i] == pairs[i].Print()
  {
    seq(|pairs|, i requires 0 <= i < |pairs| => pairs[i].Print())
  }

  function ParsedFields(pairs: seq<Pair>): (fields: seq<Field>)
    requires forall i :: 0 <= i < |pairs| ==> ToName(pairs[i].name).Some?
    ensures |fields| == |pairs|
    ensures forall i :: 0 <= i < |pairs| ==> fields[i] == pairs[i].Parsed()
  {
    seq(|pairs|, i requires 0 <= i < |pairs| => pairs[i].Parsed())
  }

  lemma {:induction false} PrintAllIsConcat(pairs: seq<Pair>)
    ensures PrintAll(pairs) == Concat(PrintedLines(pairs))
    decreases |pairs|
  {
    if pairs != [] {
      PrintAllIsConcat(pairs[1..]);
      assert PrintedLines(pairs)[1..] == PrintedLines(pairs[1..]);
    }
  }

  lemma PrintedLinesReadAs(pairs: seq<Pair>, capacity: nat)
    requires AllPrintable(pairs, capacity)
    ensures AllReadAs(HeaderLines(capacity), PrintedLines(pairs), ParsedFields(pairs))
  {
    forall i | 0 <= i < |pairs|
      ensures ReadAs(HeaderLines(capacity), PrintedLines(pairs)[i],
                     Item(ParsedFields(pairs)[i], |PrintedLines(pairs)[i]|))
    {
      PrintedFieldReadAs(pairs[i], capacity);
    }
  }

  /** A printed block of fields is parsed into their map, with what follows unread, unless the
      fields exceed the budget. */
  lemma {:induction false} BlockRoundTrip(pairs: seq<Pair>, rest: seq<byte>, capacity: nat, limit: nat,
                                          start: HeaderMap)
    requires AllPrintable(pairs, capacity) && 2 <= capacity
    ensures HeadersFrom(PrintAll(pairs) + CRLF + rest, capacity, limit, start)
         == if |PrintAll(pairs)| <= limit then Head(InsertAll(start, ParsedFields(pairs)), rest)
            else NoHead(HeadTooLong)
  {
    PrintedLinesReadAs(pairs, capacity);
    PrintAllIsConcat(pairs);
    BlankReadAs(capacity);
    LinesAreLocal(capacity);
    ParsesLines(HeaderLines(capacity), PrintedLines(pairs), ParsedFields(pairs), CRLF, rest, limit, start);
  }

  // ----- A header map, in the order in which it happens to be walked -----

  function PairsOf(headers: HeaderMap, order: seq<Text>): (pairs: seq<Pair>)
    requires forall k :: k in order ==> k in headers
    ensures |pairs| == |order|
    ensures forall i :: 0 <= i < |order| ==> pairs[i] == Pair(order[i], headers[order[i]])
  {
    seq(|order|, i requires 0 <= i < |order| => Pair(order[i], headers[order[i]]))
  }

  lemma {:induction false} PrintFieldsIsPrintAll(headers: HeaderMap, order: seq<Text>)
    requires forall k :: k in order ==> k in headers
    ensures PrintFields(headers, order) == PrintAll(PairsOf(headers, order))
    decreases |order|
  {
    if order != [] {
      PrintFieldsIsPrintAll(headers, order[1..]);
      assert PairsOf(headers, order)[1..] == PairsOf(headers, order[1..]);
    }
  }

  /** The header map keeps names in lower case. */
  ghost predicate Kept(headers: HeaderMap) {
    forall k :: k in headers ==> ToName(k) == Some(k)
  }

  lemma {:induction false} InsertsInOrder(headers: HeaderMap, order: seq<Text>, start: HeaderMap)
    requires Kept(headers) && forall k :: k in order ==> k in headers
    ensures var all := InsertAll(start, ParsedFields(PairsOf(headers, order)));
            && (forall k :: k in all <==> k in start || k in order)
            && (forall k :: k in all ==> all[k] == if k in order then headers[k] else start[k])
    decreases |order|
  {
    if order != [] {
      var fields := ParsedFields(PairsOf(headers, order));
      var next := start[order[0] := headers[order[0]]];
      assert Insert(start, fields[0]) == next;
      InsertsInOrder(headers, order[1..], next);
      assert InsertAll(start, fields) == InsertAll(next, ParsedFields(PairsOf(headers, order[1..]))) by {
        assert fields[1..] == ParsedFields(PairsOf(headers, order[1..]));
      }
      assert forall k :: k in order <==> k == order[0] || k in order[1..];
    }
  }

  lemma InsertsAllOf(headers: HeaderMap, order: seq<Text>)
    requires Kept(headers) && forall k :: k in order <==> k in headers
    ensures InsertAll(map[], ParsedFields(PairsOf(headers, order))) == headers
  {
    InsertsInOrder(headers, order, map[]);
  }

  lemma ParsesPrintedVersion(version: Version)
    ensures ParseVersion(version.Print()) == Some(version)
    ensures SplitOnce(version.Print(), SPACE) == (version.Print(), None)
  {
    var n, v := version.Number(), version.Print();
    assert v == [0x48, 0x54, 0x54, 0x50, 0x2f, 0x30 + n / 10, 0x2e, 0x30 + n % 10];
    DoesNotSplit(v, SPACE);
  }

  lemma ParsesPrintedRequestLine(path: Text, version: Version)
    requires Visible(path) && version != Http09
    ensures ParseRequestLine(GET + [SPACE] + path + [SPACE] + version.Print()) == Some(version)
  {
    var v := version.Print();
    assert GET + [SPACE] + path + [SPACE] + v == GET + [SPACE] + (path + [SPACE] + v);
    SplitsAt(GET, SPACE, path + [SPACE] + v);
    SplitsAt(path, SPACE, v);
    ParsesPrintedVersion(version);
  }

  lemma RequestText(path: Text, capacity: nat)
    requires Visible(path) && |PrintRequestLine(GET, path, Http11)| <= capacity
    ensures var t := GET + [SPACE] + path + [SPACE] + Http11.Print();
            && PrintRequestLine(GET, path, Http11) == t + CRLF
            && NoBreaks(t) && t[|t| - 1] != RETURN && |t| + 2 <= capacity
  {}

  lemma {:induction false} RequestLineFirst(path: Text, later: seq<byte>, capacity: nat)
    requires Visible(path) && |PrintRequestLine(GET, path, Http11)| <= capacity
    ensures var line := PrintRequestLine(GET, path, Http11);
            && FirstLine(line + later, capacity) == Line(GET + [SPACE] + path + [SPACE] + Http11.Print(), |line|)
            && (line + later)[|line|..] == later && Find(line + later, NEWLINE) == |line| - 1
  {
    var line, text := PrintRequestLine(GET, path, Http11), GET + [SPACE] + path + [SPACE] + Http11.Print();
    RequestText(path, capacity);
    PrintedLine(text, capacity);
    FindFrom(line, later, NEWLINE);
    LineFirst(line, later, capacity);
  }

  lemma RequestLineRead(path: Text, later: seq<byte>, capacity: nat)
    requires Visible(path) && |PrintRequestLine(GET, path, Http11)| <= capacity
    ensures var line := PrintRequestLine(GET, path, Http11);
            RequestFrom(line + later, capacity)
            == if |line| <= MAXIMUM_HEADER_SIZE then HeadersFrom(later, capacity, MAXIMUM_HEADER_SIZE - |line|, map[])
               else NoHead(HeadTooLong)
  {
    RequestLineFirst(path, later, capacity);
    ParsesPrintedRequestLine(path, Http11);
  }

  /** What the client sends for a GET request is what the server gets, and the server reads
      nothing beyond it; it is refused as too long exactly when all but the blank line is longer
      than the limit. */
  lemma RequestRoundTrip(path: Text, headers: HeaderMap, order: seq<Text>, rest: seq<byte>, capacity: nat)
    requires Visible(path) && |PrintRequestLine(GET, path, Http11)| <= capacity
    requires Kept(headers) && forall k :: k in order <==> k in headers
    requires AllPrintable(PairsOf(headers, order), capacity)
    ensures var head := PrintHead(GET, path, Http11, headers, order);
            RequestFrom(head + rest, capacity)
            == if |head| - 2 <= 131072 then Head(headers, rest) else NoHead(HeadTooLong)
  {
    var line, fields := PrintRequestLine(GET, path, Http11), PrintFields(headers, order);
    var later := fields + CRLF + rest;
    Regroup(line, fields, CRLF, rest);
    assert PrintHead(GET, path, Http11, headers, order) + rest == line + later;
    RequestLineRead(path, later, capacity);
    if |line| <= MAXIMUM_HEADER_SIZE {
      PrintFieldsIsPrintAll(headers, order);
      BlockRoundTrip(PairsOf(headers, order), rest, capacity, MAXIMUM_HEADER_SIZE - |line|, map[]);
      InsertsAllOf(headers, order);
    }
  }

  // ----- The request as the server reads it, for any network -----

  /** Whatever the network, a request in reach, as when it comes with the first fill or with the
      first two, arrives as it was sent. */
  lemma RequestArrives(path: Text, headers: HeaderMap, order: seq<Text>, rest: seq<byte>, s: Source)
    requires Visible(path) && |PrintRequestLine(GET, path, Http11)| <= s.capacity
    requires Kept(headers) && forall k :: k in order <==> k in headers
    requires AllPrintable(PairsOf(headers, order), s.capacity)
    requires s.pending == PrintHead(GET, path, Http11, headers, order) + rest
    requires |PrintHead(GET, path, Http11, headers, order)| <= Reach(s)
    ensures RequestSeen(s) == if |PrintHead(GET, path, Http11, headers, order)| - 2 <= 131072
                              then Head(headers, rest) else NoHead(HeadTooLong)
  {
    var line, pairs := PrintRequestLine(GET, path, Http11), PairsOf(headers, order);
    PrintFieldsIsPrintAll(headers, order);
    Regroup(line, PrintAll(pairs), CRLF, rest);
    RequestLineFirst(path, PrintAll(pairs) + CRLF + rest, s.capacity);
    BlockRoundTrip(pairs, rest, s.capacity, |PrintAll(pairs)|, map[]);
    RequestInReach(s, |PrintAll(pairs)|);
    RequestSeenInTime(s);
    RequestRoundTrip(path, headers, order, rest, s.capacity);
  }

  /** The client's printer against the server's parser, which starts on an empty buffer: in reach,
      the request arrives as it was sent, and nothing after it is read. */
  method SendAndHandle(path: Text, headers: HeaderMap, order: seq<Text>, rest: seq<byte>, capacity: nat,
                       network: Network)
      returns (r: Result, left: seq<byte>)
    requires Visible(path) && 0 < |PrintRequestLine(GET, path, Http11)| <= capacity
    requires Kept(headers) && forall k :: k in order <==> k in headers
    requires AllPrintable(PairsOf(headers, order), capacity)
    ensures var head := PrintHead(GET, path, Http11, headers, order);
            var s := Source(capacity, network, head + rest, 0);
            && Matches(r, left, RequestSeen(s))
            && (|head| <= Reach(s) ==>
                  if |head| - 2 <= 131072 then r == Done(headers) && left == rest
                  else r == Failed(HeadTooLong))
  {
    var head := SendHead(GET, path, Http11, headers, order);
    var reader := new BufReader(capacity, head + rest, network);
    ghost var s := reader.Ahead();
    r := HandleRequest(reader);
    left := reader.buffer + reader.wire;
    if |head| <= Reach(s) {
      RequestArrives(path, headers, order, rest, s);
    }
  }

  /** In small pieces, any request can fail to arrive. */
  lemma RequestCanFail(path: Text, headers: HeaderMap, order: seq<Text>, rest: seq<byte>, capacity: nat)
    requires Visible(path) && |PrintRequestLine(GET, path, Http11)| <= capacity
    requires forall k :: k in order ==> k in headers
    ensures var w := PrintHead(GET, path, Http11, headers, order) + rest;
            RequestSeen(Source(capacity, Trickle(|w|), w, 0)) == NoHead(LineFailed(Panicked))
  {
    var line, later := PrintRequestLine(GET, path, Http11), PrintFields(headers, order) + CRLF + rest;
    var w := PrintHead(GET, path, Http11, headers, order) + rest;
    assert w == line + later;
    RequestLineFirst(path, later, capacity);
    EveryLineCanFail(w, capacity);
    PanicsAtOnce(Source(capacity, Trickle(|w|), w, 0));
  }

  lemma {:induction false} PanicsAtOnce(s: Source)
    requires Scan(s, 0).result == OutOfRange
    ensures RequestSeen(s) == NoHead(LineFailed(Panicked))
  {}

  // ----- Responses -----

  function PrintStatus(code: nat): Text
    requires 100 <= code < 1000
  {
    [0x30 + code / 100, 0x30 + code / 10 % 10, 0x30 + code % 10]
  }

  lemma ParsesPrintedStatus(code: nat)
    requires 100 <= code < 1000
    ensures ParseStatus(PrintStatus(code)) == Some(code)
    ensures forall i :: 0 <= i < 3 ==> PrintStatus(code)[i] != SPACE
  {
    var s := PrintStatus(code);
    DecimalDigits(code);
    assert Digit(s[0]) == code / 100 && Digit(s[1]) == code / 10 % 10 && Digit(s[2]) == code % 10;
  }

  lemma DecimalDigits(n: nat)
    requires 100 <= n < 1000
    ensures 1 <= n / 100 <= 9 && n == n / 100 * 100 + n / 10 % 10 * 10 + n % 10
  {}

  /** As `handle_upgrade` prints it: version, status, reason. */
  function PrintStatusLine(version: Version, code: nat, reason: Text): Text
    requires 100 <= code < 1000
  {
    version.Print() + [SPACE] + PrintStatus(code) + [SPACE] + reason + CRLF
  }

  lemma ParsesPrintedStatusLine(version: Version, code: nat, reason: Text)
    requires 100 <= code < 1000
    ensures ParseStatusLine(version.Print() + [SPACE] + PrintStatus(code) + [SPACE] + reason) == Some((version, code))
  {
    var v, t := version.Print(), PrintStatus(code);
    assert v + [SPACE] + t + [SPACE] + reason == v + [SPACE] + (t + [SPACE] + reason);
    ParsesPrintedVersion(version);
    SplitsAt(v, SPACE, t + [SPACE] + reason);
    ParsesPrintedStatus(code);
    SplitsAt(t, SPACE, reason);
  }

  lemma StatusLineRead(version: Version, code: nat, reason: Text, later: seq<byte>, capacity: nat)
    requires 100 <= code < 1000 && NoBreaks(reason) && RETURN !in reason
    requires |PrintStatusLine(version, code, reason)| <= capacity
    ensures var line := PrintStatusLine(version, code, reason);
            StatusFrom(line + later, capacity) == Status(version, code, |line|)
  {
    var line, text := PrintStatusLine(version, code, reason),
                      version.Print() + [SPACE] + PrintStatus(code) + [SPACE] + reason;
    assert line == text + CRLF;
    assert (line + later)[..|HTTP|] == HTTP;
    PrintedLine(text, capacity);
    LineFirst(line, later, capacity);
    ParsesPrintedStatusLine(version, code, reason);
  }

  /** A response head that any server prints is what the client gets, names in lower case, with
      everything after the blank line unread; it is refused as too long exactly when all but the
      blank line is longer than the limit. */
  lemma {:induction false} ResponseRoundTrip(version: Version, code: nat, reason: Text, pairs: seq<Pair>,
                                             rest: seq<byte>, capacity: nat, limits: Limits)
    requires 100 <= code < 1000 && NoBreaks(reason) && RETURN !in reason
    requires |PrintStatusLine(version, code, reason)| <= capacity && AllPrintable(pairs, capacity)
    requires limits.minVersion.Number() <= version.Number() <= limits.maxVersion.Number() && version != Http09
    ensures var line := PrintStatusLine(version, code, reason);
            ResponseFrom(line + PrintAll(pairs) + CRLF + rest, capacity, limits)
            == Response(code, version,
                        if |line| + |PrintAll(pairs)| <= limits.maximumHeaderSize
                        then Head(InsertAll(map[], ParsedFields(pairs)), rest) else NoHead(HeadTooLong))
  {
    var line, fields := PrintStatusLine(version, code, reason), PrintAll(pairs);
    Regroup(line, fields, CRLF, rest);
    StatusLineRead(version, code, reason, fields + CRLF + rest, capacity);
    ResponseOf(line + (fields + CRLF + rest), capacity, limits, version, code, |line|);
    assert (line + (fields + CRLF + rest))[|line|..] == fields + CRLF + rest;
    if |line| <= limits.maximumHeaderSize {
      BlockRoundTrip(pairs, rest, capacity, limits.maximumHeaderSize - |line|, map[]);
    }
  }

  lemma ResponseOf(w: seq<byte>, capacity: nat, limits: Limits, version: Version, code: nat, size: nat)
    requires StatusFrom(w, capacity) == Status(version, code, size)
    ensures size <= |w|
    ensures ResponseFrom(w, capacity, limits)
         == Response(code, version, HeadFrom(AfterStatus(version, limits, size), w[size..], capacity))
  {}

  /** Whatever the network, a response that is in reach once its first five bytes are there
      arrives as it was sent. */
  lemma {:induction false} ResponseArrives(version: Version, code: nat, reason: Text, pairs: seq<Pair>,
                                           rest: seq<byte>, s: Source, limits: Limits)
    requires 100 <= code < 1000 && NoBreaks(reason) && RETURN !in reason
    requires |PrintStatusLine(version, code, reason)| <= s.capacity && AllPrintable(pairs, s.capacity)
    requires limits.minVersion.Number() <= version.Number() <= limits.maxVersion.Number() && version != Http09
    requires s.pending == PrintStatusLine(version, code, reason) + PrintAll(pairs) + CRLF + rest
    requires |s.pending| - |rest| <= Reach(FilledTo(s, |HTTP|))
    ensures var size := |PrintStatusLine(version, code, reason)| + |PrintAll(pairs)|;
            ResponseSeen(s, limits)
            == Response(code, version, if size <= limits.maximumHeaderSize
                                       then Head(InsertAll(map[], ParsedFields(pairs)), rest) else NoHead(HeadTooLong))
  {
    var line, fields := PrintStatusLine(version, code, reason), PrintAll(pairs);
    Regroup(line, fields, CRLF, rest);
    StatusLineRead(version, code, reason, fields + CRLF + rest, s.capacity);
    assert s.pending[|line|..] == fields + CRLF + rest;
    BlockRoundTrip(pairs, rest, s.capacity, |fields|, map[]);
    ResponseInReach(s, limits, |fields|);
    ResponseSeenInTime(s, limits);
    ResponseRoundTrip(version, code, reason, pairs, rest, s.capacity, limits);
  }
}
