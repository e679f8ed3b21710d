/** The text of heads, byte by byte: what a line is, what a field, a request line and a status line
    are, and which of them are refused. Blanks, colons and line ends stand here as numbers. */
module HeadText {
  import opened Bytes
  import opened Stream
  import opened Chunked
  import opened Lines
  import opened Headers
  import opened PrintedHead
  import Utf8

  // ----- Lines -----

  lemma {:induction false} AsciiAfter(s: seq<byte>, b: byte)
    requires b < 128
    ensures Utf8.Valid(s + [b]) <==> Utf8.Valid(s)
    decreases |s|
  {
    if s == [] {
      assert Utf8.FirstChar([b]) == 1;
    } else {
      var k := Utf8.FirstChar(s);
      assert Utf8.FirstChar(s + [b]) == k;
      if k > 0 {
        assert (s + [b])[k..] == s[k..] + [b];
        AsciiAfter(s[k..], b);
      }
    }
  }

  /** A line is what comes before the first 10, or before a 13 that stands right before it. */
  lemma {:induction false} FirstLineIs(text: Text, end: Text, later: seq<byte>, w: seq<byte>, capacity: nat)
    requires w == text + end + later && 10 !in text && |text| + |end| <= capacity
    requires end == [13, 10] || (end == [10] && (text != [] ==> text[|text| - 1] != 13))
    ensures FirstLine(w, capacity)
         == if Utf8.Valid(text) then Line(text, |text| + |end|) else NoLine(InvalidUtf8)
  {
    if end == [10] {
      ChompsNewline(text);
      LineWith(text, later, w, capacity);
    } else {
      ChompsReturn(text);
      LineWith(text + [13], later, w, capacity);
    }
  }

  lemma ChompsNewline(text: Text)
    requires text != [] ==> text[|text| - 1] != 13
    ensures Chomp(text + [10]) == text
  {
    assert (text + [10])[..|text|] == text;
  }

  lemma {:induction false} ChompsReturn(text: Text)
    ensures text + [13, 10] == text + [13] + [10] && Chomp(text + [13] + [10]) == text
    ensures Utf8.Valid(text + [13]) == Utf8.Valid(text)
  {
    var body := text + [13];
    assert (body + [10])[..|body|] == body && body[..|text|] == text;
    AsciiAfter(text, 13);
  }

  lemma {:induction false} LineWith(body: Text, later: seq<byte>, w: seq<byte>, capacity: nat)
    requires w == body + [10] + later && 10 !in body && |body| + 1 <= capacity
    ensures FirstLine(w, capacity)
         == if Utf8.Valid(body) then Line(Chomp(body + [10]), |body| + 1) else NoLine(InvalidUtf8)
  {
    AsciiAfter(body, 10);
    NewlineAt(body, later, w);
    assert LineFrom(w, At(|body| + 1)) == FirstLine(w, capacity);
  }

  lemma {:induction false} NewlineAt(body: Text, later: seq<byte>, w: seq<byte>)
    requires w == body + [10] + later && 10 !in body
    ensures Find(w, 10) == |body| && w[..|body| + 1] == body + [10]
  {
    assert w == body + ([10] + later);
    NotFound(body, 10);
    FindFrom(body, [10] + later, 10);
  }

  /** Without a 10 in what the buffer can hold there is no line: too long, or cut off. */
  lemma NoFirstLine(w: seq<byte>, capacity: nat)
    requires 10 !in w[..Min(capacity, |w|)]
    ensures FirstLine(w, capacity) == NoLine(if capacity <= |w| then HeadersTooLong else UnexpectedEof)
  {
    var front := w[..Min(capacity, |w|)];
    NotFound(front, 10);
    FindFrom(front, w[|front|..], 10);
    assert w == front + w[|front|..];
  }

  // ----- Fields -----

  predicate Blanks(s: Text) {
    forall i :: 0 <= i < |s| ==> s[i] in {9, 10, 11, 12, 13, 32}
  }

  /** Neither the first nor the last byte is a blank. */
  predicate Trimmed(s: Text) {
    s != [] ==> s[0] !in {9, 10, 11, 12, 13, 32} && s[|s| - 1] !in {9, 10, 11, 12, 13, 32}
  }

  lemma {:induction false} TrimsStart(p: Text, t: Text)
    requires Blanks(p) && (t != [] ==> t[0] !in {9, 10, 11, 12, 13, 32})
    ensures TrimStart(p + t) == t
    decreases |p|
  {
    if p == [] {
      assert p + t == t;
    } else {
      assert (p + t)[1..] == p[1..] + t;
      TrimsStart(p[1..], t);
    }
  }

  lemma {:induction false} TrimsEnd(t: Text, q: Text)
    requires Blanks(q) && (t != [] ==> t[|t| - 1] !in {9, 10, 11, 12, 13, 32})
    ensures TrimEnd(t + q) == t
    decreases |q|
  {
    if q == [] {
      assert t + q == t;
    } else {
      var n := |q| - 1;
      assert (t + q)[..|t + q| - 1] == t + q[..n];
      TrimsEnd(t, q[..n]);
    }
  }

  lemma Trims(p: Text, n: Text, q: Text)
    requires Blanks(p) && Blanks(q) && Trimmed(n)
    ensures Trim(p + n + q) == n
  {
    if n == [] {
      assert p + n + q == (p + q) + [];
      TrimsStart(p + q, []);
    } else {
      assert p + n + q == p + (n + q);
      TrimsStart(p, n + q);
      TrimsEnd(n, q);
    }
  }

  /** The characters of a token: digits, letters and `!#$%&'*+-.^_` with the grave accent, `|~`. */
  const SIGNS: Text := [33, 35, 36, 37, 38, 39, 42, 43, 45, 46, 94, 95, 96, 124, 126]

  predicate IsToken(s: Text) {
    s != [] && forall i :: 0 <= i < |s| ==> 48 <= s[i] <= 57 || 65 <= s[i] <= 90 || 97 <= s[i] <= 122 || s[i] in SIGNS
  }

  predicate LowerOf(t: Text, s: Text) {
    |t| == |s| && forall i :: 0 <= i < |s| ==> t[i] == if 65 <= s[i] <= 90 then s[i] + 32 else s[i]
  }

  /** No control characters but the tab. */
  predicate IsValue(s: Text) {
    forall i :: 0 <= i < |s| ==> s[i] == 9 || (32 <= s[i] && s[i] != 127)
  }

  lemma NamesAre(s: Text)
    ensures ToName(s).Some? <==> IsToken(s)
    ensures ToName(s).Some? ==> LowerOf(ToName(s).value, s)
  {
    forall i | 0 <= i < |s|
      ensures TokenChar(s[i]) <==> 48 <= s[i] <= 57 || 65 <= s[i] <= 90 || 97 <= s[i] <= 122 || s[i] in SIGNS
    {
      SignsAre(s[i]);
    }
  }

  lemma SignsAre(b: byte)
    ensures TokenChar(b) <==> 48 <= b <= 57 || 65 <= b <= 90 || 97 <= b <= 122 || b in SIGNS
  {}

  lemma ValuesAre(s: Text)
    ensures ToValue(s) == if IsValue(s) then Some(s) else None
  {}

  /** A field: a name between blanks, a colon, blanks, and the rest is the value. */
  lemma ParsesAnyField(p: Text, n: Text, q: Text, r: Text, v: Text)
    requires Blanks(p) && Blanks(q) && Blanks(r) && Trimmed(n) && 58 !in n
    requires v != [] ==> v[0] !in {9, 10, 11, 12, 13, 32}
    ensures var f := ParseField(p + n + q + [58] + (r + v));
            if !IsToken(n) then f == BadField(InvalidHeaderName)
            else if !IsValue(v) then f == BadField(InvalidHeaderValue)
            else f.Field? && LowerOf(f.name, n) && f.value == Some(v)
  {
    var a := p + n + q;
    SplitsAt(a, 58, r + v);
    Cut(a, 58, r + v);
    Trims(p, n, q);
    TrimsStart(r, v);
    NamesAre(n);
    ValuesAre(v);
  }

  /** Without a colon, all of the line is the name and there is no value. */
  lemma ParsesBareName(p: Text, n: Text, q: Text)
    requires Blanks(p) && Blanks(q) && Trimmed(n) && 58 !in n && p + n + q != []
    ensures var f := ParseField(p + n + q);
            if !IsToken(n) then f == BadField(InvalidHeaderName)
            else f.Field? && LowerOf(f.name, n) && f.value == None
  {
    var a := p + n + q;
    NotFound(a, 58);
    assert a[..|a|] == a;
    Trims(p, n, q);
    NamesAre(n);
  }

  lemma ParsesNothing()
    ensures ParseField([]) == NoMore
  {}

  /** Of several fields of one name the last one stands; without a value it stands for nothing. */
  lemma {:induction false} LastStands(start: HeaderMap, fields: seq<Field>, i: nat)
    requires forall j :: 0 <= j < |fields| ==> fields[j].Field?
    requires i < |fields| && forall j :: i < j < |fields| ==> fields[j].name != fields[i].name
    ensures var all, f := InsertAll(start, fields), fields[i];
            f.name in all && all[f.name] == if f.value.Some? then f.value.value else []
    decreases |fields|
  {
    var others := fields[1..];
    assert forall j :: 0 <= j < |others| ==> others[j] == fields[j + 1];
    if i > 0 {
      LastStands(Insert(start, fields[0]), others, i - 1);
    } else {
      Untouched(Insert(start, fields[0]), others, fields[0].name);
    }
  }

  /** A name that no field has is left alone. */
  lemma {:induction false} Untouched(start: HeaderMap, fields: seq<Field>, name: Text)
    requires forall j :: 0 <= j < |fields| ==> fields[j].Field? && fields[j].name != name
    ensures var all := InsertAll(start, fields);
            (name in all <==> name in start) && (name in start ==> all[name] == start[name])
    decreases |fields|
  {
    if fields != [] {
      var others := fields[1..];
      assert forall j :: 0 <= j < |others| ==> others[j] == fields[j + 1];
      Untouched(Insert(start, fields[0]), others, name);
    }
  }

  // ----- Versions and status codes -----

  /** The last three bytes of a version, as in "HTTP/1.1". */
  function Digits(version: Version): Text {
    match version
    case Http09 => [48, 46, 57]
    case Http10 => [49, 46, 48]
    case Http11 => [49, 46, 49]
    case Http20 => [50, 46, 48]
    case Http30 => [51, 46, 48]
  }

  lemma PrintsVersion(version: Version)
    ensures version.Print() == [72, 84, 84, 80, 47] + Digits(version)
  {}

  /** Of the first five bytes nothing is asked. */
  lemma VersionIff(s: Text, version: Version)
    ensures ParseVersion(s) == Some(version) <==> |s| == 8 && s[5..] == Digits(version)
  {
    if |s| == 8 {
      assert s[5..] == [s[5], s[6], s[7]];
      if IsDigit(s[5]) && IsDigit(s[7]) {
        NumberIff(s[5], s[7], version);
      }
    }
  }

  lemma NumberIff(a: byte, b: byte, version: Version)
    requires IsDigit(a) && IsDigit(b)
    ensures Version.From(Digit(a) * 10 + Digit(b)) == Some(version)
       <==> a == Digits(version)[0] && b == Digits(version)[2]
  {}

  /** Versions in their order. */
  function Rank(version: Version): nat {
    match version
    case Http09 => 0
    case Http10 => 1
    case Http11 => 2
    case Http20 => 3
    case Http30 => 4
  }

  predicate InRange(version: Version, limits: Limits) {
    Rank(limits.minVersion) <= Rank(version) <= Rank(limits.maxVersion)
  }

  lemma InOrder(v: Version, w: Version)
    ensures Rank(v) <= Rank(w) <==> v.Number() <= w.Number()
  {}

  /** A status code: three digits, the first not a zero. */
  lemma StatusIff(s: Text, code: nat)
    ensures ParseStatus(s) == Some(code)
       <==> && |s| == 3 && 49 <= s[0] <= 57 && 48 <= s[1] <= 57 && 48 <= s[2] <= 57
            && code == Decimal(s[0], s[1], s[2])
  {}

  function Decimal(a: int, b: int, c: int): int {
    (a - 48) * 100 + (b - 48) * 10 + (c - 48)
  }

  // ----- First lines -----

  /** What stands at the end of a part of a line: nothing, or a blank and then anything. */
  predicate Ends(tail: Text) {
    tail == [] || tail[0] == 32
  }

  lemma PartBefore(s: Text, tail: Text)
    requires 32 !in s && Ends(tail)
    ensures SplitOnce(s + tail, 32) == (s, if tail == [] then None else Some(tail[1..]))
  {
    if tail == [] {
      assert s + tail == s;
      DoesNotSplit(s, 32);
    } else {
      assert s + tail == s + [32] + tail[1..];
      SplitsAt(s, 32, tail[1..]);
    }
  }

  lemma Part(s: Text) returns (part: Text, tail: Text, later: Option<Text>)
    ensures s == part + tail && 32 !in part && Ends(tail)
    ensures SplitOnce(s, 32) == (part, later)
    ensures tail == if later.Some? then [32] + later.value else []
  {
    var i := Find(s, 32);
    Found(s, 32);
    CutBefore(s, i);
    part, tail := s[..i], s[i..];
    later := if i < |s| then Some(s[i + 1..]) else None;
  }

  lemma CutBefore(s: Text, i: nat)
    requires i <= |s|
    ensures s == s[..i] + s[i..] && (i < |s| ==> s[i..] == [s[i]] + s[i + 1..])
  {}

  /** A request line: GET, an address, a version, and whatever follows that. */
  ghost predicate IsRequestLine(text: Text, url: Text, version: Text, tail: Text) {
    text == [71, 69, 84, 32] + url + [32] + version + tail && 32 !in url && 32 !in version && Ends(tail)
  }

  lemma ParsesSuchLine(text: Text, url: Text, version: Text, tail: Text)
    requires IsRequestLine(text, url, version, tail)
    ensures ParseRequestLine(text) == ParseVersion(version)
  {
    var later := url + [32] + (version + tail);
    assert text == [71, 69, 84] + [32] + later;
    SplitsAt([71, 69, 84], 32, later);
    SplitsAt(url, 32, version + tail);
    PartBefore(version, tail);
  }

  lemma OnlySuchLines(text: Text) returns (url: Text, version: Text, tail: Text)
    requires ParseRequestLine(text).Some?
    ensures IsRequestLine(text, url, version, tail) && ParseVersion(version) == ParseRequestLine(text)
  {
    var method_, afterMethod, later := Part(text);
    GetIs(text);
    url, version, tail := TwoParts(later.value);
    JoinedGet(later.value, url, version, tail);
  }

  lemma GetIs(text: Text)
    requires ParseRequestLine(text).Some?
    ensures var (method_, later) := SplitOnce(text, 32);
            && method_ == [71, 69, 84] && later.Some? && SplitOnce(later.value, 32).1.Some?
            && ParseRequestLine(text) == ParseVersion(SplitOnce(SplitOnce(later.value, 32).1.value, 32).0)
  {}

  lemma TwoParts(s: Text) returns (first: Text, second: Text, tail: Text)
    requires SplitOnce(s, 32).1.Some?
    ensures s == first + [32] + second + tail && 32 !in first && 32 !in second && Ends(tail)
    ensures first == SplitOnce(s, 32).0 && SplitOnce(SplitOnce(s, 32).1.value, 32).0 == second
  {
    var t, later, last;
    first, t, later := Part(s);
    second, tail, last := Part(later.value);
    Glued(s, first, t, later.value, second, tail);
  }

  lemma Glued(s: Text, first: Text, t: Text, others: Text, second: Text, tail: Text)
    requires s == first + t && t == [32] + others && others == second + tail
    ensures s == first + [32] + second + tail
  {}

  lemma JoinedGet(x: Text, b: Text, c: Text, d: Text)
    requires x == b + [32] + c + d
    ensures [71, 69, 84] + ([32] + x) == [71, 69, 84, 32] + b + [32] + c + d
  {
    assert [71, 69, 84] + ([32] + x) == [71, 69, 84, 32] + x;
  }

  /** A status line: a version, a code, and whatever follows that. */
  ghost predicate IsStatusLine(text: Text, version: Text, code: Text, tail: Text) {
    text == version + [32] + code + tail && 32 !in version && 32 !in code && Ends(tail)
  }

  lemma ParsesSuchStatus(text: Text, version: Text, code: Text, tail: Text)
    requires IsStatusLine(text, version, code, tail)
    ensures ParseStatusLine(text)
         == if ParseVersion(version).Some? && ParseStatus(code).Some?
            then Some((ParseVersion(version).value, ParseStatus(code).value)) else None
  {
    assert text == version + [32] + (code + tail);
    SplitsAt(version, 32, code + tail);
    PartBefore(code, tail);
  }

  lemma OnlySuchStatus(text: Text) returns (version: Text, code: Text, tail: Text)
    requires ParseStatusLine(text).Some?
    ensures IsStatusLine(text, version, code, tail)
    ensures ParseVersion(version).Some? && ParseStatus(code).Some?
    ensures ParseStatusLine(text).value == (ParseVersion(version).value, ParseStatus(code).value)
  {
    version, code, tail := TwoParts(text);
  }

  // ----- The header block, line by line -----

  /** For every network: a line that fails ends the block with its error, a blank line ends it well, and
      any other is a field that is charged to the budget and put into the map. */
  lemma BlockByLines(s: Source, limit: nat, headers: HeaderMap, line: LineResult, whole: Head) returns (seen: Seen)
    requires line == LineSeen(s) && HeadComesTo(s, limit, headers, whole)
    ensures line.NoLine? ==> seen.step == Stop(LineFailed(line.error))
    ensures line.Line? ==>
              var f := ParseField(line.text);
              if line.text == [] then seen == Seen(Blank(line.size), Past(s, line.size))
              else if f.BadField? then seen.step == Stop(f.error)
              else seen == Seen(Item(f, line.size), Past(s, line.size))
    ensures match seen.step
            case Stop(error) => whole == NoHead(error)
            case Blank(_) => whole == Head(headers, seen.next.pending)
            case Item(field, size) =>
              if limit < size then whole == NoHead(HeadTooLong)
              else HeadComesTo(seen.next, limit - size, Insert(headers, field), whole)
  {
    seen := ScanLine(s);
    HeadGoesOn(s, limit, headers, whole, seen);
    LineStep(s);
  }

  lemma LineStep(s: Source)
    ensures var line, Seen(step, next) := LineSeen(s), ScanLine(s);
            if line.NoLine? then step == Stop(LineFailed(line.error))
            else
              var f := ParseField(line.text);
              if line.text == [] then step == Blank(line.size) && next == Past(s, line.size)
              else if f.BadField? then step == Stop(f.error)
              else step == Item(f, line.size) && next == Past(s, line.size)
  {}

  // ----- Which requests are let in -----

  /** The header block never fails by the version, nor by the first line. */
  lemma {:induction false} BlockErrors(s: Source, limit: nat, headers: HeaderMap)
    ensures HeadSeen(s, limit, headers).NoHead? ==>
              HeadSeen(s, limit, headers).error !in {UnexpectedVersion, InvalidStatusLine}
    decreases |s.pending|
  {
    HeadSeenStep(s, limit, headers);
    LineErrors(s);
    var Seen(step, next) := ScanLine(s);
    if step.Item? && step.size <= limit {
      BlockErrors(next, limit - step.size, Insert(headers, step.field));
    }
  }

  lemma LineErrors(s: Source)
    ensures ScanLine(s).step.Stop? ==> ScanLine(s).step.error !in {UnexpectedVersion, InvalidStatusLine}
  {}

  /** For every network, by the line that was scanned: which requests are refused for it. */
  lemma RequestLineIff(s: Source)
    requires LineSeen(s).Line?
    ensures var parsed, head := ParseRequestLine(LineSeen(s).text), RequestSeen(s);
            && (head == NoHead(InvalidStatusLine) <==> parsed == None)
            && (head == NoHead(UnexpectedVersion) <==> parsed.Some? && parsed.value != Http11)
            && (parsed == Some(Http11) && LineSeen(s).size > 131072 ==> head == NoHead(HeadTooLong))
  {
    var line := LineSeen(s);
    var next := AfterRequestLine(line);
    if next.Block? {
      BlockErrors(Past(s, line.size), next.limit, map[]);
    }
  }

  lemma NoRequestLine(s: Source)
    requires LineSeen(s).NoLine?
    ensures RequestSeen(s) == NoHead(LineFailed(LineSeen(s).error))
  {}

  /** For every network: a request that is let in has the line GET, address, version, and the version
      ends in 1.1. */
  lemma AcceptedRequest(s: Source) returns (url: Text, version: Text, tail: Text)
    requires RequestSeen(s).Head?
    ensures LineSeen(s).Line? && IsRequestLine(LineSeen(s).text, url, version, tail)
    ensures |version| == 8 && version[5..] == [49, 46, 49]
  {
    var text := LineSeen(s).text;
    url, version, tail := OnlySuchLines(text);
    VersionIff(version, Http11);
  }

  /** A version need not begin with HTTP, and more may follow it. */
  lemma StrangeRequestLine()
    ensures ParseRequestLine([71, 69, 84, 32, 47, 32, 88, 88, 88, 88, 88, 49, 46, 49, 32, 88]) == Some(Http11)
  {
    var version: Text := [88, 88, 88, 88, 88, 49, 46, 49];
    assert version[5..] == [49, 46, 49];
    VersionIff(version, Http11);
    ParsesSuchLine([71, 69, 84, 32, 47, 32, 88, 88, 88, 88, 88, 49, 46, 49, 32, 88], [47], version, [32, 88]);
  }

  // ----- Which responses are let in -----

  /** For every network, by the status that was read: a response is refused for its version if and only
      if that is out of range. */
  lemma ResponseVersionIff(s: Source, limits: Limits)
    requires StatusSeen(s).Status?
    ensures var response, version := ResponseSeen(s, limits), StatusSeen(s).version;
            && response.version == version && response.status == StatusSeen(s).code
            && (response.head == NoHead(UnexpectedVersion) <==> !InRange(version, limits))
  {
    var Status(version, code, size) := StatusSeen(s);
    var next := AfterStatus(version, limits, size);
    InOrder(limits.minVersion, version);
    InOrder(version, limits.maxVersion);
    if next.Block? {
      BlockErrors(StatusPast(s), next.limit, map[]);
    }
  }

  /** For every network: what is let in is in range. */
  lemma AcceptedResponse(s: Source, limits: Limits)
    requires ResponseSeen(s, limits).head.Head?
    ensures StatusSeen(s).Status? && InRange(ResponseSeen(s, limits).version, limits)
  {
    if StatusSeen(s).Status? {
      ResponseVersionIff(s, limits);
    }
  }

  /** Fewer than five bytes are no response; five others than those of HTTP and a slash are the body of
      a response of HTTP/0.9, which the range may not allow. */
  lemma HeadlessResponse(s: Source, limits: Limits)
    ensures |s.pending| < 5 || s.capacity < 5 ==>
              ResponseSeen(s, limits).head == NoHead(LineFailed(UnexpectedEof))
    ensures |s.pending| >= 5 && s.capacity >= 5 && s.pending[..5] != [72, 84, 84, 80, 47] ==>
              ResponseSeen(s, limits)
              == Response(200, Http09, if limits.minVersion == Http09 then Head(map[], s.pending)
                                       else NoHead(UnexpectedVersion))
  {
    var t := FilledTo(s, 5);
    assert |HTTP| == 5 && t.pending == s.pending;
    InOrder(limits.minVersion, Http09);
    InOrder(Http09, limits.maxVersion);
  }

  /** For every network, by the line that was scanned: when there is no status line. */
  lemma {:induction false} NoStatusLine(s: Source, limits: Limits)
    requires |s.pending| >= 5 && s.capacity >= 5 && s.pending[..5] == [72, 84, 84, 80, 47]
    ensures var line, head := LineSeen(FilledTo(s, 5)), ResponseSeen(s, limits).head;
            && (line.NoLine? ==> head == NoHead(LineFailed(line.error)))
            && (line.Line? ==> (head == NoHead(InvalidStatusLine) <==> ParseStatusLine(line.text) == None))
  {
    assert |HTTP| == 5 && FilledTo(s, 5).pending == s.pending;
    if StatusSeen(s).Status? {
      var status := StatusSeen(s);
      var next := AfterStatus(status.version, limits, status.size);
      if next.Block? {
        BlockErrors(StatusPast(s), next.limit, map[]);
      }
    }
  }

  /** For every network: a status line that is taken begins with HTTP, a slash and the version, and
      goes on with the code. */
  lemma TakenStatusLine(s: Source) returns (code: Text, tail: Text)
    requires StatusSeen(s).Status? && StatusSeen(s).size > 0
    ensures var t := FilledTo(s, 5);
            && LineSeen(t).Line? && StatusSeen(s).size == LineSeen(t).size
            && LineSeen(t).text == [72, 84, 84, 80, 47] + Digits(StatusSeen(s).version) + [32] + code + tail
    ensures |code| == 3 && Ends(tail) && StatusSeen(s).code == Decimal(code[0], code[1], code[2])
  {
    var t := FilledTo(s, 5);
    var line, w := LineSeen(t), t.pending;
    assert |HTTP| == 5 && StatusSeen(s) == StatusFor(line);
    var version;
    version, code, tail := OnlySuchStatus(line.text);
    VersionIff(version, StatusSeen(s).version);
    StatusIff(code, StatusSeen(s).code);
    assert line.text <= w[..line.size] && w[..5] == HTTP;
    BeginsWithPrefix(line.text, w, line.size, version, code, tail);
  }

  lemma BeginsWithPrefix(text: Text, w: Text, size: nat, version: Text, code: Text, tail: Text)
    requires size <= |w| && text <= w[..size] && 5 <= |w| && w[..5] == [72, 84, 84, 80, 47]
    requires text == version + [32] + code + tail && |version| == 8
    ensures text == [72, 84, 84, 80, 47] + version[5..] + [32] + code + tail
  {
    assert forall i :: 0 <= i < 5 ==> text[i] == w[..size][i] == w[..5][i];
    assert version[..5] == text[..5] == [72, 84, 84, 80, 47];
    assert version == version[..5] + version[5..];
  }

  /** A printed status line that is read in time: out of range the response is refused; of HTTP/0.9 it
      has no head. */
  lemma PrintedVersionIff(version: Version, code: nat, reason: Text, later: seq<byte>, s: Source, limits: Limits)
    requires 100 <= code < 1000 && NoBreaks(reason) && RETURN !in reason
    requires |PrintStatusLine(version, code, reason)| <= s.capacity
    requires s.pending == PrintStatusLine(version, code, reason) + later && StatusInTime(s)
    ensures !InRange(version, limits) ==>
              ResponseSeen(s, limits) == Response(code, version, NoHead(UnexpectedVersion))
    ensures version == Http09 && InRange(version, limits) ==>
              ResponseSeen(s, limits) == Response(code, Http09, Head(map[], later))
  {
    StatusLineRead(version, code, reason, later, s.capacity);
    StatusSeenInTime(s);
    ResponseVersionIff(s, limits);
    assert s.pending[|PrintStatusLine(version, code, reason)|..] == later;
    InOrder(limits.minVersion, version);
    InOrder(version, limits.maxVersion);
  }

  // ----- What the client prints -----

  /** The parts of `s` between the bytes `b`. */
  function Parts(s: Text, b: byte): seq<Text>
    decreases |s|
  {
    var i := Find(s, b);
    if i == |s| then [s] else [s[..i]] + Parts(s[i + 1..], b)
  }

  lemma {:induction false} FirstPart(a: Text, b: byte, later: Text)
    requires b !in a
    ensures Parts(a + [b] + later, b) == [a] + Parts(later, b)
    ensures Parts(a, b) == [a]
  {
    SplitsAt(a, b, later);
    Cut(a, b, later);
    NotFound(a, b);
  }

  function RequestParts(method_: Text, path: Text, version: Version): seq<Text> {
    if version == Http09 then [method_, path] else [method_, path, [72, 84, 84, 80, 47] + Digits(version)]
  }

  function AfterMethod(path: Text, version: Version): Text {
    if version == Http09 then path else path + [32] + version.Print()
  }

  lemma RequestLineIs(method_: Text, path: Text, version: Version)
    ensures PrintRequestLine(method_, path, version) == method_ + [32] + AfterMethod(path, version) + [13, 10]
  {
    if version == Http09 {
      assert path + [] == path;
      assert method_ + [32] + path + [] == method_ + [32] + path;
    } else {
      assert method_ + [32] + path + ([32] + version.Print()) == method_ + [32] + (path + [32] + version.Print());
    }
  }

  lemma AfterMethodParts(path: Text, version: Version)
    requires 32 !in path
    ensures Parts(AfterMethod(path, version), 32) == RequestParts([], path, version)[1..]
    ensures 10 !in path ==> 10 !in AfterMethod(path, version)
  {
    OnePart(version);
    FirstPart(path, 32, version.Print());
  }

  lemma OnePart(version: Version)
    ensures Parts(version.Print(), 32) == [[72, 84, 84, 80, 47] + Digits(version)] && 10 !in version.Print()
  {
    PrintsVersion(version);
    NotFound(version.Print(), 32);
  }

  /** Split at its blanks, the request line is method, address and, from HTTP/1.0 on, version. */
  lemma RequestLineParts(method_: Text, path: Text, version: Version) returns (line: Text)
    requires 32 !in method_ && 32 !in path
    ensures PrintRequestLine(method_, path, version) == line + [13, 10]
    ensures Parts(line, 32) == RequestParts(method_, path, version)
    ensures 10 !in method_ && 10 !in path ==> 10 !in line
  {
    line := method_ + [32] + AfterMethod(path, version);
    RequestLineIs(method_, path, version);
    AfterMethodParts(path, version);
    FirstPart(method_, 32, AfterMethod(path, version));
  }

  /** The lines of the fields, without their last byte. */
  function FieldLines(headers: HeaderMap, order: seq<Text>): seq<Text>
    requires forall k :: k in order ==> k in headers
  {
    if order == [] then []
    else [order[0] + [58, 32] + headers[order[0]] + [13]] + FieldLines(headers, order[1..])
  }

  lemma {:induction false} FieldParts(headers: HeaderMap, order: seq<Text>, later: Text)
    requires forall k :: k in order ==> k in headers && 10 !in k && 10 !in headers[k]
    ensures Parts(PrintFields(headers, order) + later, 10) == FieldLines(headers, order) + Parts(later, 10)
    decreases |order|
  {
    if order == [] {
      assert [] + later == later;
    } else {
      var line := order[0] + [58, 32] + headers[order[0]] + [13];
      var others := PrintFields(headers, order[1..]) + later;
      FieldParts(headers, order[1..], later);
      OneField(order[0], headers[order[0]], PrintFields(headers, order[1..]), later);
      FirstPart(line, 10, others);
      OneFirst(line, FieldLines(headers, order[1..]), Parts(later, 10));
    }
  }

  lemma OneFirst(line: Text, a: seq<Text>, b: seq<Text>)
    ensures [line] + (a + b) == [line] + a + b
  {}

  lemma OneField(name: Text, value: Text, fields: Text, later: Text)
    requires 10 !in name && 10 !in value
    ensures var line := name + [58, 32] + value + [13];
            PrintField(name, value) + fields + later == line + [10] + (fields + later) && 10 !in line
  {
    assert PrintField(name, value) == name + [58, 32] + value + [13] + [10];
  }

  /** Split at its newlines, what the client sends is the request line, a line for every field in the
      order of the map, and a blank line; split at its blanks, the request line is what was asked for. */
  lemma HeadParts(method_: Text, path: Text, version: Version, headers: HeaderMap, order: seq<Text>)
    returns (line: Text)
    requires 32 !in method_ && 32 !in path && 10 !in method_ && 10 !in path
    requires forall k :: k in order ==> k in headers && 10 !in k && 10 !in headers[k]
    ensures Parts(PrintHead(method_, path, version, headers, order), 10)
         == [line + [13]] + FieldLines(headers, order) + [[13], []]
    ensures Parts(line, 32) == RequestParts(method_, path, version)
  {
    line := RequestLineParts(method_, path, version);
    var later := PrintFields(headers, order) + [13, 10];
    HeadAfterLine(method_, path, version, headers, order, line);
    FirstPart(line + [13], 10, later);
    FieldParts(headers, order, [13, 10]);
    BlankParts();
  }

  lemma {:induction false} HeadAfterLine(method_: Text, path: Text, version: Version, headers: HeaderMap,
                                         order: seq<Text>, line: Text)
    requires forall k :: k in order ==> k in headers
    requires PrintRequestLine(method_, path, version) == line + [13, 10]
    ensures PrintHead(method_, path, version, headers, order)
         == line + [13] + [10] + (PrintFields(headers, order) + [13, 10])
  {
    assert line + [13, 10] == line + [13] + [10];
  }

  lemma BlankParts()
    ensures Parts([13, 10], 10) == [[13], []]
  {
    assert [13, 10] == [13] + [10] + [];
    FirstPart([13], 10, []);
    FirstPart([], 10, []);
  }

  /** What the server makes of a printed request line that it reads in time: only GET is taken, and
      only HTTP/1.1. */
  lemma {:induction false} PrintedRequestIff(method_: Text, path: Text, version: Version, later: seq<byte>, s: Source)
    requires Visible(method_) && Visible(path) && |PrintRequestLine(method_, path, version)| <= s.capacity
    requires s.pending == PrintRequestLine(method_, path, version) + later && InTime(s, 0)
    ensures RequestSeen(s) == NoHead(InvalidStatusLine) <==> method_ != [71, 69, 84] || version == Http09
    ensures RequestSeen(s) == NoHead(UnexpectedVersion)
       <==> method_ == [71, 69, 84] && version != Http09 && version != Http11
  {
    var line := PrintedText(method_, path, version);
    FirstLineIs(line, [13, 10], later, s.pending, s.capacity);
    SeenInTime(s);
    RequestLineIff(s);
  }

  lemma PrintedText(method_: Text, path: Text, version: Version) returns (line: Text)
    requires Visible(method_) && Visible(path)
    ensures PrintRequestLine(method_, path, version) == line + [13, 10] && 10 !in line && Utf8.Valid(line)
    ensures ParseRequestLine(line)
         == if method_ != [71, 69, 84] || version == Http09 then None else Some(version)
  {
    var later := AfterMethod(path, version);
    line := method_ + [32] + later;
    RequestLineIs(method_, path, version);
    VisibleLine(path, version);
    AsciiIsUtf8(line);
    SplitsAt(method_, 32, later);
    if version == Http09 {
      DoesNotSplit(path, 32);
    } else {
      SplitsAt(path, 32, version.Print());
      ParsesPrintedVersion(version);
    }
  }

  lemma VisibleLine(path: Text, version: Version)
    requires Visible(path)
    ensures forall i :: 0 <= i < |AfterMethod(path, version)| ==> 32 <= AfterMethod(path, version)[i] < 127
  {
    PrintsVersion(version);
  }
}
