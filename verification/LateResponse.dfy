/** What becomes of a response whose lines are scanned too late. */
module LateResponse {
  import opened Bytes
  import opened Stream
  import opened Chunked
  import opened Lines
  import opened Headers
  import opened PrintedHead
  import opened LateLines

  function StatusText(version: Version, code: nat, reason: Text): Text
    requires 100 <= code < 1000
  {
    version.Print() + [SPACE] + PrintStatus(code) + [SPACE] + reason
  }

  lemma StatusLineText(version: Version, code: nat, reason: Text, capacity: nat)
    requires 100 <= code < 1000 && NoBreaks(reason) && RETURN !in reason
    requires |PrintStatusLine(version, code, reason)| <= capacity
    ensures var t := StatusText(version, code, reason);
            && PrintStatusLine(version, code, reason) == t + CRLF && NoBreaks(t) && t[|t| - 1] != RETURN
            && |HTTP| + 8 <= |t| && t[..|HTTP|] == HTTP
  {
    ParsesPrintedStatus(code);
  }

  /** The status line at the start of the stream, before it is scanned. */
  lemma {:induction false} StatusLineAhead(version: Version, code: nat, reason: Text, later: seq<byte>, s: Source)
    requires 100 <= code < 1000 && NoBreaks(reason) && RETURN !in reason
    requires |PrintStatusLine(version, code, reason)| <= s.capacity
    requires s.pending == PrintStatusLine(version, code, reason) + later
    ensures var line, t := PrintStatusLine(version, code, reason), FilledTo(s, |HTTP|);
            && Find(s.pending, NEWLINE) == |line| - 1 && s.pending[..|HTTP|] == HTTP
            && t.buffered >= |HTTP| && t.pending == s.pending && t.capacity == s.capacity
            && StatusSeen(s) == StatusFor(LineSeen(t))
  {
    var line, text := PrintStatusLine(version, code, reason), StatusText(version, code, reason);
    StatusLineText(version, code, reason, s.capacity);
    PrintedLine(text, s.capacity);
    FindFrom(line, later, NEWLINE);
    assert s.pending[..|HTTP|] == HTTP;
  }

  // ----- A late status line takes fields with it -----

  /** A newline inside printed fields ends one of them. */
  lemma {:induction false} EndsAField(pairs: seq<Pair>, e: nat, capacity: nat) returns (j: nat)
    requires AllPrintable(pairs, capacity) && 0 < e <= |PrintAll(pairs)| && PrintAll(pairs)[e - 1] == NEWLINE
    ensures 0 < j <= |pairs| && PrintAll(pairs)[e..] == PrintAll(pairs[j..])
    decreases |pairs|
  {
    var p, w := pairs[0], PrintAll(pairs);
    var n := |p.Print()|;
    assert p.Printable();
    FieldText(p, capacity);
    assert p.Print()[n - 2] == RETURN;
    assert forall i :: 0 <= i < n ==> w[i] == p.Print()[i];
    assert w[n..] == PrintAll(pairs[1..]);
    if e == n {
      j := 1;
    } else {
      assert e > n;
      assert forall i :: 0 <= i < |pairs[1..]| ==> pairs[1..][i] == pairs[i + 1];
      var k := EndsAField(pairs[1..], e - n, capacity);
      j := k + 1;
      assert w[n..][e - n..] == w[e..] && pairs[1..][k..] == pairs[j..];
    }
  }

  /** A newline in a block is that of a field, or nothing but the rest can follow it. */
  lemma EndsInBlock(line: seq<byte>, pairs: seq<Pair>, rest: seq<byte>, n: nat, capacity: nat) returns (j: nat)
    requires AllPrintable(pairs, capacity)
    requires var w := line + (PrintAll(pairs) + CRLF + rest); |line| < n <= |w| && w[n - 1] == NEWLINE
    ensures var left := (line + (PrintAll(pairs) + CRLF + rest))[n..];
            |left| <= |rest| || (0 < j <= |pairs| && left == PrintAll(pairs[j..]) + CRLF + rest)
  {
    var fields, e := PrintAll(pairs), n - |line|;
    j := 0;
    if e <= |fields| {
      FieldsBehind(line, fields, CRLF + rest, n);
      assert line + (fields + CRLF + rest) == line + (fields + (CRLF + rest));
      j := EndsAField(pairs, e, capacity);
      assert PrintAll(pairs[j..]) + (CRLF + rest) == PrintAll(pairs[j..]) + CRLF + rest;
    } else {
      assert (line + (fields + CRLF + rest))[|line| + |fields|] == RETURN;
    }
  }

  lemma FieldsBehind(a: seq<byte>, b: seq<byte>, c: seq<byte>, n: nat)
    requires |a| < n <= |a| + |b|
    ensures (a + (b + c))[n - 1] == b[n - |a| - 1] && (a + (b + c))[n..] == b[n - |a|..] + c
  {}

  /** A field is missing from what is read after a late status line, or the blank line is. */
  lemma {:induction false} LateStatusLosesField(line: seq<byte>, pairs: seq<Pair>, n: nat, limit: nat, s: Source,
                                                whole: Head)
    requires AllPrintable(pairs, s.capacity) && 2 <= s.capacity && DistinctNames(pairs) && whole.Head?
    requires var w := line + (PrintAll(pairs) + CRLF + whole.rest);
             |line| < n <= |w| && w[n - 1] == NEWLINE && s.pending == w[n..]
    requires HeadComesTo(s, limit, map[], whole)
    ensures !Holds(whole.headers, pairs)
  {
    var j := EndsInBlock(line, pairs, whole.rest, n, s.capacity);
    RestIsShorter(s, limit, whole);
    FieldLost(pairs, j, limit, s, whole);
  }

  lemma RestIsShorter(s: Source, limit: nat, whole: Head)
    requires HeadComesTo(s, limit, map[], whole) && whole.Head?
    ensures |whole.rest| < |s.pending|
  {}

  lemma FieldLost(pairs: seq<Pair>, j: nat, limit: nat, s: Source, whole: Head)
    requires AllPrintable(pairs, s.capacity) && 2 <= s.capacity && DistinctNames(pairs) && whole.Head?
    requires 0 < j <= |pairs| && s.pending == PrintAll(pairs[j..]) + CRLF + whole.rest
    requires HeadComesTo(s, limit, map[], whole)
    ensures !Holds(whole.headers, pairs)
  {
    var others := pairs[j..];
    assert pairs[0].Printable();
    var name := ToName(pairs[0].name).value;
    LaterFields(pairs, j, others, whole.headers, name);
    assert forall i :: 0 <= i < |others| ==> others[i] == pairs[i + j];
    NameKept(others, limit, map[], s, whole, name);
  }

  // ----- The exact condition -----

  /** The fields of distinct names are all in the map they are put into. */
  lemma {:induction false} InsertedAll(pairs: seq<Pair>, start: HeaderMap, name: Text)
    requires forall i :: 0 <= i < |pairs| ==> ToName(pairs[i].name).Some?
    requires DistinctNames(pairs)
    ensures var all := InsertAll(start, ParsedFields(pairs));
            && Holds(all, pairs)
            && (Absent(name, pairs) ==> SameAt(name, all, start))
    decreases |pairs|
  {
    if pairs != [] {
      var others, first := pairs[1..], pairs[0].Parsed();
      assert ParsedFields(pairs)[1..] == ParsedFields(others);
      assert forall i :: 0 <= i < |others| ==> others[i] == pairs[i + 1];
      InsertedAll(others, Insert(start, first), first.name);
      InsertedAll(others, Insert(start, first), name);
      assert Absent(first.name, others);
      HoldsFirst(pairs, InsertAll(start, ParsedFields(pairs)));
    }
  }

  lemma HoldsFirst(pairs: seq<Pair>, all: HeaderMap)
    requires pairs != [] && ToName(pairs[0].name).Some? && Holds(all, pairs[1..])
    requires ToName(pairs[0].name).value in all && all[ToName(pairs[0].name).value] == pairs[0].value
    ensures Holds(all, pairs)
  {
    assert forall i :: 0 < i < |pairs| ==> pairs[i] == pairs[1..][i - 1];
  }

  /** The head of a response after its status line, as it is scanned. */
  lemma ResponseHead(s: Source, limits: Limits, version: Version, code: nat, whole: Head)
    returns (next: Next, t: Source)
    requires ResponseSeen(s, limits) == Response(code, version, whole) && whole.Head? && version != Http09
    ensures StatusSeen(s).Status? && t == StatusPast(s) && next.Block? && HeadComesTo(t, next.limit, map[], whole)
    ensures StatusInTime(s) && LinesInTime(t, next.limit) ==> ResponseInTime(s, limits)
  {
    var status := StatusSeen(s);
    next, t := AfterStatus(status.version, limits, status.size), StatusPast(s);
    BlockAfter(status.version, limits, status.size);
  }

  lemma BlockAfter(version: Version, limits: Limits, size: nat)
    requires version != Http09
    ensures !AfterStatus(version, limits, size).NoBlock?
  {}

  /** A response whose fields have distinct names, and which is not too long, arrives as it was sent
      if and only if its status line and every line after it are in time. */
  lemma {:induction false} ResponseArrivesIff(version: Version, code: nat, reason: Text, pairs: seq<Pair>,
                                              rest: seq<byte>, s: Source, limits: Limits)
    requires 100 <= code < 1000 && NoBreaks(reason) && RETURN !in reason
    requires |PrintStatusLine(version, code, reason)| <= s.capacity && AllPrintable(pairs, s.capacity)
    requires limits.minVersion.Number() <= version.Number() <= limits.maxVersion.Number() && version != Http09
    requires s.pending == PrintStatusLine(version, code, reason) + PrintAll(pairs) + CRLF + rest
    requires DistinctNames(pairs)
    requires |PrintStatusLine(version, code, reason)| + |PrintAll(pairs)| <= limits.maximumHeaderSize
    ensures ResponseSeen(s, limits) == Response(code, version, Head(InsertAll(map[], ParsedFields(pairs)), rest))
       <==> ResponseInTime(s, limits)
  {
    var whole := Head(InsertAll(map[], ParsedFields(pairs)), rest);
    if ResponseInTime(s, limits) {
      ResponseSeenInTime(s, limits);
      ResponseRoundTrip(version, code, reason, pairs, rest, s.capacity, limits);
    } else if ResponseSeen(s, limits) == Response(code, version, whole) {
      Regroup(PrintStatusLine(version, code, reason), PrintAll(pairs), CRLF, rest);
      InsertedAll(pairs, map[], []);
      SeenOnlyInTime(version, code, reason, pairs, s, limits, whole);
      assert false;
    }
  }

  lemma {:induction false} SeenOnlyInTime(version: Version, code: nat, reason: Text, pairs: seq<Pair>, s: Source,
                                          limits: Limits, whole: Head)
    requires 100 <= code < 1000 && NoBreaks(reason) && RETURN !in reason && whole.Head? && version != Http09
    requires |PrintStatusLine(version, code, reason)| <= s.capacity && AllPrintable(pairs, s.capacity)
    requires s.pending == PrintStatusLine(version, code, reason) + (PrintAll(pairs) + CRLF + whole.rest)
    requires DistinctNames(pairs) && Holds(whole.headers, pairs)
    requires ResponseSeen(s, limits) == Response(code, version, whole)
    ensures ResponseInTime(s, limits)
  {
    var next, t := ResponseHead(s, limits, version, code, whole);
    OnlyInTime(version, code, reason, pairs, s, t, next.limit, whole);
  }

  lemma {:induction false} OnlyInTime(version: Version, code: nat, reason: Text, pairs: seq<Pair>, s: Source,
                                      t: Source, limit: nat, whole: Head)
    requires 100 <= code < 1000 && NoBreaks(reason) && RETURN !in reason && whole.Head?
    requires |PrintStatusLine(version, code, reason)| <= s.capacity && AllPrintable(pairs, s.capacity)
    requires s.pending == PrintStatusLine(version, code, reason) + (PrintAll(pairs) + CRLF + whole.rest)
    requires DistinctNames(pairs) && Holds(whole.headers, pairs)
    requires StatusSeen(s).Status? && t == StatusPast(s) && HeadComesTo(t, limit, map[], whole)
    ensures StatusInTime(s) && LinesInTime(t, limit)
  {
    var line, later := PrintStatusLine(version, code, reason), PrintAll(pairs) + CRLF + whole.rest;
    StatusLineAhead(version, code, reason, later, s);
    if InTime(FilledTo(s, |HTTP|), 0) {
      StatusSeenInTime(s);
      StatusLineRead(version, code, reason, later, s.capacity);
      assert t.pending == later;
      BlockSeenOnlyInTime(pairs, limit, map[], t, whole);
    } else {
      var n := LateStatus(s, line, later);
      LateStatusLosesField(line, pairs, n, limit, t, whole);
      assert false;
    }
  }

  /** A late status line, if it is taken for one, runs on to a later newline. */
  lemma LateStatus(s: Source, line: seq<byte>, later: seq<byte>) returns (n: nat)
    requires s.pending == line + later && 0 < |line| <= s.capacity && Find(s.pending, NEWLINE) == |line| - 1
    requires !InTime(FilledTo(s, |HTTP|), 0) && StatusSeen(s) == StatusFor(LineSeen(FilledTo(s, |HTTP|)))
    requires StatusSeen(s).Status?
    ensures |line| < n <= |s.pending| && s.pending[n - 1] == NEWLINE && n == StatusSeen(s).size
    ensures StatusPast(s).pending == s.pending[n..] && StatusPast(s).capacity == s.capacity
  {
    var t := FilledTo(s, |HTTP|);
    LateLine(t);
    n := LineSeen(t).size;
    StatusSize(LineSeen(t));
    StatusLeaves(s);
  }

  lemma StatusSize(line: LineResult)
    ensures StatusFor(line).Status? ==> line.Line? && StatusFor(line).size == line.size
  {}

  // ----- Networks for which it is not read as it was sent -----

  lemma {:induction false} FillsOn(s: Source, n: nat)
    requires s.buffered < n && s.NextFill() > 0
    ensures FilledTo(s, n) == FilledTo(Refilled(s), n)
  {}

  lemma TrickledTo5(w: seq<byte>, capacity: nat)
    requires |w| >= 5 && capacity >= 5
    ensures FilledTo(Source(capacity, Trickle(|w|), w, 0), |HTTP|) == Source(capacity, Trickle(|w|), w, 5)
  {
    var s := Source(capacity, Trickle(|w|), w, 0);
    FillsOn(s, 5);
    FillsOn(s.(buffered := 2), 5);
    FillsOn(s.(buffered := 3), 5);
    FillsOn(s.(buffered := 4), 5);
  }

  /** In small pieces, any response can fail to arrive. */
  lemma ResponseCanFail(version: Version, code: nat, reason: Text, later: seq<byte>, capacity: nat, limits: Limits)
    requires 100 <= code < 1000 && NoBreaks(reason) && RETURN !in reason
    requires |PrintStatusLine(version, code, reason)| <= capacity
    ensures var w := PrintStatusLine(version, code, reason) + later;
            ResponseSeen(Source(capacity, Trickle(|w|), w, 0), limits)
            == Response(200, Http09, NoHead(LineFailed(Panicked)))
  {
    var w := PrintStatusLine(version, code, reason) + later;
    var s := Source(capacity, Trickle(|w|), w, 0);
    StatusLineText(version, code, reason, capacity);
    StatusLineAhead(version, code, reason, later, s);
    TrickledTo5(w, capacity);
    OutOfReach(FilledTo(s, |HTTP|));
  }

  /** What is scanned late of a status line: it, and the field after it. */
  lemma {:induction false} StatusAndField(line: seq<byte>, p: Pair, later: seq<byte>, s: Source)
    requires p.Printable() && |p.Print()| <= s.capacity && |line| > 2 * |HTTP|
    requires s.pending == line + (p.Print() + later) && Find(s.pending, NEWLINE) == |line| - 1
    requires s.buffered == |HTTP| && Refilled(s).buffered == |line| - 1
    requires Refilled(Refilled(s)).buffered == |s.pending|
    ensures Scan(s, 0) == Scanned(At(|line| + |p.Print()|), |s.pending|)
  {
    var t, n := Refilled(s), |line| + |HTTP| - 1;
    LookBeforeNewline(s.pending, 0, |HTTP|);
    ScanOnce(s, 0, Miss);
    LookBeforeNewline(s.pending, |HTTP|, |line| - 1);
    ScanOnce(t, |HTTP|, Miss);
    FieldNewline(line, p, later, s.capacity, n, |s.pending|);
    ScanOnce(Refilled(t), n, Hit(|line| + |p.Print()|));
  }

  /** Read as one line, they are the same status: what follows the code is not looked at. */
  lemma SameStatus(version: Version, code: nat, reason: Text, p: Pair, later: seq<byte>, s: Source)
    returns (seen: LineResult)
    requires 100 <= code < 1000 && NoBreaks(reason) && RETURN !in reason
    requires |PrintStatusLine(version, code, reason)| <= s.capacity && p.Printable() && |p.Print()| <= s.capacity
    requires s.pending == PrintStatusLine(version, code, reason) + (p.Print() + later)
    ensures seen.Line? && seen.size == |PrintStatusLine(version, code, reason)| + |p.Print()| <= |s.pending|
    ensures seen == LineFrom(s.pending, At(seen.size))
    ensures var status := StatusFor(seen);
            status.Status? && status.version == version && status.code == code && status.size == seen.size
  {
    seen := Together(version, code, reason, p, later, s.capacity,
                     |PrintStatusLine(version, code, reason)| + |p.Print()|);
    StatusOf(version, code, reason + CRLF + FieldLine(p), seen);
  }

  lemma Together(version: Version, code: nat, reason: Text, p: Pair, later: seq<byte>, capacity: nat, n: nat)
    returns (seen: LineResult)
    requires 100 <= code < 1000 && NoBreaks(reason) && RETURN !in reason
    requires |PrintStatusLine(version, code, reason)| <= capacity && p.Printable() && |p.Print()| <= capacity
    requires n == |PrintStatusLine(version, code, reason)| + |p.Print()|
    ensures seen == LineFrom(PrintStatusLine(version, code, reason) + (p.Print() + later), At(n)) && seen.Line?
    ensures seen.text == StatusText(version, code, reason + CRLF + FieldLine(p)) && seen.size == n
  {
    var line, t0 := PrintStatusLine(version, code, reason), StatusText(version, code, reason);
    seen := LineFrom(line + (p.Print() + later), At(n));
    StatusLineText(version, code, reason, capacity);
    FieldText(p, capacity);
    PrintsAscii(p);
    TwoLines(line, t0, p.Print(), FieldLine(p), later);
    StatusTextMore(version, code, reason, FieldLine(p));
  }

  lemma StatusTextMore(version: Version, code: nat, reason: Text, t: Text)
    requires 100 <= code < 1000
    ensures StatusText(version, code, reason) + CRLF + t == StatusText(version, code, reason + CRLF + t)
  {}

  lemma StatusOf(version: Version, code: nat, reason: Text, seen: LineResult)
    requires 100 <= code < 1000 && seen.Line? && seen.text == StatusText(version, code, reason)
    ensures StatusFor(seen) == Status(version, code, seen.size)
  {
    ParsesPrintedStatusLine(version, code, reason);
  }

  /** The status line and the field after it, taken together. */
  lemma LosesFirstField(version: Version, code: nat, reason: Text, p: Pair, later: seq<byte>, s: Source)
    returns (status: Status)
    requires 100 <= code < 1000 && NoBreaks(reason) && RETURN !in reason
    requires |PrintStatusLine(version, code, reason)| <= s.capacity && p.Printable() && |p.Print()| <= s.capacity
    requires s.pending == PrintStatusLine(version, code, reason) + (p.Print() + later) && s.buffered == |HTTP|
    requires Refilled(s).buffered == |PrintStatusLine(version, code, reason)| - 1
    requires Refilled(Refilled(s)).buffered == |s.pending|
    ensures status == StatusSeen(s) && status.Status? && status.version == version && status.code == code
    ensures status.size == |PrintStatusLine(version, code, reason)| + |p.Print()|
    ensures StatusPast(s) == Source(s.capacity, s.network, later, |later|)
  {
    var line := PrintStatusLine(version, code, reason);
    status := StatusSeen(s);
    StatusLineIs(version, code, reason, p.Print() + later, s);
    var seen := SameStatus(version, code, reason, p, later, s);
    TakesBoth(line, p, later, s, seen);
  }

  lemma {:induction false} StatusLineIs(version: Version, code: nat, reason: Text, later: seq<byte>, s: Source)
    requires 100 <= code < 1000 && NoBreaks(reason) && RETURN !in reason
    requires |PrintStatusLine(version, code, reason)| <= s.capacity
    requires s.pending == PrintStatusLine(version, code, reason) + later
    ensures |PrintStatusLine(version, code, reason)| > 2 * |HTTP|
    ensures Find(s.pending, NEWLINE) == |PrintStatusLine(version, code, reason)| - 1
    ensures StatusSeen(s) == StatusFor(LineSeen(FilledTo(s, |HTTP|)))
  {
    StatusLineText(version, code, reason, s.capacity);
    StatusLineAhead(version, code, reason, later, s);
  }

  lemma {:induction false} TakesBoth(line: seq<byte>, p: Pair, later: seq<byte>, s: Source, seen: LineResult)
    requires p.Printable() && |p.Print()| <= s.capacity && |line| > 2 * |HTTP|
    requires s.pending == line + (p.Print() + later) && Find(s.pending, NEWLINE) == |line| - 1
    requires s.buffered == |HTTP| && Refilled(s).buffered == |line| - 1
    requires Refilled(Refilled(s)).buffered == |s.pending|
    requires StatusSeen(s) == StatusFor(LineSeen(FilledTo(s, |HTTP|))) && StatusFor(seen).Status?
    requires seen.Line? && seen.size == |line| + |p.Print()| && seen == LineFrom(s.pending, At(seen.size))
    ensures StatusSeen(s) == StatusFor(seen) && StatusPast(s) == Source(s.capacity, s.network, later, |later|)
  {
    SeesBoth(line, p, later, s, seen);
    FilledIsSame(s);
    StatusIsPast(s, seen);
    DropsTwo(line, p.Print(), later);
  }

  /** A status line that is scanned together with the field after it. */
  lemma {:induction false} SeesBoth(line: seq<byte>, p: Pair, later: seq<byte>, s: Source, seen: LineResult)
    requires p.Printable() && |p.Print()| <= s.capacity && |line| > 2 * |HTTP|
    requires s.pending == line + (p.Print() + later) && Find(s.pending, NEWLINE) == |line| - 1
    requires s.buffered == |HTTP| && Refilled(s).buffered == |line| - 1
    requires Refilled(Refilled(s)).buffered == |s.pending|
    requires seen.Line? && seen.size == |line| + |p.Print()| && seen == LineFrom(s.pending, At(seen.size))
    ensures LineSeen(s) == seen && Scan(s, 0).held == |s.pending|
  {
    StatusAndField(line, p, later, s);
    SeenIs(s, seen);
  }

  lemma {:induction false} SeenIs(s: Source, seen: LineResult)
    requires seen.Line? && Scan(s, 0).result == At(seen.size) && seen == LineFrom(s.pending, At(seen.size))
    ensures LineSeen(s) == seen
  {}

  lemma {:induction false} FilledIsSame(s: Source)
    requires s.buffered >= |HTTP|
    ensures FilledTo(s, |HTTP|) == s
  {}

  lemma {:induction false} StatusIsPast(s: Source, line: LineResult)
    requires FilledTo(s, |HTTP|) == s && line == LineSeen(s) && StatusSeen(s) == StatusFor(line)
    requires StatusFor(line).Status? && line.Line?
    ensures StatusPast(s) == Past(s, line.size)
  {}

  lemma ResponseSeenAs(s: Source, limits: Limits, status: Status, limit: nat, t: Source, whole: Head)
    requires status == StatusSeen(s) && status.Status? && t == StatusPast(s)
    requires AfterStatus(status.version, limits, status.size) == Block(limit) && HeadSeen(t, limit, map[]) == whole
    ensures ResponseSeen(s, limits) == Response(status.code, status.version, whole)
  {}

  lemma StatusAllows(version: Version, limits: Limits, size: nat)
    requires limits.minVersion.Number() <= version.Number() <= limits.maxVersion.Number() && version != Http09
    requires size <= limits.maximumHeaderSize
    ensures AfterStatus(version, limits, size) == Block(limits.maximumHeaderSize - size)
  {}

  /** The network that delivers five bytes, then the status line but for its last byte, then everything. */
  lemma ResponseSliced(line: seq<byte>, later: seq<byte>, capacity: nat)
    requires |HTTP| + 1 < |line| && later != [] && |line + later| <= capacity
    ensures var w := line + later;
            var network := Slices(|w|, |HTTP|, |line| - |HTTP| - 1);
            var s, t := Source(capacity, network, w, 0), Source(capacity, network, w, |HTTP|);
            && FilledTo(s, |HTTP|) == t && Refilled(t).buffered == |line| - 1 && Refilled(Refilled(t)).buffered == |w|
  {
    var w := line + later;
    var s := Source(capacity, Slices(|w|, |HTTP|, |line| - |HTTP| - 1), w, 0);
    FillsOn(s, |HTTP|);
  }

  /** A late line can do worse than fail: of every response with a field, if all of it fits the buffer,
      there is a network for which the client gets the status, all other fields and no error. */
  lemma {:induction false} ResponseCanLoseField(version: Version, code: nat, reason: Text, pairs: seq<Pair>,
                                                rest: seq<byte>, capacity: nat, limits: Limits)
    requires 100 <= code < 1000 && NoBreaks(reason) && RETURN !in reason && pairs != []
    requires limits.minVersion.Number() <= version.Number() <= limits.maxVersion.Number() && version != Http09
    requires AllPrintable(pairs, capacity)
    requires |PrintStatusLine(version, code, reason) + (PrintAll(pairs) + CRLF + rest)| <= capacity
    requires |PrintStatusLine(version, code, reason)| + |PrintAll(pairs)| <= limits.maximumHeaderSize
    ensures forall i :: 0 <= i < |pairs[1..]| ==> ToName(pairs[1..][i].name).Some?
    ensures var line := PrintStatusLine(version, code, reason);
            var w := line + (PrintAll(pairs) + CRLF + rest);
            var network := Slices(|w|, |HTTP|, |line| - |HTTP| - 1);
            ResponseSeen(Source(capacity, network, w, 0), limits)
            == Response(code, version, Head(InsertAll(map[], ParsedFields(pairs[1..])), rest))
  {
    var line := PrintStatusLine(version, code, reason);
    var w := line + (PrintAll(pairs) + CRLF + rest);
    var network := Slices(|w|, |HTTP|, |line| - |HTTP| - 1);
    var s, t := Source(capacity, network, w, 0), Source(capacity, network, w, |HTTP|);
    StatusLineText(version, code, reason, capacity);
    ResponseSliced(line, PrintAll(pairs) + CRLF + rest, capacity);
    FirstFieldLost(version, code, reason, pairs, rest, t, limits);
    SameFilled(s, t, limits);
  }

  lemma {:induction false} FirstFieldLost(version: Version, code: nat, reason: Text, pairs: seq<Pair>,
                                          rest: seq<byte>, s: Source, limits: Limits)
    requires 100 <= code < 1000 && NoBreaks(reason) && RETURN !in reason && pairs != []
    requires limits.minVersion.Number() <= version.Number() <= limits.maxVersion.Number() && version != Http09
    requires AllPrintable(pairs, s.capacity) && |PrintStatusLine(version, code, reason)| <= s.capacity
    requires 2 <= s.capacity
    requires s.pending == PrintStatusLine(version, code, reason) + (PrintAll(pairs) + CRLF + rest)
    requires s.buffered == |HTTP| && Refilled(s).buffered == |PrintStatusLine(version, code, reason)| - 1
    requires Refilled(Refilled(s)).buffered == |s.pending|
    requires |PrintStatusLine(version, code, reason)| + |PrintAll(pairs)| <= limits.maximumHeaderSize
    ensures forall i :: 0 <= i < |pairs[1..]| ==> ToName(pairs[1..][i].name).Some?
    ensures ResponseSeen(s, limits) == Response(code, version, Head(InsertAll(map[], ParsedFields(pairs[1..])), rest))
  {
    FirstOfBlock(pairs, rest, s.capacity);
    OthersPrintable(pairs, s.capacity);
    var later := PrintAll(pairs[1..]) + CRLF + rest;
    var status := LosesFirstField(version, code, reason, pairs[0], later, s);
    OthersArrive(pairs[1..], rest, s, limits, status, Source(s.capacity, s.network, later, |later|));
  }

  lemma {:induction false} OthersPrintable(pairs: seq<Pair>, capacity: nat)
    requires pairs != [] && AllPrintable(pairs, capacity)
    ensures AllPrintable(pairs[1..], capacity) && |PrintAll(pairs)| == |pairs[0].Print()| + |PrintAll(pairs[1..])|
  {
    assert forall i :: 0 <= i < |pairs[1..]| ==> pairs[1..][i] == pairs[i + 1];
  }

  lemma {:induction false} OthersArrive(pairs: seq<Pair>, rest: seq<byte>, s: Source, limits: Limits, status: Status,
                                        t: Source)
    requires status == StatusSeen(s) && status.Status? && t == StatusPast(s) && status.version != Http09
    requires limits.minVersion.Number() <= status.version.Number() <= limits.maxVersion.Number()
    requires AllPrintable(pairs, t.capacity) && 2 <= t.capacity
    requires status.size + |PrintAll(pairs)| <= limits.maximumHeaderSize
    requires t.pending == PrintAll(pairs) + CRLF + rest && t.buffered == |t.pending|
    ensures forall i :: 0 <= i < |pairs| ==> ToName(pairs[i].name).Some?
    ensures ResponseSeen(s, limits)
         == Response(status.code, status.version, Head(InsertAll(map[], ParsedFields(pairs)), rest))
  {
    var limit := limits.maximumHeaderSize - status.size;
    BufferedBlock(pairs, rest, limit, map[], t);
    StatusAllows(status.version, limits, status.size);
    ResponseSeenAs(s, limits, status, limit, t, Head(InsertAll(map[], ParsedFields(pairs)), rest));
  }

  /** What has been filled up to the prefix is read alike. */
  lemma {:induction false} SameFilled(s: Source, t: Source, limits: Limits)
    requires t == FilledTo(s, |HTTP|) && t.buffered >= |HTTP|
    ensures ResponseSeen(s, limits) == ResponseSeen(t, limits)
  {
    assert FilledTo(t, |HTTP|) == t;
  }

  // ----- Why the names must be distinct -----

  predicate SameBut(name: Text, a: HeaderMap, b: HeaderMap) {
    (forall k :: k in a && k != name ==> k in b && a[k] == b[k]) && (forall k :: k in b && k != name ==> k in a)
  }

  /** A later field of the same name makes an earlier one superfluous. */
  lemma {:induction false} Overridden(name: Text, a: HeaderMap, b: HeaderMap, pairs: seq<Pair>, i: nat)
    requires forall j :: 0 <= j < |pairs| ==> ToName(pairs[j].name).Some?
    requires a == b || (SameBut(name, a, b) && i < |pairs| && ToName(pairs[i].name) == Some(name))
    ensures InsertAll(a, ParsedFields(pairs)) == InsertAll(b, ParsedFields(pairs))
    decreases |pairs|
  {
    if pairs != [] && a != b {
      var first, others := pairs[0].Parsed(), pairs[1..];
      assert ParsedFields(pairs)[1..] == ParsedFields(others);
      assert forall j :: 0 <= j < |others| ==> others[j] == pairs[j + 1];
      Inserted(name, a, b, first);
      Overridden(name, Insert(a, first), Insert(b, first), others, if i > 0 then i - 1 else 0);
    }
  }

  lemma Inserted(name: Text, a: HeaderMap, b: HeaderMap, f: Field)
    requires SameBut(name, a, b) && f.Field?
    ensures if f.name == name then Insert(a, f) == Insert(b, f) else SameBut(name, Insert(a, f), Insert(b, f))
  {}

  lemma FirstSuperfluous(pairs: seq<Pair>, i: nat)
    requires forall j :: 0 <= j < |pairs| ==> ToName(pairs[j].name).Some?
    requires 0 < i < |pairs| && ToName(pairs[i].name) == ToName(pairs[0].name)
    ensures forall j :: 0 <= j < |pairs[1..]| ==> ToName(pairs[1..][j].name).Some?
    ensures InsertAll(map[], ParsedFields(pairs)) == InsertAll(map[], ParsedFields(pairs[1..]))
  {
    var others := pairs[1..];
    assert ParsedFields(pairs)[1..] == ParsedFields(others);
    assert forall j :: 0 <= j < |others| ==> others[j] == pairs[j + 1];
    Overridden(pairs[0].Parsed().name, map[], Insert(map[], pairs[0].Parsed()), others, i - 1);
  }

  lemma TakenLate(version: Version, code: nat, reason: Text, p: Pair, later: seq<byte>, s: Source)
    requires 100 <= code < 1000 && NoBreaks(reason) && RETURN !in reason && version != Http09
    requires |PrintStatusLine(version, code, reason)| <= s.capacity && p.Printable() && |p.Print()| <= s.capacity
    requires s.pending == PrintStatusLine(version, code, reason) + (p.Print() + later) && s.buffered == |HTTP|
    requires Refilled(s).buffered == |PrintStatusLine(version, code, reason)| - 1
    requires Refilled(Refilled(s)).buffered == |s.pending|
    ensures !StatusInTime(s)
  {
    var status := LosesFirstField(version, code, reason, p, later, s);
    StatusLineRead(version, code, reason, p.Print() + later, s.capacity);
    if StatusInTime(s) {
      StatusSeenInTime(s);
      assert false;
    }
  }

  /** With a name twice, a response can arrive as it was sent although its status line came late: the
      field that is lost was to be replaced anyway. */
  lemma {:induction false} RepeatedNameHidesLoss(version: Version, code: nat, reason: Text, pairs: seq<Pair>, i: nat,
                                                 rest: seq<byte>, capacity: nat, limits: Limits)
    requires 100 <= code < 1000 && NoBreaks(reason) && RETURN !in reason
    requires 0 < i < |pairs| && AllPrintable(pairs, capacity) && ToName(pairs[i].name) == ToName(pairs[0].name)
    requires limits.minVersion.Number() <= version.Number() <= limits.maxVersion.Number() && version != Http09
    requires |PrintStatusLine(version, code, reason) + (PrintAll(pairs) + CRLF + rest)| <= capacity
    requires |PrintStatusLine(version, code, reason)| + |PrintAll(pairs)| <= limits.maximumHeaderSize
    ensures var line := PrintStatusLine(version, code, reason);
            var w := line + (PrintAll(pairs) + CRLF + rest);
            var s := Source(capacity, Slices(|w|, |HTTP|, |line| - |HTTP| - 1), w, 0);
            && ResponseSeen(s, limits) == Response(code, version, Head(InsertAll(map[], ParsedFields(pairs)), rest))
            && !ResponseInTime(s, limits)
  {
    var line := PrintStatusLine(version, code, reason);
    var w := line + (PrintAll(pairs) + CRLF + rest);
    var network := Slices(|w|, |HTTP|, |line| - |HTTP| - 1);
    var s, t := Source(capacity, network, w, 0), Source(capacity, network, w, |HTTP|);
    ResponseCanLoseField(version, code, reason, pairs, rest, capacity, limits);
    FirstSuperfluous(pairs, i);
    StatusLineText(version, code, reason, capacity);
    ResponseSliced(line, PrintAll(pairs) + CRLF + rest, capacity);
    FirstOfBlock(pairs, rest, capacity);
    TakenLate(version, code, reason, pairs[0], PrintAll(pairs[1..]) + CRLF + rest, t);
    LateAlike(s, t);
  }

  lemma {:induction false} LateAlike(s: Source, t: Source)
    requires t == FilledTo(s, |HTTP|) && t.buffered >= |HTTP| && !StatusInTime(t)
    ensures !StatusInTime(s)
  {
    assert FilledTo(t, |HTTP|) == t;
  }
}
