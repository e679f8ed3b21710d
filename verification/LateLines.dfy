/** What becomes of a head whose lines are scanned too late: when it is still read as it was printed. */
module LateLines {
  import opened Bytes
  import opened Stream
  import opened Chunked
  import opened Lines
  import opened Headers
  import opened PrintedHead

  // ----- A late line -----

  /** A line that runs on to a later newline. */
  lemma LateText(t: Text, later: seq<byte>, n: nat) returns (tail: Text)
    requires var w := t + CRLF + later; |t| + 2 < n <= |w| && w[n - 1] == NEWLINE
    ensures Chomp((t + CRLF + later)[..n]) == t + CRLF + tail
  {
    var w := t + CRLF + later;
    var a := w[..n - 1];
    assert w[..n] == a + [NEWLINE] && a == t + CRLF + later[..n - 3 - |t|];
    tail := Chomp(w[..n])[|t| + 2..];
    assert a[|t| + 1] == NEWLINE;
    assert Chomp(w[..n])[..|t| + 2] == t + CRLF;
  }

  lemma LatePrintedLine(t: Text, later: seq<byte>, s: Source) returns (tail: Text)
    requires NoBreaks(t) && (t != [] ==> t[|t| - 1] != RETURN) && |t| + 2 <= s.capacity
    requires s.pending == t + CRLF + later && !InTime(s, 0) && LineSeen(s).Line?
    ensures LineSeen(s).text == t + CRLF + tail && LineSeen(s).size > |t| + 2
  {
    PrintedLine(t, s.capacity);
    FindFrom(t + CRLF, later, NEWLINE);
    LateLine(s);
    tail := LateText(t, later, LineSeen(s).size);
  }

  lemma RefusesLateRequestLine(path: Text, tail: Text)
    requires Visible(path)
    ensures ParseRequestLine(GET + [SPACE] + path + [SPACE] + Http11.Print() + CRLF + tail) == None
  {
    var v := Http11.Print() + CRLF;
    assert GET + [SPACE] + path + [SPACE] + Http11.Print() + CRLF + tail
        == GET + [SPACE] + (path + [SPACE] + (v + tail));
    SplitsAt(GET, SPACE, path + [SPACE] + (v + tail));
    SplitsAt(path, SPACE, v + tail);
    NotFound(v, SPACE);
    FindFrom(v, tail, SPACE);
  }

  lemma RefusesLateField(p: Pair, tail: Text)
    requires p.Printable() && p.value != []
    ensures ParseField(p.name + [COLON, SPACE] + p.value + CRLF + tail) == BadField(InvalidHeaderValue)
  {
    var v := p.value + CRLF + tail;
    assert v[0] == p.value[0] && v[|p.value| + 1] == NEWLINE;
    ParsesField(p.name, v);
    assert p.name + [COLON, SPACE] + p.value + CRLF + tail == p.name + [COLON, SPACE] + v;
  }

  lemma {:induction false} StopsAtLateField(p: Pair, later: seq<byte>, s: Source)
    requires p.Printable() && p.value != [] && |p.Print()| <= s.capacity
    requires s.pending == p.Print() + later && !InTime(s, 0)
    ensures ScanLine(s).step.Stop?
  {
    var line := LineSeen(s);
    if line.Line? {
      var t := p.name + [COLON, SPACE] + p.value;
      FieldText(p, s.capacity);
      var tail := LatePrintedLine(t, later, s);
      RefusesLateField(p, tail);
    }
    StopsAtBadLine(s, line);
  }

  lemma StopsAtBadLine(s: Source, line: LineResult)
    requires line == LineSeen(s) && (line.Line? ==> ParseField(line.text).BadField?)
    ensures ScanLine(s).step.Stop?
  {}

  // ----- A late field without a value takes the next line as its value -----

  function FieldLine(p: Pair): Text {
    p.name + [COLON, SPACE] + p.value
  }

  /** What follows the line end is the value, since the parser trims it. */
  lemma ParsesLateEmptyField(p: Pair, v: Text)
    requires p.Printable() && p.value == [] && v != [] && !IsSpace(v[0])
    ensures ParseField(FieldLine(p) + CRLF + v)
         == if ToValue(v).Some? then Field(ToName(p.name).value, ToValue(v)) else BadField(InvalidHeaderValue)
  {
    var t := [SPACE] + CRLF + v;
    assert FieldLine(p) + CRLF + v == p.name + [COLON] + t;
    NameIsVisible(p.name);
    SplitsAt(p.name, COLON, t);
    VisibleIsTrimmed(p.name);
    Cut(p.name, COLON, t);
    TrimsLineEnd(v);
  }

  lemma {:induction false} TrimsLineEnd(v: Text)
    requires v != [] && !IsSpace(v[0])
    ensures TrimStart([SPACE] + CRLF + v) == v
  {
    var t, u, x := [SPACE] + CRLF + v, CRLF + v, [NEWLINE] + v;
    assert t[1..] == u && u[1..] == x && x[1..] == v;
    assert TrimStart(t) == TrimStart(u) == TrimStart(x) == TrimStart(v) == v;
  }

  lemma ChompsLine(t: Text)
    requires t != [] && t[|t| - 1] != RETURN
    ensures Chomp(t + CRLF) == t
  {
    assert t + CRLF == t + [RETURN] + [NEWLINE];
  }

  /** A newline behind the line end of `t0` is that of `t1`, or comes after it. */
  lemma NextLineEnd(t0: Text, t1: Text, later: seq<byte>, n: nat)
    requires NoBreaks(t1)
    requires var w := t0 + CRLF + (t1 + CRLF + later); |t0| + 2 < n <= |w| && w[n - 1] == NEWLINE
    ensures n >= |t0| + 2 + |t1| + 2
  {
    var w := t0 + CRLF + (t1 + CRLF + later);
    assert forall i :: 0 <= i < |t1| ==> w[|t0| + 2 + i] == t1[i];
    assert w[|t0| + 2 + |t1|] == RETURN;
  }

  /** The late line of an empty field, with another one after it. */
  lemma LateEmptyText(t0: Text, t1: Text, later: seq<byte>, n: nat) returns (v: Text)
    requires NoBreaks(t1) && t1 != [] && t1[|t1| - 1] != RETURN
    requires var w := t0 + CRLF + (t1 + CRLF + later); |t0| + 2 < n <= |w| && w[n - 1] == NEWLINE
    ensures Chomp((t0 + CRLF + (t1 + CRLF + later))[..n]) == t0 + CRLF + v && t1 <= v
    ensures if n == |t0| + 2 + |t1| + 2 then v == t1 else ToValue(v).None?
  {
    var t := t0 + CRLF + t1;
    NextLineEnd(t0, t1, later, n);
    assert t0 + CRLF + (t1 + CRLF + later) == t + CRLF + later;
    if n == |t| + 2 {
      assert (t + CRLF + later)[..n] == t + CRLF;
      ChompsLine(t);
      v := t1;
    } else {
      var tail := LateText(t, later, n);
      v := t1 + CRLF + tail;
      assert t + CRLF + tail == t0 + CRLF + v;
      assert v[|t1| + 1] == NEWLINE;
    }
  }

  lemma FieldLineEnds(p: Pair, later: seq<byte>, s: Source)
    requires p.Printable() && |p.Print()| <= s.capacity && s.pending == p.Print() + later
    ensures Find(s.pending, NEWLINE) == |p.Print()| - 1
  {
    FieldText(p, s.capacity);
    PrintedLine(FieldLine(p), s.capacity);
    FindFrom(p.Print(), later, NEWLINE);
  }

  lemma LateEmptyLine(p: Pair, q: Pair, later: seq<byte>, s: Source, line: LineResult) returns (v: Text)
    requires p.Printable() && q.Printable() && |p.Print()| <= s.capacity && |q.Print()| <= s.capacity
    requires s.pending == p.Print() + (q.Print() + later) && !InTime(s, 0) && line == LineSeen(s) && line.Line?
    ensures line.text == FieldLine(p) + CRLF + v && FieldLine(q) <= v
    ensures if line.size == |p.Print()| + |q.Print()| then v == FieldLine(q) else ToValue(v).None?
  {
    FieldLineEnds(p, q.Print() + later, s);
    LateLine(s);
    FieldText(q, s.capacity);
    NameIsVisible(q.name);
    v := LateEmptyText(FieldLine(p), FieldLine(q), later, line.size);
  }

  /** A late empty field before another field is refused, or takes that field's line as its value. */
  lemma {:induction false} LateEmptyField(p: Pair, q: Pair, later: seq<byte>, s: Source)
    requires p.Printable() && q.Printable() && |p.Print()| <= s.capacity && |q.Print()| <= s.capacity
    requires p.value == [] && s.pending == p.Print() + (q.Print() + later) && !InTime(s, 0)
    ensures var Seen(step, next) := ScanLine(s);
            !step.Stop? ==>
              && step == Item(Field(ToName(p.name).value, Some(FieldLine(q))), |p.Print()| + |q.Print()|)
              && next.pending == later && next.capacity == s.capacity
  {
    var line := LineSeen(s);
    if line.NoLine? {
      StopsAtBadLine(s, line);
    } else {
      var v := LateEmptyLine(p, q, later, s, line);
      NameIsVisible(q.name);
      ParsesLateEmptyField(p, v);
      if ParseField(line.text).BadField? {
        StopsAtBadLine(s, line);
      } else {
        StepOfLine(s, line);
        DropsTwo(p.Print(), q.Print(), later);
      }
    }
  }

  lemma DropsTwo(a: seq<byte>, b: seq<byte>, c: seq<byte>)
    ensures (a + (b + c))[|a| + |b|..] == c
  {}

  lemma StepOfLine(s: Source, line: LineResult)
    requires line == LineSeen(s) && line.Line?
    ensures ScanLine(s).step == StepFor(line)
    ensures !StepFor(line).Stop? ==> line.size <= |s.pending| && ScanLine(s).next.pending == s.pending[line.size..]
                                     && ScanLine(s).next.capacity == s.capacity
  {}

  /** A late last field takes the blank line with it. */
  lemma {:induction false} LateLastField(p: Pair, rest: seq<byte>, s: Source)
    requires p.Printable() && |p.Print()| <= s.capacity
    requires s.pending == p.Print() + (CRLF + rest) && !InTime(s, 0)
    ensures var Seen(step, next) := ScanLine(s); !step.Stop? ==> step.Item? && |next.pending| <= |rest|
  {
    var line := LineSeen(s);
    if line.Line? {
      LateLastLine(p, rest, s, line);
      StepIsLine(s, line);
      StepOfLine(s, line);
    }
  }

  lemma {:induction false} LateLastLine(p: Pair, rest: seq<byte>, s: Source, line: LineResult)
    requires p.Printable() && |p.Print()| <= s.capacity && line == LineSeen(s) && line.Line?
    requires s.pending == p.Print() + (CRLF + rest) && !InTime(s, 0)
    ensures line.size >= |p.Print()| + 2 && line.text != []
  {
    FieldText(p, s.capacity);
    var tail := LatePrintedLine(FieldLine(p), CRLF + rest, s);
    FieldLineEnds(p, CRLF + rest, s);
    LateLine(s);
    assert s.pending[|p.Print()|] == RETURN;
  }

  lemma BlankSeenOnlyInTime(rest: seq<byte>, limit: nat, headers: HeaderMap, s: Source)
    requires s.pending == CRLF + rest && 2 <= s.capacity
    requires var head := HeadSeen(s, limit, headers); head.Head? && head.rest == rest
    ensures LinesInTime(s, limit)
  {
    if !InTime(s, 0) {
      LateBlank(rest, limit, headers, s);
      assert false;
    }
    BlankReadAs(s.capacity);
    StepInTime(s);
    LinesInTimeStep(s, limit);
  }

  lemma {:induction false} LateBlank(rest: seq<byte>, limit: nat, headers: HeaderMap, s: Source)
    requires s.pending == CRLF + rest && 2 <= s.capacity && !InTime(s, 0)
    ensures var head := HeadSeen(s, limit, headers); head.Head? ==> |head.rest| < |rest|
  {
    HeadSeenStep(s, limit, headers);
    LateBlankIsLong(rest, s);
  }

  lemma {:induction false} LateBlankIsLong(rest: seq<byte>, s: Source)
    requires s.pending == CRLF + rest && 2 <= s.capacity && !InTime(s, 0)
    ensures var Seen(step, next) := ScanLine(s); !step.Stop? ==> |next.pending| < |rest|
  {
    var line := LineSeen(s);
    if line.Line? {
      assert [] + CRLF + rest == s.pending;
      var tail := LatePrintedLine([], rest, s);
      assert line.size > 2;
      StepIsLine(s, line);
    }
  }

  lemma StepIsLine(s: Source, line: LineResult)
    requires line == LineSeen(s)
    ensures var Seen(step, next) := ScanLine(s);
            !step.Stop? ==> line.Line? && step.size == line.size && |next.pending| == |s.pending| - line.size
  {}


  // ----- Blocks that are read as they were printed -----

  /** The printed block is read as `whole`, up to its blank line. */
  ghost predicate BlockRead(pairs: seq<Pair>, limit: nat, headers: HeaderMap, s: Source, whole: Head) {
    && AllPrintable(pairs, s.capacity) && 2 <= s.capacity
    && whole.Head? && s.pending == PrintAll(pairs) + CRLF + whole.rest
    && HeadComesTo(s, limit, headers, whole)
  }

  /** A field has been read, and reading goes on after it. */
  ghost predicate GoesOn(seen: Seen, limit: nat, headers: HeaderMap, whole: Head) {
    && seen.step.Item? && seen.step.field.Field? && seen.step.size <= limit
    && HeadComesTo(seen.next, limit - seen.step.size, Insert(headers, seen.step.field), whole)
  }

  /** Of a block that is read to its end, a first field that is in time is what was printed. */
  lemma FirstInTime(pairs: seq<Pair>, limit: nat, headers: HeaderMap, s: Source, whole: Head) returns (seen: Seen)
    requires pairs != [] && BlockRead(pairs, limit, headers, s, whole) && InTime(s, 0)
    ensures GoesOn(seen, limit, headers, whole)
    ensures seen.next.capacity == s.capacity && seen.next.pending == PrintAll(pairs[1..]) + CRLF + whole.rest
    ensures Some(seen.step.field.name) == ToName(pairs[0].name)
    ensures LinesInTime(seen.next, limit - seen.step.size) ==> LinesInTime(s, limit)
  {
    FirstOfBlock(pairs, whole.rest, s.capacity);
    seen := FieldInTime(pairs[0], PrintAll(pairs[1..]) + CRLF + whole.rest, limit, headers, s, whole);
  }

  /** And one that is not is empty, and has taken the next line as its value. */
  lemma FirstLate(pairs: seq<Pair>, limit: nat, headers: HeaderMap, s: Source, whole: Head) returns (seen: Seen)
    requires pairs != [] && BlockRead(pairs, limit, headers, s, whole) && !InTime(s, 0)
    ensures |pairs| > 1 && GoesOn(seen, limit, headers, whole)
    ensures seen.next.capacity == s.capacity && seen.next.pending == PrintAll(pairs[2..]) + CRLF + whole.rest
    ensures Some(seen.step.field.name) == ToName(pairs[0].name)
    ensures pairs[0].value == [] && seen.step.field.value.Some? && seen.step.field.value.value != []
  {
    if |pairs| == 1 {
      OnlyOfBlock(pairs, whole.rest, s.capacity);
      LastFieldNotLate(pairs[0], limit, headers, s, whole);
      assert false;
    } else {
      SecondOfBlock(pairs, whole.rest, s.capacity);
      seen := FieldLate(pairs[0], pairs[1], PrintAll(pairs[2..]) + CRLF + whole.rest, limit, headers, s, whole);
    }
  }

  lemma {:induction false} FirstOfBlock(pairs: seq<Pair>, rest: seq<byte>, capacity: nat)
    requires pairs != [] && AllPrintable(pairs, capacity)
    ensures pairs[0].Printable() && |pairs[0].Print()| <= capacity
    ensures PrintAll(pairs) + CRLF + rest == pairs[0].Print() + (PrintAll(pairs[1..]) + CRLF + rest)
  {
    Regroup(pairs[0].Print(), PrintAll(pairs[1..]), CRLF, rest);
  }

  lemma {:induction false} OnlyOfBlock(pairs: seq<Pair>, rest: seq<byte>, capacity: nat)
    requires |pairs| == 1 && AllPrintable(pairs, capacity)
    ensures pairs[0].Printable() && |pairs[0].Print()| <= capacity
    ensures PrintAll(pairs) + CRLF + rest == pairs[0].Print() + (CRLF + rest)
  {
    FirstOfBlock(pairs, rest, capacity);
    assert PrintAll(pairs[1..]) + CRLF + rest == CRLF + rest;
  }

  lemma {:induction false} SecondOfBlock(pairs: seq<Pair>, rest: seq<byte>, capacity: nat)
    requires |pairs| > 1 && AllPrintable(pairs, capacity)
    ensures pairs[0].Printable() && |pairs[0].Print()| <= capacity
    ensures pairs[1].Printable() && |pairs[1].Print()| <= capacity
    ensures PrintAll(pairs) + CRLF + rest
         == pairs[0].Print() + (pairs[1].Print() + (PrintAll(pairs[2..]) + CRLF + rest))
  {
    assert pairs[1..][0] == pairs[1] && pairs[1..][1..] == pairs[2..];
    FirstOfBlock(pairs, rest, capacity);
    FirstOfBlock(pairs[1..], rest, capacity);
  }

  lemma FieldInTime(p: Pair, later: seq<byte>, limit: nat, headers: HeaderMap, s: Source, whole: Head)
    returns (seen: Seen)
    requires p.Printable() && |p.Print()| <= s.capacity
    requires s.pending == p.Print() + later && HeadComesTo(s, limit, headers, whole) && whole.Head? && InTime(s, 0)
    ensures GoesOn(seen, limit, headers, whole) && seen.next.pending == later && seen.next.capacity == s.capacity
    ensures seen.step.field == p.Parsed()
    ensures LinesInTime(seen.next, limit - seen.step.size) ==> LinesInTime(s, limit)
  {
    PrintedFieldReadAs(p, s.capacity);
    seen := ReadInTime(p.Print(), p.Parsed(), later, limit, headers, s, whole);
  }

  lemma ReadInTime(line: seq<byte>, field: Field, later: seq<byte>, limit: nat, headers: HeaderMap, s: Source,
                   whole: Head)
    returns (seen: Seen)
    requires ReadAs(HeaderLines(s.capacity), line, Item(field, |line|)) && field.Field?
    requires s.pending == line + later && HeadComesTo(s, limit, headers, whole) && whole.Head? && InTime(s, 0)
    ensures GoesOn(seen, limit, headers, whole) && seen.next.pending == later && seen.next.capacity == s.capacity
    ensures seen.step.field == field
    ensures LinesInTime(seen.next, limit - seen.step.size) ==> LinesInTime(s, limit)
  {
    StepInTime(s);
    assert (line + later)[|line|..] == later;
    seen := ScanLine(s);
    ItemGoesOn(s, limit, headers, whole, seen);
    ItemTimely(s, limit, seen);
  }

  lemma ItemGoesOn(s: Source, limit: nat, headers: HeaderMap, whole: Head, seen: Seen)
    requires seen == ScanLine(s) && seen.step.Item? && seen.step.field.Field?
    requires HeadComesTo(s, limit, headers, whole) && whole.Head?
    ensures GoesOn(seen, limit, headers, whole)
  {
    HeadGoesOn(s, limit, headers, whole, seen);
  }

  lemma {:induction false} ItemTimely(s: Source, limit: nat, seen: Seen)
    requires seen == ScanLine(s) && seen.step.Item? && seen.step.size <= limit
    ensures InTime(s, 0) && LinesInTime(seen.next, limit - seen.step.size) ==> LinesInTime(s, limit)
  {
    AllTimelyStep(LINE_SCANS, IN_TIME, s, limit, seen);
  }

  lemma FieldLate(p: Pair, q: Pair, later: seq<byte>, limit: nat, headers: HeaderMap, s: Source, whole: Head)
    returns (seen: Seen)
    requires p.Printable() && q.Printable() && |p.Print()| <= s.capacity && |q.Print()| <= s.capacity
    requires s.pending == p.Print() + (q.Print() + later)
    requires HeadComesTo(s, limit, headers, whole) && whole.Head? && !InTime(s, 0)
    ensures GoesOn(seen, limit, headers, whole) && seen.next.pending == later && seen.next.capacity == s.capacity
    ensures p.value == [] && seen.step.field == Field(ToName(p.name).value, Some(FieldLine(q)))
  {
    NotStopped(s, limit, headers, whole);
    if p.value != [] {
      StopsAtLateField(p, q.Print() + later, s);
      assert false;
    }
    LateEmptyField(p, q, later, s);
    seen := ScanLine(s);
    ItemGoesOn(s, limit, headers, whole, seen);
  }

  lemma NotStopped(s: Source, limit: nat, headers: HeaderMap, whole: Head)
    requires HeadComesTo(s, limit, headers, whole) && whole.Head?
    ensures !ScanLine(s).step.Stop?
  {
    HeadGoesOn(s, limit, headers, whole, ScanLine(s));
  }

  lemma {:induction false} LastFieldNotLate(p: Pair, limit: nat, headers: HeaderMap, s: Source, whole: Head)
    requires p.Printable() && |p.Print()| <= s.capacity
    requires HeadComesTo(s, limit, headers, whole) && whole.Head? && s.pending == p.Print() + (CRLF + whole.rest)
    ensures InTime(s, 0)
  {
    HeadGoesOn(s, limit, headers, whole, ScanLine(s));
    if !InTime(s, 0) {
      LateLastField(p, whole.rest, s);
      assert false;
    }
  }

  ghost predicate DistinctNames(pairs: seq<Pair>) {
    forall i, j :: 0 <= i < j < |pairs| ==> ToName(pairs[i].name) != ToName(pairs[j].name)
  }

  ghost predicate Absent(name: Text, pairs: seq<Pair>) {
    forall i :: 0 <= i < |pairs| ==> ToName(pairs[i].name) != Some(name)
  }

  ghost predicate AllValued(pairs: seq<Pair>) {
    forall i :: 0 <= i < |pairs| ==> pairs[i].value != []
  }

  /** `headers` has every field as it was printed. */
  ghost predicate Holds(headers: HeaderMap, pairs: seq<Pair>) {
    forall i :: 0 <= i < |pairs| ==>
      var name := ToName(pairs[i].name);
      name.Some? && name.value in headers && headers[name.value] == pairs[i].value
  }

  lemma BlankSeen(pairs: seq<Pair>, limit: nat, headers: HeaderMap, s: Source, whole: Head)
    requires pairs == [] && BlockRead(pairs, limit, headers, s, whole)
    ensures LinesInTime(s, limit) && whole.headers == headers
  {
    assert s.pending == CRLF + whole.rest;
    BlankSeenOnlyInTime(whole.rest, limit, headers, s);
    HeadInTime(s, limit, headers);
    BlockRoundTrip([], whole.rest, s.capacity, limit, headers);
    assert ParsedFields([]) == [];
  }

  /** One field of such a block; the others are such a block again. */
  lemma NextField(pairs: seq<Pair>, limit: nat, headers: HeaderMap, s: Source, whole: Head)
    returns (k: nat, others: seq<Pair>, seen: Seen)
    requires pairs != [] && BlockRead(pairs, limit, headers, s, whole)
    ensures 1 <= k <= |pairs| && others == pairs[k..] && seen.step.Item? && seen.step.size <= limit
    ensures BlockRead(others, limit - seen.step.size, Insert(headers, seen.step.field), seen.next, whole)
    ensures seen.step.field.Field? && Some(seen.step.field.name) == ToName(pairs[0].name)
    ensures k == 1 ==> LinesInTime(seen.next, limit - seen.step.size) ==> LinesInTime(s, limit)
    ensures k > 1 ==> pairs[0].value == [] && seen.step.field.value.Some? && seen.step.field.value.value != []
  {
    if InTime(s, 0) {
      k := 1;
      seen := FirstInTime(pairs, limit, headers, s, whole);
    } else {
      k := 2;
      seen := FirstLate(pairs, limit, headers, s, whole);
    }
    others := pairs[k..];
    OthersRead(pairs, k, s.capacity, limit, headers, seen, whole);
  }

  lemma OthersRead(pairs: seq<Pair>, k: nat, capacity: nat, limit: nat, headers: HeaderMap, seen: Seen, whole: Head)
    requires k <= |pairs| && AllPrintable(pairs, capacity) && 2 <= capacity && whole.Head?
    requires GoesOn(seen, limit, headers, whole)
    requires seen.next.capacity == capacity && seen.next.pending == PrintAll(pairs[k..]) + CRLF + whole.rest
    ensures BlockRead(pairs[k..], limit - seen.step.size, Insert(headers, seen.step.field), seen.next, whole)
  {
    assert forall i :: 0 <= i < |pairs[k..]| ==> pairs[k..][i] == pairs[i + k];
  }

  ghost predicate SameAt(name: Text, headers: HeaderMap, others: HeaderMap) {
    (name in headers <==> name in others) && (name in headers ==> headers[name] == others[name])
  }

  lemma StaysAbsent(pairs: seq<Pair>, k: nat, name: Text, others: seq<Pair>)
    requires 0 < k <= |pairs| && others == pairs[k..] && Absent(name, pairs)
    ensures Absent(name, others) && ToName(pairs[0].name) != Some(name)
  {
    assert forall i :: 0 <= i < |others| ==> others[i] == pairs[i + k];
  }

  lemma InsertsOther(name: Text, headers: HeaderMap, field: Field, all: HeaderMap)
    requires field.Field? && field.name != name && SameAt(name, all, Insert(headers, field))
    ensures SameAt(name, all, headers)
  {}

  /** A name that no later field has is not touched, however late their lines are. */
  lemma {:induction false} NameKept(pairs: seq<Pair>, limit: nat, headers: HeaderMap, s: Source, whole: Head,
                                    name: Text)
    requires BlockRead(pairs, limit, headers, s, whole) && Absent(name, pairs)
    ensures SameAt(name, whole.headers, headers)
    decreases |pairs|
  {
    if pairs == [] {
      BlankSeen(pairs, limit, headers, s, whole);
    } else {
      var k, others, seen := NextField(pairs, limit, headers, s, whole);
      StaysAbsent(pairs, k, name, others);
      NameKept(others, limit - seen.step.size, Insert(headers, seen.step.field), seen.next, whole, name);
      InsertsOther(name, headers, seen.step.field, whole.headers);
    }
  }

  /** Fields from the `k`-th on; the first name is not among them if names are distinct. */
  lemma LaterFields(pairs: seq<Pair>, k: nat, others: seq<Pair>, all: HeaderMap, name: Text)
    requires 0 < k <= |pairs| && others == pairs[k..] && ToName(pairs[0].name) == Some(name)
    ensures AllValued(pairs) ==> AllValued(others)
    ensures Holds(all, pairs) ==> Holds(all, others) && name in all && all[name] == pairs[0].value
    ensures DistinctNames(pairs) ==> DistinctNames(others) && Absent(name, others)
  {
    assert forall i :: 0 <= i < |others| ==> others[i] == pairs[i + k];
  }

  /** A block is read as it was printed only if all its lines were in time: a late line costs an
      error, the blank line, or the value of an empty field. */
  lemma {:induction false} BlockSeenOnlyInTime(pairs: seq<Pair>, limit: nat, headers: HeaderMap, s: Source, whole: Head)
    requires BlockRead(pairs, limit, headers, s, whole)
    requires AllValued(pairs) || (DistinctNames(pairs) && Holds(whole.headers, pairs))
    ensures LinesInTime(s, limit)
    decreases |pairs|
  {
    if pairs == [] {
      BlankSeen(pairs, limit, headers, s, whole);
    } else {
      var k, others, seen := NextField(pairs, limit, headers, s, whole);
      var left, field := limit - seen.step.size, seen.step.field;
      LaterFields(pairs, k, others, whole.headers, field.name);
      if k > 1 {
        assert pairs[0].value == [];
        NameKept(others, left, Insert(headers, field), seen.next, whole, field.name);
        assert false;
      }
      BlockSeenOnlyInTime(others, left, Insert(headers, field), seen.next, whole);
    }
  }

  // ----- Requests -----

  /** The exact condition: a request that is not too long arrives as it was sent if and only if
      every line of it is in time. */
  lemma RequestArrivesIff(path: Text, headers: HeaderMap, order: seq<Text>, rest: seq<byte>, s: Source)
    requires Visible(path) && |PrintRequestLine(GET, path, Http11)| <= s.capacity
    requires Kept(headers) && forall k :: k in order <==> k in headers
    requires (forall i, j :: 0 <= i < j < |order| ==> order[i] != order[j])
             || (forall k :: k in headers ==> headers[k] != [])
    requires AllPrintable(PairsOf(headers, order), s.capacity)
    requires s.pending == PrintHead(GET, path, Http11, headers, order) + rest
    requires |PrintHead(GET, path, Http11, headers, order)| - 2 <= 131072
    ensures RequestSeen(s) == Head(headers, rest) <==> RequestInTime(s)
  {
    var line, pairs := PrintRequestLine(GET, path, Http11), PairsOf(headers, order);
    var later := PrintAll(pairs) + CRLF + rest;
    PrintFieldsIsPrintAll(headers, order);
    Regroup(line, PrintAll(pairs), CRLF, rest);
    if RequestInTime(s) {
      RequestSeenInTime(s);
      RequestRoundTrip(path, headers, order, rest, s.capacity);
    } else if InTime(s, 0) {
      RequestLineSeen(path, later, s);
      if RequestSeen(s) == Head(headers, rest) {
        PairsHeld(headers, order);
        BlockSeenOnlyInTime(pairs, MAXIMUM_HEADER_SIZE - |line|, map[], Past(s, |line|), Head(headers, rest));
        assert false;
      }
    } else {
      LateRequestLine(path, later, s);
    }
  }

  lemma PairsHeld(headers: HeaderMap, order: seq<Text>)
    requires Kept(headers) && forall k :: k in order ==> k in headers
    ensures Holds(headers, PairsOf(headers, order))
    ensures (forall i, j :: 0 <= i < j < |order| ==> order[i] != order[j]) ==> DistinctNames(PairsOf(headers, order))
    ensures (forall k :: k in headers ==> headers[k] != []) ==> AllValued(PairsOf(headers, order))
  {
    var pairs := PairsOf(headers, order);
    forall i | 0 <= i < |pairs|
      ensures ToName(pairs[i].name) == Some(order[i]) && pairs[i].value == headers[order[i]] && order[i] in order
    {}
  }

  lemma {:induction false} RequestLineSeen(path: Text, later: seq<byte>, s: Source)
    requires Visible(path) && |PrintRequestLine(GET, path, Http11)| <= s.capacity
    requires |PrintRequestLine(GET, path, Http11)| <= MAXIMUM_HEADER_SIZE
    requires s.pending == PrintRequestLine(GET, path, Http11) + later && InTime(s, 0)
    ensures var n := |PrintRequestLine(GET, path, Http11)|;
            && n <= Scan(s, 0).held && Past(s, n).pending == later
            && RequestSeen(s) == HeadSeen(Past(s, n), MAXIMUM_HEADER_SIZE - n, map[])
            && (RequestInTime(s) <==> LinesInTime(Past(s, n), MAXIMUM_HEADER_SIZE - n))
  {
    RequestLineFirst(path, later, s.capacity);
    ParsesPrintedRequestLine(path, Http11);
    SeenInTime(s);
    RequestSeenAs(s, LineSeen(s));
  }

  lemma {:induction false} RequestSeenAs(s: Source, line: LineResult)
    requires line == LineSeen(s) && line.Line? && line.size <= MAXIMUM_HEADER_SIZE
    requires ParseRequestLine(line.text) == Some(Http11)
    ensures RequestSeen(s) == HeadSeen(Past(s, line.size), MAXIMUM_HEADER_SIZE - line.size, map[])
    ensures RequestInTime(s) <==> InTime(s, 0) && LinesInTime(Past(s, line.size), MAXIMUM_HEADER_SIZE - line.size)
  {
    assert AfterRequestLine(line) == Block(MAXIMUM_HEADER_SIZE - line.size);
  }

  lemma {:induction false} LateRequestLine(path: Text, later: seq<byte>, s: Source)
    requires Visible(path) && |PrintRequestLine(GET, path, Http11)| <= s.capacity
    requires s.pending == PrintRequestLine(GET, path, Http11) + later && !InTime(s, 0)
    ensures RequestSeen(s).NoHead?
  {
    var line := LineSeen(s);
    if line.Line? {
      RequestText(path, s.capacity);
      var tail := LatePrintedLine(GET + [SPACE] + path + [SPACE] + Http11.Print(), later, s);
      RefusesLateRequestLine(path, tail);
      assert AfterRequestLine(line) == Refused(InvalidStatusLine);
    }
  }

  // ----- A wrong map without an error -----

  lemma {:induction false} NewlineInAt(w: seq<byte>, lo: nat, hi: nat, p: nat)
    requires lo <= p < hi <= |w| && w[p] == NEWLINE && forall i :: lo <= i < p ==> w[i] != NEWLINE
    ensures NewlineIn(w, lo, hi) == p
    decreases p - lo
  {
    if lo < p {
      NewlineInAt(w, lo + 1, hi, p);
    }
  }

  /** A look from inside a printed field, or from its start, finds the end of its line. */
  lemma FieldNewline(before: seq<byte>, p: Pair, later: seq<byte>, capacity: nat, lo: nat, hi: nat)
    requires p.Printable() && |p.Print()| <= capacity
    requires |before| <= lo < |before| + |p.Print()| <= hi <= |before + (p.Print() + later)|
    ensures LookAt(before + (p.Print() + later), lo, hi) == Hit(|before| + |p.Print()|)
  {
    FieldText(p, capacity);
    LineEndsAt(before, FieldLine(p), later);
    NewlineInAt(before + (p.Print() + later), lo, hi, |before| + |p.Print()| - 1);
  }

  lemma LineEndsAt(before: seq<byte>, t: Text, later: seq<byte>)
    requires NoBreaks(t)
    ensures var w, n := before + ((t + CRLF) + later), |before|;
            w[n + |t| + 1] == NEWLINE && forall i :: n <= i < n + |t| + 1 ==> w[i] != NEWLINE
  {
    var w, n := before + ((t + CRLF) + later), |before|;
    assert w[n + |t|] == RETURN;
    assert forall i :: n <= i < n + |t| ==> w[i] == t[i - n];
  }

  /** One byte of a field is buffered; then comes all but its newline, and then everything. */
  ghost predicate Sliced(p: Pair, s: Source) {
    && s.buffered == 1 && Refilled(s).buffered == |p.Print()| - 1
    && Refilled(Refilled(s)).buffered == |s.pending|
  }

  lemma {:induction false} SlicedScan(p: Pair, q: Pair, later: seq<byte>, s: Source)
    requires p.Printable() && q.Printable() && |p.Print()| <= s.capacity && |q.Print()| <= s.capacity
    requires s.pending == p.Print() + (q.Print() + later) && Sliced(p, s)
    ensures Scan(s, 0) == Scanned(At(|p.Print()| + |q.Print()|), |s.pending|)
  {
    var t, n := Refilled(s), |p.Print()|;
    FieldLineEnds(p, q.Print() + later, s);
    LookBeforeNewline(s.pending, 0, 1);
    ScanOnce(s, 0, Miss);
    LookBeforeNewline(s.pending, 1, n - 1);
    ScanOnce(t, 1, Miss);
    FieldNewline(p.Print(), q, later, s.capacity, n, |s.pending|);
    ScanOnce(Refilled(t), n, Hit(n + |q.Print()|));
  }

  /** Two lines read as one. */
  lemma TwoLines(a: seq<byte>, t0: Text, b: seq<byte>, t1: Text, later: seq<byte>)
    requires a == t0 + CRLF && b == t1 + CRLF && t1 != [] && t1[|t1| - 1] != RETURN && Ascii(a) && Ascii(b)
    ensures LineFrom(a + (b + later), At(|a| + |b|)) == Line(t0 + CRLF + t1, |a| + |b|)
  {
    TakesTwo(a, b, later);
    assert a + b == t0 + CRLF + t1 + CRLF;
    ChompsLine(t0 + CRLF + t1);
    AsciiIsUtf8(a + b);
  }

  lemma SwallowedText(p: Pair, q: Pair, later: seq<byte>, capacity: nat)
    requires p.Printable() && q.Printable() && |p.Print()| <= capacity && |q.Print()| <= capacity
    ensures var w, n := p.Print() + (q.Print() + later), |p.Print()| + |q.Print()|;
            LineFrom(w, At(n)) == Line(FieldLine(p) + CRLF + FieldLine(q), n)
  {
    FieldText(q, capacity);
    PrintsAscii(p);
    PrintsAscii(q);
    TwoLines(p.Print(), FieldLine(p), q.Print(), FieldLine(q), later);
  }

  lemma TakesTwo(a: seq<byte>, b: seq<byte>, c: seq<byte>)
    ensures (a + (b + c))[..|a| + |b|] == a + b
  {}

  lemma PrintsAscii(p: Pair)
    requires p.Printable()
    ensures Ascii(p.Print())
  {
    NameIsVisible(p.name);
  }

  lemma FieldLineIsValue(q: Pair)
    requires q.Printable()
    ensures ToValue(FieldLine(q)) == Some(FieldLine(q)) && FieldLine(q) != [] && !IsSpace(FieldLine(q)[0])
  {
    NameIsVisible(q.name);
  }

  /** Sliced like this, an empty field is read with the next line as its value. */
  lemma SwallowsNextLine(p: Pair, q: Pair, later: seq<byte>, s: Source)
    requires p.Printable() && q.Printable() && |p.Print()| <= s.capacity && |q.Print()| <= s.capacity
    requires p.value == [] && s.pending == p.Print() + (q.Print() + later) && Sliced(p, s)
    ensures ScanLine(s) == Seen(Item(Field(ToName(p.name).value, Some(FieldLine(q))), |p.Print()| + |q.Print()|),
                                Source(s.capacity, s.network, later, |later|))
  {
    SlicedScan(p, q, later, s);
    SwallowedText(p, q, later, s.capacity);
    FieldLineIsValue(q);
    ParsesLateEmptyField(p, FieldLine(q));
    StepOfLine(s, LineSeen(s));
    DropsTwo(p.Print(), q.Print(), later);
  }

  /** A block that begins so is read to its end, without an error. */
  lemma {:induction false} SwallowedBlock(pairs: seq<Pair>, rest: seq<byte>, limit: nat, headers: HeaderMap, s: Source)
    requires |pairs| > 1 && AllPrintable(pairs, s.capacity) && 2 <= s.capacity && |PrintAll(pairs)| <= limit
    requires pairs[0].value == [] && s.pending == PrintAll(pairs) + CRLF + rest && Sliced(pairs[0], s)
    ensures ToName(pairs[0].name).Some? && forall i :: 0 <= i < |pairs[2..]| ==> ToName(pairs[2..][i].name).Some?
    ensures var start := Insert(headers, Field(ToName(pairs[0].name).value, Some(FieldLine(pairs[1]))));
            HeadSeen(s, limit, headers) == Head(InsertAll(start, ParsedFields(pairs[2..])), rest)
  {
    var p, q, others := pairs[0], pairs[1], pairs[2..];
    var later := PrintAll(others) + CRLF + rest;
    SecondOfBlock(pairs, rest, s.capacity);
    SizesAdd(pairs, rest);
    SwallowsNextLine(p, q, later, s);
    HeadSeenStep(s, limit, headers);
    assert forall i :: 0 <= i < |others| ==> others[i] == pairs[i + 2];
    BufferedBlock(others, rest, limit - |p.Print()| - |q.Print()|,
                  Insert(headers, Field(ToName(p.name).value, Some(FieldLine(q)))),
                  Source(s.capacity, s.network, later, |later|));
  }

  lemma {:induction false} SizesAdd(pairs: seq<Pair>, rest: seq<byte>)
    requires |pairs| > 1
    ensures |PrintAll(pairs)| == |pairs[0].Print()| + |pairs[1].Print()| + |PrintAll(pairs[2..])|
  {
    assert pairs[1..][1..] == pairs[2..] && pairs[1..][0] == pairs[1];
  }

  lemma {:induction false} BufferedBlock(pairs: seq<Pair>, rest: seq<byte>, limit: nat, headers: HeaderMap, s: Source)
    requires AllPrintable(pairs, s.capacity) && 2 <= s.capacity && |PrintAll(pairs)| <= limit
    requires s.pending == PrintAll(pairs) + CRLF + rest && s.buffered == |s.pending|
    ensures HeadSeen(s, limit, headers) == Head(InsertAll(headers, ParsedFields(pairs)), rest)
  {
    BlockRoundTrip(pairs, rest, s.capacity, limit, headers);
    assert Reach(s) >= s.buffered;
    LinesInReach(s, limit, limit, headers);
    HeadInTime(s, limit, headers);
  }

  /** What the server may make of a header map: `a` has the line of `b` as its value, and `b` is gone. */
  function Swallowed(headers: HeaderMap, a: Text, b: Text): HeaderMap
    requires b in headers
  {
    (headers - {b})[a := FieldLine(Pair(b, headers[b]))]
  }

  /** The network that delivers so much, then so much, and then everything. */
  function Slices(total: nat, first: nat, second: nat): Network {
    (left: nat) => if left == total then first else if left + first == total then second else total
  }

  /** A line that comes with the first fill of an empty buffer. */
  lemma {:induction false} FirstFillHasLine(s: Source)
    requires s.buffered == 0 && Find(s.pending, NEWLINE) < Refilled(s).buffered
    ensures InTime(s, 0) && Scan(s, 0) == Scanned(At(Find(s.pending, NEWLINE) + 1), Refilled(s).buffered)
  {
    var t := Refilled(s);
    ReachIsInTime(s);
    LookBeforeNewline(s.pending, 0, 0);
    ScanOnce(s, 0, Miss);
    LookBeforeNewline(s.pending, 0, t.buffered);
    ScanOnce(t, 0, Hit(Find(s.pending, NEWLINE) + 1));
  }

  lemma {:induction false} RequestLineSliced(line: seq<byte>, later: seq<byte>, capacity: nat, second: nat)
    requires line != [] && 0 < second < |later| - 1 && |line + later| <= capacity
    requires Find(line + later, NEWLINE) == |line| - 1
    ensures var network := Slices(|line + later|, |line| + 1, second);
            var s, t := Source(capacity, network, line + later, 0), Source(capacity, network, later, 1);
            && InTime(s, 0) && |line| <= Scan(s, 0).held && Past(s, |line|) == t
            && Refilled(t).buffered == 1 + second && Refilled(Refilled(t)).buffered == |later|
  {
    var s := Source(capacity, Slices(|line + later|, |line| + 1, second), line + later, 0);
    assert Refilled(s).buffered == |line| + 1;
    FirstFillHasLine(s);
    assert (line + later)[|line|..] == later;
  }

  lemma OtherNames(headers: HeaderMap, order: seq<Text>)
    requires (forall k :: k in order <==> k in headers) && |order| > 1
    requires forall i, j :: 0 <= i < j < |order| ==> order[i] != order[j]
    ensures order[0] in headers && order[1] in headers && order[0] != order[1]
    ensures forall k :: k in order[2..] <==> k in headers && k != order[0] && k != order[1]
  {
    var others := order[2..];
    assert forall i :: 0 <= i < |others| ==> others[i] == order[i + 2];
    assert order[0] in order && order[1] in order;
    forall k | k in headers && k != order[0] && k != order[1]
      ensures k in others
    {
      assert k in order;
      var i :| 0 <= i < |order| && order[i] == k;
      assert others[i - 2] == k;
    }
  }

  lemma IsSwallowed(headers: HeaderMap, a: Text, b: Text, all: HeaderMap)
    requires a in headers && b in headers && a != b
    requires forall k :: k in all <==> k in headers && k != b
    requires forall k :: k in all ==> all[k] == if k == a then FieldLine(Pair(b, headers[b])) else headers[k]
    ensures all == Swallowed(headers, a, b)
  {}

  /** The map that is swallowed into, as it is built. */
  lemma BuildsSwallowed(headers: HeaderMap, order: seq<Text>)
    requires Kept(headers) && (forall k :: k in order <==> k in headers) && |order| > 1
    requires forall i, j :: 0 <= i < j < |order| ==> order[i] != order[j]
    ensures forall k :: k in order[2..] ==> k in headers
    ensures InsertAll(map[order[0] := FieldLine(Pair(order[1], headers[order[1]]))],
                      ParsedFields(PairsOf(headers, order[2..])))
         == Swallowed(headers, order[0], order[1])
  {
    OtherNames(headers, order);
    var a, b, others := order[0], order[1], order[2..];
    var start := map[a := FieldLine(Pair(b, headers[b]))];
    InsertsInOrder(headers, others, start);
    IsSwallowed(headers, a, b, InsertAll(start, ParsedFields(PairsOf(headers, others))));
  }

  /** A late line can do worse than fail: whenever a field without a value comes first, there is a
      network for which the server gets, without an error, a map that was not sent. */
  lemma RequestCanArriveWrong(path: Text, headers: HeaderMap, order: seq<Text>, rest: seq<byte>, capacity: nat)
    requires Visible(path) && Kept(headers) && (forall k :: k in order <==> k in headers) && |order| > 1
    requires forall i, j :: 0 <= i < j < |order| ==> order[i] != order[j]
    requires AllPrintable(PairsOf(headers, order), capacity) && headers[order[0]] == []
    requires var head := PrintHead(GET, path, Http11, headers, order);
             |head| - 2 <= 131072 && |head + rest| <= capacity
    ensures var w := PrintHead(GET, path, Http11, headers, order) + rest;
            var network := Slices(|w|, |PrintRequestLine(GET, path, Http11)| + 1, |order[0]| + 2);
            RequestSeen(Source(capacity, network, w, 0)) == Head(Swallowed(headers, order[0], order[1]), rest)
    ensures Swallowed(headers, order[0], order[1]) != headers
  {
    var line, pairs := PrintRequestLine(GET, path, Http11), PairsOf(headers, order);
    var later := PrintAll(pairs) + CRLF + rest;
    PrintFieldsIsPrintAll(headers, order);
    Regroup(line, PrintAll(pairs), CRLF, rest);
    SizesAdd(pairs, rest);
    SwallowedRequest(path, pairs, rest, capacity, later);
    OthersOf(headers, order);
    BuildsSwallowed(headers, order);
    SwallowedDiffers(headers, order[0], order[1]);
  }

  lemma OthersOf(headers: HeaderMap, order: seq<Text>)
    requires forall k :: k in order ==> k in headers
    requires |order| > 1
    ensures forall k :: k in order[2..] ==> k in headers
    ensures PairsOf(headers, order)[2..] == PairsOf(headers, order[2..])
  {}

  lemma SwallowedDiffers(headers: HeaderMap, a: Text, b: Text)
    requires a in headers && b in headers && a != b && headers[a] == []
    ensures Swallowed(headers, a, b) != headers
  {
    assert Swallowed(headers, a, b)[a] != [];
  }

  lemma {:induction false} SwallowedRequest(path: Text, pairs: seq<Pair>, rest: seq<byte>, capacity: nat,
                                            later: seq<byte>)
    requires Visible(path) && |pairs| > 1 && AllPrintable(pairs, capacity) && pairs[0].value == []
    requires later == PrintAll(pairs) + CRLF + rest
    requires |PrintRequestLine(GET, path, Http11)| + |PrintAll(pairs)| <= MAXIMUM_HEADER_SIZE
    requires |PrintRequestLine(GET, path, Http11)| + |later| <= capacity
    ensures ToName(pairs[0].name).Some? && forall i :: 0 <= i < |pairs[2..]| ==> ToName(pairs[2..][i].name).Some?
    ensures var line := PrintRequestLine(GET, path, Http11);
            var network := Slices(|line + later|, |line| + 1, |pairs[0].name| + 2);
            var start := Insert(map[], Field(ToName(pairs[0].name).value, Some(FieldLine(pairs[1]))));
            RequestSeen(Source(capacity, network, line + later, 0))
            == Head(InsertAll(start, ParsedFields(pairs[2..])), rest)
  {
    var line, second := PrintRequestLine(GET, path, Http11), |pairs[0].name| + 2;
    var network := Slices(|line + later|, |line| + 1, second);
    RequestLineFirst(path, later, capacity);
    SizesAdd(pairs, rest);
    RequestLineSliced(line, later, capacity, second);
    RequestLineSeen(path, later, Source(capacity, network, line + later, 0));
    SwallowedBlock(pairs, rest, MAXIMUM_HEADER_SIZE - |line|, map[], Source(capacity, network, later, 1));
  }
}
