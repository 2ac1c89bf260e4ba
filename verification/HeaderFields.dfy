/** Header fields: SipParser::readHeaderLine unfolds them, SipParser::normaliseHeaderData writes
    them in a normal form, and SipMessage::builder splits that again. */
module HeaderFields {
  import opened Bytes
  import opened Buffers

  /** Sizes of the buffers for one name and one value, each with its terminating NUL. */
  const MAX_METHOD := 64
  const MAX_LINE := 512

  const HYPHEN: byte := 45

  /** Letters and hyphens. */
  predicate IsNameChar(c: byte) {
    65 <= c <= 90 || 97 <= c <= 122 || c == HYPHEN
  }

  predicate IsBlank(c: byte) {
    c == SPACE || c == TAB
  }

  /** The number of characters in front of the first LF. */
  function ToLineFeed(s: bytes): (n: nat)
    ensures n <= |s|
    ensures n < |s| ==> s[n] == LF
  {
    if s == [] || s[0] == LF then 0 else 1 + ToLineFeed(s[1..])
  }

  /** Whether a blank stands at `i`; nothing stands behind the end of the text but NUL. */
  predicate BlankAt(s: bytes, i: nat) {
    IsBlank(At(s, i))
  }

  /** The variables of the loop of readHeaderLine, its buffers reduced to what was put into them. */
  datatype Scan = Scan(haveName: bool, haveStartOfValue: bool, name: bytes, value: bytes)

  const SCAN_START := Scan(false, false, [], [])

  /** One turn of the loop: the new variables and how far the cursor moves, unless the line ends. */
  datatype Turn = Turn(scan: Scan, n: nat, ends: bool)

  /** A line ends at the first LF that no blank follows; CRs and other LFs are dropped, and in
      front of the value blanks and colons as well. A line that starts with a hyphen is skipped. */
  function Advance(st: Scan, s: bytes): Turn
    requires s != []
  {
    var c := s[0];
    var isName := !st.haveName && |st.name| < MAX_METHOD - 1 && IsNameChar(c);
    if isName && st.name == [] && c == HYPHEN then Turn(st, ToLineFeed(s) + 1, false)
    else
      var st' := if isName then st.(name := st.name + [c]) else st.(haveName := true);
      if c == CR then Turn(st', 1, false)
      else if c == LF then Turn(st', 1, !BlankAt(s, 1))
      else
        var start := st.haveStartOfValue || (!isName && !IsBlank(c) && c != COLON);
        Turn(st'.(haveStartOfValue := start, value := if start then st.value + [c] else st.value), 1, false)
  }

  function Tail(s: bytes, n: nat): bytes {
    if n <= |s| then s[n..] else []
  }

  lemma WholeTail(s: bytes, n: nat)
    requires n <= |s|
    ensures Tail(s, n) == s[n..]
  {
  }

  lemma EmptyTail(s: bytes, n: nat)
    ensures n >= |s| ==> Tail(s, n) == []
  {
  }

  lemma TailTail(s: bytes, m: nat, n: nat)
    ensures Tail(Tail(s, m), n) == Tail(s, m + n)
  {
  }

  /** A header line read: the characters consumed in front of its last one, its name and value. */
  datatype Line = Line(used: nat, name: bytes, value: bytes)

  function Ahead(l: Line, n: nat): Line {
    l.(used := n + l.used)
  }

  /** The loop of readHeaderLine over the text not yet read. */
  function ScanLine(s: bytes, st: Scan): Line
    decreases |s|
  {
    if s == [] || |st.value| >= MAX_LINE - 1 then Line(0, st.name, st.value)
    else
      var t := Advance(st, s);
      if t.ends then Line(0, t.scan.name, t.scan.value) else Ahead(ScanLine(Tail(s, t.n), t.scan), t.n)
  }

  /** The inner loop that runs to the end of a line to be ignored. */
  method SkipToLineFeed(message: bytes, from: nat) returns (pos: nat)
    requires from <= |message|
    ensures from <= pos <= |message| && pos - from == ToLineFeed(message[from..])
  {
    pos := from;
    while pos < |message|
      invariant from <= pos <= |message|
      invariant pos - from + ToLineFeed(message[pos..]) == ToLineFeed(message[from..])
    {
      if message[pos] == LF {
        break;
      }
      assert message[pos..][1..] == message[pos + 1..];
      pos := pos + 1;
    }
  }

  /** The body of the loop. `messageIndex` lags behind the cursor once a line was skipped. */
  method ReadCharacter(message: bytes, from: nat, messageIndex: nat, st: Scan) returns (pos: nat, st': Scan, ends: bool)
    requires messageIndex <= from < |message|
    ensures pos >= from && (pos == from <==> ends)
    ensures Turn(st', if ends then 1 else pos - from, ends) == Advance(st, message[from..])
  {
    pos, st', ends := from, st, false;
    var c := message[pos];
    if !st.haveName {
      if |st.name| >= MAX_METHOD - 1 || !IsNameChar(c) {
        st' := st'.(haveName := true);
      } else {
        if st.name == [] && c == HYPHEN {
          pos := SkipToLineFeed(message, pos);
          pos := pos + 1;
          return;
        } else {
          st' := st'.(name := st.name + [c]);
        }
      }
    }
    if c == CR {
    } else if c == LF {
      if messageIndex < |message| - 1 && IsBlank(At(message, pos + 1)) {
      } else {
        ends := true;
        return;
      }
    } else {
      if st'.haveName && !st.haveStartOfValue {
        if c != SPACE && c != COLON && c != TAB {
          st' := st'.(haveStartOfValue := true);
        }
      }
      if st'.haveStartOfValue {
        st' := st'.(value := st.value + [c]);
      }
    }
    pos := pos + 1;
  }

  /** The line read when the loop, started at `from`, has come to `pos`. */
  function LineFrom(message: bytes, from: nat, pos: nat, st: Scan): Line
    requires from <= pos
  {
    Ahead(ScanLine(Tail(message, pos), st), pos - from)
  }

  lemma LineFromStart(message: bytes, from: nat)
    requires from <= |message|
    ensures LineFrom(message, from, from, SCAN_START) == ScanLine(message[from..], SCAN_START)
  {
  }

  lemma LineFromStep(message: bytes, from: nat, pos: nat, st: Scan)
    requires from <= pos < |message| && |st.value| < MAX_LINE - 1
    ensures var t := Advance(st, message[pos..]);
            LineFrom(message, from, pos, st) ==
            if t.ends then Line(pos - from, t.scan.name, t.scan.value) else LineFrom(message, from, pos + t.n, t.scan)
  {
    hide Advance;
    TailTail(message, pos, Advance(st, message[pos..]).n);
  }

  lemma LineFromEnd(message: bytes, from: nat, pos: nat, st: Scan)
    requires from <= pos && (pos >= |message| || |st.value| >= MAX_LINE - 1)
    ensures LineFrom(message, from, pos, st) == Line(pos - from, st.name, st.value)
  {
    hide Advance;
  }

  /** The loop of readHeaderLine, up to the last character of the line. */
  method ScanLoop(message: bytes, from: nat) returns (pos: nat, st: Scan)
    requires from < |message|
    ensures pos >= from && Line(pos - from, st.name, st.value) == LineFrom(message, from, from, SCAN_START)
  {
    hide Advance, LineFrom;
    pos, st := from, SCAN_START;
    var messageIndex := pos;
    while pos < |message| && |st.value| < MAX_LINE - 1
      invariant from <= pos && 0 <= messageIndex <= pos
      invariant LineFrom(message, from, pos, st) == LineFrom(message, from, from, SCAN_START)
      decreases |message| - pos
    {
      LineFromStep(message, from, pos, st);
      var ends;
      pos, st, ends := ReadCharacter(message, pos, messageIndex, st);
      if ends {
        return;
      }
      messageIndex := messageIndex + 1;
    }
    LineFromEnd(message, from, pos, st);
  }

  /** SipParser::readHeaderLine. The byte behind the message is taken to be NUL, as in the zeroed
      buffer the message is pulled into. */
  method ReadHeaderLine(message: bytes, from: nat) returns (pos: nat, line: bytes, name: bytes)
    ensures if from >= |message| then pos == from && line == name == []
            else pos > from && Line(pos - from - 1, name, line) == ScanLine(message[from..], SCAN_START)
  {
    if from >= |message| {
      return from, [], [];
    }
    hide LineFrom, ScanLine;
    LineFromStart(message, from);
    var st;
    pos, st := ScanLoop(message, from);
    return pos + 1, st.value, st.name;
  }

  // ---------- the normal form ----------

  /** A line of the normal form. Behind a name of one letter or none there is no colon. */
  function Emitted(name: bytes, value: bytes): bytes {
    if |name| > 1 then name + [COLON] + value + [CR, LF] else name + value + [CR, LF]
  }

  /** SipParser::normaliseHeaderData: lines are read up to the first one without a value. */
  function Normalised(s: bytes): bytes
    decreases |s|
  {
    if s == [] then []
    else
      var l := ScanLine(s, SCAN_START);
      if l.value == [] then [] else Emitted(l.name, l.value) + Normalised(Tail(s, l.used + 1))
  }

  method Normalise(message: bytes) returns (text: bytes)
    ensures text == Normalised(message)
  {
    hide ScanLine, Tail, Emitted;
    text := [];
    var pos := 0;
    WholeTail(message, 0);
    assert message[0..] == message;
    while true
      invariant text + Normalised(Tail(message, pos)) == Normalised(message)
      decreases |message| - pos
    {
      ghost var start := pos;
      var line, name;
      EmptyTail(message, pos);
      if pos < |message| {
        WholeTail(message, pos);
      }
      pos, line, name := ReadHeaderLine(message, pos);
      if |line| == 0 {
        assert text + [] == text;
        return;
      }
      TailTail(message, start, pos - start);
      ghost var was := text;
      text := text + Emitted(name, line);
      assert was + (Emitted(name, line) + Normalised(Tail(message, pos))) ==
             text + Normalised(Tail(message, pos));
    }
  }

  /** The name and value of every line of a normal form, as SipMessage::builder splits it. */
  function FieldsOf(text: bytes): seq<(bytes, bytes)> {
    var lines := Runs(LineEnd, text);
    seq(|lines|, i requires 0 <= i < |lines| => SplitFirst(lines[i], COLON))
  }

  /** The loops over lines and fields in SipMessage::builder. */
  method BuilderFields(text: bytes) returns (fields: seq<(bytes, bytes)>)
    ensures fields == FieldsOf(text)
  {
    var lines := SplitLines(text);
    fields := [];
    for lineIndex := 0 to |lines|
      invariant |fields| == lineIndex && forall i | 0 <= i < lineIndex :: fields[i] == SplitFirst(lines[i], COLON)
    {
      var items := SplitOnFirst(lines[lineIndex], COLON);
      fields := fields + [items];
    }
  }

  // ---------- any folding ----------

  /** A field as it was sent: the name, and everything behind it up to the end of the line. */
  datatype RawField = RawField(name: bytes, tail: bytes) {

    /** The value: CRs and LFs dropped, and blanks and colons in front of it. */
    function Value(): bytes {
      Body(tail, false)
    }

    /** The text of the field, terminated by LF; a CR in front of that belongs to the tail. */
    function Text(): bytes {
      name + tail + [LF]
    }

    ghost predicate Valid() {
      && 2 <= |name| < MAX_METHOD && name[0] != HYPHEN && (forall c | c in name :: IsNameChar(c))
      && tail != [] && !IsNameChar(tail[0])
      && Folded(tail)
      && 1 <= |Value()| < MAX_LINE - 1
    }
  }

  /** Every LF inside is followed by a blank. */
  ghost predicate Folded(t: bytes) {
    forall i | 0 <= i < |t| && t[i] == LF :: BlankAt(t, i + 1)
  }

  function Body(t: bytes, started: bool): bytes {
    if t == [] then []
    else if t[0] == CR || t[0] == LF then Body(t[1..], started)
    else if !started && (IsBlank(t[0]) || t[0] == COLON) then Body(t[1..], false)
    else [t[0]] + Body(t[1..], true)
  }

  function Sent(fields: seq<RawField>): bytes {
    if fields == [] then [] else fields[0].Text() + Sent(fields[1..])
  }

  /** What may follow the last field: nothing, or text whose first line has no value, such as the empty
      line that ends the header section. */
  ghost predicate EndOfHeaders(end: bytes) {
    end == [] || (!BlankAt(end, 0) && ScanLine(end, SCAN_START).value == [])
  }

  lemma NameTurn(s: bytes, done: bytes)
    requires s != [] && IsNameChar(s[0]) && |done| < MAX_METHOD - 1 && (done == [] ==> s[0] != HYPHEN)
    ensures ScanLine(s, Scan(false, false, done, [])) ==
            Ahead(ScanLine(Tail(s, 1), Scan(false, false, done + [s[0]], [])), 1)
  {
    assert Advance(Scan(false, false, done, []), s) == Turn(Scan(false, false, done + [s[0]], []), 1, false);
  }

  /** The name is read up to the first character that does not belong to it. */
  lemma {:induction false} NamePhase(name: bytes, rest: bytes, done: bytes)
    requires (forall c | c in name :: IsNameChar(c)) && |done| + |name| < MAX_METHOD
    requires done == [] && name != [] ==> name[0] != HYPHEN
    ensures ScanLine(name + rest, Scan(false, false, done, [])) ==
            Ahead(ScanLine(rest, Scan(false, false, done + name, [])), |name|)
  {
    hide ScanLine, Advance, Tail, IsNameChar;
    var s := name + rest;
    if name == [] {
      assert s == rest && done + name == done;
    } else {
      assert s[0] == name[0] && s[1..] == name[1..] + rest;
      WholeTail(s, 1);
      assert name[0] in name && forall c | c in name[1..] :: c in name;
      NamePhase(name[1..], rest, done + [name[0]]);
      assert done + [name[0]] + name[1..] == done + name;
      NameTurn(s, done);
    }
  }

  lemma ScanStep(s: bytes, st: Scan)
    requires s != [] && |st.value| < MAX_LINE - 1
    ensures ScanLine(s, st) ==
            var t := Advance(st, s);
            if t.ends then Line(0, t.scan.name, t.scan.value) else Ahead(ScanLine(Tail(s, t.n), t.scan), t.n)
  {
  }

  lemma FoldedTail(t: bytes)
    requires Folded(t) && t != []
    ensures Folded(t[1..])
  {
    var u := t[1..];
    forall i | 0 <= i < |u| && u[i] == LF ensures BlankAt(u, i + 1) {
      assert t[i + 1] == LF && BlankAt(t, i + 2);
    }
  }

  /** One turn behind the name. */
  lemma TailTurn(t: bytes, rest: bytes, st: Scan)
    requires t != [] && Folded(t) && (st.haveName || !IsNameChar(t[0])) && !BlankAt(rest, 0)
    ensures var start := st.haveStartOfValue || (t[0] != CR && t[0] != LF && !IsBlank(t[0]) && t[0] != COLON);
            var value := if start && t[0] != CR && t[0] != LF then st.value + [t[0]] else st.value;
            Advance(st, t + [LF] + rest) == Turn(Scan(true, start, st.name, value), 1, false)
  {
    var s := t + [LF] + rest;
    assert s[0] == t[0];
    if t[0] == LF {
      assert BlankAt(t, 1);
      assert s[1] == t[1];
    }
  }

  /** Behind the name the value is collected up to the LF that no blank follows. */
  lemma {:induction false} TailPhase(t: bytes, rest: bytes, st: Scan)
    requires Folded(t) && (st.haveName || t == [] || !IsNameChar(t[0])) && !BlankAt(rest, 0)
    requires |st.value| + |Body(t, st.haveStartOfValue)| < MAX_LINE - 1
    ensures ScanLine(t + [LF] + rest, st) == Line(|t|, st.name, st.value + Body(t, st.haveStartOfValue))
  {
    hide Advance, ScanLine;
    var s := t + [LF] + rest;
    ScanStep(s, st);
    if t == [] {
      assert s == [LF] + rest;
      LineEnds(rest, st);
    } else {
      TailTurn(t, rest, st);
      FoldedTail(t);
      var st' := Advance(st, s).scan;
      assert Tail(s, 1) == t[1..] + [LF] + rest;
      TailPhase(t[1..], rest, st');
      assert st.value + Body(t, st.haveStartOfValue) == st'.value + Body(t[1..], st'.haveStartOfValue);
    }
  }

  lemma LineEnds(rest: bytes, st: Scan)
    requires !BlankAt(rest, 0)
    ensures var t := Advance(st, [LF] + rest); t.ends && t.scan.name == st.name && t.scan.value == st.value
  {
    assert BlankAt([LF] + rest, 1) == BlankAt(rest, 0);
  }

  /** One field is read as its name and its unfolded value. */
  lemma FieldLine(f: RawField, rest: bytes)
    requires f.Valid() && !BlankAt(rest, 0)
    ensures ScanLine(f.Text() + rest, SCAN_START) == Line(|f.name| + |f.tail|, f.name, f.Value())
    ensures Tail(f.Text() + rest, |f.name| + |f.tail| + 1) == rest
  {
    hide ScanLine, Body;
    var behind := f.tail + [LF] + rest;
    assert f.Text() + rest == f.name + behind;
    NamePhase(f.name, behind, []);
    assert [] + f.name == f.name;
    TailPhase(f.tail, rest, Scan(false, false, f.name, []));
    assert [] + f.Value() == f.Value();
  }

  /** The normal form of a list of fields. */
  function NormalForm(fields: seq<RawField>): bytes {
    if fields == [] then [] else Emitted(fields[0].name, fields[0].Value()) + NormalForm(fields[1..])
  }

  lemma NoBlankAhead(fields: seq<RawField>, end: bytes)
    requires (forall f | f in fields :: f.Valid()) && EndOfHeaders(end)
    ensures !BlankAt(Sent(fields) + end, 0)
    ensures fields != [] ==> Sent(fields) + end == fields[0].Text() + (Sent(fields[1..]) + end)
    ensures Normalised(end) == []
  {
    hide EndOfHeaders, Normalised, BlankAt, RawField.Valid, RawField.Text;
    EndNormalised(end);
    if fields == [] {
      assert Sent(fields) + end == end;
    } else {
      assert fields[0] in fields;
      TextStart(fields[0], Sent(fields[1..]) + end);
      assert fields[0].Text() + Sent(fields[1..]) + end == fields[0].Text() + (Sent(fields[1..]) + end);
    }
  }

  lemma TextStart(f: RawField, more: bytes)
    requires f.Valid()
    ensures !BlankAt(f.Text() + more, 0)
  {
    hide Folded, Body;
    assert f.Text() + more == f.name + (f.tail + [LF] + more);
    assert (f.Text() + more)[0] == f.name[0] && f.name[0] in f.name;
  }

  lemma EndNormalised(end: bytes)
    requires EndOfHeaders(end)
    ensures Normalised(end) == [] && !BlankAt(end, 0)
  {
    hide ScanLine;
  }

  /** A line without a value, a field or the empty line, ends the header section, whatever follows. */
  lemma ValuelessLineEnds(name: bytes, tail: bytes, rest: bytes)
    requires (forall c | c in name :: IsNameChar(c)) && |name| < MAX_METHOD && (name != [] ==> name[0] != HYPHEN)
    requires Folded(tail) && Body(tail, false) == [] && (tail != [] ==> !IsNameChar(tail[0])) && !BlankAt(rest, 0)
    requires name == [] && tail != [] ==> !IsBlank(tail[0])
    ensures EndOfHeaders(name + tail + [LF] + rest)
  {
    hide ScanLine, Body, Folded;
    var behind := tail + [LF] + rest;
    var end := name + tail + [LF] + rest;
    assert end == name + behind;
    NamePhase(name, behind, []);
    assert [] + name == name;
    TailPhase(tail, rest, Scan(false, false, name, []));
    if name != [] {
      assert end[0] == name[0] && name[0] in name;
    } else {
      assert end[0] == (if tail == [] then LF else tail[0]);
    }
  }

  lemma {:induction false} SentIsNormalised(fields: seq<RawField>, end: bytes)
    requires (forall f | f in fields :: f.Valid()) && EndOfHeaders(end)
    ensures Normalised(Sent(fields) + end) == NormalForm(fields)
  {
    hide ScanLine, Emitted;
    NoBlankAhead(fields, end);
    if fields == [] {
      assert Sent(fields) + end == end;
    } else {
      var f, rest := fields[0], Sent(fields[1..]) + end;
      assert f in fields && forall g | g in fields[1..] :: g in fields;
      NoBlankAhead(fields[1..], end);
      FieldLine(f, rest);
      SentIsNormalised(fields[1..], end);
    }
  }

  lemma {:induction false} BodyIsClean(t: bytes, started: bool)
    ensures forall c | c in Body(t, started) :: !LineEnd(c)
  {
    if t != [] {
      BodyIsClean(t[1..], true);
      BodyIsClean(t[1..], false);
    }
  }

  /** The line of a field is one run, and splits at its first colon into name and value. */
  lemma FieldSplits(f: RawField, rest: bytes)
    requires f.Valid()
    ensures var line := f.name + [COLON] + f.Value();
            && Runs(LineEnd, Emitted(f.name, f.Value()) + rest) == [line] + Runs(LineEnd, rest)
            && SplitFirst(line, COLON) == (f.name, f.Value())
  {
    hide Runs, Body, RunLength;
    var name, value := f.name, f.Value();
    var line, behind := name + [COLON] + value, [CR, LF] + rest;
    BodyIsClean(f.tail, false);
    assert Piece(LineEnd, line);
    RunsTakePiece(LineEnd, line, behind);
    RunsSkipGap(LineEnd, [CR, LF], rest);
    assert Emitted(name, value) + rest == line + behind;
    assert line == name + ([COLON] + value);
    RunLengthOf(Is(COLON), name, [COLON] + value);
  }

  function Pairs(fields: seq<RawField>): seq<(bytes, bytes)> {
    seq(|fields|, i requires 0 <= i < |fields| => (fields[i].name, fields[i].Value()))
  }

  lemma {:induction false} NormalFormSplits(fields: seq<RawField>)
    requires forall f | f in fields :: f.Valid()
    ensures FieldsOf(NormalForm(fields)) == Pairs(fields)
  {
    hide Emitted, SplitFirst;
    if fields == [] {
      assert Runs(LineEnd, []) == [];
    } else {
      var f, rest := fields[0], NormalForm(fields[1..]);
      assert f in fields && forall g | g in fields[1..] :: g in fields;
      NormalFormSplits(fields[1..]);
      FieldSplits(f, rest);
      var lines := Runs(LineEnd, NormalForm(fields));
      assert lines[1..] == Runs(LineEnd, rest);
      assert FieldsOf(NormalForm(fields)) == [(f.name, f.Value())] + FieldsOf(rest);
      assert Pairs(fields) == [(f.name, f.Value())] + Pairs(fields[1..]);
    }
  }

  /** Normalising and splitting gives back the names and the scanned values, in order. */
  lemma RawFieldsSurvive(fields: seq<RawField>, end: bytes)
    requires (forall f | f in fields :: f.Valid()) && EndOfHeaders(end)
    ensures FieldsOf(Normalised(Sent(fields) + end)) == Pairs(fields)
  {
    SentIsNormalised(fields, end);
    NormalFormSplits(fields);
  }

  // ---------- folding as section 7.3.1 of RFC 3261 has it ----------

  /** `t` is `value` with CRLF inserted in front of some of its blanks. */
  predicate IsFolding(t: bytes, value: bytes) {
    if t == [] then value == []
    else if |t| >= 3 && t[0] == CR && t[1] == LF && IsBlank(t[2]) then IsFolding(t[2..], value)
    else value != [] && t[0] == value[0] && !LineEnd(t[0]) && IsFolding(t[1..], value[1..])
  }

  /** No fold stands in front of a value that starts with no blank. */
  lemma {:induction false} FoldingStart(t: bytes, value: bytes)
    requires IsFolding(t, value) && value != [] && !IsBlank(value[0])
    ensures t != [] && t[0] == value[0]
    decreases |t|
  {
    if |t| >= 3 && t[0] == CR && t[1] == LF && IsBlank(t[2]) {
      FoldingFirst(t[2..], value);
    }
  }

  /** A folding of a non-empty value starts with its first character, or with a fold if that is a blank. */
  lemma {:induction false} FoldingFirst(t: bytes, value: bytes)
    requires IsFolding(t, value) && t != [] && IsBlank(t[0])
    ensures value != [] && value[0] == t[0]
  {
  }

  lemma {:induction false} FoldingBody(t: bytes, value: bytes, started: bool)
    requires IsFolding(t, value) && (started || value == [] || (!IsBlank(value[0]) && value[0] != COLON))
    requires !started && value != [] ==> t[0] == value[0]
    ensures Folded(t + [CR]) && Body(t + [CR], started) == value
    decreases |t|
  {
    var s := t + [CR];
    if t == [] {
    } else if |t| >= 3 && t[0] == CR && t[1] == LF && IsBlank(t[2]) {
      assert s[1..][1..] == t[2..] + [CR];
      FoldingBody(t[2..], value, started);
      PrependFold(t[2..] + [CR]);
      assert s == [CR, LF] + (t[2..] + [CR]);
    } else {
      assert s[1..] == t[1..] + [CR];
      FoldingBody(t[1..], value[1..], true);
      PrependPlain(t[0], t[1..] + [CR]);
      assert s == [t[0]] + (t[1..] + [CR]);
      assert value == [value[0]] + value[1..];
    }
  }

  lemma PrependFold(t: bytes)
    requires Folded(t) && BlankAt(t, 0)
    ensures Folded([CR, LF] + t)
  {
    var s := [CR, LF] + t;
    forall i | 0 <= i < |s| && s[i] == LF ensures BlankAt(s, i + 1) {
      if i >= 2 {
        assert t[i - 2] == LF && BlankAt(t, i - 1);
      }
    }
  }

  lemma PrependPlain(c: byte, t: bytes)
    requires Folded(t) && c != LF
    ensures Folded([c] + t)
  {
    var s := [c] + t;
    forall i | 0 <= i < |s| && s[i] == LF ensures BlankAt(s, i + 1) {
      assert t[i - 1] == LF && BlankAt(t, i);
    }
  }

  /** Blanks with CRLF inserted in front of some of them. */
  predicate FoldedBlanks(t: bytes) {
    if t == [] then true
    else if |t| >= 3 && t[0] == CR && t[1] == LF && IsBlank(t[2]) then FoldedBlanks(t[3..])
    else IsBlank(t[0]) && FoldedBlanks(t[1..])
  }

  /** Blanks in front of the value, folded or not, are dropped. */
  lemma {:induction false} LeadIn(lead: bytes, t: bytes)
    requires FoldedBlanks(lead) && Folded(t)
    ensures Folded(lead + t) && Body(lead + t, false) == Body(t, false)
    decreases |lead|
  {
    hide Folded, Body;
    if lead == [] {
      assert lead + t == t;
    } else if |lead| >= 3 && lead[0] == CR && lead[1] == LF && IsBlank(lead[2]) {
      LeadIn(lead[3..], t);
      BlankDropped(lead[2], lead[3..] + t);
      PrependFold([lead[2]] + (lead[3..] + t));
      FoldDropped([lead[2]] + (lead[3..] + t));
      assert lead + t == [CR, LF] + ([lead[2]] + (lead[3..] + t));
    } else {
      LeadIn(lead[1..], t);
      BlankDropped(lead[0], lead[1..] + t);
      assert lead + t == [lead[0]] + (lead[1..] + t);
    }
  }

  lemma BlankDropped(c: byte, t: bytes)
    requires (IsBlank(c) || c == COLON) && Folded(t)
    ensures Folded([c] + t) && Body([c] + t, false) == Body(t, false)
  {
    PrependPlain(c, t);
    assert ([c] + t)[1..] == t;
  }

  lemma FoldDropped(t: bytes)
    ensures Body([CR, LF] + t, false) == Body(t, false)
  {
    var s := [CR, LF] + t;
    assert s[1..][1..] == t && s[1..][0] == LF;
  }

  /** A field as RFC 3261 lets it be written: the name, blanks, a colon, blanks and the value, with
      CRLF in front of any of the blanks, in the value as well. */
  datatype FoldedLine = FoldedLine(name: bytes, before: bytes, after: bytes, text: bytes, value: bytes) {

    ghost predicate Valid() {
      && 2 <= |name| < MAX_METHOD && name[0] != HYPHEN && (forall c | c in name :: IsNameChar(c))
      && FoldedBlanks(before) && FoldedBlanks(after)
      && IsFolding(text, value) && 1 <= |value| < MAX_LINE - 1 && !IsBlank(value[0]) && value[0] != COLON
    }

    function Raw(): RawField {
      RawField(name, before + ([COLON] + (after + (text + [CR]))))
    }

    /** The field as it is sent, with CRLF at its end. */
    function Text(): bytes {
      name + before + [COLON] + after + text + [CR, LF]
    }
  }

  /** A field written in any of these ways has its value. */
  lemma FoldedField(l: FoldedLine)
    requires l.Valid()
    ensures l.Raw().Valid() && l.Raw().Value() == l.value && l.Raw().Text() == l.Text()
  {
    hide Folded, Body, IsFolding, FoldedBlanks, IsNameChar;
    var tail := l.text + [CR];
    FoldingStart(l.text, l.value);
    FoldingBody(l.text, l.value, false);
    LeadIn(l.after, tail);
    BlankDropped(COLON, l.after + tail);
    LeadIn(l.before, [COLON] + (l.after + tail));
    TailStart(l.before, [COLON] + (l.after + tail));
    SameText(l.name, l.before, l.after, l.text);
  }

  lemma SameText(name: bytes, before: bytes, after: bytes, text: bytes)
    ensures name + (before + ([COLON] + (after + (text + [CR])))) + [LF] ==
            name + before + [COLON] + after + text + [CR, LF]
  {
  }

  lemma TailStart(before: bytes, behind: bytes)
    requires FoldedBlanks(before) && behind != [] && behind[0] == COLON
    ensures !IsNameChar((before + behind)[0])
  {
    if before != [] {
      assert (before + behind)[0] == before[0];
    }
  }

  /** The header section of a message, whatever the folding of its fields. */
  function SentLines(lines: seq<FoldedLine>): bytes {
    if lines == [] then [] else lines[0].Text() + SentLines(lines[1..])
  }

  function RawFields(lines: seq<FoldedLine>): seq<RawField> {
    seq(|lines|, i requires 0 <= i < |lines| => lines[i].Raw())
  }

  lemma {:induction false} SentLinesAreSent(lines: seq<FoldedLine>)
    requires forall l | l in lines :: l.Valid()
    ensures SentLines(lines) == Sent(RawFields(lines))
  {
    if lines != [] {
      assert lines[0] in lines && forall l | l in lines[1..] :: l in lines;
      FoldedField(lines[0]);
      SentLinesAreSent(lines[1..]);
      assert RawFields(lines)[1..] == RawFields(lines[1..]);
    }
  }

  /** Header fields survive any folding: however their lines are folded, normalising and splitting
      gives back exactly the names and values, in order. */
  lemma FieldsSurviveFolding(lines: seq<FoldedLine>, end: bytes)
    requires (forall l | l in lines :: l.Valid()) && EndOfHeaders(end)
    ensures FieldsOf(Normalised(SentLines(lines) + end)) ==
            seq(|lines|, i requires 0 <= i < |lines| => (lines[i].name, lines[i].value))
  {
    hide Normalised, FieldsOf, RawField.Valid, FoldedLine.Valid;
    var fields := RawFields(lines);
    forall i | 0 <= i < |lines|
      ensures fields[i].Valid() && fields[i].Value() == lines[i].value && fields[i].name == lines[i].name
    {
      assert lines[i] in lines;
      FoldedField(lines[i]);
    }
    SentLinesAreSent(lines);
    RawFieldsSurvive(fields, end);
  }

  /** A field without a value loses everything behind it: the normal form holds the fields in front of
      it and no others, a later Content-Length not excepted. */
  lemma FieldsBehindAreLost(lines: seq<FoldedLine>, name: bytes, tail: bytes, rest: bytes)
    requires forall l | l in lines :: l.Valid()
    requires (forall c | c in name :: IsNameChar(c)) && 0 < |name| < MAX_METHOD && name[0] != HYPHEN
    requires Folded(tail) && Body(tail, false) == [] && (tail != [] ==> !IsNameChar(tail[0])) && !BlankAt(rest, 0)
    ensures FieldsOf(Normalised(SentLines(lines) + (name + tail + [LF] + rest))) ==
            seq(|lines|, i requires 0 <= i < |lines| => (lines[i].name, lines[i].value))
  {
    ValuelessLineEnds(name, tail, rest);
    FieldsSurviveFolding(lines, name + tail + [LF] + rest);
  }

  /** The empty line that ends the header section is such an end, with or without more behind it. */
  lemma EmptyLineEnds(rest: bytes)
    requires !BlankAt(rest, 0)
    ensures EndOfHeaders([CR, LF] + rest)
  {
    assert Body([CR], false) == Body([CR][1..], false) == [];
    ValuelessLineEnds([], [CR], rest);
    assert [] + [CR] + [LF] + rest == [CR, LF] + rest;
  }
}
