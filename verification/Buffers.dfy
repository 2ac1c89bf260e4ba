/** The tokenisers of src/components/utilities/buffers.cpp. */
module Buffers {
  import opened Bytes

  type Separator = byte -> bool

  /** The length of the separator-free run at the start of a text. */
  function RunLength(sep: Separator, s: bytes): (n: nat)
    ensures n <= |s|
    ensures forall i | 0 <= i < n :: !sep(s[i])
    ensures n < |s| ==> sep(s[n])
  {
    if s == [] || sep(s[0]) then 0 else 1 + RunLength(sep, s[1..])
  }

  /** The maximal non-empty separator-free runs of a text, in order. */
  function Runs(sep: Separator, s: bytes): seq<bytes>
    decreases |s|
  {
    if s == [] then []
    else if sep(s[0]) then Runs(sep, s[1..])
    else
      var n := RunLength(sep, s);
      [s[..n]] + Runs(sep, s[n..])
  }

  ghost predicate Gap(sep: Separator, g: bytes) {
    forall c | c in g :: sep(c)
  }

  ghost predicate Piece(sep: Separator, p: bytes) {
    p != [] && forall c | c in p :: !sep(c)
  }

  /** Pieces with gaps between and around them. */
  function Weave(gaps: seq<bytes>, pieces: seq<bytes>): bytes
    requires |gaps| == |pieces| + 1
  {
    if pieces == [] then gaps[0] else gaps[0] + pieces[0] + Weave(gaps[1..], pieces[1..])
  }

  /** Gaps of separators, none of them empty but perhaps the first and the last. */
  ghost predicate Woven(sep: Separator, gaps: seq<bytes>, pieces: seq<bytes>) {
    && |gaps| == |pieces| + 1
    && (forall i | 0 <= i < |gaps| :: Gap(sep, gaps[i]) && (0 < i < |pieces| ==> gaps[i] != []))
    && (forall i | 0 <= i < |pieces| :: Piece(sep, pieces[i]))
  }

  lemma {:induction false} RunsSkipGap(sep: Separator, g: bytes, s: bytes)
    requires Gap(sep, g)
    ensures Runs(sep, g + s) == Runs(sep, s)
  {
    if g == [] {
      assert g + s == s;
    } else {
      assert (g + s)[0] == g[0] && (g + s)[1..] == g[1..] + s;
      assert g[0] in g && forall c | c in g[1..] :: c in g;
      RunsSkipGap(sep, g[1..], s);
    }
  }

  lemma {:induction false} RunLengthOf(sep: Separator, p: bytes, s: bytes)
    requires (forall c | c in p :: !sep(c)) && (s == [] || sep(s[0]))
    ensures RunLength(sep, p + s) == |p|
  {
    if p == [] {
      assert p + s == s;
    } else {
      assert (p + s)[0] == p[0] && (p + s)[1..] == p[1..] + s;
      assert p[0] in p && forall c | c in p[1..] :: c in p;
      RunLengthOf(sep, p[1..], s);
    }
  }

  lemma RunsTakePiece(sep: Separator, p: bytes, s: bytes)
    requires Piece(sep, p) && (s == [] || sep(s[0]))
    ensures Runs(sep, p + s) == [p] + Runs(sep, s)
  {
    RunLengthOf(sep, p, s);
    assert (p + s)[0] == p[0] && p[0] in p;
    assert (p + s)[..|p|] == p && (p + s)[|p|..] == s;
  }

  /** Splitting a weave gives its pieces. */
  lemma {:induction false} RunsOfWeave(sep: Separator, gaps: seq<bytes>, pieces: seq<bytes>)
    requires Woven(sep, gaps, pieces)
    ensures Runs(sep, Weave(gaps, pieces)) == pieces
  {
    assert Gap(sep, gaps[0]);
    if pieces == [] {
      RunsSkipGap(sep, gaps[0], []);
      assert gaps[0] + [] == gaps[0];
    } else {
      var rest := Weave(gaps[1..], pieces[1..]);
      assert Gap(sep, gaps[1]) && Piece(sep, pieces[0]);
      assert rest == [] || sep(rest[0]) by {
        if rest != [] && gaps[1] != [] {
          assert rest[0] == gaps[1][0] && gaps[1][0] in gaps[1];
        }
      }
      RunsOfWeave(sep, gaps[1..], pieces[1..]);
      RunsTakePiece(sep, pieces[0], rest);
      RunsSkipGap(sep, gaps[0], pieces[0] + rest);
      assert gaps[0] + pieces[0] + rest == gaps[0] + (pieces[0] + rest);
    }
  }

  /** A weave that starts without a gap starts with a piece. */
  lemma FirstGap(sep: Separator, gaps: seq<bytes>, pieces: seq<bytes>)
    requires Woven(sep, gaps, pieces) && gaps[0] == [] && pieces != []
    ensures var s := Weave(gaps, pieces); s != [] && !sep(s[0])
  {
    assert Piece(sep, pieces[0]) && pieces[0][0] in pieces[0];
    assert Weave(gaps, pieces)[0] == pieces[0][0];
  }

  /** A separator in front of a weave widens its first gap. */
  lemma WidenGap(sep: Separator, c: byte, gaps: seq<bytes>, pieces: seq<bytes>)
    requires Woven(sep, gaps, pieces) && sep(c)
    ensures var wider := [[c] + gaps[0]] + gaps[1..];
            Woven(sep, wider, pieces) && Weave(wider, pieces) == [c] + Weave(gaps, pieces)
  {
    assert Gap(sep, gaps[0]);
    assert pieces != [] ==> ([c] + gaps[0]) + pieces[0] + Weave(gaps[1..], pieces[1..]) ==
                            [c] + (gaps[0] + pieces[0] + Weave(gaps[1..], pieces[1..]));
  }

  /** A piece in front of a weave that starts with a gap. */
  lemma AddPiece(sep: Separator, p: bytes, gaps: seq<bytes>, pieces: seq<bytes>)
    requires Woven(sep, gaps, pieces) && Piece(sep, p) && (pieces != [] ==> gaps[0] != [])
    ensures Woven(sep, [[]] + gaps, [p] + pieces) && Weave([[]] + gaps, [p] + pieces) == p + Weave(gaps, pieces)
  {
    var g, q := [[]] + gaps, [p] + pieces;
    assert g[1..] == gaps && q[1..] == pieces;
    assert g[0] + q[0] == p;
    forall i | 0 <= i < |g| ensures Gap(sep, g[i]) && (0 < i < |q| ==> g[i] != []) {
      if i > 0 {
        assert g[i] == gaps[i - 1] && Gap(sep, gaps[i - 1]);
      }
    }
    forall i | 0 <= i < |q| ensures Piece(sep, q[i]) {
      if i > 0 {
        assert q[i] == pieces[i - 1] && Piece(sep, pieces[i - 1]);
      }
    }
  }

  /** Every text is the weave of its runs. */
  lemma {:induction false} TextIsWoven(sep: Separator, s: bytes) returns (gaps: seq<bytes>)
    ensures Woven(sep, gaps, Runs(sep, s)) && Weave(gaps, Runs(sep, s)) == s
    decreases |s|
  {
    if s == [] {
      gaps := [[]];
    } else if sep(s[0]) {
      var rest := TextIsWoven(sep, s[1..]);
      WidenGap(sep, s[0], rest, Runs(sep, s));
      gaps := [[s[0]] + rest[0]] + rest[1..];
    } else {
      var n := RunLength(sep, s);
      var pieces := Runs(sep, s[n..]);
      var rest := TextIsWoven(sep, s[n..]);
      if pieces != [] && rest[0] == [] {
        FirstGap(sep, rest, pieces);
      }
      AddPiece(sep, s[..n], rest, pieces);
      gaps := [[]] + rest;
    }
  }

  predicate LineEnd(c: byte) {
    c == CR || c == LF
  }

  lemma RunsSkip(sep: Separator, s: bytes)
    ensures Runs(sep, []) == []
    ensures s != [] && sep(s[0]) ==> Runs(sep, s) == Runs(sep, s[1..])
  {
  }

  /** buffer_split_lines. */
  method SplitLines(buffer: bytes) returns (result: seq<bytes>)
    ensures result == Runs(LineEnd, buffer)
  {
    hide Runs;
    RunsSkip(LineEnd, []);
    var line := 0;
    var readingLineData := false;
    result := [];
    for index := 0 to |buffer|
      invariant line <= index
      invariant readingLineData ==> line < index && forall i | line <= i < index :: !LineEnd(buffer[i])
      invariant result + Runs(LineEnd, buffer[if readingLineData then line else index..]) == Runs(LineEnd, buffer)
    {
      var c := buffer[index];
      ghost var s := buffer[if readingLineData then line else index..];
      if !readingLineData {
        if LineEnd(c) {
          RunsSkip(LineEnd, s);
          assert s[1..] == buffer[index + 1..];
          continue;
        } else {
          line := index;
          readingLineData := true;
        }
      } else {
        if LineEnd(c) {
          RunDone(LineEnd, buffer, line, index);
          result := result + [buffer[line..index]];
          readingLineData := false;
        }
      }
    }
    if readingLineData {
      RunDone(LineEnd, buffer, line, |buffer|);
      result := result + [buffer[line..]];
      assert buffer[line..|buffer|] == buffer[line..];
    } else {
      assert result + [] == result;
    }
  }

  /** A run that is complete. */
  lemma RunDone(sep: Separator, buffer: bytes, line: nat, index: nat)
    requires line < index <= |buffer| && (index < |buffer| ==> sep(buffer[index]))
    requires forall i | line <= i < index :: !sep(buffer[i])
    ensures Runs(sep, buffer[line..]) ==
            [buffer[line..index]] + if index == |buffer| then [] else Runs(sep, buffer[index + 1..])
  {
    var p, s := buffer[line..index], buffer[index..];
    assert buffer[line..] == p + s;
    RunsTakePiece(sep, p, s);
    if index < |buffer| {
      assert s[1..] == buffer[index + 1..];
    }
  }

  /** The separator test for a single delimiter. */
  function Is(delimiter: byte): Separator {
    c => c == delimiter
  }

  /** The two parts of a text around its first separator; the second part is empty without one. */
  function SplitFirst(s: bytes, delimiter: byte): (bytes, bytes) {
    var n := RunLength(Is(delimiter), s);
    (s[..n], if n == |s| then [] else s[n + 1..])
  }

  /** buffer_split_on_first. */
  method SplitOnFirst(buffer: bytes, delimiter: byte) returns (result: (bytes, bytes))
    ensures result == SplitFirst(buffer, delimiter)
  {
    ghost var sep := Is(delimiter);
    var index := 0;
    var gotFirst := false;
    var first := [];
    assert buffer[0..] == buffer;
    while index < |buffer| && !gotFirst
      invariant index <= |buffer|
      invariant !gotFirst ==> RunLength(sep, buffer) == index + RunLength(sep, buffer[index..])
      invariant gotFirst ==> 0 < index && RunLength(sep, buffer) == index - 1 && first == buffer[..index - 1]
      decreases |buffer| - index, !gotFirst
    {
      assert buffer[index..][1..] == buffer[index + 1..];
      if buffer[index] == delimiter {
        first := buffer[..index];
        gotFirst := true;
      }
      index := index + 1;
    }
    if gotFirst {
      result := (first, buffer[index..]);
    } else {
      assert buffer[..|buffer|] == buffer;
      result := (buffer, []);
    }
  }

  /** The delimiter of buffer_split, or NUL. */
  function IsOrNul(delimiter: byte): Separator {
    c => c == delimiter || c == NUL
  }

  /** buffer_split. */
  method Split(buffer: bytes, delimiter: byte) returns (result: seq<bytes>)
    ensures result == Runs(IsOrNul(delimiter), buffer)
  {
    hide Runs;
    ghost var sep := IsOrNul(delimiter);
    RunsSkip(sep, []);
    var start := 0;
    var lastWasDelimiter := true;
    result := [];
    for index := 0 to |buffer|
      invariant start <= index
      invariant !lastWasDelimiter ==> start < index && forall i | start <= i < index :: !sep(buffer[i])
      invariant result + Runs(sep, buffer[if lastWasDelimiter then index else start..]) == Runs(sep, buffer)
    {
      ghost var s := buffer[if lastWasDelimiter then index else start..];
      if buffer[index] == delimiter || buffer[index] == NUL {
        if !lastWasDelimiter {
          RunDone(sep, buffer, start, index);
          result := result + [buffer[start..index]];
        } else {
          RunsSkip(sep, s);
          assert s[1..] == buffer[index + 1..];
        }
        lastWasDelimiter := true;
      } else {
        if lastWasDelimiter {
          start := index;
        }
        lastWasDelimiter := false;
      }
    }
    if !lastWasDelimiter {
      RunDone(sep, buffer, start, |buffer|);
      result := result + [buffer[start..]];
      assert buffer[start..|buffer|] == buffer[start..];
    } else {
      assert result + [] == result;
    }
  }

  /** Pieces with a delimiter between each two of them. */
  function Joined(buffers: seq<bytes>, delimiter: byte): bytes {
    if buffers == [] then []
    else if |buffers| == 1 then buffers[0]
    else buffers[0] + [delimiter] + Joined(buffers[1..], delimiter)
  }

  lemma {:induction false} JoinedAppend(buffers: seq<bytes>, b: bytes, delimiter: byte)
    ensures Joined(buffers + [b], delimiter) ==
            if buffers == [] then b else Joined(buffers, delimiter) + [delimiter] + b
  {
    var all := buffers + [b];
    if buffers == [] {
      assert all == [b];
    } else {
      assert all[0] == buffers[0] && all[1..] == buffers[1..] + [b];
      JoinedAppend(buffers[1..], b, delimiter);
      if |buffers| > 1 {
        assert buffers[0] + [delimiter] + (Joined(buffers[1..], delimiter) + [delimiter] + b) ==
               buffers[0] + [delimiter] + Joined(buffers[1..], delimiter) + [delimiter] + b;
      }
    }
  }

  /** The pieces from an offset on; unless it is zero, a delimiter stands in front of each of them. */
  function JoinedFrom(buffers: seq<bytes>, delimiter: byte, offset: nat): bytes {
    if offset == 0 then Joined(buffers, delimiter)
    else if offset >= |buffers| then []
    else [delimiter] + Joined(buffers[offset..], delimiter)
  }

  /** One more piece. */
  lemma JoinedFromAppend(buffers: seq<bytes>, b: bytes, delimiter: byte, offset: nat)
    requires offset <= |buffers|
    ensures JoinedFrom(buffers + [b], delimiter, offset) ==
            JoinedFrom(buffers, delimiter, offset) + (if |buffers| == 0 then [] else [delimiter]) + b
  {
    if offset == 0 {
      JoinedAppend(buffers, b, delimiter);
    } else {
      JoinedAppend(buffers[offset..], b, delimiter);
      assert (buffers + [b])[offset..] == buffers[offset..] + [b];
      var j := Joined(buffers[offset..], delimiter);
      assert [delimiter] + (j + [delimiter] + b) == [delimiter] + j + [delimiter] + b;
    }
  }

  /** buffers_join. */
  method Join(buffers: seq<bytes>, delimiter: byte, offset: nat) returns (result: bytes)
    ensures result == JoinedFrom(buffers, delimiter, offset)
  {
    hide Joined, JoinedFrom;
    result := [];
    var i := offset;
    NoneJoined(buffers, delimiter, offset);
    while i < |buffers|
      invariant offset <= i && (offset < |buffers| ==> i <= |buffers|)
      invariant result == JoinedFrom(buffers[..if i < |buffers| then i else |buffers|], delimiter, offset)
    {
      JoinedFromAppend(buffers[..i], buffers[i], delimiter, offset);
      assert buffers[..i + 1] == buffers[..i] + [buffers[i]];
      if i > 0 {
        result := result + [delimiter];
      }
      result := result + buffers[i];
      i := i + 1;
    }
    assert buffers[..|buffers|] == buffers;
  }

  lemma NoneJoined(buffers: seq<bytes>, delimiter: byte, offset: nat)
    ensures JoinedFrom(buffers[..if offset < |buffers| then offset else |buffers|], delimiter, offset) == []
  {
  }

  /** A delimiter in front of a text changes nothing. */
  lemma LeadingDelimiter(text: bytes, delimiter: byte)
    ensures Runs(IsOrNul(delimiter), [delimiter] + text) == Runs(IsOrNul(delimiter), text)
  {
    hide Runs;
    RunsSkip(IsOrNul(delimiter), [delimiter] + text);
    assert ([delimiter] + text)[1..] == text;
  }

  lemma {:induction false} SplitUndoesJoined(buffers: seq<bytes>, delimiter: byte)
    requires forall i | 0 <= i < |buffers| :: Piece(IsOrNul(delimiter), buffers[i])
    ensures Runs(IsOrNul(delimiter), Joined(buffers, delimiter)) == buffers
  {
    hide Runs, Piece;
    var sep := IsOrNul(delimiter);
    RunsSkip(sep, []);
    if |buffers| == 1 {
      assert buffers[0] + [] == buffers[0] && buffers == [buffers[0]];
      RunsTakePiece(sep, buffers[0], []);
    } else if |buffers| > 1 {
      var rest := Joined(buffers[1..], delimiter);
      SplitUndoesJoined(buffers[1..], delimiter);
      RunsTakePiece(sep, buffers[0], [delimiter] + rest);
      LeadingDelimiter(rest, delimiter);
      assert buffers[0] + [delimiter] + rest == buffers[0] + ([delimiter] + rest);
    }
  }

  /** Splitting undoes joining, from any offset on, for non-empty pieces without the delimiter and NUL. */
  lemma SplitUndoesJoin(buffers: seq<bytes>, delimiter: byte, offset: nat)
    requires forall i | 0 <= i < |buffers| :: Piece(IsOrNul(delimiter), buffers[i])
    ensures Runs(IsOrNul(delimiter), JoinedFrom(buffers, delimiter, offset)) ==
            if offset < |buffers| then buffers[offset..] else []
  {
    hide Runs, Piece, Joined;
    if offset == 0 {
      SplitUndoesJoined(buffers, delimiter);
    } else if offset < |buffers| {
      SplitUndoesJoined(buffers[offset..], delimiter);
      LeadingDelimiter(Joined(buffers[offset..], delimiter), delimiter);
    } else {
      RunsSkip(IsOrNul(delimiter), []);
    }
  }

  function ToUpper(c: byte): byte {
    if 97 <= c <= 122 then c - 32 else c
  }

  predicate SameChar(a: byte, b: byte, caseSensitivity: bool) {
    if caseSensitivity then a == b else ToUpper(a) == ToUpper(b)
  }

  /** The value stands at a position of the text, with or without regard to case. */
  ghost predicate Matches(buffer: bytes, at: int, value: bytes, caseSensitivity: bool) {
    0 <= at && at + |value| <= |buffer| &&
    forall i | 0 <= i < |value| :: SameChar(buffer[at + i], value[i], caseSensitivity)
  }

  /** buffer_contains, for a value that is not a null pointer. */
  method Contains(buffer: bytes, value: bytes, caseSensitivity: bool) returns (result: bool)
    ensures result <==> exists at :: Matches(buffer, at, value, caseSensitivity)
  {
    if |value| > |buffer| {
      return false;
    }
    result := false;
    var bufferIndex := 0;
    while bufferIndex <= |buffer| - |value| && !result
      invariant 0 <= bufferIndex <= |buffer| - |value| + 1
      invariant result ==> bufferIndex > 0 && Matches(buffer, bufferIndex - 1, value, caseSensitivity)
      invariant !result ==> forall at | at < bufferIndex :: !Matches(buffer, at, value, caseSensitivity)
      decreases |buffer| - |value| - bufferIndex, !result
    {
      result := true;
      var valueIndex := 0;
      while valueIndex < |value| && result
        invariant 0 <= valueIndex <= |value|
        invariant result ==>
                  forall i | 0 <= i < valueIndex :: SameChar(buffer[bufferIndex + i], value[i], caseSensitivity)
        invariant !result ==> !Matches(buffer, bufferIndex, value, caseSensitivity)
        decreases |value| - valueIndex, result
      {
        if !SameChar(buffer[bufferIndex + valueIndex], value[valueIndex], caseSensitivity) {
          result := false;
        }
        valueIndex := valueIndex + 1;
      }
      bufferIndex := bufferIndex + 1;
    }
  }
}
