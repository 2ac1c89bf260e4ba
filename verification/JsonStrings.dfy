/** Strings in JSON text: valueToQuotedStringN, Reader::readString, Reader::decodeString,
    Reader::decodeUnicodeCodePoint and codePointToUTF8. */
module JsonStrings {
  import opened Bytes

  const QUOTE: byte := 34
  const BACKSLASH: byte := 92
  const SLASH: byte := 47
  const LOWER_U: byte := 117

  // ---------- writing ----------

  /** The letter of a short escape, if a byte has one. */
  function ShortEscape(c: byte): Option<byte> {
    match c
    case 34 => Some(34)
    case 92 => Some(92)
    case 8 => Some(98)
    case 12 => Some(102)
    case 10 => Some(110)
    case 13 => Some(114)
    case 9 => Some(116)
    case _ => None
  }

  /** Control characters and NUL. Bytes from 128 on are negative characters and not among them. */
  predicate IsControl(c: byte) {
    c <= 0x1F
  }

  function HexDigit(n: nat): byte
    requires n < 16
  {
    if n < 10 then 48 + n as byte else 55 + n as byte
  }

  function EscapeByte(c: byte): (r: bytes)
    ensures r != []
  {
    match ShortEscape(c)
    case Some(letter) => [BACKSLASH, letter]
    case None =>
      if IsControl(c) then [BACKSLASH, LOWER_U, 48, 48, HexDigit(c as nat / 16), HexDigit(c as nat % 16)]
      else [c]
  }

  function Escaped(s: bytes): bytes {
    if s == [] then [] else EscapeByte(s[0]) + Escaped(s[1..])
  }

  function Quoted(s: bytes): bytes {
    [QUOTE] + Escaped(s) + [QUOTE]
  }

  /** No byte that needs an escape. */
  predicate Plain(s: bytes) {
    forall c | c in s :: ShortEscape(c).None? && !IsControl(c)
  }

  lemma {:induction false} PlainIsEscaped(s: bytes)
    requires Plain(s)
    ensures Escaped(s) == s
  {
    if s != [] {
      assert s[0] in s;
      PlainIsEscaped(s[1..]);
    }
  }

  lemma {:induction false} EscapedAppend(s: bytes, t: bytes)
    ensures Escaped(s + t) == Escaped(s) + Escaped(t)
  {
    if s == [] {
      assert s + t == t;
    } else {
      assert (s + t)[1..] == s[1..] + t;
      EscapedAppend(s[1..], t);
    }
  }

  /** strnpbrk over the characters that have a short escape. */
  method ContainsShortEscape(value: bytes) returns (found: bool)
    ensures found <==> exists i :: 0 <= i < |value| && ShortEscape(value[i]).Some?
  {
    for cur := 0 to |value|
      invariant forall i | 0 <= i < cur :: ShortEscape(value[i]).None?
    {
      if ShortEscape(value[cur]).Some? {
        return true;
      }
    }
    return false;
  }

  /** containsControlCharacter0. */
  method ContainsControlCharacter(value: bytes) returns (found: bool)
    ensures found <==> exists i :: 0 <= i < |value| && IsControl(value[i])
  {
    for cur := 0 to |value|
      invariant forall i | 0 <= i < cur :: !IsControl(value[i])
    {
      if IsControl(value[cur]) {
        return true;
      }
    }
    return false;
  }

  /** valueToQuotedStringN. The fast path copies a value that needs no escape. */
  method ValueToQuotedString(value: bytes) returns (result: bytes)
    ensures result == Quoted(value)
  {
    hide Escaped, EscapeByte, ShortEscape, IsControl;
    var short := ContainsShortEscape(value);
    var control := ContainsControlCharacter(value);
    if !short && !control {
      PlainIsEscaped(value);
      return [QUOTE] + value + [QUOTE];
    }
    EscapedOne(0);
    result := [QUOTE];
    ghost var done := [];
    for i := 0 to |value|
      invariant done == value[..i] && result == [QUOTE] + Escaped(done)
    {
      AppendOne([QUOTE], done, value[i]);
      result := AppendEscaped(result, value[i]);
      done := done + [value[i]];
    }
    assert value[..|value|] == value;
    result := result + [QUOTE];
  }

  lemma AppendOne(before: bytes, s: bytes, c: byte)
    ensures before + Escaped(s) + EscapeByte(c) == before + Escaped(s + [c])
  {
    hide Escaped, EscapeByte;
    EscapedOne(c);
    EscapedAppend(s, [c]);
  }

  lemma EscapedOne(c: byte)
    ensures Escaped([c]) == EscapeByte(c) && Escaped([]) == []
  {
    assert Escaped([c]) == EscapeByte(c) + Escaped([c][1..]);
  }

  /** The body of the loop of valueToQuotedStringN. */
  method AppendEscaped(text: bytes, c: byte) returns (result: bytes)
    ensures result == text + EscapeByte(c)
  {
    match ShortEscape(c)
    case Some(letter) =>
      result := text + [BACKSLASH, letter];
    case None =>
      if IsControl(c) {
        var n := c as nat;
        result := text + [BACKSLASH, LOWER_U, 48, 48, HexDigit(n / 16), HexDigit(n % 16)];
      } else {
        result := text + [c];
      }
  }

  // ---------- finding the end of a string ----------

  /** How far Reader::readString goes in what follows the opening quote, and whether it found
      the closing one. The character behind a backslash is skipped. */
  function StringEnd(s: bytes): (r: (nat, bool))
    ensures r.0 <= |s| && (r.1 ==> r.0 > 0)
  {
    if s == [] then (0, false)
    else if s[0] == BACKSLASH then
      if |s| == 1 then (1, false)
      else var r := StringEnd(s[2..]); (2 + r.0, r.1)
    else if s[0] == QUOTE then (1, true)
    else var r := StringEnd(s[1..]); (1 + r.0, r.1)
  }

  /** The reader stops at the closing quote the writer wrote, whatever follows. */
  lemma {:induction false} StringEndIsClosingQuote(s: bytes, rest: bytes)
    ensures StringEnd(Escaped(s) + [QUOTE] + rest) == (|Escaped(s)| + 1, true)
  {
    if s == [] {
      assert Escaped(s) + [QUOTE] + rest == [QUOTE] + rest;
    } else {
      var e, tail := EscapeByte(s[0]), Escaped(s[1..]) + [QUOTE] + rest;
      assert Escaped(s) + [QUOTE] + rest == e + tail;
      StringEndIsClosingQuote(s[1..], rest);
      StringEndSkipsEscape(s[0], tail);
    }
  }

  lemma StringEndSkipsEscape(c: byte, tail: bytes)
    ensures StringEnd(EscapeByte(c) + tail) == (|EscapeByte(c)| + StringEnd(tail).0, StringEnd(tail).1)
  {
    hide EscapeByte, StringEnd;
    EscapeShape(c);
    var e := EscapeByte(c);
    var s := e + tail;
    if |e| == 1 {
      assert s[1..] == tail;
      StringEndSkipsOne(s);
    } else {
      assert s[2..] == e[2..] + tail;
      StringEndSkipsTwo(s);
      PlainSkipped(e[2..], tail);
    }
  }

  /** An escape is one plain character, or a backslash and another character with plain ones behind. */
  lemma EscapeShape(c: byte)
    ensures var e := EscapeByte(c);
            if |e| == 1 then e[0] != QUOTE && e[0] != BACKSLASH
            else |e| >= 2 && e[0] == BACKSLASH && forall x | x in e[2..] :: x != QUOTE && x != BACKSLASH
  {
    if IsControl(c) && ShortEscape(c).None? {
      var d1, d2 := HexDigit(c as nat / 16), HexDigit(c as nat % 16);
      assert EscapeByte(c)[2..] == [48, 48, d1, d2];
    }
  }

  lemma StringEndSkipsOne(s: bytes)
    requires s != [] && s[0] != BACKSLASH && s[0] != QUOTE
    ensures StringEnd(s) == (1 + StringEnd(s[1..]).0, StringEnd(s[1..]).1)
  {
  }

  /** A backslash and the character behind it are skipped. */
  lemma StringEndSkipsTwo(s: bytes)
    requires |s| >= 2 && s[0] == BACKSLASH
    ensures StringEnd(s) == (2 + StringEnd(s[2..]).0, StringEnd(s[2..]).1)
  {
  }

  lemma {:induction false} PlainSkipped(p: bytes, tail: bytes)
    requires forall c | c in p :: c != QUOTE && c != BACKSLASH
    ensures StringEnd(p + tail) == (|p| + StringEnd(tail).0, StringEnd(tail).1)
  {
    if p == [] {
      assert p + tail == tail;
    } else {
      assert (p + tail)[0] == p[0] && (p + tail)[1..] == p[1..] + tail;
      assert p[0] in p && forall c | c in p[1..] :: c in p;
      PlainSkipped(p[1..], tail);
    }
  }

  // ---------- decoding ----------

  /** A code point as UTF-8. */
  function CodePointToUtf8(cp: nat): bytes {
    if cp <= 0x7F then [cp as byte]
    else if cp <= 0x7FF then [(0xC0 + cp / 0x40) as byte, (0x80 + cp % 0x40) as byte]
    else if cp <= 0xFFFF then
      [(0xE0 + cp / 0x1000) as byte, (0x80 + cp / 0x40 % 0x40) as byte, (0x80 + cp % 0x40) as byte]
    else if cp <= 0x10FFFF then
      [(0xF0 + cp / 0x40000) as byte, (0x80 + cp / 0x1000 % 0x40) as byte, (0x80 + cp / 0x40 % 0x40) as byte,
       (0x80 + cp % 0x40) as byte]
    else []
  }

  function HexValue(c: byte): Option<nat> {
    if 48 <= c <= 57 then Some(c as nat - 48)
    else if 97 <= c <= 102 then Some(c as nat - 97 + 10)
    else if 65 <= c <= 70 then Some(c as nat - 65 + 10)
    else None
  }

  /** Four hexadecimal digits. */
  function Hex4(s: bytes): (r: Option<nat>)
    ensures r.Some? ==> |s| >= 4 && r.value <= 0xFFFF
  {
    if |s| < 4 then None
    else
      match (HexValue(s[0]), HexValue(s[1]), HexValue(s[2]), HexValue(s[3]))
      case (Some(a), Some(b), Some(c), Some(d)) => Some(((a * 16 + b) * 16 + c) * 16 + d)
      case _ => None
  }

  /** The code point of a \u escape, after the `u`, and the number of characters it takes. A high
      surrogate must be followed by a second escape, whose value is not checked. */
  function UnicodeCodePoint(s: bytes): (r: Option<(nat, nat)>)
    ensures r.Some? ==> r.value.1 <= |s| && r.value.0 <= 0x10FFFF
  {
    match Hex4(s)
    case None => None
    case Some(u) =>
      if 0xD800 <= u <= 0xDBFF then
        if |s| < 10 || s[4] != BACKSLASH || s[5] != LOWER_U then None
        else
          match Hex4(s[6..])
          case None => None
          case Some(pair) => Some((0x10000 + u % 0x400 * 0x400 + pair % 0x400, 10))
      else Some((u, 4))
  }

  function Unescape1(letter: byte): Option<byte> {
    match letter
    case 34 => Some(34)
    case 47 => Some(47)
    case 92 => Some(92)
    case 98 => Some(8)
    case 102 => Some(12)
    case 110 => Some(10)
    case 114 => Some(13)
    case 116 => Some(9)
    case _ => None
  }

  /** The bytes that the characters between the quotes of a string token stand for. */
  function Unescaped(s: bytes): Option<bytes>
    decreases |s|
  {
    if s == [] || s[0] == QUOTE then Some([])
    else if s[0] == BACKSLASH then
      if |s| == 1 then None
      else if s[1] == LOWER_U then
        match UnicodeCodePoint(s[2..])
        case None => None
        case Some((cp, n)) => Prepend(CodePointToUtf8(cp), Unescaped(s[2 + n..]))
      else
        match Unescape1(s[1])
        case None => None
        case Some(c) => Prepend([c], Unescaped(s[2..]))
    else Prepend([s[0]], Unescaped(s[1..]))
  }

  function Prepend(p: bytes, r: Option<bytes>): Option<bytes> {
    match r
    case None => None
    case Some(s) => Some(p + s)
  }

  lemma HexDigitValue(n: nat)
    requires n < 16
    ensures HexValue(HexDigit(n)) == Some(n)
  {
  }

  /** The unicode escape of a control character has that character's code. */
  lemma ControlCodePoint(c: byte, tail: bytes)
    requires IsControl(c) && ShortEscape(c).None?
    ensures UnicodeCodePoint(EscapeByte(c)[2..] + tail) == Some((c as nat, 4))
  {
    hide HexValue, HexDigit;
    HexDigitValue(0);
    HexDigitValue(c as nat / 16);
    HexDigitValue(c as nat % 16);
    var t := EscapeByte(c)[2..] + tail;
    assert HexDigit(0) == 48 by { ZeroDigit(); }
    assert t[0] == 48 && t[1] == 48 && t[2] == HexDigit(c as nat / 16) && t[3] == HexDigit(c as nat % 16);
    assert Hex4(t) == Some(c as nat);
  }

  lemma ZeroDigit()
    ensures HexDigit(0) == 48
  {
  }

  /** Undoing the escape of one byte. */
  lemma UnescapeByte(c: byte, tail: bytes)
    ensures Unescaped(EscapeByte(c) + tail) == Prepend([c], Unescaped(tail))
  {
    if ShortEscape(c).Some? {
      UnescapeShort(c, tail);
    } else if IsControl(c) {
      UnescapeControl(c, tail);
    } else {
      assert ([c] + tail)[1..] == tail;
    }
  }

  lemma UnescapeShort(c: byte, tail: bytes)
    requires ShortEscape(c).Some?
    ensures Unescaped(EscapeByte(c) + tail) == Prepend([c], Unescaped(tail))
  {
    var s := EscapeByte(c) + tail;
    assert s == [BACKSLASH, ShortEscape(c).value] + tail;
    assert Unescape1(ShortEscape(c).value) == Some(c);
    hide UnicodeCodePoint, ShortEscape, Unescape1;
    assert s[2..] == tail;
  }

  lemma UnescapeControl(c: byte, tail: bytes)
    requires IsControl(c) && ShortEscape(c).None?
    ensures Unescaped(EscapeByte(c) + tail) == Prepend([c], Unescaped(tail))
  {
    var e := EscapeByte(c);
    var s := e + tail;
    ControlCodePoint(c, tail);
    assert CodePointToUtf8(c as nat) == [c];
    assert |e| == 6 && e[0] == BACKSLASH && e[1] == LOWER_U;
    hide UnicodeCodePoint, EscapeByte, CodePointToUtf8;
    assert s[2..] == e[2..] + tail;
    assert s[2 + 4..] == tail;
  }

  /** Decoding what the writer wrote between the quotes gives the original bytes. */
  lemma {:induction false} UnescapeEscaped(s: bytes)
    ensures Unescaped(Escaped(s)) == Some(s)
  {
    if s != [] {
      UnescapeEscaped(s[1..]);
      UnescapeByte(s[0], Escaped(s[1..]));
      assert [s[0]] + s[1..] == s;
    }
  }

  /** Every byte string survives quoting: the reader finds the writer's closing quote, whatever
      follows it, and decodes what lies between to the original bytes. */
  lemma QuotingRoundTrip(s: bytes, rest: bytes)
    ensures var text := Quoted(s) + rest;
            var end := StringEnd(text[1..]);
            end.1 && 1 + end.0 == |Quoted(s)| && Unescaped(text[1..end.0]) == Some(s)
  {
    var text := Quoted(s) + rest;
    assert text[1..] == Escaped(s) + [QUOTE] + rest;
    StringEndIsClosingQuote(s, rest);
    assert text[1..|Escaped(s)| + 1] == Escaped(s);
    UnescapeEscaped(s);
  }

  // ---------- UTF-8 ----------

  /** The code points that UTF-8 can encode: no surrogates (section 3 of RFC 3629). */
  predicate IsScalar(cp: nat) {
    cp <= 0x10FFFF && !(0xD800 <= cp <= 0xDFFF)
  }

  /** The code point a UTF-8 sequence stands for, none if it is malformed, not the shortest, or stands
      for a surrogate. */
  function Utf8Value(s: bytes): Option<nat> {
    var tail := (c: byte) => 0x80 <= c < 0xC0;
    if |s| == 1 && s[0] < 0x80 then Some(s[0] as nat)
    else if |s| == 2 && 0xC0 <= s[0] < 0xE0 && tail(s[1]) then
      var v := (s[0] as nat - 0xC0) * 0x40 + (s[1] as nat - 0x80);
      if v > 0x7F then Some(v) else None
    else if |s| == 3 && 0xE0 <= s[0] < 0xF0 && tail(s[1]) && tail(s[2]) then
      var v := ((s[0] as nat - 0xE0) * 0x40 + (s[1] as nat - 0x80)) * 0x40 + (s[2] as nat - 0x80);
      if v > 0x7FF && IsScalar(v) then Some(v) else None
    else if |s| == 4 && 0xF0 <= s[0] < 0xF8 && tail(s[1]) && tail(s[2]) && tail(s[3]) then
      var v := (((s[0] as nat - 0xF0) * 0x40 + (s[1] as nat - 0x80)) * 0x40 + (s[2] as nat - 0x80)) * 0x40 +
          (s[3] as nat - 0x80);
      if v > 0xFFFF && IsScalar(v) then Some(v) else None
    else None
  }

  /** A code point is written as the one well-formed, shortest sequence for it if and only if UTF-8
      can encode it. Surrogates are written all the same, but ill-formed; beyond the last code point
      nothing is written. */
  lemma Utf8RoundTrip(cp: nat)
    ensures Utf8Value(CodePointToUtf8(cp)) == Some(cp) <==> IsScalar(cp)
    ensures !IsScalar(cp) ==> Utf8Value(CodePointToUtf8(cp)) == None
    ensures CodePointToUtf8(cp) == [] <==> cp > 0x10FFFF
  {
    if 0x800 <= cp <= 0xFFFF {
      Utf8Three(cp);
    } else if 0xFFFF < cp <= 0x10FFFF {
      Utf8Four(cp);
    }
  }

  /** A code point of three bytes. */
  lemma Utf8Three(cp: nat)
    requires 0x800 <= cp <= 0xFFFF
    ensures Utf8Value(CodePointToUtf8(cp)) == if IsScalar(cp) then Some(cp) else None
  {
    var q := cp / 0x40;
    assert cp / 0x1000 == q / 0x40;
    var t := CodePointToUtf8(cp);
    assert ((t[0] as nat - 0xE0) * 0x40 + (t[1] as nat - 0x80)) * 0x40 + (t[2] as nat - 0x80) == cp;
  }

  /** A code point of four bytes. */
  lemma Utf8Four(cp: nat)
    requires 0xFFFF < cp <= 0x10FFFF
    ensures Utf8Value(CodePointToUtf8(cp)) == Some(cp)
  {
    var q := cp / 0x40;
    assert cp / 0x1000 == q / 0x40 && cp / 0x40000 == q / 0x40 / 0x40;
    var t := CodePointToUtf8(cp);
    assert (((t[0] as nat - 0xF0) * 0x40 + (t[1] as nat - 0x80)) * 0x40 + (t[2] as nat - 0x80)) * 0x40 +
           (t[3] as nat - 0x80) == cp;
  }

  /** The escape of a lone low surrogate is accepted and decoded to an ill-formed sequence. */
  lemma LoneLowSurrogate()
    ensures Unescaped([BACKSLASH, LOWER_U, 68, 67, 48, 48]) == Some([0xED, 0xB0, 0x80]) &&
            Utf8Value([0xED, 0xB0, 0x80]) == None
  {
    var s := [BACKSLASH, LOWER_U, 68, 67, 48, 48];
    assert s[2..] == [68, 67, 48, 48] && Hex4(s[2..]) == Some(0xDC00);
    assert UnicodeCodePoint(s[2..]) == Some((0xDC00, 4));
    assert s[6..] == [] && Unescaped([]) == Some([]);
    assert CodePointToUtf8(0xDC00) == [0xED, 0xB0, 0x80];
    assert Unescaped(s) == Prepend(CodePointToUtf8(0xDC00), Unescaped(s[6..]));
    assert CodePointToUtf8(0xDC00) + [] == CodePointToUtf8(0xDC00);
  }

  /** A high surrogate is combined with any second escape, here with that of the letter A. */
  lemma HighSurrogateTakesAny()
    ensures UnicodeCodePoint([68, 56, 48, 48, BACKSLASH, LOWER_U, 48, 48, 52, 49]) == Some((0x10041, 10))
  {
    var s := [68, 56, 48, 48, BACKSLASH, LOWER_U, 48, 48, 52, 49];
    assert Hex4(s) == Some(0xD800);
    assert s[6..] == [48, 48, 52, 49] && Hex4(s[6..]) == Some(0x41);
  }
}
