/** base64Encode and base64Decode (src/components/utilities/base64.cpp; section 4 of RFC 4648). */
module Base64 {
  import opened Bytes

  const PAD: byte := 61

  /** What a search for a character outside the alphabet yields, cut to a byte. */
  const NOT_FOUND: nat := 255

  /** The character for a six-bit value: A-Z, a-z, 0-9, `+` and `/`. */
  function Symbol(i: nat): byte
    requires i < 64
  {
    if i < 26 then 65 + i as byte
    else if i < 52 then 71 + i as byte
    else if i < 62 then (i - 4) as byte
    else if i == 62 then 43
    else 47
  }

  /** The position of a character in the alphabet. */
  function Index(c: byte): (i: nat)
    ensures i < 64 || i == NOT_FOUND
  {
    if 65 <= c <= 90 then c as nat - 65
    else if 97 <= c <= 122 then c as nat - 71
    else if 48 <= c <= 57 then c as nat + 4
    else if c == 43 then 62
    else if c == 47 then 63
    else NOT_FOUND
  }

  predicate IsBase64(c: byte) {
    Index(c) < 64
  }

  lemma SymbolIndex(i: nat)
    requires i < 64
    ensures Index(Symbol(i)) == i
  {
  }

  /** Three bytes as four six-bit values. */
  function Sextets(a: byte, b: byte, c: byte): (nat, nat, nat, nat) {
    (a as nat / 4, a as nat % 4 * 16 + b as nat / 16, b as nat % 16 * 4 + c as nat / 64, c as nat % 64)
  }

  function Symbols(a: byte, b: byte, c: byte): (t: bytes)
    ensures |t| == 4
  {
    var q := Sextets(a, b, c);
    [Symbol(q.0), Symbol(q.1), Symbol(q.2), Symbol(q.3)]
  }

  function Encoded(s: bytes): bytes {
    if |s| == 0 then []
    else if |s| == 1 then Symbols(s[0], 0, 0)[..2] + [PAD, PAD]
    else if |s| == 2 then Symbols(s[0], s[1], 0)[..3] + [PAD]
    else Symbols(s[0], s[1], s[2]) + Encoded(s[3..])
  }

  /** Four six-bit values as three bytes, each cut to eight bits. */
  function Octets(a: nat, b: nat, c: nat, d: nat): (t: bytes)
    ensures |t| == 3
  {
    [First(a, b), Second(b, c), Third(c, d)]
  }

  function First(a: nat, b: nat): byte {
    ((a * 4 + b % 64 / 16) % 256) as byte
  }

  function Second(b: nat, c: nat): byte {
    ((b % 16 * 16 + c % 64 / 4) % 256) as byte
  }

  function Third(c: nat, d: nat): byte {
    ((c % 4 * 64 + d) % 256) as byte
  }

  /** The length of the part of a text that is decoded: up to the first character outside the alphabet. */
  function Extent(s: bytes): (n: nat)
    ensures n <= |s|
    ensures forall i | 0 <= i < n :: IsBase64(s[i])
    ensures n < |s| ==> !IsBase64(s[n])
  {
    if s == [] || !IsBase64(s[0]) then 0 else 1 + Extent(s[1..])
  }

  /** The value of the `i`-th character of a last, incomplete group; the missing ones are looked up
      as NUL, which is not in the alphabet. */
  function GroupValue(p: bytes, i: nat): nat {
    if i < |p| then Index(p[i]) else Index(NUL)
  }

  function DecodedGroups(p: bytes): bytes {
    if |p| == 0 then []
    else if |p| < 4 then Octets(GroupValue(p, 0), GroupValue(p, 1), GroupValue(p, 2), GroupValue(p, 3))[..|p| - 1]
    else Octets(Index(p[0]), Index(p[1]), Index(p[2]), Index(p[3])) + DecodedGroups(p[4..])
  }

  function Decoded(s: bytes): bytes {
    DecodedGroups(s[..Extent(s)])
  }

  // ---------- the two loops ----------

  lemma EncodedGroup(s: bytes)
    requires |s| >= 3
    ensures Encoded(s) == Symbols(s[0], s[1], s[2]) + Encoded(s[3..])
  {
  }

  /** Appends the first `n` of the characters of a group. */
  method AppendSymbols(ret: bytes, four: bytes, n: nat) returns (r: bytes)
    requires n <= |four|
    ensures r == ret + four[..n]
  {
    r := ret;
    for j := 0 to n
      invariant r == ret + four[..j]
    {
      r := r + [four[j]];
    }
  }

  /** A full group: its four characters go to the result. */
  lemma GroupDone(ret: bytes, three: bytes, rest: bytes, all: bytes)
    requires |three| == 3 && ret + Encoded(three + rest) == all
    ensures ret + Symbols(three[0], three[1], three[2]) + Encoded(rest) == all
  {
    hide Encoded, Symbols;
    var left := three + rest;
    EncodedGroup(left);
    assert left[3..] == rest;
    var four := Symbols(three[0], three[1], three[2]);
    assert ret + (four + Encoded(rest)) == ret + four + Encoded(rest);
  }

  method Encode(buf: bytes) returns (ret: bytes)
    ensures ret == Encoded(buf)
  {
    hide Encoded, Symbols;
    ret := [];
    var i := 0;
    var three := new byte[3];
    var index := 0;
    ghost var all := Encoded(buf);
    assert [] + all == all && [] + buf[0..|buf|] == buf;
    while index < |buf|
      invariant 0 <= index <= |buf| && 0 <= i < 3
      invariant ret + Encoded(three[..i] + buf[index..|buf|]) == all
    {
      ghost var before := three[..i];
      MoveOne(before, buf, index, |buf|);
      three[i] := buf[index];
      i := i + 1;
      index := index + 1;
      assert three[..i] == before + [buf[index - 1]];
      if i == 3 {
        ret := EncodeGroup(ret, three, buf[index..|buf|], all);
        i := 0;
        assert three[..0] + buf[index..|buf|] == buf[index..|buf|];
      }
    }
    assert three[..i] + buf[index..|buf|] == three[..i];
    ret := EncodeRest(ret, three, i);
  }

  /** The characters of a full group are appended. */
  method EncodeGroup(ret0: bytes, three: array<byte>, ghost rest: bytes, ghost all: bytes) returns (ret: bytes)
    requires three.Length == 3 && ret0 + Encoded(three[..3] + rest) == all
    ensures ret == ret0 + Symbols(three[0], three[1], three[2]) && ret + Encoded(rest) == all
  {
    hide Encoded, Symbols;
    GroupDone(ret0, three[..3], rest, all);
    var four := Symbols(three[0], three[1], three[2]);
    assert four[..4] == four;
    ret := AppendSymbols(ret0, four, 4);
  }

  /** The end of base64Encode: up to two bytes that are left over. */
  method EncodeRest(ret0: bytes, three: array<byte>, i0: nat) returns (ret: bytes)
    requires three.Length == 3 && i0 < 3
    modifies three
    ensures ret == ret0 + Encoded(old(three[..i0]))
  {
    ret := ret0;
    var i := i0;
    ghost var left := three[..i];
    if i > 0 {
      for j := i to 3
        invariant three[..i] == left
        invariant forall k | i <= k < j :: three[k] == 0
      {
        three[j] := 0;
      }
      assert left[0] == three[0] && (i == 2 ==> left[1] == three[1]);
      var four := Symbols(three[0], three[1], three[2]);
      ret := AppendSymbols(ret, four, i + 1);
      ghost var pads := [];
      while i < 3
        invariant i0 <= i <= 3
        invariant pads == [PAD, PAD][..i - i0]
        invariant ret == ret0 + (four[..i0 + 1] + pads)
      {
        ret := ret + [PAD];
        pads := pads + [PAD];
        i := i + 1;
      }
    }
  }

  lemma DecodedGroup(p: bytes)
    requires |p| >= 4
    ensures DecodedGroups(p) == Octets(Index(p[0]), Index(p[1]), Index(p[2]), Index(p[3])) + DecodedGroups(p[4..])
  {
  }

  /** The bytes of a full group. */
  function Group(four: bytes): bytes
    requires |four| == 4
  {
    Octets(Index(four[0]), Index(four[1]), Index(four[2]), Index(four[3]))
  }

  /** A full group: its three bytes go to the result. */
  lemma OctetsDone(data: bytes, four: bytes, rest: bytes, all: bytes)
    requires |four| == 4 && data + DecodedGroups(four + rest) == all
    ensures data + Group(four) + DecodedGroups(rest) == all
  {
    hide DecodedGroups, Octets, Index;
    var left := four + rest;
    DecodedGroup(left);
    assert left[4..] == rest;
    assert data + (Group(four) + DecodedGroups(rest)) == data + Group(four) + DecodedGroups(rest);
  }

  /** Moving one character into the group. */
  lemma MoveOne(group: bytes, s: bytes, i: nat, end: nat)
    requires i < end <= |s|
    ensures group + s[i..end] == group + [s[i]] + s[i + 1..end]
  {
  }

  /** The loop goes on exactly while it is in the part that is decoded. */
  lemma ExtentIsGuard(s: bytes, i: nat)
    requires i <= Extent(s)
    ensures i < Extent(s) <==> i < |s| && s[i] != PAD && IsBase64(s[i])
  {
    PadIsForeign();
  }

  lemma NothingDecoded(s: bytes)
    ensures [] + DecodedGroups(s[..Extent(s)]) == Decoded(s)
  {
  }

  method Decode(s: bytes) returns (decodedData: bytes)
    ensures decodedData == Decoded(s)
  {
    hide DecodedGroups, Octets, Index, IsBase64, Extent, Decoded;
    var i := 0;
    var four := new byte[4];
    var inputIndex := 0;
    decodedData := [];
    ghost var end := Extent(s);
    ExtentIsGuard(s, 0);
    NothingDecoded(s);
    ghost var all := Decoded(s);
    assert [] + s[0..end] == s[..end];
    while inputIndex < |s| && s[inputIndex] != PAD && IsBase64(s[inputIndex])
      invariant 0 <= inputIndex <= end && 0 <= i < 4
      invariant inputIndex < end <==> inputIndex < |s| && s[inputIndex] != PAD && IsBase64(s[inputIndex])
      invariant decodedData + DecodedGroups(four[..i] + s[inputIndex..end]) == all
    {
      ghost var before := four[..i];
      MoveOne(before, s, inputIndex, end);
      four[i] := s[inputIndex];
      i := i + 1;
      inputIndex := inputIndex + 1;
      ExtentIsGuard(s, inputIndex);
      assert four[..i] == before + [s[inputIndex - 1]];
      if i == 4 {
        decodedData := DecodeGroup(decodedData, four, s[inputIndex..end], all);
        i := 0;
        assert four[..0] + s[inputIndex..end] == s[inputIndex..end];
      }
    }
    assert four[..i] + s[inputIndex..end] == four[..i];
    decodedData := DecodeRest(decodedData, four, i);
  }

  /** The bytes of a full group are appended. */
  method DecodeGroup(data: bytes, four: array<byte>, ghost rest: bytes, ghost all: bytes) returns (decodedData: bytes)
    requires four.Length == 4 && data + DecodedGroups(four[..4] + rest) == all
    ensures decodedData == data + Group(four[..]) && decodedData + DecodedGroups(rest) == all
  {
    hide DecodedGroups, Octets, Index;
    assert four[..4] == four[..];
    OctetsDone(data, four[..], rest, all);
    decodedData := data + Octets(Index(four[0]), Index(four[1]), Index(four[2]), Index(four[3]));
  }

  lemma PadIsForeign()
    ensures !IsBase64(PAD) && Index(NUL) == NOT_FOUND
  {
  }

  /** The end of base64Decode: a group of up to three characters that is left over. */
  method DecodeRest(data: bytes, four: array<byte>, i: nat) returns (decodedData: bytes)
    requires four.Length == 4 && i < 4
    modifies four
    ensures decodedData == data + DecodedGroups(old(four[..i]))
  {
    hide DecodedGroups, Octets, Index;
    ghost var group := four[..i];
    decodedData := data;
    if i > 0 {
      for j := i to 4
        invariant four[..i] == group
        invariant forall k | i <= k < j :: four[k] == NUL
      {
        four[j] := NUL;
      }
      LastGroup(group, four[0], four[1], four[2], four[3]);
      decodedData := decodedData + Octets(Index(four[0]), Index(four[1]), Index(four[2]), Index(four[3]))[..i - 1];
    } else {
      LastGroup(group, NUL, NUL, NUL, NUL);
    }
  }

  lemma LastGroup(p: bytes, a: byte, b: byte, c: byte, d: byte)
    requires |p| < 4
    requires |p| > 0 ==> a == p[0]
    requires b == (if |p| > 1 then p[1] else NUL) && c == (if |p| > 2 then p[2] else NUL) && d == NUL
    ensures DecodedGroups(p) == if p == [] then [] else Octets(Index(a), Index(b), Index(c), Index(d))[..|p| - 1]
  {
    hide Octets, Index;
  }

  // ---------- decoding inverts encoding ----------

  /** Putting the parts of a byte together again. */
  lemma FirstOfSextets(a: byte, b: byte)
    ensures First(a as nat / 4, a as nat % 4 * 16 + b as nat / 16) == a
  {
    var x, y := a as nat, b as nat / 16;
    assert x % 4 * 16 + y < 64 && (x % 4 * 16 + y) / 16 == x % 4;
    assert x / 4 * 4 + x % 4 == x;
  }

  lemma Middle(x: nat, y: nat, z: nat)
    requires z < 4
    ensures (x * 16 + y / 16) % 16 == y / 16 % 16
    ensures (y % 16 * 4 + z) % 64 / 4 == y % 16
  {
    assert y % 16 * 4 + z < 64;
  }

  lemma SecondOfSextets(a: byte, b: byte, c: byte)
    ensures Second(a as nat % 4 * 16 + b as nat / 16, b as nat % 16 * 4 + c as nat / 64) == b
  {
    Middle(a as nat % 4, b as nat, c as nat / 64);
  }

  lemma ThirdOfSextets(b: byte, c: byte)
    ensures Third(b as nat % 16 * 4 + c as nat / 64, c as nat % 64) == c
  {
    var y, z := b as nat % 16, c as nat;
    assert (y * 4 + z / 64) % 4 == z / 64;
    assert z / 64 * 64 + z % 64 == z;
  }

  /** The three bytes of a group are recovered; what is missing in a short group does not matter. */
  lemma OctetsOfSextets(a: byte, b: byte, c: byte, x: nat, y: nat)
    ensures var q := Sextets(a, b, c);
            && Octets(q.0, q.1, q.2, q.3) == [a, b, c]
            && Octets(q.0, q.1, q.2, y)[..2] == [a, b]
            && Octets(q.0, q.1, x, y)[..1] == [a]
  {
    hide First, Second, Third;
    FirstOfSextets(a, b);
    SecondOfSextets(a, b, c);
    ThirdOfSextets(b, c);
  }

  lemma SymbolsAreBase64(a: byte, b: byte, c: byte)
    ensures var t, q := Symbols(a, b, c), Sextets(a, b, c);
            |t| == 4 && Index(t[0]) == q.0 && Index(t[1]) == q.1 && Index(t[2]) == q.2 && Index(t[3]) == q.3
  {
    var q := Sextets(a, b, c);
    SymbolIndex(q.0);
    SymbolIndex(q.1);
    SymbolIndex(q.2);
    SymbolIndex(q.3);
  }

  /** The characters of an encoding that are not padding. */
  function Unpadded(s: bytes): bytes {
    if |s| == 0 then []
    else if |s| == 1 then Symbols(s[0], 0, 0)[..2]
    else if |s| == 2 then Symbols(s[0], s[1], 0)[..3]
    else Symbols(s[0], s[1], s[2]) + Unpadded(s[3..])
  }

  lemma {:induction false} EncodedLength(s: bytes)
    ensures |Encoded(s)| == 4 * ((|s| + 2) / 3)
  {
    hide Symbols;
    if |s| >= 3 {
      EncodedLength(s[3..]);
      assert (|s| + 2) / 3 == 1 + (|s[3..]| + 2) / 3;
    }
  }

  lemma {:induction false} UnpaddedIsBase64(s: bytes)
    ensures forall c | c in Unpadded(s) :: IsBase64(c)
  {
    hide Symbols, Index;
    if |s| == 1 {
      SymbolsAreBase64(s[0], 0, 0);
    } else if |s| == 2 {
      SymbolsAreBase64(s[0], s[1], 0);
    } else if |s| >= 3 {
      SymbolsAreBase64(s[0], s[1], s[2]);
      UnpaddedIsBase64(s[3..]);
    }
  }

  /** An encoding is its characters followed by at most two pads, four characters for every three
      bytes or part of them. */
  lemma {:induction false} EncodedShape(s: bytes)
    ensures |Encoded(s)| == 4 * ((|s| + 2) / 3)
    ensures var pads := if |s| % 3 == 1 then [PAD, PAD] else if |s| % 3 == 2 then [PAD] else [];
            Encoded(s) == Unpadded(s) + pads
    ensures forall c | c in Unpadded(s) :: IsBase64(c)
  {
    EncodedLength(s);
    UnpaddedIsBase64(s);
    hide Symbols, IsBase64;
    if |s| >= 3 {
      EncodedShape(s[3..]);
      assert |s[3..]| % 3 == |s| % 3;
    }
  }

  lemma {:induction false} ExtentOf(p: bytes, rest: bytes)
    requires (forall c | c in p :: IsBase64(c)) && (rest == [] || !IsBase64(rest[0]))
    ensures Extent(p + rest) == |p|
  {
    if p == [] {
      assert p + rest == rest;
    } else {
      assert (p + rest)[0] == p[0] && (p + rest)[1..] == p[1..] + rest;
      assert p[0] in p && forall c | c in p[1..] :: c in p;
      ExtentOf(p[1..], rest);
    }
  }

  lemma {:induction false} GroupsOfUnpadded(s: bytes)
    ensures DecodedGroups(Unpadded(s)) == s
  {
    hide Symbols, Octets, Index, DecodedGroups;
    var p := Unpadded(s);
    if |s| == 0 {
      LastGroup(p, NUL, NUL, NUL, NUL);
    } else if |s| == 1 {
      SymbolsAreBase64(s[0], 0, 0);
      OctetsOfSextets(s[0], 0, 0, Index(NUL), Index(NUL));
      LastGroup(p, p[0], p[1], NUL, NUL);
    } else if |s| == 2 {
      SymbolsAreBase64(s[0], s[1], 0);
      OctetsOfSextets(s[0], s[1], 0, 0, Index(NUL));
      LastGroup(p, p[0], p[1], p[2], NUL);
    } else {
      SymbolsAreBase64(s[0], s[1], s[2]);
      OctetsOfSextets(s[0], s[1], s[2], 0, 0);
      GroupsOfUnpadded(s[3..]);
      DecodedGroup(p);
      assert p[4..] == Unpadded(s[3..]);
      assert s == [s[0], s[1], s[2]] + s[3..];
    }
  }

  /** Decoding an encoding gives the bytes back. */
  lemma RoundTrip(s: bytes)
    ensures Decoded(Encoded(s)) == s
  {
    EncodedShape(s);
    GroupsOfUnpadded(s);
    var pads := if |s| % 3 == 1 then [PAD, PAD] else if |s| % 3 == 2 then [PAD] else [];
    ExtentOf(Unpadded(s), pads);
    assert (Unpadded(s) + pads)[..|Unpadded(s)|] == Unpadded(s);
  }

  /** Different bytes have different encodings. */
  lemma EncodingIsInjective(s: bytes, t: bytes)
    requires Encoded(s) == Encoded(t)
    ensures s == t
  {
    RoundTrip(s);
    RoundTrip(t);
  }

  /** The first `n` bytes of a group depend on its first `n + 1` characters alone. */
  lemma OctetsPrefix(n: nat, a: nat, b: nat, c: nat, d: nat, b1: nat, c1: nat, d1: nat)
    requires n <= 3 && (n >= 1 ==> b == b1) && (n >= 2 ==> c == c1) && (n >= 3 ==> d == d1)
    ensures Octets(a, b, c, d)[..n] == Octets(a, b1, c1, d1)[..n]
  {
    hide First, Second, Third;
  }

  /** On every text, the bytes decoded from a last, incomplete group do not depend on what stands
      for its missing characters. */
  lemma FillerIsInert(p: bytes, filler: nat)
    requires 0 < |p| < 4
    ensures DecodedGroups(p) ==
            var b, c := if |p| > 1 then Index(p[1]) else filler, if |p| > 2 then Index(p[2]) else filler;
            Octets(Index(p[0]), b, c, filler)[..|p| - 1]
  {
    hide Octets, Index, First, Second, Third, DecodedGroups;
    var b, c := if |p| > 1 then Index(p[1]) else filler, if |p| > 2 then Index(p[2]) else filler;
    OctetsPrefix(|p| - 1, Index(p[0]), b, c, filler,
                 if |p| > 1 then b else Index(NUL), if |p| > 2 then c else Index(NUL), Index(NUL));
    LastGroup(p, p[0], if |p| > 1 then p[1] else NUL, if |p| > 2 then p[2] else NUL, NUL);
  }
}
