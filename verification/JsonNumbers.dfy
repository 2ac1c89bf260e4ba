/** Integers in JSON text: uintToString, valueToString and Reader::decodeNumber. */
module JsonNumbers {
  import opened Bytes
  import opened JsonValues

  const MAX_UINT := 0xFFFF_FFFF_FFFF_FFFF
  const MAX_LARGEST_INT := 0x7FFF_FFFF_FFFF_FFFF
  const MIN_LARGEST_INT := -0x8000_0000_0000_0000
  const MAX_INT := 0x7FFF_FFFF

  /** Size of the printer's buffer: three characters for each of the eight bytes, and the end. */
  const UINT_BUFFER := 25

  const MINUS: byte := 45

  predicate IsDigit(c: byte) {
    48 <= c <= 57
  }

  predicate AllDigits(s: bytes) {
    forall c | c in s :: IsDigit(c)
  }

  function DigitOf(c: byte): int {
    c as int - 48
  }

  /** The number a digit string stands for. */
  function NumberOf(s: bytes): int {
    if s == [] then 0 else 10 * NumberOf(s[..|s| - 1]) + DigitOf(s[|s| - 1])
  }

  /** The digits of a number, without leading zeros. */
  function Decimal(n: nat): (s: bytes)
    ensures s != []
  {
    if n < 10 then [48 + n as byte] else Decimal(n / 10) + [48 + (n % 10) as byte]
  }

  function SignedDecimal(i: int): bytes {
    if i < 0 then [MINUS] + Decimal(-i) else Decimal(i)
  }

  // ---------- printing ----------

  /** Printing and reading a number are inverse. */
  lemma {:induction false} DecimalIsNumber(n: nat)
    ensures AllDigits(Decimal(n)) && NumberOf(Decimal(n)) == n
  {
    if n >= 10 {
      DecimalIsNumber(n / 10);
      var d := Decimal(n);
      assert d[..|d| - 1] == Decimal(n / 10);
    } else {
      var d := Decimal(n);
      assert d[..0] == [];
    }
  }

  function Pow10(k: nat): nat {
    if k == 0 then 1 else 10 * Pow10(k - 1)
  }

  /** A number below 10^k has at most k digits. */
  lemma {:induction false} DecimalLength(n: nat, k: nat)
    requires n < Pow10(k) && k > 0
    ensures |Decimal(n)| <= k
  {
    if n >= 10 {
      DecimalLength(n / 10, k - 1);
    }
  }

  lemma DecimalFits(n: nat)
    requires n <= MAX_UINT
    ensures |Decimal(n)| <= 20
  {
    assert Pow10(5) == 100000;
    assert Pow10(10) == 10000000000;
    assert Pow10(15) == 1000000000000000;
    assert Pow10(20) == 100000000000000000000;
    DecimalLength(n, 20);
  }

  /** Writes the digits from the right end of the buffer; `current` moves left. */
  method UintToString(value: nat, buffer: array<byte>, current: nat) returns (first: nat)
    requires value <= MAX_UINT && 21 <= current <= buffer.Length
    modifies buffer
    ensures current - 21 <= first < current && buffer[current - 1] == NUL
    ensures buffer[first..current - 1] == Decimal(value)
    ensures forall i | 0 <= i < buffer.Length && !(first <= i < current) :: buffer[i] == old(buffer[i])
  {
    var end := current - 1;
    first := end;
    buffer[first] := NUL;
    var v := value;
    DecimalFits(value);
    ghost var left := |Decimal(value)|;
    var more := true;
    while more
      invariant 0 <= v && left >= (if more then 1 else 0)
      invariant first - left == end - |Decimal(value)| >= 0 && first <= end
      invariant (if more then Decimal(v) else []) + buffer[first..end] == Decimal(value)
      invariant more ==> left == |Decimal(v)|
      invariant !more ==> left == 0
      invariant buffer[end] == NUL
      invariant forall i | 0 <= i < buffer.Length && !(first <= i < current) :: buffer[i] == old(buffer[i])
      decreases left
    {
      first := first - 1;
      buffer[first] := 48 + (v % 10) as byte;
      assert buffer[first..end] == [buffer[first]] + buffer[first + 1..end];
      left := left - 1;
      v := v / 10;
      more := v != 0;
    }
  }

  /** valueToString for signed values: the buffer is never underrun. */
  method IntToString(value: int) returns (text: bytes)
    requires MIN_LARGEST_INT <= value <= MAX_LARGEST_INT
    ensures text == SignedDecimal(value)
  {
    hide Decimal;
    var buffer := new byte[UINT_BUFFER];
    var current := buffer.Length;
    if value == MIN_LARGEST_INT {
      current := UintToString(MAX_LARGEST_INT + 1, buffer, current);
      current := current - 1;
      buffer[current] := MINUS;
    } else if value < 0 {
      current := UintToString(-value, buffer, current);
      current := current - 1;
      buffer[current] := MINUS;
    } else {
      current := UintToString(value, buffer, current);
    }
    text := buffer[current..buffer.Length - 1];
    assert value < 0 ==> text == [MINUS] + buffer[current + 1..buffer.Length - 1];
  }

  method UIntToString(value: nat) returns (text: bytes)
    requires value <= MAX_UINT
    ensures text == SignedDecimal(value)
  {
    var buffer := new byte[UINT_BUFFER];
    var current := UintToString(value, buffer, buffer.Length);
    text := buffer[current..buffer.Length - 1];
  }

  // ---------- reading ----------

  function Magnitude(token: bytes): bytes {
    if token != [] && token[0] == MINUS then token[1..] else token
  }

  function MaxMagnitude(token: bytes): nat {
    if token != [] && token[0] == MINUS then MAX_LARGEST_INT + 1 else MAX_UINT
  }

  /** The integer a number token stands for, if it is digits after an optional minus sign and
      lies in -2^63..2^64-1; other tokens are left to the decoding of doubles. Unlike section 6 of
      RFC 8259, a lone minus sign counts as zero, and leading zeros are accepted. */
  function DecodeInteger(token: bytes): Option<Value> {
    var digits := Magnitude(token);
    if !AllDigits(digits) || NumberOf(digits) > MaxMagnitude(token) then None
    else if token != [] && token[0] == MINUS then Some(Int(-NumberOf(digits)))
    else if NumberOf(digits) <= MAX_INT then Some(Int(NumberOf(digits)))
    else Some(UInt(NumberOf(digits)))
  }

  lemma {:induction false} NumberIsNat(s: bytes)
    requires AllDigits(s)
    ensures NumberOf(s) >= 0
  {
    if s != [] {
      assert IsDigit(s[|s| - 1]);
      NumberIsNat(s[..|s| - 1]);
    }
  }

  /** Every further digit multiplies by ten at least. */
  lemma {:induction false} NumberGrows(s: bytes, k: nat)
    requires AllDigits(s) && k < |s|
    ensures NumberOf(s) >= 10 * NumberOf(s[..k]) + DigitOf(s[k])
    ensures k + 1 < |s| ==> NumberOf(s) >= 100 * NumberOf(s[..k])
  {
    assert IsDigit(s[k]) && IsDigit(s[|s| - 1]);
    NumberIsNat(s[..k]);
    if k < |s| - 1 {
      var t := s[..|s| - 1];
      assert t[..k] == s[..k] && t[k] == s[k];
      NumberGrows(t, k);
    }
  }

  /** One more digit. */
  lemma NextDigit(digits: bytes, k: nat)
    requires k < |digits|
    ensures AllDigits(digits[..k + 1]) <==> AllDigits(digits[..k]) && IsDigit(digits[k])
    ensures NumberOf(digits[..k + 1]) == NumberOf(digits[..k]) * 10 + DigitOf(digits[k])
    ensures AllDigits(digits) ==> IsDigit(digits[k])
  {
    var t := digits[..k + 1];
    assert t[..k] == digits[..k] && t[k] == digits[k];
    assert t == digits[..k] + [digits[k]];
  }

  lemma NoDigits()
    ensures AllDigits([]) && NumberOf([]) == 0
  {
  }

  /** Reader::decodeNumber up to the point where it turns to doubles (none). The accumulated value
      never exceeds the largest magnitude, so it cannot overflow. */
  method DecodeNumber(token: bytes) returns (decoded: Option<Value>)
    ensures decoded == DecodeInteger(token)
  {
    var current := 0;
    var isNegative := token != [] && token[0] == MINUS;
    if isNegative {
      current := current + 1;
    }
    var maxIntegerValue := if isNegative then MAX_LARGEST_INT + 1 else MAX_UINT;
    var threshold := maxIntegerValue / 10;
    var value := 0;
    ghost var digits, first := Magnitude(token), current;
    hide AllDigits, NumberOf;
    NoDigits();
    assert digits[..0] == [];
    while current < |token|
      invariant first <= current <= |token|
      invariant AllDigits(digits[..current - first])
      invariant 0 <= value == NumberOf(digits[..current - first]) <= maxIntegerValue
    {
      ghost var k := current - first;
      var c := token[current];
      current := current + 1;
      assert digits[k] == c;
      NextDigit(digits, k);
      if !IsDigit(c) {
        return None;
      }
      var digit := DigitOf(c);
      if value >= threshold {
        if value > threshold || current != |token| || digit > maxIntegerValue % 10 {
          if AllDigits(digits) {
            NumberGrows(digits, k);
          }
          return None;
        }
      }
      value := value * 10 + digit;
    }
    assert digits[..current - first] == digits;
    if isNegative && value == maxIntegerValue {
      decoded := Some(Int(MIN_LARGEST_INT));
    } else if isNegative {
      decoded := Some(Int(-value));
    } else if value <= MAX_INT {
      decoded := Some(Int(value));
    } else {
      decoded := Some(UInt(value));
    }
  }

  /** The integer value a printed integer is read as: unsigned only above the range of `int`. */
  function CanonicalInteger(i: int): Value
    requires i <= MAX_UINT
  {
    if i <= MAX_INT then Int(i) else UInt(i)
  }

  /** Reading a printed integer gives it back. */
  lemma IntegerRoundTrip(i: int)
    requires MIN_LARGEST_INT <= i <= MAX_UINT
    ensures DecodeInteger(SignedDecimal(i)) == Some(CanonicalInteger(i))
  {
    if i < 0 {
      DecimalIsNumber(-i);
      assert SignedDecimal(i)[1..] == Decimal(-i);
    } else {
      DecimalIsNumber(i);
      assert IsDigit(Decimal(i)[0]);
    }
  }

  /** A lone minus sign is read as zero. */
  lemma LoneMinusIsZero()
    ensures DecodeInteger([MINUS]) == Some(Int(0))
  {
  }
}
