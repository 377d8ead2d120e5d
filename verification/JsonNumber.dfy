/** Numbers of jsoncpp/jsoncpp.cpp: 64-bit integers are printed and read exactly, everything else is a double. */
module JsonNumber {
  import opened MachineInts
  import opened CStrings
  import opened Wrappers
  import opened Decimal

  const MAX_INT: int := 0x7FFF_FFFF_FFFF_FFFF
  const MIN_INT: int := -0x8000_0000_0000_0000
  const MAX_UINT: int := 0xFFFF_FFFF_FFFF_FFFF

  /** What a number token becomes. */
  datatype Number = Signed(n: int) | Unsigned(n: int) | Inexact

  /** The exact integer if there is one for it; a bare `-` is 0. */
  function DecodeNumber(text: String): Number
    requires text != []
  {
    var negative := text[0] == '-';
    var digits := if negative then text[1..] else text;
    if !AllDigits(digits) then Inexact
    else if negative then
      if 0 - Value(digits) >= MIN_INT then Signed(0 - Value(digits)) else Inexact
    else if Value(digits) <= MAX_INT then Signed(Value(digits))
    else if Value(digits) <= MAX_UINT then Unsigned(Value(digits))
    else Inexact
  }

  /** The largest magnitude for a sign, split before its last digit as the source does. */
  function Limit(negative: bool): nat { if negative then -MIN_INT else MAX_UINT }

  function Threshold(negative: bool): nat { if negative then (-MIN_INT) / 10 else MAX_UINT / 10 }

  function MaxLastDigit(negative: bool): nat { if negative then (-MIN_INT) % 10 else MAX_UINT % 10 }

  lemma LimitSplit(negative: bool)
    ensures Limit(negative) == 10 * Threshold(negative) + MaxLastDigit(negative)
    ensures MaxLastDigit(negative) < 10 <= Threshold(negative) && Limit(negative) <= MAX_UINT
  {}

  ghost predicate ReadSoFar(digits: String, i: nat, value: nat) {
    i <= |digits| && AllDigits(digits[..i]) && value == Value(digits[..i])
  }

  lemma ReadNothing(digits: String)
    ensures ReadSoFar(digits, 0, 0)
  {}

  lemma ReadOne(digits: String, i: nat, value: nat)
    requires ReadSoFar(digits, i, value) && i < |digits| && IsDigit(digits[i])
    ensures ReadSoFar(digits, i + 1, value * 10 + DigitValue(digits[i]))
  {
    ValueSnoc(digits[..i], digits[i]);
    assert digits[..i + 1] == digits[..i] + [digits[i]];
  }

  lemma ReadAll(digits: String, value: nat)
    requires ReadSoFar(digits, |digits|, value)
    ensures AllDigits(digits) && Value(digits) == value
  {
    assert digits[..|digits|] == digits;
  }

  lemma NoLaterDigits(digits: String, i: nat, value: nat, threshold: nat, last: nat)
    requires ReadSoFar(digits, i, value) && i < |digits| && IsDigit(digits[i]) && last < 10 <= threshold
    requires value >= threshold && (value > threshold || i + 1 < |digits| || DigitValue(digits[i]) > last)
    ensures AllDigits(digits) ==> Value(digits) > 10 * threshold + last
  {
    if AllDigits(digits) {
      assert digits[..i + 1] == digits[..i] + [digits[i]];
      ValueSnoc(digits[..i], digits[i]);
      ValueGrows(digits, i + 1);
      hide Value;
      if i + 1 < |digits| {
        assert digits[..i + 2] == digits[..i + 1] + [digits[i + 1]];
        ValueSnoc(digits[..i + 1], digits[i + 1]);
        ValueGrows(digits, i + 2);
      } else {
        assert digits[..i + 1] == digits;
      }
    }
  }

  /** Nothing wraps. */
  lemma NoWrap(value: nat)
    requires value <= MAX_UINT
    ensures Wrap64(value) == value
  {}

  /** The magnitude as a negative number, without ever negating 2^63. */
  function Negated(v: nat): (r: int)
    ensures r == 0 - v
  {
    (0 - v / 10) * 10 - v % 10
  }

  lemma NotADigit(digits: String, i: nat)
    requires i < |digits| && !IsDigit(digits[i])
    ensures !AllDigits(digits)
  {}

  lemma DecodesTo(text: String)
    requires text != []
    ensures var negative := text[0] == '-';
            var digits := if negative then text[1..] else text;
            DecodeNumber(text) ==
            if !AllDigits(digits) || Value(digits) > Limit(negative) then Inexact
            else if negative then Signed(0 - Value(digits))
            else if Value(digits) <= MAX_INT then Signed(Value(digits)) else Unsigned(Value(digits))
  {}

  /** `decodeNumber`, up to the double; all arithmetic is on 64-bit unsigned integers. */
  method ReadNumber(text: String) returns (r: Number)
    requires text != []
    ensures r == DecodeNumber(text)
  {
    DecodesTo(text);
    hide Wrap64, DecodeNumber, Limit, Threshold, MaxLastDigit, Negated, Value, AllDigits, ReadSoFar;
    var negative := text[0] == '-';
    var digits := if negative then text[1..] else text;
    LimitSplit(negative);
    var threshold, maxLastDigit := Threshold(negative), MaxLastDigit(negative);
    var value: nat := 0;
    var current: nat := 0;
    ReadNothing(digits);
    while current < |digits|
      invariant current <= |digits| && ReadSoFar(digits, current, value) && value <= Limit(negative)
    {
      var c := digits[current];
      if c < '0' || c > '9' {
        NotADigit(digits, current);
        return Inexact;
      }
      var digit := DigitValue(c);
      if value >= threshold {
        if value > threshold || current + 1 != |digits| || digit > maxLastDigit {
          NoLaterDigits(digits, current, value, threshold, maxLastDigit);
          return Inexact;
        }
      }
      ReadOne(digits, current, value);
      current := current + 1;
      NoWrap(value * 10 + digit);
      value := Wrap64(value * 10 + digit);
    }
    ReadAll(digits, value);
    if negative {
      return Signed(Negated(value));
    } else if value <= MAX_INT {
      return Signed(value);
    } else {
      return Unsigned(value);
    }
  }

  // ---- printing ----

  function IntText(n: int): String { if n < 0 then "-" + Digits(-n) else Digits(n) }

  /** `uintToString`: writes backwards from `current`; the terminating zero first. */
  method UintToString(buffer: array<char>, current: nat, value: u64) returns (cur: nat)
    requires |Digits(value)| < current <= buffer.Length
    modifies buffer
    ensures cur == current - 1 - |Digits(value)|
    ensures buffer[cur..current - 1] == Digits(value) && buffer[current - 1] == 0 as char
    ensures forall k :: 0 <= k < buffer.Length && !(cur <= k < current) ==> buffer[k] == old(buffer[k])
  {
    cur := current - 1;
    buffer[cur] := 0 as char;
    var v := value;
    ghost var done: String := [];
    while true
      invariant |Digits(v)| <= cur && cur == current - 1 - |done| && 0 <= v
      invariant Digits(v) + done == Digits(value)
      invariant buffer[cur..current - 1] == done && buffer[current - 1] == 0 as char
      invariant forall k :: 0 <= k < buffer.Length && !(cur <= k < current) ==> buffer[k] == old(buffer[k])
      decreases v
    {
      cur := cur - 1;
      buffer[cur] := DigitChar(v % 10);
      assert buffer[cur..current - 1] == [DigitChar(v % 10)] + done;
      done := [DigitChar(v % 10)] + done;
      if v < 10 {
        return;
      }
      assert Digits(v) == Digits(v / 10) + [DigitChar(v % 10)];
      v := v / 10;
    }
  }

  lemma TwentyDigits(n: nat)
    requires n <= MAX_UINT
    ensures |Digits(n)| <= 20
  {
    DigitsLength(n, 20);
    assert Power10(5) == 100000;
    assert Power10(10) == 10000000000 by { assert Power10(8) == 1000 * Power10(5); }
    assert Power10(15) == 1000000000000000 by { assert Power10(13) == 1000 * Power10(10); }
    assert Power10(20) == 100000000000000000000 by { assert Power10(18) == 1000 * Power10(15); }
  }

  /** `valueToString` for 64-bit integers: sign and digits fit the buffer of 25 characters. */
  method ValueToString(value: int) returns (s: String)
    requires MIN_INT <= value <= MAX_UINT
    ensures s == IntText(value)
  {
    var buffer := new char[25];
    TwentyDigits(if value < 0 then -value else value);
    var current := UintToString(buffer, 25, if value < 0 then -value else value);
    s := Digits(if value < 0 then -value else value);
    assert buffer[current..24] == s;
    if value < 0 {
      current := current - 1;
      buffer[current] := '-';
      assert buffer[current..24] == ['-'] + s;
      s := ['-'] + s;
    }
  }

  /** Every 64-bit integer is read back exactly; an unsigned one that fits is read as signed. */
  lemma IntegerRoundTrip(n: int)
    requires MIN_INT <= n <= MAX_UINT
    ensures DecodeNumber(IntText(n)) == if n <= MAX_INT then Signed(n) else Unsigned(n)
  {
    var m := if n < 0 then -n else n;
    ValueOfDigits(m);
    hide Digits;
    if n < 0 {
      assert IntText(n)[1..] == Digits(m);
    } else {
      assert IsDigit(Digits(m)[0]);
    }
  }

  /** A token is an exact integer if and only if it is a numeral of digits, with or without a minus, that fits; or a
      bare minus, which is 0. */
  lemma IntegersAre(text: String)
    requires text != []
    ensures var negative := text[0] == '-';
            var digits := if negative then text[1..] else text;
            DecodeNumber(text) != Inexact <==>
            text == "-" || (digits != [] && AllDigits(digits) && Value(digits) <= Limit(negative))
    ensures DecodeNumber("-") == Signed(0)
  {
    assert Value([]) == 0 && "-"[1..] == [];
    hide Value;
    if text[0] == '-' && text[1..] == [] {
      assert text == "-";
    }
  }
}
