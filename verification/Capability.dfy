/** Reading a capability handle: decimal, or hexadecimal after a prefix, with underscores between digits. */
module Capabilities {
  import opened Machine

  datatype CapabilityError = Malformed | Overflow

  const UNDERSCORE: u8 := 95

  predicate IsDecimal(b: u8) { 48 <= b <= 57 }
  predicate IsLowerHex(b: u8) { 97 <= b <= 102 }
  predicate IsUpperHex(b: u8) { 65 <= b <= 70 }

  predicate IsDigit(b: u8, hex: bool) {
    IsDecimal(b) || (hex && (IsLowerHex(b) || IsUpperHex(b)))
  }

  function DigitValue(b: u8): (v: nat)
    ensures v < 256
  {
    if IsDecimal(b) then b - 48 else if IsLowerHex(b) then b - 97 + 10 else if IsUpperHex(b) then b - 65 + 10 else 0
  }

  predicate HasPrefix(bytes: seq<u8>) {
    |bytes| >= 2 && bytes[0] == 48 && (bytes[1] == 120 || bytes[1] == 88)
  }

  /** `value * radix` for radix 16 or 10. */
  function Scaled(value: nat, hex: bool): nat {
    if hex then 16 * value else 10 * value
  }

  function DigitsOf(bytes: seq<u8>): seq<u8> {
    if HasPrefix(bytes) then bytes[2..] else bytes
  }

  // ----- what a handle means -----

  /** Every byte is a digit, of radix 16 if `hex` and 10 otherwise, or an underscore. */
  predicate Legal(s: seq<u8>, hex: bool) {
    forall i :: 0 <= i < |s| ==> s[i] == UNDERSCORE || IsDigit(s[i], hex)
  }

  /** The bytes that are not underscores. */
  function Strip(s: seq<u8>): seq<u8> {
    if s == [] then []
    else if s[|s| - 1] == UNDERSCORE then Strip(s[..|s| - 1])
    else Strip(s[..|s| - 1]) + [s[|s| - 1]]
  }

  /** The number that digits denote. */
  function Value(digits: seq<u8>, hex: bool): nat {
    if digits == [] then 0 else Scaled(Value(digits[..|digits| - 1], hex), hex) + DigitValue(digits[|digits| - 1])
  }

  /** Some legal prefix already denotes a number that does not fit. */
  ghost predicate Overflows(s: seq<u8>, hex: bool) {
    exists k {:trigger s[..k]} :: 0 <= k <= |s| && Legal(s[..k], hex) && Value(Strip(s[..k]), hex) >= U64_LIMIT
  }

  ghost function Parse(bytes: seq<u8>): Result<u64, CapabilityError> {
    ParseDigits(DigitsOf(bytes), HasPrefix(bytes))
  }

  ghost function ParseDigits(s: seq<u8>, hex: bool): Result<u64, CapabilityError> {
    if Overflows(s, hex) then Err(Overflow)
    else if Legal(s, hex) && Strip(s) != [] then WholeFits(s, hex); Ok(Value(Strip(s), hex))
    else Err(Malformed)
  }

  lemma WholeFits(s: seq<u8>, hex: bool)
    requires Legal(s, hex) && !Overflows(s, hex)
    ensures Value(Strip(s), hex) < U64_LIMIT
  {
    assert s[..|s|] == s;
  }

  lemma StripPush(s: seq<u8>, b: u8)
    ensures Strip(s + [b]) == if b == UNDERSCORE then Strip(s) else Strip(s) + [b]
  {
    assert (s + [b])[..|s|] == s;
  }

  lemma ValuePush(digits: seq<u8>, b: u8, hex: bool)
    ensures Value(digits + [b], hex) == Scaled(Value(digits, hex), hex) + DigitValue(b)
  {
    assert (digits + [b])[..|digits|] == digits;
  }

  /** What one more byte of `s` does to the digits and the number read so far. */
  lemma NextByte(s: seq<u8>, i: nat, hex: bool)
    requires i < |s|
    ensures Strip(s[..i + 1]) == if s[i] == UNDERSCORE then Strip(s[..i]) else Strip(s[..i]) + [s[i]]
    ensures Value(Strip(s[..i + 1]), hex) ==
      if s[i] == UNDERSCORE then Value(Strip(s[..i]), hex)
      else Scaled(Value(Strip(s[..i]), hex), hex) + DigitValue(s[i])
  {
    assert s[..i + 1] == s[..i] + [s[i]];
    StripPush(s[..i], s[i]);
    ValuePush(Strip(s[..i]), s[i], hex);
  }

  lemma NextByteGrows(s: seq<u8>, i: nat, hex: bool)
    requires i < |s|
    ensures Value(Strip(s[..i]), hex) <= Value(Strip(s[..i + 1]), hex)
  {
    NextByte(s, i, hex);
  }

  /** Longer prefixes denote no smaller numbers. */
  lemma {:induction false} PrefixMonotone(s: seq<u8>, k: nat, n: nat, hex: bool)
    requires k <= n <= |s|
    ensures Value(Strip(s[..k]), hex) <= Value(Strip(s[..n]), hex)
    decreases n
  {
    if k < n {
      PrefixMonotone(s, k, n - 1, hex);
      NextByteGrows(s, n - 1, hex);
    }
  }

  lemma LegalWithin(s: seq<u8>, k: nat, i: nat, hex: bool)
    requires i < k <= |s| && Legal(s[..k], hex)
    ensures s[i] == UNDERSCORE || IsDigit(s[i], hex)
  {
    assert s[..k][i] == s[i];
  }

  /** With the first `i` bytes legal and small, overflow needs byte `i` to be legal too. */
  lemma NoOverflowYet(s: seq<u8>, i: nat, hex: bool)
    requires i <= |s| && Legal(s[..i], hex) && Value(Strip(s[..i]), hex) < U64_LIMIT
    requires i == |s| || !(s[i] == UNDERSCORE || IsDigit(s[i], hex))
    ensures !Overflows(s, hex)
  {
    forall k {:trigger s[..k]} | 0 <= k <= |s| && Legal(s[..k], hex)
      ensures Value(Strip(s[..k]), hex) < U64_LIMIT
    {
      if k <= i {
        PrefixMonotone(s, k, i, hex);
      } else {
        LegalWithin(s, k, i, hex);
      }
    }
  }

  // Reads digits up to the end or the first fault; `at` is how far the digits are known to be legal.
  method ScanDigits(digits: seq<u8>, hex: bool)
    returns (value: u64, consumed: nat, fault: Option<CapabilityError>, at: nat)
    ensures at <= |digits| && Legal(digits[..at], hex)
    ensures fault == None ==>
      at == |digits| && value == Value(Strip(digits[..at]), hex) && consumed == |Strip(digits[..at])|
    ensures fault == Some(Malformed) ==>
      && Value(Strip(digits[..at]), hex) < U64_LIMIT
      && at < |digits| && digits[at] != UNDERSCORE && !IsDigit(digits[at], hex)
    ensures fault == Some(Overflow) ==> Value(Strip(digits[..at]), hex) >= U64_LIMIT
  {
    value, consumed, fault, at := 0, 0, None, 0;
    for i := 0 to |digits|
      invariant at == i && fault == None && Legal(digits[..i], hex)
      invariant value == Value(Strip(digits[..i]), hex) && consumed == |Strip(digits[..i])|
    {
      var byte := digits[i];
      if byte != UNDERSCORE && !IsDigit(byte, hex) {
        fault := Some(Malformed);
        return;
      }
      NextByte(digits, i, hex);
      assert Legal(digits[..i + 1], hex);
      at := i + 1;
      if byte != UNDERSCORE {
        var next := Append(value, hex, DigitValue(byte));
        if next.None? {
          fault := Some(Overflow);
          return;
        }
        value := next.value;
        consumed := consumed + 1;
      }
    }
  }

  /** The first illegal byte decides when nothing has overflowed before it. */
  lemma MalformedAt(s: seq<u8>, i: nat, hex: bool)
    requires i < |s| && s[i] != UNDERSCORE && !IsDigit(s[i], hex)
    requires Legal(s[..i], hex) && Value(Strip(s[..i]), hex) < U64_LIMIT
    ensures ParseDigits(s, hex) == Err(Malformed)
  {
    NoOverflowYet(s, i, hex);
  }

  lemma OverflowAt(s: seq<u8>, k: nat, hex: bool)
    requires k <= |s| && Legal(s[..k], hex) && Value(Strip(s[..k]), hex) >= U64_LIMIT
    ensures ParseDigits(s, hex) == Err(Overflow)
  {
  }

  lemma WholeText(s: seq<u8>, hex: bool)
    requires Legal(s, hex) && Value(Strip(s), hex) < U64_LIMIT
    ensures ParseDigits(s, hex) == if Strip(s) == [] then Err(Malformed) else Ok(Value(Strip(s), hex))
  {
    assert s[..|s|] == s;
    NoOverflowYet(s, |s|, hex);
  }

  /** The parser accepts exactly the legal texts with a digit whose number fits, and tells overflow from bad syntax. */
  method ParseHandle(bytes: seq<u8>) returns (result: Result<u64, CapabilityError>)
    ensures result == Parse(bytes)
  {
    var hex, digits := HasPrefix(bytes), DigitsOf(bytes);
    if digits == [] {
      WholeText(digits, hex);
      return Err(Malformed);
    }
    var value, consumed, fault, at := ScanDigits(digits, hex);
    match fault {
      case Some(Malformed) =>
        MalformedAt(digits, at, hex);
        return Err(Malformed);
      case Some(Overflow) =>
        OverflowAt(digits, at, hex);
        return Err(Overflow);
      case None =>
    }
    assert digits[..|digits|] == digits;
    WholeText(digits, hex);
    if consumed == 0 {
      return Err(Malformed);
    }
    return Ok(value);
  }

  /** The checked multiplication and addition of one digit. */
  function Append(value: u64, hex: bool, digit: nat): (next: Option<u64>)
    requires digit < 256
    ensures next == if Scaled(value, hex) + digit < U64_LIMIT then Some(Scaled(value, hex) + digit) else None
  {
    match CheckedMul(value, if hex then 16 else 10)
    case None => None
    case Some(scaled) => CheckedAdd(scaled, digit)
  }

  // ----- printing -----

  function DigitByte(d: nat, upper: bool): u8
    requires d < 16
  {
    if d < 10 then 48 + d else if upper then 65 + d - 10 else 97 + d - 10
  }

  function Base(hex: bool): nat {
    if hex then 16 else 10
  }

  /** The digits of `v`, most significant first. */
  function Printed(v: nat, hex: bool, upper: bool): seq<u8> {
    if v < Base(hex) then [DigitByte(v, upper)]
    else if hex then Printed(v / 16, hex, upper) + [DigitByte(v % 16, upper)]
    else Printed(v / 10, hex, upper) + [DigitByte(v % 10, upper)]
  }

  lemma DigitByteMeans(d: nat, hex: bool, upper: bool)
    requires d < Base(hex)
    ensures DigitValue(DigitByte(d, upper)) == d && IsDigit(DigitByte(d, upper), hex)
  {
  }

  lemma {:induction false} PrintedMeans(v: nat, hex: bool, upper: bool)
    ensures Value(Printed(v, hex, upper), hex) == v
  {
    if v < Base(hex) {
      assert [DigitByte(v, upper)] == [] + [DigitByte(v, upper)];
      ValuePush([], DigitByte(v, upper), hex);
      DigitByteMeans(v, hex, upper);
    } else {
      var rest, d := if hex then v / 16 else v / 10, if hex then v % 16 else v % 10;
      PrintedMeans(rest, hex, upper);
      ValuePush(Printed(rest, hex, upper), DigitByte(d, upper), hex);
      DigitByteMeans(d, hex, upper);
    }
  }

  lemma {:induction false} PrintedDigits(v: nat, hex: bool, upper: bool)
    ensures forall i :: 0 <= i < |Printed(v, hex, upper)| ==> IsDigit(Printed(v, hex, upper)[i], hex)
    ensures Printed(v, hex, upper) != []
  {
    if v < Base(hex) {
      DigitByteMeans(v, hex, upper);
    } else {
      PrintedDigits(if hex then v / 16 else v / 10, hex, upper);
      DigitByteMeans(if hex then v % 16 else v % 10, hex, upper);
    }
  }

  lemma {:induction false} StripLegal(s: seq<u8>, hex: bool)
    requires forall i :: 0 <= i < |Strip(s)| ==> IsDigit(Strip(s)[i], hex)
    ensures Legal(s, hex)
  {
    if s != [] {
      var rest, b := s[..|s| - 1], s[|s| - 1];
      assert s == rest + [b];
      StripPush(rest, b);
      forall i | 0 <= i < |Strip(rest)|
        ensures IsDigit(Strip(rest)[i], hex)
      {
        assert Strip(s)[i] == Strip(rest)[i];
      }
      StripLegal(rest, hex);
      if b != UNDERSCORE {
        assert Strip(s)[|Strip(rest)|] == b;
      }
    }
  }

  /** Any 64-bit number printed in hexadecimal after `0x` or `0X`, with underscores anywhere among the digits, parses back. */
  lemma HexRoundTrip(v: u64, upper: bool, prefix: seq<u8>, text: seq<u8>)
    requires prefix == [48, 120] || prefix == [48, 88]
    requires Strip(text) == Printed(v, true, upper)
    ensures Parse(prefix + text) == Ok(v)
  {
    PrintedMeans(v, true, upper);
    PrintedDigits(v, true, upper);
    assert DigitsOf(prefix + text) == text;
    StripLegal(text, true);
    WholeText(text, true);
  }

  lemma NoPrefix(text: seq<u8>)
    requires Legal(text, false)
    ensures !HasPrefix(text)
  {
    if |text| >= 2 {
      assert text[1] == UNDERSCORE || IsDigit(text[1], false);
    }
  }

  /** Any 64-bit number printed in decimal, with underscores anywhere among the digits, parses back. */
  lemma DecimalRoundTrip(v: u64, text: seq<u8>)
    requires Strip(text) == Printed(v, false, false)
    ensures Parse(text) == Ok(v)
  {
    PrintedMeans(v, false, false);
    PrintedDigits(v, false, false);
    StripLegal(text, false);
    NoPrefix(text);
    WholeText(text, false);
  }

  lemma {:induction false} ZeroSoFar(text: seq<u8>, i: nat)
    requires i <= |text| && forall k :: 0 <= k < i ==> text[k] == UNDERSCORE || text[k] == 48
    ensures Legal(text[..i], false) && Value(Strip(text[..i]), false) == 0
  {
    if i == 0 {
      assert text[..0] == [];
    } else {
      ZeroSoFar(text, i - 1);
      NextByte(text, i - 1, false);
      assert text[..i] == text[..i - 1] + [text[i - 1]];
    }
  }

  lemma PrefixIsOneZero(text: seq<u8>, i: nat)
    requires HasPrefix(text) && i < |text| && (text[i] == 120 || text[i] == 88)
    requires forall k :: 0 <= k < i ==> text[k] == UNDERSCORE || text[k] == 48
    ensures text[..i] == [48]
  {
  }

  /**
   An `x` behind zeros and underscores only is malformed unless exactly one zero stands before it:
   underscores before or inside the prefix, however many, take its meaning away.
   */
  lemma BrokenPrefixFails(text: seq<u8>, i: nat)
    requires i < |text| && (text[i] == 120 || text[i] == 88)
    requires forall k :: 0 <= k < i ==> text[k] == UNDERSCORE || text[k] == 48
    requires text[..i] != [48]
    ensures Parse(text) == Err(Malformed)
  {
    if HasPrefix(text) {
      PrefixIsOneZero(text, i);
    }
    ZeroSoFar(text, i);
    MalformedAt(text, i, false);
  }

  // ----- which bytes count -----

  /** A decimal digit, or after the prefix a hexadecimal one of either case. */
  predicate DigitRule(b: u8, hex: bool) {
    '0' <= b as char <= '9' || (hex && ('a' <= b as char <= 'f' || 'A' <= b as char <= 'F'))
  }

  /** These are the digits, each worth its place in the usual order. */
  lemma DigitsExactly(b: u8, hex: bool)
    ensures IsDigit(b, hex) <==> DigitRule(b, hex)
    ensures IsDigit(b, hex) ==>
              && DigitValue(b) < 16
              && b as char in {"0123456789abcdef"[DigitValue(b)], "0123456789ABCDEF"[DigitValue(b)]}
  {
  }

  lemma {:induction false} StripEmpty(s: seq<u8>)
    ensures Strip(s) == [] <==> forall i :: 0 <= i < |s| ==> s[i] as char == '_'
  {
    if s != [] {
      var rest := s[..|s| - 1];
      StripEmpty(rest);
      assert forall i :: 0 <= i < |rest| ==> rest[i] == s[i];
    }
  }

  /**
   A handle is accepted exactly when, after a prefix `0x` or `0X` if there is one, it has only digits and
   underscores, at least one digit, and a number that fits; and which fault it has otherwise.
   */
  lemma AcceptsExactly(bytes: seq<u8>)
    ensures var hex := |bytes| >= 2 && bytes[0] as char == '0' && bytes[1] as char in {'x', 'X'};
            var s := if hex then bytes[2..] else bytes;
            && (Parse(bytes).Ok? <==>
                  && (forall i :: 0 <= i < |s| ==> s[i] as char == '_' || DigitRule(s[i], hex))
                  && (exists i :: 0 <= i < |s| && s[i] as char != '_')
                  && Value(Strip(s), hex) < U64_LIMIT)
            && (Parse(bytes).Ok? ==> Parse(bytes).value == Value(Strip(s), hex))
            && (Parse(bytes) == Err(Overflow) <==> Overflows(s, hex))
  {
    var hex := HasPrefix(bytes);
    var s := DigitsOf(bytes);
    StripEmpty(s);
    forall b: u8
      ensures IsDigit(b, hex) <==> DigitRule(b, hex)
    {
      DigitsExactly(b, hex);
    }
    assert (forall i :: 0 <= i < |s| ==> s[i] as char == '_' || DigitRule(s[i], hex)) <==> Legal(s, hex);
    if Legal(s, hex) {
      if Value(Strip(s), hex) < U64_LIMIT {
        WholeText(s, hex);
      } else {
        assert s[..|s|] == s;
      }
    }
  }
}
