/** Byte strings, the option type, and the decimal text forms of Go's strconv package. */
module Bytes {

  datatype Option<+T> = None | Some(value: T)

  type byte = c: char | c as int < 256 witness '\0'

  /** An immutable Go string or a non-nil Go byte slice. */
  type Bytes = seq<byte>

  const CR: byte := '\r'
  const LF: byte := '\n'
  const CRLF: Bytes := "\r\n"

  const MAX_INT64 := 0x7FFF_FFFF_FFFF_FFFF
  const MIN_INT64 := -0x8000_0000_0000_0000
  const MAX_UINT32 := 0xFFFF_FFFF

  /** The largest byte slice that make accepts on 64-bit Linux, and the longest slice of byte
      slices, each of which takes 24 bytes. */
  const MAX_SLICE := 0x1_0000_0000_0000
  const MAX_SLICES := MAX_SLICE / 24

  predicate IsInt64(n: int) {
    MIN_INT64 <= n <= MAX_INT64
  }

  /** Two's complement wrap-around of 64-bit signed arithmetic. */
  function Wrap64(n: int): int {
    (n - MIN_INT64) % 0x1_0000_0000_0000_0000 + MIN_INT64
  }

  lemma Assoc<T>(a: seq<T>, b: seq<T>, c: seq<T>)
    ensures a + b + c == a + (b + c)
  {
  }

  function Lower(b: byte): byte {
    if 'A' <= b <= 'Z' then (b as int + 32) as char else b
  }

  function ToLower(s: Bytes): (r: Bytes)
    ensures |r| == |s|
    ensures forall i :: 0 <= i < |s| ==> r[i] == Lower(s[i])
  {
    if s == [] then [] else [Lower(s[0])] + ToLower(s[1..])
  }

  function Upper(b: byte): byte {
    if 'a' <= b <= 'z' then (b as int - 32) as char else b
  }

  function ToUpper(s: Bytes): (r: Bytes)
    ensures |r| == |s|
    ensures forall i :: 0 <= i < |s| ==> r[i] == Upper(s[i])
  {
    if s == [] then [] else [Upper(s[0])] + ToUpper(s[1..])
  }

  predicate IsDigit(b: byte) {
    '0' <= b <= '9'
  }

  predicate AllDigits(s: Bytes) {
    forall i :: 0 <= i < |s| ==> IsDigit(s[i])
  }

  /** The number written by a string of decimal digits. */
  function DigitsValue(s: Bytes): nat
    requires AllDigits(s)
  {
    if s == [] then 0 else DigitsValue(s[..|s| - 1]) * 10 + (s[|s| - 1] as int - '0' as int)
  }

  /** strconv.Itoa on non-negative numbers. */
  function Itoa(n: nat): (s: Bytes)
    ensures s != [] && AllDigits(s)
  {
    var digit: byte := (n % 10 + '0' as int) as char;
    if n < 10 then [digit] else Itoa(n / 10) + [digit]
  }

  /** strconv.FormatInt in base 10. */
  function FormatInt(n: int): Bytes {
    if n < 0 then "-" + Itoa(-n) else Itoa(n)
  }

  /** strconv.ParseUint in base 10: no sign, at least one digit, at most max. */
  function ParseUint(s: Bytes, max: nat): Option<nat> {
    if s != [] && AllDigits(s) && DigitsValue(s) <= max then Some(DigitsValue(s)) else None
  }

  /** strconv.ParseInt in base 10 with 64 bits: an optional sign, then digits. */
  function ParseInt(s: Bytes): (r: Option<int>)
    ensures r.Some? ==> IsInt64(r.value)
  {
    var signed := s != [] && (s[0] == '+' || s[0] == '-');
    var digits := if signed then s[1..] else s;
    if digits == [] || !AllDigits(digits) then None
    else
      var magnitude: nat := DigitsValue(digits);
      var n: int := if signed && s[0] == '-' then -(magnitude as int) else magnitude;
      if IsInt64(n) then Some(n) else None
  }

  lemma {:induction false} DigitsValueOfItoa(n: nat)
    ensures DigitsValue(Itoa(n)) == n
  {
    if n >= 10 {
      DigitsValueOfItoa(n / 10);
      assert Itoa(n)[..|Itoa(n)| - 1] == Itoa(n / 10);
    } else {
      assert Itoa(n)[..0] == [];
    }
  }

  lemma ParseUintOfItoa(n: nat, max: nat)
    requires n <= max
    ensures ParseUint(Itoa(n), max) == Some(n)
  {
    DigitsValueOfItoa(n);
  }

  /** Printing an int64 and parsing the text gives the number back. */
  lemma ParseIntOfFormatInt(n: int)
    requires IsInt64(n)
    ensures ParseInt(FormatInt(n)) == Some(n)
  {
    DigitsValueOfItoa(if n < 0 then -n else n);
    if n < 0 {
      assert FormatInt(n)[1..] == Itoa(-n);
    } else {
      assert IsDigit(Itoa(n)[0]);
    }
  }

  /** The text of any other number is refused. */
  lemma ParseIntRefuses(n: int)
    requires !IsInt64(n)
    ensures ParseInt(FormatInt(n)) == None
  {
    DigitsValueOfItoa(if n < 0 then -n else n);
    if n < 0 {
      assert FormatInt(n)[1..] == Itoa(-n);
    } else {
      assert IsDigit(Itoa(n)[0]);
    }
  }

  lemma ParseUintRefuses(n: nat, max: nat)
    requires n > max
    ensures ParseUint(Itoa(n), max) == None
  {
    DigitsValueOfItoa(n);
  }

  lemma FormatIntHasNoLF(n: int)
    ensures LF !in FormatInt(n)
  {
    var digits := Itoa(if n < 0 then -n else n);
    assert forall i :: 0 <= i < |digits| ==> IsDigit(digits[i]) && digits[i] != LF;
  }

  function ZeroDigits(k: nat): (s: Bytes)
    ensures |s| == k && AllDigits(s)
  {
    seq(k, _ => '0')
  }

  lemma {:induction false} LeadingZeros(k: nat, digits: Bytes)
    requires AllDigits(digits)
    ensures AllDigits(ZeroDigits(k) + digits) && DigitsValue(ZeroDigits(k) + digits) == DigitsValue(digits)
  {
    var all := ZeroDigits(k) + digits;
    if digits == [] {
      assert all == ZeroDigits(k);
      ZerosAreZero(k);
    } else {
      LeadingZeros(k, digits[..|digits| - 1]);
      assert all[..|all| - 1] == ZeroDigits(k) + digits[..|digits| - 1];
    }
  }

  lemma {:induction false} ZerosAreZero(k: nat)
    ensures DigitsValue(ZeroDigits(k)) == 0
  {
    if k > 0 {
      ZerosAreZero(k - 1);
      assert ZeroDigits(k)[..k - 1] == ZeroDigits(k - 1);
    }
  }

  /** The texts of integers: a number in decimal, with or without zeros in front, with a sign of either
      kind or none, stands for itself if it is an int64, and for nothing otherwise. */
  lemma SignedTexts(n: nat, zeros: nat)
    ensures var text, m: int := ZeroDigits(zeros) + Itoa(n), n;
      && ParseInt(text) == ParseInt("+" + text) == (if m <= MAX_INT64 then Some(m) else None)
      && ParseInt("-" + text) == (if MIN_INT64 <= -m then Some(-m) else None)
  {
    hide Itoa, ParseInt, DigitsValue;
    DigitsValueOfItoa(n);
    LeadingZeros(zeros, Itoa(n));
    DigitsParse(ZeroDigits(zeros) + Itoa(n), n);
  }

  lemma DigitsParse(text: Bytes, n: nat)
    requires text != [] && AllDigits(text) && DigitsValue(text) == n
    ensures var m: int := n;
      && ParseInt(text) == ParseInt("+" + text) == (if m <= MAX_INT64 then Some(m) else None)
      && ParseInt("-" + text) == (if MIN_INT64 <= -m then Some(-m) else None)
  {
    hide DigitsValue;
    assert IsDigit(text[0]);
    assert ("+" + text)[1..] == text && ("-" + text)[1..] == text;
  }

  /** A text with anything but digits behind its sign, or with nothing there, is no integer. */
  lemma NoIntegerText(sign: Bytes, text: Bytes)
    requires sign == [] || sign == "+" || sign == "-"
    requires text == [] || (exists i :: 0 <= i < |text| && !IsDigit(text[i]))
    requires sign == [] && text != [] ==> text[0] != '+' && text[0] != '-'
    ensures ParseInt(sign + text) == None
  {
    assert sign != [] ==> (sign + text)[1..] == text;
    assert sign == [] ==> sign + text == text;
  }

  /** The texts are decimal. */
  lemma DecimalTexts()
    ensures FormatInt(0) == "0" && FormatInt(10) == "10" && FormatInt(-120) == "-120"
  {
    assert Itoa(1) == "1" && Itoa(12) == "12" && Itoa(120) == "120";
  }
}
