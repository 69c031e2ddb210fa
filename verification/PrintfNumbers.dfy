/**
 * printf's integers: digits are generated in reverse into a 32-byte buffer, padded and signed there,
 * and sent out backwards.
 */
module PrintfNumbers {
  import opened Words
  import opened Division
  import opened PrintfOutput

  const NTOA_BUFFER_SIZE: nat := 32
  const TWO_32: nat := 0x1_0000_0000

  datatype Flags = Flags(
    zeropad: bool, left: bool, plus: bool, space: bool, hash: bool, uppercase: bool, precision: bool,
    isChar: bool, isShort: bool, isLong: bool, isLongLong: bool)

  type Base = b: int | 2 <= b <= 36 witness 10

  // ---- digits and what they denote ----

  function DigitChar(d: nat, upper: bool): char
    requires d < 36
  {
    if d < 10 then (48 + d) as char else if upper then (65 + d - 10) as char else (97 + d - 10) as char
  }

  predicate IsDigit(c: char) { '0' <= c <= '9' }

  function DigitValue(c: char): nat {
    if IsDigit(c) then c as int - 48
    else if 'a' <= c <= 'z' then c as int - 97 + 10
    else if 'A' <= c <= 'Z' then c as int - 65 + 10
    else 0
  }

  /** The number that digits denote, most significant first. */
  function Denotes(digits: seq<char>, base: Base): nat {
    if digits == [] then 0
    else Denotes(digits[..|digits| - 1], base) * base + DigitValue(digits[|digits| - 1])
  }

  /** The digits the conversion loop produces, least significant first: at least one, at most limit. */
  function Digits(value: nat, base: Base, limit: nat, upper: bool): (digits: seq<char>)
    requires limit > 0
    ensures 0 < |digits| <= limit
    decreases limit
  {
    [DigitChar(value % base, upper)] +
    if value / base == 0 || limit == 1 then [] else Digits(value / base, base, limit - 1, upper)
  }

  function Power(base: Base, n: nat): (p: nat)
    ensures p > 0
  {
    if n == 0 then 1 else base * Power(base, n - 1)
  }

  lemma DenotesAppend(digits: seq<char>, c: char, base: Base)
    ensures Denotes(digits + [c], base) == Denotes(digits, base) * base + DigitValue(c)
  {
    assert (digits + [c])[..|digits|] == digits;
  }

  /** What the digits above the lowest denote. */
  function HigherDigits(value: nat, base: Base, limit: nat, upper: bool): nat
    requires limit > 0
  {
    if value / base == 0 || limit == 1 then 0
    else Denotes(Reversed(Digits(value / base, base, limit - 1, upper)), base)
  }

  lemma DigitRoundTrip(d: nat, upper: bool)
    requires d < 36
    ensures DigitValue(DigitChar(d, upper)) == d
    ensures d < 10 ==> IsDigit(DigitChar(d, upper))
  {
  }

  lemma ReversedCons(c: char, rest: seq<char>, base: Base)
    ensures Denotes(Reversed([c] + rest), base) == Denotes(Reversed(rest), base) * base + DigitValue(c)
  {
    assert Reversed([c] + rest) == Reversed(rest) + [c];
    DenotesAppend(Reversed(rest), c, base);
  }

  /** Sent backwards, the digit produced first comes last. */
  lemma DigitsReversed(value: nat, base: Base, limit: nat, upper: bool)
    requires limit > 0
    ensures Denotes(Reversed(Digits(value, base, limit, upper)), base)
      == HigherDigits(value, base, limit, upper) * base + value % base
  {
    hide Reversed, DigitValue, DigitChar;
    var rest := if value / base == 0 || limit == 1 then [] else Digits(value / base, base, limit - 1, upper);
    DigitRoundTrip(value % base, upper);
    ReversedCons(DigitChar(value % base, upper), rest, base);
    if rest == [] { NothingDenotesZero(base); }
  }

  lemma NothingDenotesZero(base: Base)
    ensures Denotes(Reversed([]), base) == 0
  {
  }

  /** The digits denote the value modulo base^limit. */
  lemma {:induction false} DigitsDenote(value: nat, base: Base, limit: nat, upper: bool)
    requires limit > 0
    ensures Denotes(Reversed(Digits(value, base, limit, upper)), base) == value % Power(base, limit)
    decreases limit, 1
  {
    hide Denotes, Digits;
    DigitsReversed(value, base, limit, upper);
    var p := Power(base, limit - 1);
    ModOfProduct(value, base, p);
    HigherDigitsDenote(value, base, limit, upper, p);
  }

  lemma {:induction false} HigherDigitsDenote(value: nat, base: Base, limit: nat, upper: bool, p: nat)
    requires limit > 0 && p == Power(base, limit - 1)
    ensures HigherDigits(value, base, limit, upper) == (value / base) % p
    decreases limit, 0
  {
    hide Denotes, Digits, Reversed;
    if value / base != 0 && limit > 1 {
      DigitsDenote(value / base, base, limit - 1, upper);
    } else if limit == 1 {
      assert p == 1;
    }
  }

  /** The conversion is exact, and not cut off by the buffer, exactly for values below base^limit. */
  lemma ConversionIsExact(value: nat, base: Base, limit: nat, upper: bool)
    requires limit > 0
    ensures Denotes(Reversed(Digits(value, base, limit, upper)), base) == value <==> value < Power(base, limit)
  {
    hide *;
    DigitsDenote(value, base, limit, upper);
    OwnRemainder(value, Power(base, limit));
  }

  lemma DigitsLength(value: nat, base: Base, limit: nat, upper: bool)
    requires limit > 0
    ensures |Digits(value, base, limit, upper)|
      == 1 + if value / base == 0 || limit == 1 then 0 else |Digits(value / base, base, limit - 1, upper)|
  {
    hide DigitChar;
  }

  /** A value below base^k takes at most k digits. */
  lemma {:induction false} DigitCount(value: nat, base: Base, limit: nat, upper: bool, k: nat)
    requires 0 < k <= limit && value < Power(base, k)
    ensures |Digits(value, base, limit, upper)| <= k
    decreases k
  {
    hide Power, Digits;
    QuotientBelowPower(value, base, k);
    DigitsLength(value, base, limit, upper);
    if k > 1 && value / base != 0 { DigitCount(value / base, base, limit - 1, upper, k - 1); }
  }

  lemma QuotientBelowPower(value: nat, base: Base, k: nat)
    requires k > 0 && value < Power(base, k)
    ensures value / base < Power(base, k - 1)
    ensures k == 1 ==> value / base == 0
  {
    PowerUnfolds(base, k);
    if k == 1 { assert Power(base, k - 1) == 1; }
    hide Power;
    QuotientBelow(value, base, Power(base, k - 1));
  }

  lemma PowerUnfolds(base: Base, n: nat)
    requires n > 0
    ensures Power(base, n) == base * Power(base, n - 1)
  {
  }

  lemma {:induction false} PowerSum(base: Base, a: nat, b: nat)
    ensures Power(base, a + b) == Power(base, a) * Power(base, b)
  {
    if a == 0 {
      assert Power(base, 0) == 1;
    } else {
      PowerSum(base, a - 1, b);
      Associates(base, Power(base, a - 1), Power(base, b));
      PowerUnfolds(base, a + b);
      PowerUnfolds(base, a);
      hide Power;
    }
  }

  lemma {:induction false} PowerGrows(small: Base, base: Base, n: nat)
    requires small <= base
    ensures Power(small, n) <= Power(base, n)
  {
    if n > 0 {
      PowerGrows(small, base, n - 1);
      ProductsGrow(small, base, Power(small, n - 1), Power(base, n - 1));
    }
  }

  lemma PowersOfEight()
    ensures Power(8, 22) == 0x4_0000_0000_0000_0000
  {
    assert Power(8, 4) == 0x1000;
    PowerSum(8, 4, 4);
    PowerSum(8, 8, 8);
    PowerSum(8, 4, 2);
    PowerSum(8, 16, 6);
  }

  const MAX_DIGITS := 22

  /** In octal, decimal and hexadecimal every 64-bit value fits: at most 22 digits, which denote it. */
  lemma WordsAreExact(value: Word, base: Base, upper: bool)
    requires base >= 8
    ensures |Digits(value, base, NTOA_BUFFER_SIZE, upper)| <= MAX_DIGITS
    ensures Denotes(Reversed(Digits(value, base, NTOA_BUFFER_SIZE, upper)), base) == value
  {
    hide Power, Denotes, Digits, Reversed;
    PowersOfEight();
    PowerGrows(8, base, MAX_DIGITS);
    PowerSum(base, MAX_DIGITS, NTOA_BUFFER_SIZE - MAX_DIGITS);
    ProductsGrow(Power(base, MAX_DIGITS), Power(base, MAX_DIGITS), 1, Power(base, NTOA_BUFFER_SIZE - MAX_DIGITS));
    DigitCount(value, base, NTOA_BUFFER_SIZE, upper, MAX_DIGITS);
    ConversionIsExact(value, base, NTOA_BUFFER_SIZE, upper);
  }

  // ---- _atoi and _strnlen_s ----

  /** Where the digits that start at an index end. */
  function DigitsEnd(text: seq<char>, start: nat): (end: nat)
    requires start <= |text|
    ensures start <= end <= |text| && (forall k :: start <= k < end ==> IsDigit(text[k]))
    ensures end < |text| ==> !IsDigit(text[end])
    decreases |text| - start
  {
    if start < |text| && IsDigit(text[start]) then DigitsEnd(text, start + 1) else start
  }

  lemma EmptyDenotesNothing(base: Base)
    ensures Denotes([], base) == 0
  {
  }

  lemma WrappedStep(acc: nat, sum: nat, d: nat)
    requires acc == sum % TWO_32
    ensures (acc * 10 + d) % TWO_32 == (sum * 10 + d) % TWO_32
  {
    assert sum == sum / TWO_32 * TWO_32 + acc;
    var q, r := (acc * 10 + d) / TWO_32, (acc * 10 + d) % TWO_32;
    assert sum * 10 + d == (sum / TWO_32 * 10 + q) * TWO_32 + r;
    Unique(sum * 10 + d, TWO_32, sum / TWO_32 * 10 + q, r);
  }

  lemma DigitAppended(text: seq<char>, start: nat, next: nat)
    requires start <= next < |text| && IsDigit(text[next])
    ensures Denotes(text[start..next + 1], 10) == Denotes(text[start..next], 10) * 10 + (text[next] as int - 48)
  {
    assert text[start..next + 1] == text[start..next] + [text[next]];
    DenotesAppend(text[start..next], text[next], 10);
  }

  /** _atoi: the decimal number at the front of a string, modulo 2^32. */
  method Atoi(text: seq<char>, start: nat) returns (i: nat, next: nat)
    requires start <= |text|
    ensures next == DigitsEnd(text, start)
    ensures i == Denotes(text[start..next], 10) % TWO_32
  {
    i, next := 0, start;
    EmptyDenotesNothing(10);
    hide Denotes;
    while next < |text| && IsDigit(text[next])
      invariant start <= next <= |text| && DigitsEnd(text, next) == DigitsEnd(text, start)
      invariant i == Denotes(text[start..next], 10) % TWO_32
    {
      DigitAppended(text, start, next);
      WrappedStep(i, Denotes(text[start..next], 10), text[next] as int - 48);
      i := (i * 10 + (text[next] as int - 48)) % TWO_32;
      next := next + 1;
    }
  }

  lemma {:induction false} DecimalDigits(value: nat, limit: nat, upper: bool)
    requires limit > 0
    ensures forall k :: 0 <= k < |Digits(value, 10, limit, upper)| ==> IsDigit(Digits(value, 10, limit, upper)[k])
    decreases limit
  {
    DigitRoundTrip(value % 10, upper);
    if value / 10 != 0 && limit > 1 { DecimalDigits(value / 10, limit - 1, upper); }
  }

  lemma {:induction false} EndsWithDigits(digits: seq<char>, rest: seq<char>, start: nat)
    requires start <= |digits| && (forall k :: 0 <= k < |digits| ==> IsDigit(digits[k]))
    requires rest == [] || !IsDigit(rest[0])
    ensures DigitsEnd(digits + rest, start) == |digits|
    decreases |digits| - start
  {
    if start < |digits| { EndsWithDigits(digits, rest, start + 1); }
  }

  /** What the conversion prints in decimal, _atoi reads back modulo 2^32. */
  lemma AtoiReadsBack(value: Word, rest: seq<char>)
    requires rest == [] || !IsDigit(rest[0])
    ensures var printed := Reversed(Digits(value, 10, NTOA_BUFFER_SIZE, false));
      && DigitsEnd(printed + rest, 0) == |printed|
      && Denotes((printed + rest)[..|printed|], 10) % TWO_32 == value % TWO_32
  {
    hide Digits, Denotes, Reversed, IsDigit, DigitsEnd;
    var digits := Digits(value, 10, NTOA_BUFFER_SIZE, false);
    var printed := Reversed(digits);
    DecimalDigits(value, NTOA_BUFFER_SIZE, false);
    WordsAreExact(value, 10, false);
    assert forall k :: 0 <= k < |printed| ==> printed[k] == digits[|digits| - 1 - k];
    EndsWithDigits(printed, rest, 0);
    assert (printed + rest)[..|printed|] == printed;
  }

  /** _strnlen_s on a string without its terminating NUL. */
  method Strnlen(str: seq<char>, maxsize: nat) returns (n: nat)
    ensures n == if |str| < maxsize then |str| else maxsize
  {
    n := 0;
    var left := maxsize;
    while n < |str| && left > 0
      invariant n <= |str| && left == maxsize - n
    {
      n, left := n + 1, left - 1;
    }
  }
}
