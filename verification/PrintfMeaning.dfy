/**
 * What printf prints, told from the request alone: the numeral of the argument's value in the conversion's
 * base, its sign, zeros and spaces; strings, characters and pointers.
 */
module PrintfMeaning {
  import opened Words
  import opened Division
  import opened PrintfOutput
  import opened PrintfNumbers
  import opened PrintfNtoa
  import opened PrintfFormat
  import opened PrintfRendering

  // ---- numerals ----

  /** The numeral of a value, most significant digit first and without leading zeros. */
  function Numeral(value: nat, base: nat, upper: bool): (text: seq<char>)
    requires 2 <= base <= 16
    ensures |text| > 0
  {
    var digit := (if upper then "0123456789ABCDEF" else "0123456789abcdef")[value % base];
    if value < base then [digit] else Numeral(value / base, base, upper) + [digit]
  }

  lemma DigitIsListed(d: nat, upper: bool)
    requires d < 16
    ensures DigitChar(d, upper) == (if upper then "0123456789ABCDEF" else "0123456789abcdef")[d]
  {
  }

  lemma QuotientIsZero(value: nat, base: nat)
    requires base >= 2
    ensures value / base == 0 <==> value < base
    ensures value >= base ==> value / base < value
  {
  }

  /** The end of a text. */
  function Last(text: seq<char>, n: nat): seq<char> {
    if |text| <= n then text else text[|text| - n..]
  }

  lemma LastAppended(text: seq<char>, c: char, n: nat)
    requires n > 0
    ensures Last(text + [c], n) == Last(text, n - 1) + [c]
  {
  }

  /** The conversion loop produces the numeral in reverse, the last digits of it if the buffer cannot hold all. */
  lemma {:induction false} DigitsAreNumeral(value: nat, base: Base, limit: nat, upper: bool)
    requires base <= 16 && 0 < limit
    ensures Reversed(Digits(value, base, limit, upper)) == Last(Numeral(value, base, upper), limit)
    decreases limit
  {
    var c := DigitChar(value % base, upper);
    DigitIsListed(value % base, upper);
    QuotientIsZero(value, base);
    ReversedFirst(c, []);
    hide DigitChar, Reversed, Last;
    LastAppended([], c, limit);
    if value >= base {
      LastAppended(Numeral(value / base, base, upper), c, limit);
      if limit > 1 {
        DigitsAreNumeral(value / base, base, limit - 1, upper);
        ReversedFirst(c, Digits(value / base, base, limit - 1, upper));
      }
    }
    LastOfNone(Numeral(value / base, base, upper), limit);
  }

  lemma LastOfNone(text: seq<char>, limit: nat)
    ensures Last([], limit) == [] && Last(text, 0) == []
  {
  }

  lemma ReversedLast(text: seq<char>, c: char)
    ensures Reversed(text + [c]) == [c] + Reversed(text)
  {
    ReversedConcat(text, [c]);
    ReversedConcat([c], []);
  }

  lemma ReversedFront(text: seq<char>, k: nat)
    requires k <= |text|
    ensures Reversed(text[..|text| - k]) == Reversed(text)[k..]
  {
    var front, back := text[..|text| - k], text[|text| - k..];
    ReversedConcat(front, back);
    assert text == front + back;
    hide Reversed;
  }

  lemma ReversedSign(text: seq<char>, sign: seq<char>)
    requires |sign| <= 1
    ensures Reversed(text + sign) == sign + Reversed(text)
  {
    ReversedConcat(text, sign);
    assert Reversed(sign) == sign;
    hide Reversed;
  }

  lemma ReversedFirst(c: char, rest: seq<char>)
    ensures Reversed([c] + rest) == Reversed(rest) + [c]
    ensures Reversed([]) == []
  {
  }

  // ---- the place of a number in its field ----

  /**
   * Zeros and digits: zeros extend the digits to the precision, and with zero padding to the width less the
   * sign's column. '-' turns both off, and zeros and digits together are at most 32.
   */
  function Zeroed(sign: seq<char>, digits: seq<char>, prec: nat, width: nat, zero: bool, left: bool): seq<char> {
    var padded := if zero && width > 0 then width - |sign| else 0;
    var n := if left then |digits| else Min(32, Max(|digits|, Max(prec, padded)));
    Repeat('0', n - |digits|) + digits
  }

  predicate IsHexMark(mark: seq<char>) { mark == "0x" || mark == "0X" }

  /**
   * The mark of '#' in front: as much of it as finds a place among 32. If zeros and digits just fill a field
   * and there is no precision, the first of them give way to it, two to a hexadecimal mark and one to others.
   */
  function Marked(mark: seq<char>, body: seq<char>, precise: bool, field: int): seq<char> {
    if mark == [] then body
    else
      var fills := !precise && 0 < |body| == field;
      var kept := body[if !fills then 0 else if IsHexMark(mark) && |body| > 1 then 2 else 1..];
      Last(mark, if |kept| < 32 then 32 - |kept| else 0) + kept
  }

  /** Sign, mark, zeros and digits, and spaces up to the width; 32 other characters leave no place for the sign. */
  function Placed(sign: seq<char>, mark: seq<char>, digits: seq<char>,
                  precision: Option<nat>, width: nat, zero: bool, left: bool): (text: seq<char>)
  {
    var body := Zeroed(sign, digits, if precision.Some? then precision.value else 0, width, zero, left);
    var field := if zero && !left && width > 0 then width - |sign| else width;
    var marked := Marked(mark, body, precision.Some?, field);
    Spaced(if |marked| < 32 then sign + marked else marked, width, zero, left)
  }

  function Spaced(number: seq<char>, width: nat, zero: bool, left: bool): seq<char> {
    if left then number + Repeat(' ', width - |number|)
    else Repeat(' ', (if zero then 0 else width) - |number|) + number
  }

  function MarkFor(base: Base, flags: Flags): seq<char> {
    if !flags.hash then ""
    else if base == 16 then (if flags.uppercase then "0X" else "0x")
    else if base == 2 then "0b" else "0"
  }

  function ZeroedCount(sign: nat, digits: nat, prec: nat, width: nat, zero: bool, left: bool): int {
    if left then digits
    else Min(32, Max(digits, Max(prec, if zero && width > 0 then width - sign else 0)))
  }

  lemma PrintedCount(digits: nat, negative: bool, prec: nat, width: nat, flags: Flags)
    ensures PrintedDigits(digits, negative, prec, width, flags)
      == ZeroedCount(|SignText(negative, flags)|, digits, prec, width, flags.zeropad, flags.left)
      || digits > NTOA_BUFFER_SIZE
  {
  }

  lemma ZeroedBy(sign: seq<char>, digits: seq<char>, prec: nat, width: nat, zero: bool, left: bool)
    ensures Zeroed(sign, digits, prec, width, zero, left)
      == Repeat('0', ZeroedCount(|sign|, |digits|, prec, width, zero, left) - |digits|) + digits
  {
    hide Repeat, Min, Max;
  }

  lemma ReversedZeros(digits: seq<char>, zeros: int)
    ensures Reversed(digits + Repeat('0', zeros)) == Repeat('0', zeros) + Reversed(digits)
  {
    ReversedConcat(digits, Repeat('0', zeros));
    ReversedRepeat('0', zeros);
    hide Reversed, Repeat;
  }

  lemma ZeroedIsFilled(digits: seq<char>, negative: bool, prec: nat, width: nat, flags: Flags)
    requires |digits| <= NTOA_BUFFER_SIZE
    ensures Reversed(Filled(digits, negative, prec, width, flags))
      == Zeroed(SignText(negative, flags), Reversed(digits), prec, width, flags.zeropad, flags.left)
    ensures |Filled(digits, negative, prec, width, flags)| <= NTOA_BUFFER_SIZE
  {
    hide *;
    FilledIsPrinted(digits, negative, prec, width, flags);
    PrintedBounds(|digits|, negative, prec, width, flags);
    PrintedCount(|digits|, negative, prec, width, flags);
    ReversedZeros(digits, PrintedDigits(|digits|, negative, prec, width, flags) - |digits|);
    ZeroedBy(SignText(negative, flags), Reversed(digits), prec, width, flags.zeropad, flags.left);
    assert |Reversed(digits)| == |digits|;
  }

  /** How many places give way to the mark. */
  function Dropped(filled: nat, base: Base, field: nat, flags: Flags): (n: nat)
    ensures n <= filled
  {
    if flags.precision || filled == 0 || filled != field then 0 else if base == 16 && filled > 1 then 2 else 1
  }

  lemma CutBy(filled: seq<char>, base: Base, prec: nat, field: nat, flags: Flags)
    requires !flags.precision ==> prec == 0
    ensures Cut(filled, base, prec, field, flags) == filled[..|filled| - Dropped(|filled|, base, field, flags)]
  {
  }

  lemma CutReversed(filled: seq<char>, base: Base, prec: nat, field: nat, flags: Flags)
    requires !flags.precision ==> prec == 0
    ensures Reversed(Cut(filled, base, prec, field, flags))
      == Reversed(filled)[Dropped(|filled|, base, field, flags)..]
  {
    CutBy(filled, base, prec, field, flags);
    ReversedFront(filled, Dropped(|filled|, base, field, flags));
    hide Reversed, Cut, Dropped;
  }

  lemma PrefixReversed(kept: seq<char>, base: Base, flags: Flags)
    requires flags.hash && |kept| <= NTOA_BUFFER_SIZE
    ensures Reversed(Prefixed(kept, base, flags)) == Last(MarkFor(base, flags), 32 - |kept|) + Reversed(kept)
    ensures |Prefixed(kept, base, flags)| <= NTOA_BUFFER_SIZE
  {
    var c := if base == 2 then 'b' else if flags.uppercase then 'X' else 'x';
    ReversedLast(kept, c);
    ReversedLast(kept, '0');
    ReversedLast(kept + [c], '0');
    hide Reversed;
  }

  lemma MarkedIsHashed(filled: seq<char>, base: Base, prec: nat, field: nat, flags: Flags)
    requires |filled| <= NTOA_BUFFER_SIZE && (!flags.precision ==> prec == 0)
    ensures var hashed := if flags.hash then Prefixed(Cut(filled, base, prec, field, flags), base, flags) else filled;
      && Reversed(hashed) == Marked(MarkFor(base, flags), Reversed(filled), flags.precision, field)
      && |hashed| <= NTOA_BUFFER_SIZE
  {
    if flags.hash {
      CutReversed(filled, base, prec, field, flags);
      PrefixReversed(Cut(filled, base, prec, field, flags), base, flags);
      assert IsHexMark(MarkFor(base, flags)) <==> base == 16;
    }
    hide Cut, Prefixed, Reversed;
  }

  lemma SignedReversed(hashed: seq<char>, negative: bool, flags: Flags)
    requires |hashed| <= NTOA_BUFFER_SIZE
    ensures |SignText(negative, flags)| <= 1
    ensures Reversed(WithSign(hashed, negative, flags))
      == if |hashed| < 32 then SignText(negative, flags) + Reversed(hashed) else Reversed(hashed)
  {
    if |hashed| < 32 { ReversedSign(hashed, SignText(negative, flags)); }
    hide Reversed;
  }

  lemma SpacedIsSent(reversed: seq<char>, field: int, width: nat, zero: bool, left: bool)
    requires left || !zero ==> field == width
    ensures RevText(reversed, field, left, zero) == Spaced(Reversed(reversed), width, zero, left)
  {
    assert Repeat(' ', 0 - |reversed|) == [];
    hide Reversed, Repeat;
  }

  lemma NumberIsPlaced(digits: seq<char>, negative: bool, base: Base, prec: nat, width: nat, flags: Flags)
    requires |digits| <= NTOA_BUFFER_SIZE && (!flags.precision ==> prec == 0)
    ensures PrintfNtoa.NumberText(digits, negative, base, prec, width, flags)
      == Placed(SignText(negative, flags), MarkFor(base, flags), Reversed(digits),
                if flags.precision then Some(prec) else None, width, flags.zeropad, flags.left)
  {
    var field := FieldWidth(negative, width, flags);
    var filled := Filled(digits, negative, prec, width, flags);
    var hashed := if flags.hash then Prefixed(Cut(filled, base, prec, field, flags), base, flags) else filled;
    var signed := WithSign(hashed, negative, flags);
    var sign, mark := SignText(negative, flags), MarkFor(base, flags);
    FieldByText(digits, negative, base, prec, width, flags);
    FieldBySign(negative, width, flags);
    FieldFits(negative, width, flags);
    PlacedBySign(sign, mark, Reversed(digits), flags.precision, prec, width, flags.zeropad, flags.left);
    hide *;
    ZeroedIsFilled(digits, negative, prec, width, flags);
    MarkedIsHashed(filled, base, prec, field, flags);
    SignedReversed(hashed, negative, flags);
    SpacedIsSent(signed, field, width, flags.zeropad, flags.left);
    assert |Reversed(hashed)| == |hashed|;
  }

  lemma FieldBySign(negative: bool, width: nat, flags: Flags)
    ensures FieldWidth(negative, width, flags)
      == if flags.zeropad && !flags.left && width > 0 then width - |SignText(negative, flags)| else width
  {
  }

  lemma FieldByText(digits: seq<char>, negative: bool, base: Base, prec: nat, width: nat, flags: Flags)
    ensures var field := FieldWidth(negative, width, flags);
      var filled := Filled(digits, negative, prec, width, flags);
      var hashed := if flags.hash then Prefixed(Cut(filled, base, prec, field, flags), base, flags) else filled;
      PrintfNtoa.NumberText(digits, negative, base, prec, width, flags)
      == RevText(WithSign(hashed, negative, flags), field, flags.left, flags.zeropad)
  {
    hide Filled, Prefixed, Cut, WithSign, RevText, FieldWidth;
  }

  lemma PlacedBySign(sign: seq<char>, mark: seq<char>, digits: seq<char>,
                     precise: bool, prec: nat, width: nat, zero: bool, left: bool)
    requires !precise ==> prec == 0
    ensures var field := if zero && !left && width > 0 then width - |sign| else width;
      var marked := Marked(mark, Zeroed(sign, digits, prec, width, zero, left), precise, field);
      Placed(sign, mark, digits, if precise then Some(prec) else None, width, zero, left)
      == Spaced(if |marked| < 32 then sign + marked else marked, width, zero, left)
  {
    hide Zeroed, Marked, Spaced;
  }

  // ---- integers ----

  /** The low bits of a register as an unsigned or, with a sign bit, as a two's complement number. */
  function Unsigned(bits: Word, modulus: nat): nat
    requires modulus > 0
  {
    bits % modulus
  }

  function TwosComplement(bits: Word, modulus: nat): int
    requires modulus > 0
  {
    if bits % modulus < modulus / 2 then bits % modulus else bits % modulus - modulus
  }

  /** 2 to the number of bits of a length's type. */
  function Modulus(length: Length): nat {
    match length
    case Plain => 0x1_0000_0000
    case Char => 0x100
    case Short => 0x1_0000
    case _ => 0x1_0000_0000_0000_0000
  }

  /** The argument as an integer conversion takes it; plain char is unsigned on RISC-V. */
  function IntegerArgument(c: char, length: Length, bits: Word): int {
    if (c == 'd' || c == 'i') && length != Char then TwosComplement(bits, Modulus(length))
    else Unsigned(bits, Modulus(length))
  }

  /** The least int and long have no negation. */
  predicate HasNegation(c: char, length: Length, bits: Word) {
    c == 'd' || c == 'i' ==>
      if length == Plain then bits % 0x1_0000_0000 != 0x8000_0000
      else length == Short || length == Char || bits != 0x8000_0000_0000_0000
  }

  function Radix(c: char): (base: nat)
    ensures 2 <= base <= 16
  {
    if c == 'x' || c == 'X' then 16 else if c == 'o' then 8 else if c == 'b' then 2 else 10
  }

  predicate IsConversion(c: char) { c in "diuxXob" }

  /** '-' in front of a negative number; '+' and ' ' ask for one in front of others, in signed conversions only. */
  function SignFor(c: char, flags: seq<char>, v: int): seq<char> {
    if v < 0 then "-"
    else if (c == 'd' || c == 'i') && '+' in flags then "+"
    else if (c == 'd' || c == 'i') && ' ' in flags then " "
    else ""
  }

  /** A negative width left-justifies in its absolute value. */
  function WidthOf(r: Request): nat { Abs(FieldValue(r.width)) }
  predicate IsLeft(r: Request) { '-' in r.flags || FieldValue(r.width) < 0 }

  /** A negative precision counts as 0. */
  function PrecisionOf(r: Request): Option<nat> {
    if r.precision.None? then None
    else if FieldValue(r.precision.value) < 0 then Some(0) else Some(FieldValue(r.precision.value))
  }

  /** What '#' puts in front of a number other than 0. */
  function MarkOf(c: char, flags: seq<char>, v: int): seq<char> {
    if v == 0 || '#' !in flags then ""
    else if c == 'x' then "0x" else if c == 'X' then "0X" else if c == 'b' then "0b" else if c == 'o' then "0" else ""
  }

  /**
   * An integer conversion: the argument's numeral, placed; no digits for 0 with a precision. The last 32 digits
   * of a numeral are all of them except for binary numbers from 2^32 on.
   */
  function IntegerPrinted(c: char, r: Request, bits: Word): seq<char> {
    var v := IntegerArgument(c, r.length, bits);
    var digits := if r.precision.Some? && v == 0 then "" else Last(Numeral(Abs(v), Radix(c), c == 'X'), 32);
    Placed(SignFor(c, r.flags, v), MarkOf(c, r.flags, v), digits, PrecisionOf(r), WidthOf(r),
           '0' in r.flags && r.precision.None?, IsLeft(r))
  }

  // ---- a request's specification, field by field ----

  function PrecisionNumber(r: Request): nat { if PrecisionOf(r).Some? then PrecisionOf(r).value else 0 }

  lemma PlainFields(flags: seq<char>)
    ensures var f := WithFlags(NO_FLAGS, flags);
      && f.left == ('-' in flags) && f.zeropad == ('0' in flags) && f.plus == ('+' in flags)
      && f.space == (' ' in flags) && f.hash == ('#' in flags) && !f.precision && !f.uppercase
      && !f.isChar && !f.isShort && !f.isLong && !f.isLongLong
  {
  }

  lemma WidthFields(s: Spec, r: Request)
    ensures WithWidth(s, r.width)
      == s.(width := WidthOf(r), flags := s.flags.(left := s.flags.left || FieldValue(r.width) < 0))
  {
    hide FieldValue;
    assert s.flags.(left := s.flags.left) == s.flags;
  }

  lemma PrecisionFields(s: Spec, r: Request)
    requires s.prec == 0 && !s.flags.precision
    ensures WithPrecision(s, r.precision)
      == s.(prec := PrecisionNumber(r), flags := s.flags.(precision := r.precision.Some?))
  {
    hide FieldValue;
    assert s.flags.(precision := false) == s.flags;
  }

  lemma LengthFields(s: Spec, l: Length)
    requires !s.flags.isChar && !s.flags.isShort && !s.flags.isLong && !s.flags.isLongLong
    ensures var t := WithLength(s, l);
      && t == s.(flags := s.flags.(isLong := t.flags.isLong, isLongLong := t.flags.isLongLong,
                                   isShort := t.flags.isShort, isChar := t.flags.isChar))
      && t.flags.isChar == (l == Char) && t.flags.isShort == (l == Short || l == Char)
      && (t.flags.isLong || t.flags.isLongLong <==> l != Plain && l != Short && l != Char)
  {
  }

  lemma MeaningFields(r: Request, next: nat, rest: seq<Arg>)
    ensures var s := Meaning(r, next, rest);
      && s.width == WidthOf(r) && (if s.flags.precision then Some(s.prec) else None) == PrecisionOf(r)
      && (!s.flags.precision ==> s.prec == 0) && s.next == next && s.args == rest
      && s.flags.left == IsLeft(r) && s.flags.zeropad == ('0' in r.flags) && s.flags.plus == ('+' in r.flags)
      && s.flags.space == (' ' in r.flags) && s.flags.hash == ('#' in r.flags)
      && s.flags.precision == r.precision.Some? && !s.flags.uppercase
      && s.flags.isChar == (r.length == Char) && s.flags.isShort == (r.length == Short || r.length == Char)
      && (s.flags.isLong || s.flags.isLongLong <==>
          r.length != Plain && r.length != Short && r.length != Char)
  {
    var plain := Spec(WithFlags(NO_FLAGS, r.flags), 0, 0, next, rest);
    PlainFields(r.flags);
    WidthFields(plain, r);
    PrecisionFields(WithWidth(plain, r.width), r);
    LengthFields(WithPrecision(WithWidth(plain, r.width), r.precision), r.length);
    hide FieldValue, WidthOf, PrecisionNumber, WithFlags, WithWidth, WithPrecision, WithLength;
  }

  // ---- what the integer conversions print ----

  lemma LongIsPlaced(value: Word, negative: bool, base: Base, prec: nat, width: nat, flags: Flags)
    requires base <= 16 && (!flags.precision ==> prec == 0)
    ensures LongText(value, negative, base, prec, width, flags)
      == Placed(SignText(negative, flags), if value == 0 then [] else MarkFor(base, flags),
                if flags.precision && value == 0 then [] else Last(Numeral(value, base, flags.uppercase), 32),
                if flags.precision then Some(prec) else None, width, flags.zeropad, flags.left)
  {
    var f := if value == 0 then flags.(hash := false) else flags;
    DigitsAreNumeral(value, base, NTOA_BUFFER_SIZE, flags.uppercase);
    assert Reversed([]) == [];
    NumberIsPlaced(LongDigits(value, base, flags), negative, base, prec, width, f);
    assert SignText(negative, f) == SignText(negative, flags);
    hide Placed, PrintfNtoa.NumberText, Digits, Numeral, Reversed, SignText;
  }

  /** The flags that the length's type depends on. */
  predicate HasLength(f: Flags, l: Length) {
    && f.isChar == (l == Char) && f.isShort == (l == Short || l == Char)
    && (f.isLong || f.isLongLong <==> l != Plain && l != Short && l != Char)
  }

  lemma ArgumentValue(c: char, l: Length, bits: Word, f: Flags)
    requires HasLength(f, l)
    ensures c == 'd' || c == 'i' ==>
      SignedValue(bits, f) == if HasNegation(c, l, bits) then Some(IntegerArgument(c, l, bits)) else None
    ensures c != 'd' && c != 'i' ==> UnsignedValue(bits, f) == IntegerArgument(c, l, bits)
  {
  }

  lemma SignIsFor(c: char, r: Request, f: Flags, v: int)
    requires f.plus == ('+' in r.flags) && f.space == (' ' in r.flags)
    ensures SignText(v < 0, IntegerFlags(c, f)) == SignFor(c, r.flags, v)
  {
  }

  lemma IntegerFields(c: char, f: Flags)
    requires IsConversion(c) && !f.uppercase
    ensures var g := IntegerFlags(c, f);
      && g.uppercase == (c == 'X') && g.left == f.left && g.precision == f.precision
      && g.zeropad == (f.zeropad && !f.precision)
      && MarkFor(Radix(c), g) == MarkOf(c, if f.hash then "#" else "", 1)
    ensures IsInteger(c) && IsSigned(c) == (c == 'd' || c == 'i') && BaseOf(c) == Radix(c)
  {
  }

  lemma MarkIsFor(c: char, flags: seq<char>, hash: bool, v: int)
    requires hash == ('#' in flags)
    ensures MarkOf(c, flags, v) == if v == 0 then [] else MarkOf(c, if hash then "#" else "", 1)
  {
  }

  lemma IntegerIsLong(c: char, s: Spec, l: Length, bits: Word)
    requires IsConversion(c) && HasLength(s.flags, l) && !s.flags.uppercase
    ensures var v := IntegerArgument(c, l, bits);
      && (HasNegation(c, l, bits) ==> Abs(v) < TWO_64)
      && IntegerConversion(c, s, bits) ==
        if HasNegation(c, l, bits) then
          Some(LongText(Abs(v), v < 0, Radix(c), s.prec, s.width, IntegerFlags(c, s.flags)))
        else None
  {
    ArgumentValue(c, l, bits, s.flags);
    IntegerFields(c, s.flags);
    SignedFits(bits, s.flags);
    if c != 'd' && c != 'i' { NegationOfOthers(c, l, bits); }
    hide LongText, SignedValue, UnsignedValue, IntegerArgument, HasNegation, IntegerFlags, Radix, BaseOf, IsConversion;
    hide MarkFor, MarkOf, HasLength;
  }

  lemma NegationOfOthers(c: char, l: Length, bits: Word)
    requires c != 'd' && c != 'i'
    ensures HasNegation(c, l, bits) && IntegerArgument(c, l, bits) >= 0
  {
  }

  lemma PrintedInteger(c: char, r: Request, bits: Word)
    ensures var v := IntegerArgument(c, r.length, bits);
      && IntegerPrinted(c, r, bits) == Placed(SignFor(c, r.flags, v), MarkOf(c, r.flags, v),
           if r.precision.Some? && Abs(v) == 0 then [] else Last(Numeral(Abs(v), Radix(c), c == 'X'), 32),
           PrecisionOf(r), WidthOf(r), '0' in r.flags && r.precision.None?, IsLeft(r))
      && (Abs(v) == 0 <==> v == 0)
  {
    hide Numeral, Placed, IntegerArgument, SignFor, MarkOf;
  }

  lemma PlacesInteger(c: char, r: Request, next: nat, rest: seq<Arg>, bits: Word)
    requires IsConversion(c)
    ensures var s, v := Meaning(r, next, rest), IntegerArgument(c, r.length, bits);
      Abs(v) < TWO_64 ==>
        LongText(Abs(v), v < 0, Radix(c), s.prec, s.width, IntegerFlags(c, s.flags)) == IntegerPrinted(c, r, bits)
  {
    hide *;
    var s, v := Meaning(r, next, rest), IntegerArgument(c, r.length, bits);
    MeaningFields(r, next, rest);
    SignIsFor(c, r, s.flags, v);
    IntegerFields(c, s.flags);
    MarkIsFor(c, r.flags, s.flags.hash, v);
    PrintedInteger(c, r, bits);
    if Abs(v) < TWO_64 {
      LongIsPlaced(Abs(v), v < 0, Radix(c), s.prec, s.width, IntegerFlags(c, s.flags));
    }
  }

  /** Every integer conversion of every request, argument and length prints the argument's numeral in its place. */
  lemma ConvertsInteger(c: char, r: Request, next: nat, rest: seq<Arg>, bits: Word)
    requires IsConversion(c)
    ensures IntegerConversion(c, Meaning(r, next, rest), bits)
      == if HasNegation(c, r.length, bits) then Some(IntegerPrinted(c, r, bits)) else None
  {
    hide *;
    MeaningFields(r, next, rest);
    MeaningLength(r, next, rest);
    IntegerIsLong(c, Meaning(r, next, rest), r.length, bits);
    PlacesInteger(c, r, next, rest, bits);
  }

  lemma MeaningLength(r: Request, next: nat, rest: seq<Arg>)
    ensures HasLength(Meaning(r, next, rest).flags, r.length)
  {
    MeaningFields(r, next, rest);
    hide Meaning, WidthOf, PrecisionOf;
  }

  // ---- every conversion with an argument, wherever its specification stands in a format ----

  function Aligned(text: seq<char>, width: nat, left: bool): seq<char> {
    if left then text + Repeat(' ', width - |text|) else Repeat(' ', width - |text|) + text
  }

  /** The argument is of the conversion's kind, and a signed one has a negation. */
  predicate Takes(c: char, r: Request, arg: Arg) {
    if c == 's' then arg.Text?
    else arg.Number? && ((IsConversion(c) && HasNegation(c, r.length, arg.bits)) || c == 'c' || c == 'p')
  }

  /**
   * What a conversion prints: an integer; a character; a string, of which a precision limits the length; or a
   * pointer, as sixteen upper-case hexadecimal digits. Strings and characters are padded with spaces only.
   */
  function ArgumentPrinted(c: char, r: Request, arg: Arg): seq<char>
    requires Takes(c, r, arg)
  {
    if c == 's' then
      var limit := if r.precision.Some? then Min(PrecisionOf(r).value, |arg.s|) else |arg.s|;
      Aligned(arg.s[..limit], WidthOf(r), IsLeft(r))
    else if c == 'c' then Aligned([(arg.bits % 256) as char], WidthOf(r), IsLeft(r))
    else if c == 'p' then
      Placed(if '+' in r.flags then "+" else if ' ' in r.flags then " " else "", MarkOf('X', r.flags, arg.bits),
             if r.precision.Some? && arg.bits == 0 then "" else Last(Numeral(arg.bits, 16, true), 32),
             PrecisionOf(r), 16, true, IsLeft(r))
    else IntegerPrinted(c, r, arg.bits)
  }

  lemma PointerFields(f: Flags, r: Request)
    requires f.plus == ('+' in r.flags) && f.space == (' ' in r.flags) && f.hash == ('#' in r.flags)
    ensures var g := PointerFlags(f);
      && SignText(false, g) == (if '+' in r.flags then "+" else if ' ' in r.flags then " " else "")
      && MarkFor(16, g) == MarkOf('X', r.flags, 1)
      && g.zeropad && g.uppercase && g.left == f.left && g.precision == f.precision
  {
  }

  lemma PointerPrinted(r: Request, next: nat, args: seq<Arg>, bits: Word)
    ensures var s := Meaning(r, next, args);
      LongText(bits, false, 16, s.prec, 16, PointerFlags(s.flags)) == ArgumentPrinted('p', r, Number(bits))
  {
    var s := Meaning(r, next, args);
    MeaningFields(r, next, args);
    PointerFields(s.flags, r);
    MarkIsFor('X', r.flags, s.flags.hash, bits);
    MarkIsFor('X', r.flags, s.flags.hash, 1);
    LongIsPlaced(bits, false, 16, s.prec, 16, PointerFlags(s.flags));
    hide Meaning, WidthOf, PrecisionOf, IsLeft, LongText, Placed, Numeral, Last;
    hide PointerFlags, SignText, MarkFor, MarkOf;
  }

  lemma StringPrinted(r: Request, next: nat, args: seq<Arg>, text: CString)
    ensures var s := Meaning(r, next, args);
      Justified(StringPart(text, s), s.width, s.flags.left) == ArgumentPrinted('s', r, Text(text))
  {
    MeaningFields(r, next, args);
    hide Meaning, WidthOf, IsLeft, Repeat, FieldValue;
    var limit := if r.precision.Some? then Min(PrecisionOf(r).value, |text|) else |text|;
    assert StringPart(text, Meaning(r, next, args)) == text[..limit];
  }

  lemma CharacterPrinted(r: Request, next: nat, args: seq<Arg>, bits: Word)
    ensures var s := Meaning(r, next, args);
      Justified([CharOf(bits)], s.width, s.flags.left) == ArgumentPrinted('c', r, Number(bits))
  {
    MeaningFields(r, next, args);
    hide Meaning, WidthOf, PrecisionOf, IsLeft, Repeat;
  }

  lemma ConvertsArgument(c: char, r: Request, next: nat, arg: Arg, rest: seq<Arg>)
    requires Takes(c, r, arg)
    ensures Conversion(c, Meaning(r, next, [arg] + rest)) == Some((ArgumentPrinted(c, r, arg), rest))
  {
    var s := Meaning(r, next, [arg] + rest);
    MeaningFields(r, next, [arg] + rest);
    hide Meaning, WidthOf, PrecisionOf, IsLeft;
    FirstArgument(c, s, arg, rest);
    if c == 's' {
      StringPrinted(r, next, [arg] + rest, arg.s);
    } else if c == 'c' {
      CharacterPrinted(r, next, [arg] + rest, arg.bits);
    } else if c == 'p' {
      PointerPrinted(r, next, [arg] + rest, arg.bits);
    } else {
      ConvertsInteger(c, r, next, [arg] + rest, arg.bits);
    }
    hide Conversion, IntegerPrinted, IntegerConversion, Justified, StringPart, LongText, CharOf, Placed;
    hide Numeral, Aligned, IntegerArgument, HasNegation, PointerFlags;
  }

  lemma FirstArgument(c: char, s: Spec, arg: Arg, rest: seq<Arg>)
    requires s.args == [arg] + rest
    ensures arg.Text? && c == 's' ==>
      Conversion(c, s) == Some((Justified(StringPart(arg.s, s), s.width, s.flags.left), rest))
    ensures arg.Number? && c == 'c' ==>
      Conversion(c, s) == Some((Justified([CharOf(arg.bits)], s.width, s.flags.left), rest))
    ensures arg.Number? && c == 'p' ==>
      Conversion(c, s) == Some((LongText(arg.bits, false, 16, s.prec, 16, PointerFlags(s.flags)), rest))
    ensures arg.Number? && IsConversion(c) && IntegerConversion(c, s, arg.bits).Some? ==>
      Conversion(c, s) == Some((IntegerConversion(c, s, arg.bits).value, rest))
  {
    assert s.args[0] == arg && s.args[1..] == rest;
    hide Justified, StringPart, LongText, CharOf, IntegerConversion, PointerFlags;
  }

  /** A specification is the text of a request and a conversion character, and prints what the request asks for. */
  lemma PrintsRequest(format: CString, i: nat, r: Request, c: char, arg: Arg, rest: seq<Arg>)
    requires Writable(r) && Takes(c, r, arg)
    requires StandsAt(format, i, "%" + Rendered(r) + [c])
    ensures i + |Rendered(r)| + 2 <= |format|
    ensures TextFrom(format, i, RequestArgs(r) + [arg] + rest) ==
      match TextFrom(format, i + |Rendered(r)| + 2, rest)
      case None => None
      case Some(text) => Some(ArgumentPrinted(c, r, arg) + text)
  {
    hide *;
    var next := i + 1 + |Rendered(r)|;
    StandsInside(format, i, Rendered(r), c);
    ConversionEnds(c, r, arg);
    ReadsBackRequest(format, i + 1, r, [arg] + rest);
    ConvertsArgument(c, r, next, arg, rest);
    MeaningFields(r, next, [arg] + rest);
    Regroup(RequestArgs(r), [arg], rest);
    TextStep(format, i, Meaning(r, next, [arg] + rest), RequestArgs(r) + [arg] + rest,
             ArgumentPrinted(c, r, arg), rest);
  }

  lemma TextStep(format: CString, i: nat, s: Spec, args: seq<Arg>, text: seq<char>, rest: seq<Arg>)
    requires i < s.next < |format| && format[i] == '%' && SpecAt(format, i + 1, args) == Some(s)
    requires Conversion(format[s.next], s) == Some((text, rest))
    ensures TextFrom(format, i, args) ==
      match TextFrom(format, s.next + 1, rest)
      case None => None
      case Some(more) => Some(text + more)
  {
    hide SpecAt, Conversion;
  }

  lemma StandsInside(format: CString, i: nat, text: seq<char>, c: char)
    requires StandsAt(format, i, "%" + text + [c])
    ensures i + |text| + 2 <= |format| && format[i] == '%' && format[i + 1 + |text|] == c
    ensures StandsAt(format, i + 1, text) && At(format, i + 1 + |text|) == c
  {
    assert "%" + text + [c] == "%" + (text + [c]);
    StandsInParts(format, i, "%", text + [c]);
    StandsInParts(format, i + 1, text, [c]);
    assert format[i..i + 1][0] == '%' && format[i + 1 + |text|..i + 2 + |text|][0] == c;
  }

  lemma Regroup(a: seq<Arg>, b: seq<Arg>, c: seq<Arg>)
    ensures a + b + c == a + (b + c)
  {
  }

  lemma ConversionEnds(c: char, r: Request, arg: Arg)
    requires Takes(c, r, arg)
    ensures Ends(c) && c != '%'
  {
  }

  /** Other characters stand for themselves, and two percent signs for one. */
  lemma PrintsItself(format: CString, i: nat, args: seq<Arg>)
    requires i < |format| && (format[i] == '%' ==> i + 1 < |format| && format[i + 1] == '%')
    ensures var next := if format[i] == '%' then i + 2 else i + 1;
      TextFrom(format, i, args) ==
        match TextFrom(format, next, args)
        case None => None
        case Some(text) => Some([format[i]] + text)
  {
    if format[i] == '%' {
      var r := Request([], Omitted, None, Plain);
      assert Rendered(r) == [] && RequestArgs(r) == [] && RequestArgs(r) + args == args;
      assert StandsAt(format, i + 1, []) && At(format, i + 1) == '%' && Ends('%');
      ReadsBackRequest(format, i + 1, r, args);
      MeaningFields(r, i + 1, args);
    }
    hide Meaning, SpecAt, Rendered, RequestArgs;
  }

  // ---- conversions on their own ----

  lemma {:induction false} NumeralLength(value: nat, base: nat, upper: bool, k: nat)
    requires 2 <= base <= 16 && 0 < k && value < Pow2(k)
    ensures |Numeral(value, base, upper)| <= k
    decreases k
  {
    if value >= base {
      QuotientIsZero(value, base);
      HalfOrLess(value, base);
      assert Pow2(k) == 2 * Pow2(k - 1);
      assert k > 1;
      NumeralLength(value / base, base, upper, k - 1);
    }
  }

  lemma HalfOrLess(value: nat, base: nat)
    requires base >= 2
    ensures 2 * (value / base) <= value
  {
    assert value == value / base * base + value % base;
    ProductsGrow(2, base, value / base, value / base);
  }

  /** All digits of a numeral fit 32 places in base 8 and up, and of a 32-bit number in base 2. */
  lemma NumeralFits(value: Word, base: Base, upper: bool)
    requires base <= 16 && (base >= 8 || value < 0x1_0000_0000)
    ensures Last(Numeral(value, base, upper), 32) == Numeral(value, base, upper)
  {
    if base >= 8 {
      WordsAreExact(value, base, upper);
      DigitsAreNumeral(value, base, NTOA_BUFFER_SIZE, upper);
    } else {
      Pow2Of32();
      NumeralLength(value, base, upper, 32);
    }
    hide Digits, Numeral, Power, Denotes, Pow2;
  }

  lemma Pow2Of32()
    ensures Pow2(31) == 0x8000_0000 && Pow2(32) == 0x1_0000_0000
  {
    assert Pow2(8) == 0x100;
    Pow2Sum(8, 8);
    Pow2Sum(16, 16);
    assert Pow2(32) == 2 * Pow2(31);
  }

  lemma PlacedAlone(sign: seq<char>, digits: seq<char>)
    requires |digits| <= 32 && (sign == [] || |digits| < 32)
    ensures Placed(sign, [], digits, None, 0, false, false) == sign + digits
  {
    assert Repeat('0', Min(32, |digits|) - |digits|) == [];
    assert forall n :: n <= 0 ==> Repeat(' ', n) == [];
    hide Repeat;
  }

  lemma PlainIsSmall(c: char, bits: Word)
    requires HasNegation(c, Plain, bits)
    ensures var v := IntegerArgument(c, Plain, bits); Abs(v) < 0x1_0000_0000 && (v < 0 ==> Abs(v) < 0x8000_0000)
  {
  }

  /** An integer conversion on its own prints the numeral, after a minus sign if need be. */
  lemma BareConversion(c: char, bits: Word)
    requires IsConversion(c) && HasNegation(c, Plain, bits)
    ensures var v := IntegerArgument(c, Plain, bits);
      TextFrom(['%', c], 0, [Number(bits)])
        == Some((if v < 0 then "-" else "") + Numeral(Abs(v), Radix(c), c == 'X'))
  {
    var v := IntegerArgument(c, Plain, bits);
    var numeral := Numeral(Abs(v), Radix(c), c == 'X');
    BareRequest(c, bits);
    PlainIsSmall(c, bits);
    Pow2Of32();
    hide Pow2;
    NumeralLength(Abs(v), Radix(c), c == 'X', 32);
    if v < 0 { NumeralLength(Abs(v), Radix(c), c == 'X', 31); }
    hide Numeral;
    assert Last(numeral, 32) == numeral;
    PlacedAlone(SignFor(c, [], v), numeral);
    assert IntegerPrinted(c, BARE, bits) == Placed(SignFor(c, [], v), [], numeral, None, 0, false, false);
    hide Placed, IntegerPrinted, TextFrom, Radix, IntegerArgument;
  }

  const BARE: Request := Request([], Omitted, None, Plain)

  lemma BareParts(format: CString, c: char, arg: Arg)
    requires format == ['%', c]
    ensures Rendered(BARE) == [] && Writable(BARE) && BARE.length == Plain
    ensures StandsAt(format, 0, "%" + Rendered(BARE) + [c])
    ensures RequestArgs(BARE) + [arg] + [] == [arg]
    ensures TextFrom(format, 2, []) == Some([])
  {
    assert "%" + [] + [c] == format && format[0..2] == format;
  }

  lemma BareRequest(c: char, bits: Word)
    requires IsConversion(c) && HasNegation(c, Plain, bits)
    ensures TextFrom(['%', c], 0, [Number(bits)]) == Some(IntegerPrinted(c, BARE, bits))
  {
    BareParts(['%', c], c, Number(bits));
    BareTakes(c, bits);
    hide *;
    PrintsRequest(['%', c], 0, BARE, c, Number(bits), []);
    assert IntegerPrinted(c, BARE, bits) + [] == IntegerPrinted(c, BARE, bits);
  }

  lemma BareTakes(c: char, bits: Word)
    requires IsConversion(c) && HasNegation(c, Plain, bits)
    ensures Takes(c, BARE, Number(bits))
    ensures ArgumentPrinted(c, BARE, Number(bits)) == IntegerPrinted(c, BARE, bits)
  {
    hide IntegerPrinted;
  }

  /** Some numerals, and the register that holds 2^32 - 1 as an int. */
  lemma Numerals()
    ensures Numeral(255, 16, false) == "ff" && Numeral(255, 16, true) == "FF"
    ensures Numeral(255, 8, false) == "377" && Numeral(90, 10, false) == "90" && Numeral(5, 2, false) == "101"
  {
    assert Numeral(15, 16, false) == "f" && Numeral(15, 16, true) == "F";
    assert Numeral(3, 8, false) == "3" && Numeral(31, 8, false) == "37" && Numeral(9, 10, false) == "9";
    assert Numeral(1, 2, false) == "1" && Numeral(2, 2, false) == "10";
  }

  lemma IntegerArguments()
    ensures IntegerArgument('d', Plain, 0xFFFF_FFFF) == -1 && IntegerArgument('u', Plain, 0xFFFF_FFFF) == 0xFFFF_FFFF
    ensures IntegerArgument('d', Short, 0xFFFF) == -1 && IntegerArgument('d', Char, 0xFFFF) == 255
    ensures IntegerArgument('d', Long, 0xFFFF_FFFF_FFFF_FFFF) == -1 && IntegerArgument('d', Long, 0xFFFF_FFFF) > 0
  {
  }

  // ---- whole formats ----

  /** A format is made of characters that stand for themselves, doubled percent signs, and conversions. */
  datatype Piece = Itself(c: char) | Percent | Converts(r: Request, c: char, arg: Arg)

  predicate WellFormed(p: Piece) {
    match p
    case Itself(c) => c != '%' && c != '\0'
    case Percent => true
    case Converts(r, c, arg) => Writable(r) && Takes(c, r, arg)
  }

  function PieceText(p: Piece): seq<char> {
    match p
    case Itself(c) => [c]
    case Percent => "%%"
    case Converts(r, c, _) => "%" + Rendered(r) + [c]
  }

  function PieceArgs(p: Piece): seq<Arg> {
    if p.Converts? then RequestArgs(p.r) + [p.arg] else []
  }

  function PiecePrinted(p: Piece): seq<char>
    requires WellFormed(p)
  {
    match p
    case Itself(c) => [c]
    case Percent => "%"
    case Converts(r, c, arg) => ArgumentPrinted(c, r, arg)
  }

  function FormatText(pieces: seq<Piece>): seq<char> {
    if pieces == [] then [] else PieceText(pieces[0]) + FormatText(pieces[1..])
  }

  function FormatArgs(pieces: seq<Piece>): seq<Arg> {
    if pieces == [] then [] else PieceArgs(pieces[0]) + FormatArgs(pieces[1..])
  }

  function FormatPrinted(pieces: seq<Piece>): seq<char>
    requires forall k :: 0 <= k < |pieces| ==> WellFormed(pieces[k])
  {
    if pieces == [] then [] else PiecePrinted(pieces[0]) + FormatPrinted(pieces[1..])
  }

  lemma PrintsPiece(format: CString, i: nat, p: Piece, rest: seq<Arg>)
    requires WellFormed(p) && StandsAt(format, i, PieceText(p))
    ensures i + |PieceText(p)| <= |format| && |PieceText(p)| > 0
    ensures TextFrom(format, i, PieceArgs(p) + rest) ==
      match TextFrom(format, i + |PieceText(p)|, rest)
      case None => None
      case Some(text) => Some(PiecePrinted(p) + text)
  {
    hide *;
    PieceParts(p, rest);
    if p.Converts? {
      PrintsRequest(format, i, p.r, p.c, p.arg, rest);
    } else {
      ItselfAt(format, i, p);
      PrintsItself(format, i, rest);
    }
  }

  lemma PieceParts(p: Piece, rest: seq<Arg>)
    requires WellFormed(p)
    ensures p.Converts? ==>
      && Writable(p.r) && Takes(p.c, p.r, p.arg)
      && PieceText(p) == "%" + Rendered(p.r) + [p.c] && PieceArgs(p) + rest == RequestArgs(p.r) + [p.arg] + rest
      && |PieceText(p)| == |Rendered(p.r)| + 2 && PiecePrinted(p) == ArgumentPrinted(p.c, p.r, p.arg)
    ensures !p.Converts? ==> PieceArgs(p) + rest == rest
  {
    hide Rendered, RequestArgs, ArgumentPrinted, Takes, Writable;
  }

  lemma ItselfAt(format: CString, i: nat, p: Piece)
    requires WellFormed(p) && !p.Converts? && StandsAt(format, i, PieceText(p))
    ensures i + |PieceText(p)| <= |format| && |PieceText(p)| == if p.Itself? then 1 else 2
    ensures format[i] == (if p.Itself? then p.c else '%') && PiecePrinted(p) == [format[i]]
    ensures format[i] == '%' <==> p.Percent?
    ensures p.Percent? ==> format[i + 1] == '%'
  {
    assert format[i] == format[i..i + |PieceText(p)|][0];
    if p.Percent? { assert format[i + 1] == format[i..i + 2][1]; }
  }

  /** The text of a format is what its pieces print, one after the other. */
  lemma {:induction false} PrintsFormat(format: CString, i: nat, pieces: seq<Piece>)
    requires forall k :: 0 <= k < |pieces| ==> WellFormed(pieces[k])
    requires StandsAt(format, i, FormatText(pieces)) && i + |FormatText(pieces)| == |format|
    ensures TextFrom(format, i, FormatArgs(pieces)) == Some(FormatPrinted(pieces))
    decreases |pieces|
  {
    hide PieceText, PieceArgs, PiecePrinted, WellFormed, StandsAt;
    if pieces == [] {
      assert TextFrom(format, i, []) == Some([]);
    } else {
      hide TextFrom;
      var p, more := pieces[0], pieces[1..];
      StandsInParts(format, i, PieceText(p), FormatText(more));
      PrintsPiece(format, i, p, FormatArgs(more));
      PrintsFormat(format, i + |PieceText(p)|, more);
    }
  }
}
