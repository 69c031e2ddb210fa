/** printf's integer formatting: zero fill, '#' prefix and sign in the 32-byte buffer, then output. */
module PrintfNtoa {
  import opened Words
  import opened PrintfOutput
  import opened PrintfNumbers

  function Min(a: int, b: int): int { if a < b then a else b }
  function Max(a: int, b: int): int { if a < b then b else a }

  // ---- the text of a number, from its digits in reverse ----

  function ZeroFilled(digits: seq<char>, n: nat): (filled: seq<char>)
    ensures |filled| == Max(|digits|, Min(n, NTOA_BUFFER_SIZE))
  {
    digits + Repeat('0', Min(n, NTOA_BUFFER_SIZE) - |digits|)
  }

  predicate Sign(negative: bool, flags: Flags) { negative || flags.plus || flags.space }

  /** Zero padding leaves one column for the sign. */
  function FieldWidth(negative: bool, width: nat, flags: Flags): nat {
    if !flags.left && width > 0 && flags.zeropad && Sign(negative, flags) then width - 1 else width
  }

  function Filled(digits: seq<char>, negative: bool, prec: nat, width: nat, flags: Flags): seq<char> {
    if flags.left then digits
    else if flags.zeropad then ZeroFilled(ZeroFilled(digits, prec), FieldWidth(negative, width, flags))
    else ZeroFilled(digits, prec)
  }

  function Room(digits: seq<char>, c: char): seq<char> {
    if |digits| < NTOA_BUFFER_SIZE then digits + [c] else digits
  }

  /** With '#', digits that just fill the field or the precision give way to the prefix. */
  function Cut(digits: seq<char>, base: Base, prec: nat, width: nat, flags: Flags): seq<char> {
    if flags.precision || |digits| == 0 || (|digits| != prec && |digits| != width) then digits
    else if |digits| > 1 && base == 16 then digits[..|digits| - 2]
    else digits[..|digits| - 1]
  }

  function Prefixed(digits: seq<char>, base: Base, flags: Flags): seq<char> {
    Room(if base == 16 then Room(digits, if flags.uppercase then 'X' else 'x')
         else if base == 2 then Room(digits, 'b') else digits, '0')
  }

  function SignText(negative: bool, flags: Flags): seq<char> {
    if negative then "-" else if flags.plus then "+" else if flags.space then " " else ""
  }

  function WithSign(digits: seq<char>, negative: bool, flags: Flags): seq<char> {
    if |digits| < NTOA_BUFFER_SIZE then digits + SignText(negative, flags) else digits
  }

  function NumberText(digits: seq<char>, negative: bool, base: Base, prec: nat, width: nat, flags: Flags): seq<char> {
    var field := FieldWidth(negative, width, flags);
    var filled := Filled(digits, negative, prec, width, flags);
    var hashed := if flags.hash then Prefixed(Cut(filled, base, prec, field, flags), base, flags) else filled;
    RevText(WithSign(hashed, negative, flags), field, flags.left, flags.zeropad)
  }

  // ---- the code ----

  /** Appends zeros up to a length, inside the buffer. */
  method FillZeros(buf: array<char>, start: nat, n: nat) returns (len: nat)
    requires buf.Length == NTOA_BUFFER_SIZE && start <= NTOA_BUFFER_SIZE
    modifies buf
    ensures start <= len <= NTOA_BUFFER_SIZE
    ensures buf[..len] == ZeroFilled(old(buf[..start]), n)
  {
    len := start;
    while len < n && len < NTOA_BUFFER_SIZE
      invariant start <= len <= NTOA_BUFFER_SIZE && len <= Max(start, n)
      invariant buf[..len] == old(buf[..start]) + Repeat('0', len - start)
    {
      buf[len] := '0';
      len := len + 1;
    }
  }

  /** Appends a character if there is room. */
  method AppendChar(buf: array<char>, start: nat, c: char) returns (len: nat)
    requires buf.Length == NTOA_BUFFER_SIZE && start <= NTOA_BUFFER_SIZE
    modifies buf
    ensures start <= len <= NTOA_BUFFER_SIZE
    ensures buf[..len] == Room(old(buf[..start]), c)
  {
    len := start;
    if len < NTOA_BUFFER_SIZE {
      buf[len] := c;
      len := len + 1;
    }
  }

  /** The '#' part of _ntoa_format. */
  method HandleHash(buf: array<char>, start: nat, base: Base, prec: nat, width: nat, flags: Flags) returns (len: nat)
    requires buf.Length == NTOA_BUFFER_SIZE && start <= NTOA_BUFFER_SIZE
    modifies buf
    ensures len <= NTOA_BUFFER_SIZE
    ensures buf[..len] == Prefixed(Cut(old(buf[..start]), base, prec, width, flags), base, flags)
  {
    len := start;
    if !flags.precision && len > 0 && (len == prec || len == width) {
      len := len - 1;
      if len > 0 && base == 16 {
        len := len - 1;
      }
    }
    assert buf[..len] == Cut(old(buf[..start]), base, prec, width, flags);
    if base == 16 && !flags.uppercase && len < NTOA_BUFFER_SIZE {
      len := AppendChar(buf, len, 'x');
    } else if base == 16 && flags.uppercase && len < NTOA_BUFFER_SIZE {
      len := AppendChar(buf, len, 'X');
    } else if base == 2 && len < NTOA_BUFFER_SIZE {
      len := AppendChar(buf, len, 'b');
    }
    len := AppendChar(buf, len, '0');
  }

  method AppendSign(buf: array<char>, start: nat, negative: bool, flags: Flags) returns (len: nat)
    requires buf.Length == NTOA_BUFFER_SIZE && start <= NTOA_BUFFER_SIZE
    modifies buf
    ensures start <= len <= NTOA_BUFFER_SIZE
    ensures buf[..len] == WithSign(old(buf[..start]), negative, flags)
  {
    len := start;
    if len < NTOA_BUFFER_SIZE {
      if negative {
        len := AppendChar(buf, len, '-');
      } else if flags.plus {
        len := AppendChar(buf, len, '+');
      } else if flags.space {
        len := AppendChar(buf, len, ' ');
      }
    }
  }

  /** _ntoa_format: whatever the precision, width and flags, it stays inside the 32-byte buffer. */
  method NtoaFormat(buffer: array<char>, start: nat, maxlen: nat, buf: array<char>, length: nat,
                    negative: bool, base: Base, prec: nat, width: nat, flags: Flags) returns (idx: nat)
    requires maxlen <= buffer.Length && buf != buffer
    requires buf.Length == NTOA_BUFFER_SIZE && length <= NTOA_BUFFER_SIZE
    modifies buffer, buf
    ensures idx == start + |NumberText(old(buf[..length]), negative, base, prec, width, flags)|
    ensures buffer[..] ==
      Sent(old(buffer[..]), start, maxlen, NumberText(old(buf[..length]), negative, base, prec, width, flags))
  {
    hide Sent, RevText, ZeroFilled, Prefixed, Cut, WithSign, Room;
    var len, field := length, width;
    if !flags.left {
      if field > 0 && flags.zeropad && (negative || flags.plus || flags.space) {
        field := field - 1;
      }
      len := FillZeros(buf, len, prec);
      if flags.zeropad { len := FillZeros(buf, len, field); }
    }
    assert buf[..len] == Filled(old(buf[..length]), negative, prec, width, flags);
    if flags.hash {
      len := HandleHash(buf, len, base, prec, field, flags);
    }
    len := AppendSign(buf, len, negative, flags);
    idx := OutRev(buffer, start, maxlen, buf, len, field, flags.left, flags.zeropad);
  }

  /** The digits _ntoa_long passes on: none for a zero with an explicit precision. */
  function LongDigits(value: Word, base: Base, flags: Flags): (digits: seq<char>)
    ensures |digits| <= NTOA_BUFFER_SIZE
  {
    if flags.precision && value == 0 then [] else Digits(value, base, NTOA_BUFFER_SIZE, flags.uppercase)
  }

  function LongText(value: Word, negative: bool, base: Base, prec: nat, width: nat, flags: Flags): seq<char> {
    NumberText(LongDigits(value, base, flags), negative, base, prec, width,
               if value == 0 then flags.(hash := false) else flags)
  }

  /** The conversion loop: digits in reverse until the value is 0 or the buffer is full. */
  method Convert(value: Word, base: Base, flags: Flags, buf: array<char>) returns (len: nat)
    requires buf.Length == NTOA_BUFFER_SIZE
    modifies buf
    ensures 0 < len <= NTOA_BUFFER_SIZE
    ensures buf[..len] == Digits(value, base, NTOA_BUFFER_SIZE, flags.uppercase)
  {
    hide Digits, DigitChar;
    ghost var all := Digits(value, base, NTOA_BUFFER_SIZE, flags.uppercase);
    var left: nat := value;
    len := 0;
    while true
      invariant 0 <= len < NTOA_BUFFER_SIZE
      invariant buf[..len] + Digits(left, base, NTOA_BUFFER_SIZE - len, flags.uppercase) == all
      decreases NTOA_BUFFER_SIZE - len
    {
      LowestDigit(left, base, NTOA_BUFFER_SIZE - len, flags.uppercase);
      ghost var before := buf[..len];
      buf[len] := DigitChar(left % base, flags.uppercase);
      assert buf[..len + 1] == before + [buf[len]];
      left := left / base;
      len := len + 1;
      if !(left > 0 && len < NTOA_BUFFER_SIZE) { break; }
    }
  }

  lemma LowestDigit(value: nat, base: Base, limit: nat, upper: bool)
    requires limit > 0
    ensures Digits(value, base, limit, upper) == [DigitChar(value % base, upper)] +
      if value / base == 0 || limit == 1 then [] else Digits(value / base, base, limit - 1, upper)
  {
    hide DigitChar;
  }

  /** _ntoa_long, and _ntoa_long_long, whose types have the same 64 bits. */
  method NtoaLong(buffer: array<char>, start: nat, maxlen: nat, value: Word, negative: bool, base: Base,
                  prec: nat, width: nat, flags: Flags) returns (idx: nat)
    requires maxlen <= buffer.Length
    modifies buffer
    ensures idx == start + |LongText(value, negative, base, prec, width, flags)|
    ensures buffer[..] == Sent(old(buffer[..]), start, maxlen, LongText(value, negative, base, prec, width, flags))
  {
    hide Sent, NumberText;
    var buf := new char[NTOA_BUFFER_SIZE];
    var len, flags' := 0, flags;
    if value == 0 { flags' := flags'.(hash := false); }
    if !flags'.precision || value != 0 {
      len := Convert(value, base, flags', buf);
    }
    assert buf[..len] == LongDigits(value, base, flags);
    idx := NtoaFormat(buffer, start, maxlen, buf, len, negative, base, prec, width, flags');
  }

  // ---- what the text looks like ----

  /** How far zeros extend the digits: to the precision, and to the field with the '0' flag; '-' turns both off. */
  function ZeroedLength(digits: nat, negative: bool, prec: nat, width: nat, flags: Flags): nat {
    if flags.left then digits
    else Max(digits, Max(prec, if flags.zeropad then FieldWidth(negative, width, flags) else 0))
  }

  lemma FilledShape(digits: seq<char>, negative: bool, prec: nat, width: nat, flags: Flags)
    requires |digits| <= NTOA_BUFFER_SIZE
    ensures var filled := Filled(digits, negative, prec, width, flags);
      && |filled| == Min(ZeroedLength(|digits|, negative, prec, width, flags), NTOA_BUFFER_SIZE)
      && filled == digits + Repeat('0', |filled| - |digits|)
    ensures ZeroedLength(|digits|, negative, prec, width, flags) <= NTOA_BUFFER_SIZE ==>
      Filled(digits, negative, prec, width, flags)
      == digits + Repeat('0', ZeroedLength(|digits|, negative, prec, width, flags) - |digits|)
  {
  }

  lemma ReversedRepeat(c: char, n: int)
    ensures Reversed(Repeat(c, n)) == Repeat(c, n)
  {
  }

  lemma ReversedParts(digits: seq<char>, zeros: int, sign: seq<char>)
    requires |sign| <= 1
    ensures Reversed(digits + Repeat('0', zeros) + sign) == sign + Repeat('0', zeros) + Reversed(digits)
  {
    ReversedConcat(digits + Repeat('0', zeros), sign);
    ReversedConcat(digits, Repeat('0', zeros));
    ReversedRepeat('0', zeros);
    assert Reversed(sign) == sign;
    hide Reversed, Repeat;
  }

  /** Sign and zeros in front of the digits, and spaces on the side that the '-' flag selects. */
  function Layout(sign: seq<char>, zeros: int, digits: seq<char>, width: int, left: bool): seq<char> {
    var number := sign + Repeat('0', zeros) + digits;
    var pad := Repeat(' ', width - |number|);
    if left then number + pad else pad + number
  }

  /** How many digits are printed, zeros in front included: the buffer holds 32. */
  function PrintedDigits(digits: nat, negative: bool, prec: nat, width: nat, flags: Flags): nat {
    Min(ZeroedLength(digits, negative, prec, width, flags), NTOA_BUFFER_SIZE)
  }

  /** The sign takes the place after them, if there is one. */
  function PrintedSign(digits: nat, negative: bool, prec: nat, width: nat, flags: Flags): seq<char> {
    if PrintedDigits(digits, negative, prec, width, flags) < NTOA_BUFFER_SIZE then SignText(negative, flags) else ""
  }

  /** With the '0' flag no spaces are added. */
  function SpaceWidth(width: nat, flags: Flags): nat {
    if flags.zeropad && !flags.left then 0 else width
  }

  lemma PrintedBounds(digits: nat, negative: bool, prec: nat, width: nat, flags: Flags)
    requires digits <= NTOA_BUFFER_SIZE
    ensures digits <= PrintedDigits(digits, negative, prec, width, flags) <= NTOA_BUFFER_SIZE
    ensures |PrintedSign(digits, negative, prec, width, flags)| <= 1
  {
  }

  /**
   * Without '#', for every width, precision and flags: the text is the sign, zeros and the digits, padded
   * with spaces to the width.
   */
  lemma NumberLayout(digits: seq<char>, negative: bool, base: Base, prec: nat, width: nat, flags: Flags)
    requires !flags.hash && |digits| <= NTOA_BUFFER_SIZE
    ensures |digits| <= PrintedDigits(|digits|, negative, prec, width, flags)
    ensures NumberText(digits, negative, base, prec, width, flags)
      == Layout(PrintedSign(|digits|, negative, prec, width, flags),
                PrintedDigits(|digits|, negative, prec, width, flags) - |digits|,
                Reversed(digits), SpaceWidth(width, flags), flags.left)
  {
    hide *;
    var n := PrintedDigits(|digits|, negative, prec, width, flags);
    var sign := PrintedSign(|digits|, negative, prec, width, flags);
    PrintedBounds(|digits|, negative, prec, width, flags);
    TextOfFilled(digits, negative, base, prec, width, flags);
    FieldFits(negative, width, flags);
    RevTextLayout(digits, n - |digits|, sign, SpaceWidth(width, flags), FieldWidth(negative, width, flags),
                  flags.left, flags.zeropad);
  }

  lemma FieldFits(negative: bool, width: nat, flags: Flags)
    ensures flags.left || !flags.zeropad ==> FieldWidth(negative, width, flags) == SpaceWidth(width, flags) == width
    ensures !flags.left && flags.zeropad ==> SpaceWidth(width, flags) == 0
  {
  }

  lemma FilledIsPrinted(digits: seq<char>, negative: bool, prec: nat, width: nat, flags: Flags)
    requires |digits| <= NTOA_BUFFER_SIZE
    ensures var n := PrintedDigits(|digits|, negative, prec, width, flags);
      Filled(digits, negative, prec, width, flags) == digits + Repeat('0', n - |digits|)
      && |Filled(digits, negative, prec, width, flags)| == n
  {
    FilledShape(digits, negative, prec, width, flags);
    hide Filled, ZeroedLength;
  }

  lemma TextOfFilled(digits: seq<char>, negative: bool, base: Base, prec: nat, width: nat, flags: Flags)
    requires !flags.hash && |digits| <= NTOA_BUFFER_SIZE
    ensures NumberText(digits, negative, base, prec, width, flags)
      == RevText(digits + Repeat('0', PrintedDigits(|digits|, negative, prec, width, flags) - |digits|)
                 + PrintedSign(|digits|, negative, prec, width, flags),
                 FieldWidth(negative, width, flags), flags.left, flags.zeropad)
  {
    FilledIsPrinted(digits, negative, prec, width, flags);
    hide Filled, RevText, FieldWidth, PrintedDigits, Repeat;
    var filled := Filled(digits, negative, prec, width, flags);
    assert WithSign(filled, negative, flags) == filled + PrintedSign(|digits|, negative, prec, width, flags);
  }

  lemma RevTextLayout(digits: seq<char>, zeros: nat, sign: seq<char>, width: nat, field: nat, left: bool, zeropad: bool)
    requires |sign| <= 1 && (left || !zeropad ==> field == width) && (!left && zeropad ==> width == 0)
    ensures RevText(digits + Repeat('0', zeros) + sign, field, left, zeropad)
      == Layout(sign, zeros, Reversed(digits), width, left)
  {
    ReversedParts(digits, zeros, sign);
    hide Reversed;
  }

  /** A negative number keeps its sign exactly when the digits and zeros leave a place in the buffer. */
  lemma SignIsKept(digits: seq<char>, base: Base, prec: nat, width: nat, flags: Flags)
    requires !flags.hash && |digits| <= NTOA_BUFFER_SIZE && '-' !in digits
    ensures '-' in NumberText(digits, true, base, prec, width, flags)
      <==> ZeroedLength(|digits|, true, prec, width, flags) < NTOA_BUFFER_SIZE
  {
    FilledShape(digits, true, prec, width, flags);
    var filled := Filled(digits, true, prec, width, flags);
    var signed := WithSign(filled, true, flags);
    if |filled| < NTOA_BUFFER_SIZE { assert signed[|filled|] == '-'; }
    ReversedHas(signed, '-');
    RevTextHas(signed, FieldWidth(true, width, flags), flags.left, flags.zeropad, '-');
  }

  lemma ReversedHas(s: seq<char>, c: char)
    ensures c in Reversed(s) <==> c in s
  {
    if c in s {
      var i :| 0 <= i < |s| && s[i] == c;
      assert Reversed(s)[|s| - 1 - i] == c;
    }
    if c in Reversed(s) {
      var i :| 0 <= i < |s| && Reversed(s)[i] == c;
      assert s[|s| - 1 - i] == c;
    }
  }

  lemma RevTextHas(s: seq<char>, width: int, left: bool, zeropad: bool, c: char)
    requires c != ' '
    ensures c in RevText(s, width, left, zeropad) <==> c in Reversed(s)
  {
  }

  lemma {:induction false} ZerosDenoteNothing(zeros: int, base: Base)
    ensures Denotes(Repeat('0', zeros), base) == 0
  {
    if zeros > 0 {
      ZerosDenoteNothing(zeros - 1, base);
      DenotesAppend(Repeat('0', zeros - 1), '0', base);
    }
  }

  /** Zeros in front change nothing. */
  lemma {:induction false} LeadingZeros(zeros: int, digits: seq<char>, base: Base)
    ensures Denotes(Repeat('0', zeros) + digits, base) == Denotes(digits, base)
    decreases |digits|
  {
    hide Denotes, Repeat, DigitValue;
    if digits == [] {
      ZerosDenoteNothing(zeros, base);
      EmptyDenotesNothing(base);
      assert Repeat('0', zeros) + digits == Repeat('0', zeros);
    } else {
      var front, last := digits[..|digits| - 1], digits[|digits| - 1];
      LeadingZeros(zeros, front, base);
      assert digits == front + [last];
      assert Repeat('0', zeros) + digits == (Repeat('0', zeros) + front) + [last];
      DenotesAppend(Repeat('0', zeros) + front, last, base);
      DenotesAppend(front, last, base);
    }
  }

  lemma LongDigitsExact(value: Word, base: Base, flags: Flags)
    requires base >= 8
    ensures |LongDigits(value, base, flags)| <= MAX_DIGITS
    ensures Denotes(Reversed(LongDigits(value, base, flags)), base) == value
  {
    WordsAreExact(value, base, flags.uppercase);
    if flags.precision && value == 0 { EmptyDenotesNothing(base); }
  }

  /**
   * Octal, decimal and hexadecimal without '#', for every width, precision and flags: the text is the
   * sign, zeros and digits, padded with spaces to the width, and the zeros and digits denote the value.
   */
  lemma IntegerText(value: Word, negative: bool, base: Base, prec: nat, width: nat, flags: Flags)
    requires base >= 8 && !flags.hash
    ensures var digits := Reversed(LongDigits(value, base, flags));
      var zeros := PrintedDigits(|digits|, negative, prec, width, flags) - |digits|;
      && zeros >= 0
      && LongText(value, negative, base, prec, width, flags)
        == Layout(PrintedSign(|digits|, negative, prec, width, flags), zeros, digits,
                  SpaceWidth(width, flags), flags.left)
      && Denotes(Repeat('0', zeros) + digits, base) == value
  {
    hide *;
    var digits := LongDigits(value, base, flags);
    LongDigitsExact(value, base, flags);
    TextOfLong(value, negative, base, prec, width, flags);
    LeadingZeros(PrintedDigits(|digits|, negative, prec, width, flags) - |digits|, Reversed(digits), base);
    NumberLayout(digits, negative, base, prec, width, flags);
  }

  lemma TextOfLong(value: Word, negative: bool, base: Base, prec: nat, width: nat, flags: Flags)
    requires !flags.hash
    ensures LongText(value, negative, base, prec, width, flags)
      == NumberText(LongDigits(value, base, flags), negative, base, prec, width, flags)
  {
    assert flags.(hash := false) == flags;
    hide NumberText, LongDigits;
  }

  /** Its length, for every width, precision and flags. */
  lemma IntegerLength(value: Word, negative: bool, base: Base, prec: nat, width: nat, flags: Flags)
    requires base >= 8 && !flags.hash
    ensures var digits := |LongDigits(value, base, flags)|;
      |LongText(value, negative, base, prec, width, flags)|
        == Max(SpaceWidth(width, flags), |PrintedSign(digits, negative, prec, width, flags)|
               + PrintedDigits(digits, negative, prec, width, flags))
  {
    hide *;
    var digits := LongDigits(value, base, flags);
    var n := PrintedDigits(|digits|, negative, prec, width, flags);
    IntegerText(value, negative, base, prec, width, flags);
    LayoutLength(PrintedSign(|digits|, negative, prec, width, flags), n - |digits|, Reversed(digits),
                 SpaceWidth(width, flags), flags.left);
    assert n - |digits| + |Reversed(digits)| == n;
  }

  lemma PrintedLength(digits: nat, negative: bool, prec: nat, width: nat, flags: Flags)
    requires digits <= MAX_DIGITS
    ensures Max(SpaceWidth(width, flags), |PrintedSign(digits, negative, prec, width, flags)|
                + PrintedDigits(digits, negative, prec, width, flags)) >= width
      <==> !(flags.zeropad && !flags.left && width > NTOA_BUFFER_SIZE)
  {
  }

  /** At least width characters are printed, except for zero padding to more than the buffer's 32. */
  lemma WidthIsMet(value: Word, negative: bool, base: Base, prec: nat, width: nat, flags: Flags)
    requires base >= 8 && !flags.hash
    ensures |LongText(value, negative, base, prec, width, flags)| >= width
      <==> !(flags.zeropad && !flags.left && width > NTOA_BUFFER_SIZE)
  {
    IntegerLength(value, negative, base, prec, width, flags);
    LongDigitsExact(value, base, flags);
    PrintedLength(|LongDigits(value, base, flags)|, negative, prec, width, flags);
    hide LongText, LongDigits, PrintedSign, PrintedDigits, SpaceWidth, Max, Denotes, Reversed;
  }

  /** At least prec digits are printed, except for a left-justified field or more than the buffer's 32. */
  lemma PrecisionIsMet(value: Word, negative: bool, base: Base, prec: nat, width: nat, flags: Flags)
    requires base >= 8
    ensures var digits := |LongDigits(value, base, flags)|;
      PrintedDigits(digits, negative, prec, width, flags) >= prec
      <==> if flags.left then prec <= digits else prec <= NTOA_BUFFER_SIZE
  {
    LongDigitsExact(value, base, flags);
    hide LongDigits, Denotes, Reversed, FieldWidth;
  }

  /** Where both are met, the length is the usual one. */
  lemma OrdinaryLength(value: Word, negative: bool, base: Base, prec: nat, width: nat, flags: Flags)
    requires base >= 8 && !flags.hash && prec <= 31 && (flags.zeropad && !flags.left ==> width <= 32)
    ensures var digits := |LongDigits(value, base, flags)|;
      |LongText(value, negative, base, prec, width, flags)|
        == Max(width, |SignText(negative, flags)| + if flags.left then digits else Max(digits, prec))
  {
    hide *;
    IntegerLength(value, negative, base, prec, width, flags);
    LongDigitsExact(value, base, flags);
    OrdinaryPrinted(|LongDigits(value, base, flags)|, negative, prec, width, flags);
  }

  lemma OrdinaryPrinted(digits: nat, negative: bool, prec: nat, width: nat, flags: Flags)
    requires digits <= MAX_DIGITS && prec <= 31 && (flags.zeropad && !flags.left ==> width <= 32)
    ensures Max(SpaceWidth(width, flags), |PrintedSign(digits, negative, prec, width, flags)|
                + PrintedDigits(digits, negative, prec, width, flags))
      == Max(width, |SignText(negative, flags)| + if flags.left then digits else Max(digits, prec))
  {
  }

  lemma LayoutLength(sign: seq<char>, zeros: int, digits: seq<char>, width: int, left: bool)
    requires zeros >= 0
    ensures |Layout(sign, zeros, digits, width, left)| == Max(width, |sign| + zeros + |digits|)
  {
  }

  // ---- where the code falls short ----

  function PlainFlags(): Flags {
    Flags(false, false, false, false, false, false, false, false, false, false, false)
  }

  /** printf("%.32d", -1) prints thirty-one zeros and a one, without the sign. */
  lemma SignCanBeLost()
    ensures '-' !in NumberText(['1'], true, 10, 32, 0, PlainFlags().(precision := true))
  {
    SignIsKept(['1'], 10, 32, 0, PlainFlags().(precision := true));
  }

  /** printf("%-.5d", 42) prints 42: left justification switches the precision's zeros off. */
  lemma MinusDropsPrecision()
    ensures LongText(42, false, 10, 5, 0, PlainFlags().(left := true, precision := true)) == "42"
  {
    var flags := PlainFlags().(left := true, precision := true);
    assert LongDigits(42, 10, flags) == ['2', '4'];
    assert Reversed(['2', '4']) == "42";
    assert Repeat(' ', -2) == [];
    assert WithSign(['2', '4'], false, flags) == ['2', '4'];
  }

  /** printf("%040d", 1) prints 32 characters. */
  lemma WideZerosAreCut()
    ensures |LongText(1, false, 10, 0, 40, PlainFlags().(zeropad := true))| == 32
  {
    IntegerLength(1, false, 10, 0, 40, PlainFlags().(zeropad := true));
    LongDigitsExact(1, 10, PlainFlags().(zeropad := true));
    hide LongText, LongDigits, Denotes, Reversed;
  }

  /** printf("%#4x", 0x1234) prints 0x34: digits that just fill the width give way to the prefix. */
  lemma HashDropsDigits()
    ensures LongText(0x1234, false, 16, 0, 4, PlainFlags().(hash := true)) == "0x34"
  {
    var flags := PlainFlags().(hash := true);
    assert LongDigits(0x1234, 16, flags) == ['4', '3', '2', '1'];
    assert Filled(['4', '3', '2', '1'], false, 0, 4, flags) == ['4', '3', '2', '1'];
    assert Prefixed(['4', '3'], 16, flags) == ['4', '3', 'x', '0'];
    assert Reversed(['4', '3', 'x', '0']) == "0x34";
  }

  /** A numeral: digits of the base, the most significant (last in the buffer) not zero. */
  predicate IsNumeral(digits: seq<char>, base: Base) {
    |digits| > 0 && digits[|digits| - 1] != '0' && forall k :: 0 <= k < |digits| ==> DigitValue(digits[k]) < base
  }

  /**
   * The digits and padding zeros just fill a field that fits the buffer, and making room for the prefix
   * cuts into the digits: one place in binary and octal, two in hexadecimal if there are two.
   */
  predicate HashLoses(digits: nat, negative: bool, base: Base, width: nat, flags: Flags) {
    var field := FieldWidth(negative, width, flags);
    var cut := if base == 16 && field > 1 then 2 else 1;
    if flags.zeropad && !flags.left then digits <= field < digits + cut && field <= NTOA_BUFFER_SIZE
    else digits == field
  }

  lemma FilledLength(digits: seq<char>, negative: bool, width: nat, flags: Flags)
    requires |digits| <= NTOA_BUFFER_SIZE
    ensures var filled := Filled(digits, negative, 0, width, flags);
      && digits <= filled
      && |filled| == if flags.zeropad && !flags.left
                     then Max(|digits|, Min(FieldWidth(negative, width, flags), NTOA_BUFFER_SIZE)) else |digits|
  {
    FilledShape(digits, negative, 0, width, flags);
    hide FieldWidth;
  }

  /** A numeral is no front of what is left of it with the prefix after. */
  lemma PrefixReplaces(digits: seq<char>, kept: nat, base: Base, flags: Flags)
    requires IsNumeral(digits, base) && |digits| <= NTOA_BUFFER_SIZE && (base == 2 || base == 8 || base == 16)
    requires kept < |digits| && (base != 16 ==> kept == |digits| - 1)
    ensures !(digits <= Prefixed(digits[..kept], base, flags))
  {
    var hashed := Prefixed(digits[..kept], base, flags);
    assert hashed[kept] ==
      if base == 16 then (if flags.uppercase then 'X' else 'x') else if base == 2 then 'b' else '0';
    assert hashed[kept] != digits[kept];
  }

  lemma CutKeeps(digits: seq<char>, negative: bool, base: Base, width: nat, flags: Flags)
    requires 0 < |digits| <= NTOA_BUFFER_SIZE && !flags.precision
    ensures var filled := Filled(digits, negative, 0, width, flags);
      var cut := Cut(filled, base, 0, FieldWidth(negative, width, flags), flags);
      && digits <= filled && cut <= filled
      && (|cut| < |digits| <==> HashLoses(|digits|, negative, base, width, flags))
      && (|cut| < |digits| && base != 16 ==> |cut| == |digits| - 1)
  {
    FilledLength(digits, negative, width, flags);
    hide Filled, FieldWidth;
  }

  lemma KeptDigits(digits: seq<char>, filled: seq<char>, cut: seq<char>, base: Base, flags: Flags)
    requires IsNumeral(digits, base) && |digits| <= NTOA_BUFFER_SIZE && (base == 2 || base == 8 || base == 16)
    requires digits <= filled && cut <= filled && (|cut| < |digits| && base != 16 ==> |cut| == |digits| - 1)
    ensures digits <= Prefixed(cut, base, flags) <==> |cut| >= |digits|
  {
    if |cut| < |digits| {
      assert cut == digits[..|cut|];
      PrefixReplaces(digits, |cut|, base, flags);
    } else {
      assert digits <= cut <= Prefixed(cut, base, flags);
    }
  }

  /** With '#', for every numeral, width and flags, all digits survive unless a precision-free field loses them. */
  lemma HashKeepsDigits(digits: seq<char>, negative: bool, base: Base, prec: nat, width: nat, flags: Flags)
    requires IsNumeral(digits, base) && |digits| <= NTOA_BUFFER_SIZE && (base == 2 || base == 8 || base == 16)
    requires !flags.precision ==> prec == 0
    ensures var field := FieldWidth(negative, width, flags);
      digits <= Prefixed(Cut(Filled(digits, negative, prec, width, flags), base, prec, field, flags), base, flags)
      <==> flags.precision || !HashLoses(|digits|, negative, base, width, flags)
  {
    var field := FieldWidth(negative, width, flags);
    var filled := Filled(digits, negative, prec, width, flags);
    if flags.precision {
      FilledShape(digits, negative, prec, width, flags);
      hide Filled, FieldWidth;
      assert digits <= filled <= Prefixed(filled, base, flags);
    } else {
      CutKeeps(digits, negative, base, width, flags);
      hide *;
      KeptDigits(digits, filled, Cut(filled, base, prec, field, flags), base, flags);
    }
  }

  /** printf("%#05x", 0x1234) prints 0x234: the one padding zero does not make room for the prefix. */
  lemma HashDropsDigitsAfterZeros()
    ensures LongText(0x1234, false, 16, 0, 5, PlainFlags().(hash := true, zeropad := true)) == "0x234"
  {
    var flags := PlainFlags().(hash := true, zeropad := true);
    assert LongDigits(0x1234, 16, flags) == ['4', '3', '2', '1'];
    assert Filled(['4', '3', '2', '1'], false, 0, 5, flags) == ['4', '3', '2', '1', '0'];
    assert Prefixed(['4', '3', '2'], 16, flags) == ['4', '3', '2', 'x', '0'];
    assert Reversed(['4', '3', '2', 'x', '0']) == "0x234";
  }
}
