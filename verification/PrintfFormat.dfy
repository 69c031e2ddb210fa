/**
 * vsnprintf: format specifications, their conversions, and the bounded buffer. The text of a format
 * and its arguments is a function that knows no bound; the code is proved to leave as much of it in
 * the buffer as fits.
 */
module PrintfFormat {
  import opened Words
  import opened PrintfOutput
  import opened PrintfNumbers
  import opened PrintfNtoa

  /** A C string without its terminating NUL. */
  type CString = s: seq<char> | |s| < 0x1_0000_0000 && (forall k :: 0 <= k < |s| ==> s[k] != '\0') witness []

  /** A variadic argument: a 64-bit register, or a pointer to a string. */
  datatype Arg = Number(bits: Word) | Text(s: CString)

  // ---- specifications: %[flags][width][.precision][length] ----

  const NO_FLAGS: Flags := Flags(false, false, false, false, false, false, false, false, false, false, false)

  /** The character at an index; C reads the terminating NUL at the end. */
  function At(format: CString, i: nat): char {
    if i < |format| then format[i] else '\0'
  }

  function WithFlag(flags: Flags, c: char): Option<Flags> {
    if c == '0' then Some(flags.(zeropad := true))
    else if c == '-' then Some(flags.(left := true))
    else if c == '+' then Some(flags.(plus := true))
    else if c == ' ' then Some(flags.(space := true))
    else if c == '#' then Some(flags.(hash := true))
    else None
  }

  function FlagsAt(format: CString, i: nat, flags: Flags): (Flags, nat)
    decreases |format| - i
  {
    match WithFlag(flags, At(format, i))
    case None => (flags, i)
    case Some(more) => if i < |format| then FlagsAt(format, i + 1, more) else (flags, i)
  }

  /** The int in an argument register. */
  function IntOf(bits: Word): int {
    var low := bits % 0x1_0000_0000;
    if low < 0x8000_0000 then low else low - 0x1_0000_0000
  }

  function LongOf(bits: Word): int {
    if bits < 0x8000_0000_0000_0000 then bits else bits - TWO_64
  }

  const INT_MIN := -0x8000_0000
  const LONG_MIN := -0x8000_0000_0000_0000

  /** What is known of a specification so far: where the format goes on and which arguments are left. */
  datatype Spec = Spec(flags: Flags, width: nat, prec: nat, next: nat, args: seq<Arg>)

  function NumberAt(format: CString, i: nat): nat
    requires i <= |format|
  {
    Denotes(format[i..DigitsEnd(format, i)], 10) % TWO_32
  }

  /** The width: a number, or an argument whose negative values also left-justify. */
  function WidthAt(format: CString, s: Spec): Option<Spec>
    requires s.next <= |format|
  {
    if IsDigit(At(format, s.next)) then Some(s.(width := NumberAt(format, s.next), next := DigitsEnd(format, s.next)))
    else if At(format, s.next) == '*' then
      if s.args == [] || s.args[0].Text? || IntOf(s.args[0].bits) == INT_MIN then None
      else
        var w, rest := IntOf(s.args[0].bits), s.(next := s.next + 1, args := s.args[1..]);
        Some(if w < 0 then rest.(flags := s.flags.(left := true), width := -w) else rest.(width := w))
    else Some(s)
  }

  /** The precision: a number or an argument, 0 if neither follows the dot. */
  function PrecisionAt(format: CString, s: Spec): Option<Spec>
    requires s.next <= |format|
  {
    if At(format, s.next) != '.' then Some(s)
    else
      var t := s.(flags := s.flags.(precision := true), next := s.next + 1);
      if IsDigit(At(format, t.next)) then Some(t.(prec := NumberAt(format, t.next), next := DigitsEnd(format, t.next)))
      else if At(format, t.next) == '*' then
        if t.args == [] || t.args[0].Text? then None
        else
          var p := IntOf(t.args[0].bits);
          Some(t.(prec := if p > 0 then p else 0, next := t.next + 1, args := t.args[1..]))
      else Some(t)
  }

  /** The length modifier, of up to two characters; size_t, ptrdiff_t and intmax_t are long. */
  function LengthFlags(flags: Flags, c: char, c': char): Flags {
    if c == 'l' then flags.(isLong := true, isLongLong := flags.isLongLong || c' == 'l')
    else if c == 'h' then flags.(isShort := true, isChar := flags.isChar || c' == 'h')
    else if c == 't' || c == 'j' || c == 'z' then flags.(isLong := true)
    else flags
  }

  function LengthSize(c: char, c': char): nat {
    if c == 'l' || c == 'h' then (if c' == c then 2 else 1)
    else if c == 't' || c == 'j' || c == 'z' then 1
    else 0
  }

  function LengthAt(format: CString, s: Spec): Spec
    requires s.next <= |format|
  {
    var c, c' := At(format, s.next), At(format, s.next + 1);
    s.(flags := LengthFlags(s.flags, c, c'), next := s.next + LengthSize(c, c'))
  }

  /** Everything between a '%' and the conversion character. */
  function SpecAt(format: CString, i: nat, args: seq<Arg>): Option<Spec>
    requires i <= |format|
  {
    FlagsEnd(format, i, NO_FLAGS);
    var (flags, next) := FlagsAt(format, i, NO_FLAGS);
    match WidthAt(format, Spec(flags, 0, 0, next, args))
    case None => None
    case Some(wide) =>
      match PrecisionAt(format, wide)
      case None => None
      case Some(precise) => Some(LengthAt(format, precise))
  }

  lemma {:induction false} FlagsEnd(format: CString, i: nat, flags: Flags)
    requires i <= |format|
    ensures i <= FlagsAt(format, i, flags).1 <= |format|
    decreases |format| - i
  {
    var more := WithFlag(flags, At(format, i));
    if more.Some? && i < |format| { FlagsEnd(format, i + 1, more.value); }
  }

  // ---- conversions ----

  function BaseOf(c: char): Base {
    if c == 'x' || c == 'X' then 16 else if c == 'o' then 8 else if c == 'b' then 2 else 10
  }

  predicate IsSigned(c: char) { c == 'd' || c == 'i' }
  predicate IsInteger(c: char) { IsSigned(c) || c == 'u' || c == 'x' || c == 'X' || c == 'o' || c == 'b' }
  predicate IsFloat(c: char) { c == 'f' || c == 'F' || c == 'e' || c == 'E' || c == 'g' || c == 'G' }

  /** The flags an integer conversion works with. */
  function IntegerFlags(c: char, flags: Flags): Flags {
    flags.(hash := flags.hash && BaseOf(c) != 10,
           uppercase := flags.uppercase || c == 'X',
           plus := flags.plus && IsSigned(c),
           space := flags.space && IsSigned(c),
           zeropad := flags.zeropad && !flags.precision)
  }

  /** The value of a signed conversion; plain char is unsigned on RISC-V. The minimum has no negation. */
  function SignedValue(bits: Word, flags: Flags): Option<int> {
    if flags.isLongLong || flags.isLong then (if LongOf(bits) == LONG_MIN then None else Some(LongOf(bits)))
    else if flags.isChar then Some(bits % 256)
    else if flags.isShort then Some(if bits % 0x1_0000 < 0x8000 then bits % 0x1_0000 else bits % 0x1_0000 - 0x1_0000)
    else if IntOf(bits) == INT_MIN then None
    else Some(IntOf(bits))
  }

  function UnsignedValue(bits: Word, flags: Flags): Word {
    if flags.isLongLong || flags.isLong then bits
    else if flags.isChar then bits % 256
    else if flags.isShort then bits % 0x1_0000
    else bits % 0x1_0000_0000
  }

  function Abs(n: int): nat { if n < 0 then -n else n }

  lemma SignedFits(bits: Word, flags: Flags)
    ensures SignedValue(bits, flags).Some? ==> Abs(SignedValue(bits, flags).value) < TWO_64
  {
  }

  function IntegerConversion(c: char, s: Spec, bits: Word): Option<seq<char>> {
    var flags := IntegerFlags(c, s.flags);
    if IsSigned(c) then
      match SignedValue(bits, s.flags)
      case None => None
      case Some(v) => (SignedFits(bits, s.flags); Some(LongText(Abs(v), v < 0, BaseOf(c), s.prec, s.width, flags)))
    else Some(LongText(UnsignedValue(bits, s.flags), false, BaseOf(c), s.prec, s.width, flags))
  }

  function Justified(text: seq<char>, width: nat, left: bool): seq<char> {
    if left then text + Repeat(' ', width - |text|) else Repeat(' ', width - |text|) + text
  }

  function CharOf(bits: Word): char { (bits % 256) as char }

  /** %s prints at most the precision, if one is given. */
  function StringPart(text: CString, s: Spec): seq<char> {
    if s.flags.precision && s.prec < |text| then text[..s.prec] else text
  }

  function PointerFlags(flags: Flags): Flags { flags.(zeropad := true, uppercase := true) }

  /** The text of one specification; None for floats, a missing or wrong argument, and a format that ends in it. */
  function Conversion(c: char, s: Spec): Option<(seq<char>, seq<Arg>)> {
    if IsInteger(c) then
      if s.args == [] || s.args[0].Text? || IntegerConversion(c, s, s.args[0].bits).None? then None
      else Some((IntegerConversion(c, s, s.args[0].bits).value, s.args[1..]))
    else if c == 'c' then
      if s.args == [] || s.args[0].Text? then None
      else Some((Justified([CharOf(s.args[0].bits)], s.width, s.flags.left), s.args[1..]))
    else if c == 's' then
      if s.args == [] || s.args[0].Number? then None
      else Some((Justified(StringPart(s.args[0].s, s), s.width, s.flags.left), s.args[1..]))
    else if c == 'p' then
      if s.args == [] || s.args[0].Text? then None
      else Some((LongText(s.args[0].bits, false, 16, s.prec, 16, PointerFlags(s.flags)), s.args[1..]))
    else if IsFloat(c) || c == '\0' then None
    else Some(([c], s.args))
  }

  /** The whole text of a format from an index on, without any bound. */
  function TextFrom(format: CString, i: nat, args: seq<Arg>): Option<seq<char>>
    requires i <= |format|
    decreases |format| - i
  {
    if i == |format| then Some([])
    else if format[i] != '%' then Prepend([format[i]], TextFrom(format, i + 1, args))
    else
      match SpecAt(format, i + 1, args)
      case None => None
      case Some(s) =>
        SpecAdvances(format, i + 1, args);
        if s.next >= |format| || Conversion(format[s.next], s).None? then None
        else
          var (text, rest) := Conversion(format[s.next], s).value;
          Prepend(text, TextFrom(format, s.next + 1, rest))
  }

  function Prepend(a: seq<char>, b: Option<seq<char>>): Option<seq<char>> {
    if b.None? then None else Some(a + b.value)
  }

  lemma SpecAdvances(format: CString, i: nat, args: seq<Arg>)
    requires i <= |format| && SpecAt(format, i, args).Some?
    ensures i <= SpecAt(format, i, args).value.next
  {
    FlagsEnd(format, i, NO_FLAGS);
  }

  // ---- the code: reading a specification ----

  method ParseFlags(format: CString, start: nat) returns (flags: Flags, next: nat)
    requires start <= |format|
    ensures (flags, next) == FlagsAt(format, start, NO_FLAGS)
    ensures start <= next <= |format|
  {
    flags, next := NO_FLAGS, start;
    var more := true;
    while more
      invariant start <= next <= |format|
      invariant FlagsAt(format, next, flags) == FlagsAt(format, start, NO_FLAGS)
      invariant !more ==> FlagsAt(format, start, NO_FLAGS) == (flags, next)
      decreases |format| - next, more
    {
      var c := At(format, next);
      if c == '0' {
        flags, next := flags.(zeropad := true), next + 1;
      } else if c == '-' {
        flags, next := flags.(left := true), next + 1;
      } else if c == '+' {
        flags, next := flags.(plus := true), next + 1;
      } else if c == ' ' {
        flags, next := flags.(space := true), next + 1;
      } else if c == '#' {
        flags, next := flags.(hash := true), next + 1;
      } else {
        more := false;
      }
    }
  }

  method ParseWidth(format: CString, before: Spec) returns (s: Spec)
    requires before.next <= |format| && WidthAt(format, before).Some?
    ensures s == WidthAt(format, before).value && before.next <= s.next <= |format|
  {
    s := before;
    if IsDigit(At(format, s.next)) {
      var w, next := Atoi(format, s.next);
      s := s.(width := w, next := next);
    } else if At(format, s.next) == '*' {
      var w := IntOf(s.args[0].bits);
      if w < 0 {
        s := s.(flags := s.flags.(left := true), width := -w);
      } else {
        s := s.(width := w);
      }
      s := s.(args := s.args[1..], next := s.next + 1);
    }
  }

  method ParsePrecision(format: CString, before: Spec) returns (s: Spec)
    requires before.next <= |format| && before.prec == 0 && PrecisionAt(format, before).Some?
    ensures s == PrecisionAt(format, before).value && before.next <= s.next <= |format|
  {
    s := before;
    if At(format, s.next) == '.' {
      s := s.(flags := s.flags.(precision := true), next := s.next + 1);
      if IsDigit(At(format, s.next)) {
        var p, next := Atoi(format, s.next);
        s := s.(prec := p, next := next);
      } else if At(format, s.next) == '*' {
        var p := IntOf(s.args[0].bits);
        s := s.(prec := if p > 0 then p else 0, args := s.args[1..], next := s.next + 1);
      }
    }
  }

  method ParseLength(format: CString, before: Spec) returns (s: Spec)
    requires before.next <= |format|
    ensures s == LengthAt(format, before) && before.next <= s.next <= |format|
  {
    s := before;
    var c := At(format, s.next);
    if c == 'l' {
      s := s.(flags := s.flags.(isLong := true), next := s.next + 1);
      if At(format, s.next) == 'l' {
        s := s.(flags := s.flags.(isLongLong := true), next := s.next + 1);
      }
    } else if c == 'h' {
      s := s.(flags := s.flags.(isShort := true), next := s.next + 1);
      if At(format, s.next) == 'h' {
        s := s.(flags := s.flags.(isChar := true), next := s.next + 1);
      }
    } else if c == 't' || c == 'j' || c == 'z' {
      s := s.(flags := s.flags.(isLong := true), next := s.next + 1);
    }
  }

  method ParseSpec(format: CString, start: nat, args: seq<Arg>) returns (s: Spec)
    requires start <= |format| && SpecAt(format, start, args).Some?
    ensures s == SpecAt(format, start, args).value && start <= s.next <= |format|
  {
    hide FlagsAt, WidthAt, PrecisionAt, LengthAt;
    var flags, next := ParseFlags(format, start);
    s := ParseWidth(format, Spec(flags, 0, 0, next, args));
    WidthKeepsPrecision(format, Spec(flags, 0, 0, next, args));
    s := ParsePrecision(format, s);
    s := ParseLength(format, s);
  }

  lemma WidthKeepsPrecision(format: CString, s: Spec)
    requires s.next <= |format| && WidthAt(format, s).Some?
    ensures WidthAt(format, s).value.prec == s.prec
  {
  }

  // ---- the code: conversions ----

  /** Where the output goes on after a text. */
  predicate Sends(before: seq<char>, after: seq<char>, start: nat, idx: nat, maxlen: nat, text: seq<char>) {
    idx == start + |text| && after == Sent(before, start, maxlen, text)
  }

  method ConvertInteger(buffer: array<char>, start: nat, maxlen: nat, c: char, s: Spec, bits: Word) returns (idx: nat)
    requires maxlen <= buffer.Length && IntegerConversion(c, s, bits).Some?
    modifies buffer
    ensures Sends(old(buffer[..]), buffer[..], start, idx, maxlen, IntegerConversion(c, s, bits).value)
  {
    hide LongText, Sent, BaseOf, UnsignedValue, SignedValue;
    var flags := IntegerFlags(c, s.flags);
    if c == 'i' || c == 'd' {
      var value := SignedValue(bits, s.flags).value;
      SignedFits(bits, s.flags);
      var magnitude := if value > 0 then value else 0 - value;
      idx := NtoaLong(buffer, start, maxlen, magnitude, value < 0, BaseOf(c), s.prec, s.width, flags);
    } else {
      idx := NtoaLong(buffer, start, maxlen, UnsignedValue(bits, s.flags), false, BaseOf(c), s.prec, s.width, flags);
    }
  }

  method ConvertChar(buffer: array<char>, start: nat, maxlen: nat, s: Spec, bits: Word) returns (idx: nat)
    requires maxlen <= buffer.Length
    modifies buffer
    ensures Sends(old(buffer[..]), buffer[..], start, idx, maxlen, Justified([CharOf(bits)], s.width, s.flags.left))
  {
    hide Sent, Repeat;
    ghost var was, pad, text := buffer[..], Repeat(' ', s.width - 1), [CharOf(bits)];
    idx := start;
    if !s.flags.left {
      idx := Pad(' ', s.width - 1, buffer, idx, maxlen);
      SentTwice(was, start, maxlen, pad, text);
    }
    OutBuffer(CharOf(bits), buffer, idx, maxlen);
    idx := idx + 1;
    if s.flags.left {
      idx := Pad(' ', s.width - 1, buffer, idx, maxlen);
      SentTwice(was, start, maxlen, text, pad);
    }
  }

  /** The loop of %s: characters until the NUL or until the precision runs out. */
  method SendString(buffer: array<char>, start: nat, maxlen: nat, p: CString, s: Spec) returns (idx: nat)
    requires maxlen <= buffer.Length
    modifies buffer
    ensures Sends(old(buffer[..]), buffer[..], start, idx, maxlen, StringPart(p, s))
  {
    var precision, i := s.prec, 0;
    idx := start;
    while At(p, i) != '\0' && (!s.flags.precision || precision > 0)
      invariant 0 <= i <= |p| && idx == start + i
      invariant s.flags.precision ==> precision == s.prec - i
      invariant buffer[..] == Sent(old(buffer[..]), start, maxlen, p[..i])
      decreases |p| - i
    {
      SentTwice(old(buffer[..]), start, maxlen, p[..i], [p[i]]);
      assert p[..i + 1] == p[..i] + [p[i]];
      OutBuffer(p[i], buffer, idx, maxlen);
      idx, i := idx + 1, i + 1;
      if s.flags.precision { precision := precision - 1; }
    }
    assert p[..i] == StringPart(p, s);
  }

  method ConvertString(buffer: array<char>, start: nat, maxlen: nat, p: CString, s: Spec) returns (idx: nat)
    requires maxlen <= buffer.Length && PrecisionNeedsDot(s)
    modifies buffer
    ensures Sends(old(buffer[..]), buffer[..], start, idx, maxlen, Justified(StringPart(p, s), s.width, s.flags.left))
  {
    var l := Strnlen(p, if s.prec > 0 then s.prec else TWO_64 - 1);
    if s.flags.precision {
      l := if l < s.prec then l else s.prec;
    }
    assert l == |StringPart(p, s)|;
    hide Sent, Repeat, StringPart;
    ghost var was, pad, text := buffer[..], Repeat(' ', s.width - l), StringPart(p, s);
    idx := start;
    if !s.flags.left {
      idx := Pad(' ', s.width - l, buffer, idx, maxlen);
      SentTwice(was, start, maxlen, pad, text);
    }
    idx := SendString(buffer, idx, maxlen, p, s);
    if s.flags.left {
      idx := Pad(' ', s.width - l, buffer, idx, maxlen);
      SentTwice(was, start, maxlen, text, pad);
    }
  }

  /** The switch on the conversion character. */
  method Convert(buffer: array<char>, start: nat, maxlen: nat, c: char, s: Spec) returns (idx: nat, args: seq<Arg>)
    requires maxlen <= buffer.Length && Conversion(c, s).Some? && PrecisionNeedsDot(s)
    modifies buffer
    ensures Sends(old(buffer[..]), buffer[..], start, idx, maxlen, Conversion(c, s).value.0)
    ensures args == Conversion(c, s).value.1
  {
    hide Sent, LongText, IntegerConversion, Justified, StringPart, CharOf;
    args := s.args;
    if IsInteger(c) {
      idx := ConvertInteger(buffer, start, maxlen, c, s, args[0].bits);
      args := args[1..];
    } else if c == 'c' {
      idx := ConvertChar(buffer, start, maxlen, s, args[0].bits);
      args := args[1..];
    } else if c == 's' {
      idx := ConvertString(buffer, start, maxlen, args[0].s, s);
      args := args[1..];
    } else if c == 'p' {
      idx := NtoaLong(buffer, start, maxlen, args[0].bits, false, 16, s.prec, 16, PointerFlags(s.flags));
      args := args[1..];
    } else {
      OutBuffer(c, buffer, start, maxlen);
      idx := start + 1;
    }
  }

  // ---- the whole of _vsnprintf ----

  /** The buffer holds as much of the text as leaves room for the NUL after it; nothing else is touched. */
  predicate Truncated(before: seq<char>, after: seq<char>, n: nat, text: seq<char>)
    requires n <= |before| == |after|
  {
    if n == 0 then after == before
    else
      var k := Min(|text|, n - 1);
      after[..k] == text[..k] && after[k] == '\0' && after[k + 1..] == before[k + 1..]
  }

  lemma TerminatorTruncates(before: seq<char>, n: Word, text: seq<char>)
    requires n <= |before|
    ensures var at := if |text| < n then |text| else (n - 1) % TWO_64;
      Truncated(before, Sent(Sent(before, 0, n, text), at, n, ['\0']), n, text)
  {
  }

  /** Without a dot the precision is 0. */
  predicate PrecisionNeedsDot(s: Spec) { !s.flags.precision ==> s.prec == 0 }

  lemma PrecisionSetsFlag(format: CString, s: Spec)
    requires s.next <= |format| && s.prec == 0 && PrecisionAt(format, s).Some?
    ensures PrecisionNeedsDot(PrecisionAt(format, s).value)
  {
  }

  lemma LengthKeepsPrecision(format: CString, s: Spec)
    requires s.next <= |format| && PrecisionNeedsDot(s)
    ensures PrecisionNeedsDot(LengthAt(format, s))
  {
    var c := At(format, s.next);
    hide At, LengthSize;
    if c == 'l' {
    } else if c == 'h' {
    } else if c == 't' || c == 'j' || c == 'z' {
    }
  }

  lemma SpecPrecision(format: CString, i: nat, args: seq<Arg>)
    requires i <= |format| && SpecAt(format, i, args).Some?
    ensures PrecisionNeedsDot(SpecAt(format, i, args).value)
  {
    FlagsEnd(format, i, NO_FLAGS);
    var (flags, next) := FlagsAt(format, i, NO_FLAGS);
    var start := Spec(flags, 0, 0, next, args);
    var wide := WidthAt(format, start).value;
    var precise := PrecisionAt(format, wide).value;
    assert SpecAt(format, i, args).value == LengthAt(format, precise) by {
      hide FlagsAt, WidthAt, PrecisionAt, LengthAt;
    }
    WidthKeepsPrecision(format, start);
    PrecisionSetsFlag(format, wide);
    hide *;
    LengthKeepsPrecision(format, precise);
  }

  /** One step of the main loop: an ordinary character, or a specification with its conversion. */
  method PutNext(buffer: array<char>, start: nat, maxlen: nat, format: CString, i: nat, args: seq<Arg>)
    returns (idx: nat, next: nat, rest: seq<Arg>, ghost text: seq<char>)
    requires maxlen <= buffer.Length && i < |format| && TextFrom(format, i, args).Some?
    modifies buffer
    ensures Sends(old(buffer[..]), buffer[..], start, idx, maxlen, text)
    ensures i < next <= |format| && TextFrom(format, next, rest).Some?
    ensures TextFrom(format, i, args).value == text + TextFrom(format, next, rest).value
  {
    if format[i] != '%' {
      OutBuffer(format[i], buffer, start, maxlen);
      return start + 1, i + 1, args, [format[i]];
    }
    SpecAdvances(format, i + 1, args);
    SpecPrecision(format, i + 1, args);
    hide SpecAt, Conversion, Sent;
    var s := ParseSpec(format, i + 1, args);
    text := Conversion(format[s.next], s).value.0;
    idx, rest := Convert(buffer, start, maxlen, format[s.next], s);
    next := s.next + 1;
  }

  /**
   * vsnprintf into a buffer with count n: whatever n, the result is the length of the whole text as
   * an int, and the buffer ends up with the first min(length, n - 1) characters of it and a NUL.
   */
  method Vsnprintf(buffer: array<char>, maxlen: Word, format: CString, args: seq<Arg>) returns (length: int)
    requires maxlen <= buffer.Length && TextFrom(format, 0, args).Some?
    modifies buffer
    ensures length == IntOf(|TextFrom(format, 0, args).value| % TWO_64)
    ensures |TextFrom(format, 0, args).value| < 0x8000_0000 ==> length == |TextFrom(format, 0, args).value|
    ensures Truncated(old(buffer[..]), buffer[..], maxlen, TextFrom(format, 0, args).value)
  {
    hide TextFrom, Sent, Truncated;
    ghost var was, all := buffer[..], TextFrom(format, 0, args).value;
    ghost var done := [];
    var i, idx, rest := 0, 0, args;
    NothingSent(was, maxlen);
    while i < |format|
      invariant i <= |format| && idx == |done|
      invariant TextFrom(format, i, rest).Some? && done + TextFrom(format, i, rest).value == all
      invariant buffer[..] == Sent(was, 0, maxlen, done)
    {
      ghost var text;
      idx, i, rest, text := PutNext(buffer, idx, maxlen, format, i, rest);
      SentTwice(was, 0, maxlen, done, text);
      done := done + text;
    }
    NoTextAtEnd(format, rest);
    assert done == all;
    TerminatorTruncates(was, maxlen, all);
    OutBuffer('\0', buffer, if idx < maxlen then idx else (maxlen - 1) % TWO_64, maxlen);
    SmallLength(idx);
    length := IntOf(idx % TWO_64);
  }

  lemma SmallLength(n: nat)
    ensures n < 0x8000_0000 ==> IntOf(n % TWO_64) == n
  {
  }

  lemma NothingSent(before: seq<char>, n: nat)
    ensures Sent(before, 0, n, []) == before
  {
  }

  lemma NoTextAtEnd(format: CString, args: seq<Arg>)
    ensures TextFrom(format, |format|, args) == Some([])
  {
  }
}
