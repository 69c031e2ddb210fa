/**
 * Format specifications as a caller means them, rendered as text: what vsnprintf's parser reads back
 * is what was rendered.
 */
module PrintfRendering {
  import opened Words
  import opened Division
  import opened PrintfOutput
  import opened PrintfNumbers
  import opened PrintfFormat

  /** A width or precision: left out, a number, or '*' with its argument. */
  datatype Field = Omitted | Literal(n: nat) | Argument(bits: Word)

  datatype Length = Plain | Long | LongLong | Short | Char | Ptrdiff | Intmax | Size

  /** Flag characters in any order and number, a width, a precision if there is a dot, and a length. */
  datatype Request = Request(flags: seq<char>, width: Field, precision: Option<Field>, length: Length)

  predicate IsFlag(c: char) { c == '0' || c == '-' || c == '+' || c == ' ' || c == '#' }

  predicate IsLength(c: char) { c == 'l' || c == 'h' || c == 't' || c == 'j' || c == 'z' }

  /** A width of 0 cannot be written, and INT_MIN cannot be negated. */
  predicate Writable(r: Request) {
    && (forall k :: 0 <= k < |r.flags| ==> IsFlag(r.flags[k]))
    && (r.width.Literal? ==> 0 < r.width.n < TWO_32)
    && (r.width.Argument? ==> IntOf(r.width.bits) != INT_MIN)
    && (r.precision.Some? && r.precision.value.Literal? ==> r.precision.value.n < TWO_32)
  }

  // ---- as text, and as arguments ----

  function FieldText(f: Field): seq<char> {
    match f
    case Omitted => ""
    case Literal(n) => Reversed(Digits(n, 10, NTOA_BUFFER_SIZE, false))
    case Argument(_) => "*"
  }

  function PrecisionText(p: Option<Field>): seq<char> {
    if p.None? then "" else "." + FieldText(p.value)
  }

  function LengthText(l: Length): seq<char> {
    match l
    case Plain => ""
    case Long => "l"
    case LongLong => "ll"
    case Short => "h"
    case Char => "hh"
    case Ptrdiff => "t"
    case Intmax => "j"
    case Size => "z"
  }

  function Rendered(r: Request): seq<char> {
    r.flags + FieldText(r.width) + PrecisionText(r.precision) + LengthText(r.length)
  }

  function FieldArgs(f: Field): seq<Arg> {
    if f.Argument? then [Number(f.bits)] else []
  }

  function RequestArgs(r: Request): seq<Arg> {
    FieldArgs(r.width) + if r.precision.Some? then FieldArgs(r.precision.value) else []
  }

  // ---- what it means ----

  function Merged(f: Flags, zeropad: bool, left: bool, plus: bool, space: bool, hash: bool): Flags {
    f.(zeropad := f.zeropad || zeropad, left := f.left || left, plus := f.plus || plus,
       space := f.space || space, hash := f.hash || hash)
  }

  function WithFlags(f: Flags, flags: seq<char>): Flags {
    Merged(f, '0' in flags, '-' in flags, '+' in flags, ' ' in flags, '#' in flags)
  }

  function FieldValue(f: Field): int {
    match f
    case Omitted => 0
    case Literal(n) => n
    case Argument(bits) => IntOf(bits)
  }

  /** A negative width left-justifies in its absolute value. */
  function WithWidth(s: Spec, width: Field): Spec {
    var w := FieldValue(width);
    if w < 0 then s.(flags := s.flags.(left := true), width := -w) else s.(width := w)
  }

  /** A negative precision counts as 0. */
  function WithPrecision(s: Spec, p: Option<Field>): Spec {
    if p.None? then s
    else
      var n := FieldValue(p.value);
      s.(flags := s.flags.(precision := true), prec := if n < 0 then 0 else n)
  }

  function WithLength(s: Spec, l: Length): Spec {
    s.(flags := s.flags.(
      isLong := s.flags.isLong || !(l.Plain? || l.Short? || l.Char?),
      isLongLong := s.flags.isLongLong || l.LongLong?,
      isShort := s.flags.isShort || l.Short? || l.Char?,
      isChar := s.flags.isChar || l.Char?))
  }

  /** Where a rendered text stands in a format. */
  predicate StandsAt(format: CString, i: nat, text: seq<char>) {
    i + |text| <= |format| && format[i..i + |text|] == text
  }

  /** No character that would continue a specification. */
  predicate Ends(c: char) {
    !IsFlag(c) && !IsDigit(c) && !IsLength(c) && c != '*' && c != '.'
  }

  // ---- flags ----

  lemma InCons(x: char, c: char, rest: seq<char>)
    ensures x in [c] + rest <==> x == c || x in rest
  {
  }

  lemma MergeZeropad(f: Flags, z: bool, l: bool, p: bool, s: bool, h: bool)
    ensures Merged(f.(zeropad := true), z, l, p, s, h) == Merged(f, true, l, p, s, h)
  {
  }

  lemma MergeLeft(f: Flags, z: bool, l: bool, p: bool, s: bool, h: bool)
    ensures Merged(f.(left := true), z, l, p, s, h) == Merged(f, z, true, p, s, h)
  {
  }

  lemma MergePlus(f: Flags, z: bool, l: bool, p: bool, s: bool, h: bool)
    ensures Merged(f.(plus := true), z, l, p, s, h) == Merged(f, z, l, true, s, h)
  {
  }

  lemma MergeSpace(f: Flags, z: bool, l: bool, p: bool, s: bool, h: bool)
    ensures Merged(f.(space := true), z, l, p, s, h) == Merged(f, z, l, p, true, h)
  {
  }

  lemma MergeHash(f: Flags, z: bool, l: bool, p: bool, s: bool, h: bool)
    ensures Merged(f.(hash := true), z, l, p, s, h) == Merged(f, z, l, p, s, true)
  {
  }

  lemma FlagStep(f: Flags, c: char, rest: seq<char>)
    requires IsFlag(c)
    ensures WithFlag(f, c).Some? && WithFlags(WithFlag(f, c).value, rest) == WithFlags(f, [c] + rest)
  {
    InCons('0', c, rest);
    InCons('-', c, rest);
    InCons('+', c, rest);
    InCons(' ', c, rest);
    InCons('#', c, rest);
    hide Merged;
    if c == '0' {
      MergeZeropad(f, '0' in rest, '-' in rest, '+' in rest, ' ' in rest, '#' in rest);
    } else if c == '-' {
      MergeLeft(f, '0' in rest, '-' in rest, '+' in rest, ' ' in rest, '#' in rest);
    } else if c == '+' {
      MergePlus(f, '0' in rest, '-' in rest, '+' in rest, ' ' in rest, '#' in rest);
    } else if c == ' ' {
      MergeSpace(f, '0' in rest, '-' in rest, '+' in rest, ' ' in rest, '#' in rest);
    } else {
      MergeHash(f, '0' in rest, '-' in rest, '+' in rest, ' ' in rest, '#' in rest);
    }
  }

  lemma NoFlagsMerge(f: Flags)
    ensures WithFlags(f, []) == f
  {
  }

  lemma NextFlag(format: CString, i: nat, flags: seq<char>)
    requires flags != [] && StandsAt(format, i, flags)
    ensures i < |format| && At(format, i) == flags[0] && flags == [flags[0]] + flags[1..]
    ensures StandsAt(format, i + 1, flags[1..])
  {
    assert format[i + 1..i + |flags|] == format[i..i + |flags|][1..];
  }

  lemma FlagsUnfold(format: CString, i: nat, f: Flags)
    requires WithFlag(f, At(format, i)).Some? ==> i < |format|
    ensures FlagsAt(format, i, f) == match WithFlag(f, At(format, i))
      case None => (f, i)
      case Some(more) => FlagsAt(format, i + 1, more)
  {
    hide WithFlag;
  }

  lemma NoFlag(f: Flags, c: char)
    requires !IsFlag(c)
    ensures WithFlag(f, c).None?
  {
  }

  lemma {:induction false} ReadsFlags(format: CString, i: nat, flags: seq<char>, f: Flags)
    requires StandsAt(format, i, flags) && (forall k :: 0 <= k < |flags| ==> IsFlag(flags[k]))
    requires !IsFlag(At(format, i + |flags|))
    ensures FlagsAt(format, i, f) == (WithFlags(f, flags), i + |flags|)
    decreases |flags|
  {
    hide *;
    if flags == [] {
      NoFlag(f, At(format, i));
      FlagsUnfold(format, i, f);
      NoFlagsMerge(f);
    } else {
      NextFlag(format, i, flags);
      FlagsUnfold(format, i, f);
      FlagStep(f, flags[0], flags[1..]);
      ReadsFlags(format, i + 1, flags[1..], WithFlag(f, flags[0]).value);
    }
  }

  // ---- numbers ----

  lemma {:induction false} DigitsEndAt(format: CString, i: nat, n: nat)
    requires i + n <= |format| && (forall k :: i <= k < i + n ==> IsDigit(format[k]))
    requires !IsDigit(At(format, i + n))
    ensures DigitsEnd(format, i) == i + n
    decreases n
  {
    if n > 0 { DigitsEndAt(format, i + 1, n - 1); }
  }

  /** The digit printed first is not 0. */
  lemma {:induction false} TopDigit(value: nat, limit: nat)
    requires limit > 0 && 0 < value < Power(10, limit)
    ensures var digits := Digits(value, 10, limit, false); digits[|digits| - 1] != '0'
    decreases limit
  {
    QuotientBelowPower(value, 10, limit);
    hide Power;
    if value / 10 != 0 && limit > 1 { TopDigit(value / 10, limit - 1); }
  }

  lemma WordsAreBelow(value: Word)
    ensures value < Power(10, NTOA_BUFFER_SIZE)
  {
    WordsAreExact(value, 10, false);
    ConversionIsExact(value, 10, NTOA_BUFFER_SIZE, false);
    hide *;
  }

  lemma NumberText(n: nat)
    requires n < TWO_32
    ensures var text := FieldText(Literal(n));
      && |text| > 0 && (forall k :: 0 <= k < |text| ==> IsDigit(text[k]))
      && Denotes(text, 10) == n && (n > 0 ==> text[0] != '0')
  {
    var digits := Digits(n, 10, NTOA_BUFFER_SIZE, false);
    assert FieldText(Literal(n)) == Reversed(digits);
    hide Digits, Denotes, Power, IsDigit, FieldText;
    DecimalDigits(n, NTOA_BUFFER_SIZE, false);
    WordsAreExact(n, 10, false);
    if n > 0 {
      WordsAreBelow(n);
      TopDigit(n, NTOA_BUFFER_SIZE);
    }
  }

  lemma TextDigits(format: CString, i: nat, text: seq<char>)
    requires StandsAt(format, i, text) && (forall k :: 0 <= k < |text| ==> IsDigit(text[k]))
    ensures forall k :: i <= k < i + |text| ==> IsDigit(format[k])
  {
    hide IsDigit;
    forall k | i <= k < i + |text| ensures IsDigit(format[k]) {
      assert format[k] == format[i..i + |text|][k - i];
    }
  }

  lemma ReadsNumber(format: CString, i: nat, n: nat)
    requires n < TWO_32 && StandsAt(format, i, FieldText(Literal(n)))
    requires !IsDigit(At(format, i + |FieldText(Literal(n))|))
    ensures IsDigit(At(format, i)) && DigitsEnd(format, i) == i + |FieldText(Literal(n))| && NumberAt(format, i) == n
  {
    var text := FieldText(Literal(n));
    hide FieldText, Denotes, IsDigit;
    NumberText(n);
    TextDigits(format, i, text);
    DigitsEndAt(format, i, |text|);
    OwnRemainder(n, TWO_32);
  }

  // ---- the whole specification ----

  predicate WritableWidth(f: Field) {
    (f.Literal? ==> 0 < f.n < TWO_32) && (f.Argument? ==> IntOf(f.bits) != INT_MIN)
  }

  /** The arguments a field takes, in front of the others. */
  predicate Supplies(args: seq<Arg>, f: Field, rest: seq<Arg>) {
    args == FieldArgs(f) + rest
  }

  lemma StarAt(format: CString, i: nat)
    requires StandsAt(format, i, "*")
    ensures i < |format| && At(format, i) == '*' && !IsDigit(At(format, i))
  {
    assert format[i..i + 1][0] == '*';
  }

  lemma OmittedWidth(format: CString, s: Spec)
    requires s.next <= |format| && s.width == 0 && !IsDigit(At(format, s.next)) && At(format, s.next) != '*'
    ensures WidthAt(format, s) == Some(WithWidth(s, Omitted))
  {
    hide IsDigit, At, NumberAt;
  }

  lemma LiteralWidth(format: CString, s: Spec, n: nat)
    requires s.next <= |format| && IsDigit(At(format, s.next)) && NumberAt(format, s.next) == n
    ensures WidthAt(format, s) == Some(WithWidth(s, Literal(n)).(next := DigitsEnd(format, s.next)))
  {
    hide IsDigit, At, NumberAt, DigitsEnd;
  }

  lemma ArgumentWidth(format: CString, s: Spec, bits: Word, rest: seq<Arg>)
    requires s.next <= |format| && !IsDigit(At(format, s.next)) && At(format, s.next) == '*'
    requires s.args == [Number(bits)] + rest && IntOf(bits) != INT_MIN
    ensures WidthAt(format, s) == Some(WithWidth(s, Argument(bits)).(next := s.next + 1, args := rest))
  {
    assert s.args[0] == Number(bits) && s.args[1..] == rest;
    hide IsDigit, At, NumberAt, IntOf;
  }

  lemma ReadsWidth(format: CString, s: Spec, width: Field, rest: seq<Arg>)
    requires WritableWidth(width) && s.width == 0 && Supplies(s.args, width, rest)
    requires StandsAt(format, s.next, FieldText(width))
    requires !IsDigit(At(format, s.next + |FieldText(width)|)) && (width.Omitted? ==> At(format, s.next) != '*')
    ensures WidthAt(format, s) == Some(WithWidth(s, width).(next := s.next + |FieldText(width)|, args := rest))
  {
    hide IsDigit, At, NumberAt, IntOf, WidthAt, DigitsEnd, Digits, Reversed;
    match width
    case Omitted =>
      assert s.args == rest;
      OmittedWidth(format, s);
    case Literal(n) =>
      assert s.args == rest;
      ReadsNumber(format, s.next, n);
      LiteralWidth(format, s, n);
    case Argument(bits) =>
      StarAt(format, s.next);
      ArgumentWidth(format, s, bits, rest);
  }

  lemma NoPrecision(format: CString, s: Spec)
    requires s.next <= |format| && At(format, s.next) != '.'
    ensures PrecisionAt(format, s) == Some(WithPrecision(s, None))
  {
    hide At;
  }

  lemma OmittedPrecision(format: CString, s: Spec)
    requires s.next < |format| && s.prec == 0 && At(format, s.next) == '.'
    requires !IsDigit(At(format, s.next + 1)) && At(format, s.next + 1) != '*'
    ensures PrecisionAt(format, s) == Some(WithPrecision(s, Some(Omitted)).(next := s.next + 1))
  {
    hide IsDigit, At, NumberAt;
  }

  lemma LiteralPrecision(format: CString, s: Spec, n: nat)
    requires s.next < |format| && At(format, s.next) == '.'
    requires IsDigit(At(format, s.next + 1)) && NumberAt(format, s.next + 1) == n
    ensures PrecisionAt(format, s)
      == Some(WithPrecision(s, Some(Literal(n))).(next := DigitsEnd(format, s.next + 1)))
  {
    hide IsDigit, At, NumberAt, DigitsEnd;
  }

  lemma ArgumentPrecision(format: CString, s: Spec, bits: Word, rest: seq<Arg>)
    requires s.next < |format| && At(format, s.next) == '.'
    requires !IsDigit(At(format, s.next + 1)) && At(format, s.next + 1) == '*' && s.args == [Number(bits)] + rest
    ensures PrecisionAt(format, s)
      == Some(WithPrecision(s, Some(Argument(bits))).(next := s.next + 2, args := rest))
  {
    assert s.args[0] == Number(bits) && s.args[1..] == rest;
    hide IsDigit, At, NumberAt, IntOf;
  }

  lemma ReadsDotted(format: CString, s: Spec, f: Field, rest: seq<Arg>)
    requires s.prec == 0 && (f.Literal? ==> f.n < TWO_32) && Supplies(s.args, f, rest)
    requires s.next < |format| && At(format, s.next) == '.' && StandsAt(format, s.next + 1, FieldText(f))
    requires !IsDigit(At(format, s.next + 1 + |FieldText(f)|)) && At(format, s.next + 1 + |FieldText(f)|) != '*'
    ensures PrecisionAt(format, s)
      == Some(WithPrecision(s, Some(f)).(next := s.next + 1 + |FieldText(f)|, args := rest))
  {
    hide IsDigit, At, NumberAt, IntOf, PrecisionAt, DigitsEnd, Digits, Reversed;
    match f
    case Omitted =>
      assert s.args == rest;
      OmittedPrecision(format, s);
    case Literal(n) =>
      assert s.args == rest;
      ReadsNumber(format, s.next + 1, n);
      LiteralPrecision(format, s, n);
    case Argument(bits) =>
      StarAt(format, s.next + 1);
      ArgumentPrecision(format, s, bits, rest);
  }

  lemma ReadsPrecision(format: CString, s: Spec, p: Option<Field>, rest: seq<Arg>)
    requires p.Some? && p.value.Literal? ==> p.value.n < TWO_32
    requires s.prec == 0 && (if p.Some? then Supplies(s.args, p.value, rest) else s.args == rest)
    requires StandsAt(format, s.next, PrecisionText(p))
    requires !IsDigit(At(format, s.next + |PrecisionText(p)|)) && At(format, s.next + |PrecisionText(p)|) != '*'
    requires p.None? ==> At(format, s.next) != '.'
    ensures PrecisionAt(format, s) == Some(WithPrecision(s, p).(next := s.next + |PrecisionText(p)|, args := rest))
  {
    hide IsDigit, At, IntOf, PrecisionAt, FieldText, Supplies;
    if p.None? {
      NoPrecision(format, s);
    } else {
      DotThenField(format, s.next, FieldText(p.value));
      ReadsDotted(format, s, p.value, rest);
    }
  }

  lemma DotThenField(format: CString, i: nat, text: seq<char>)
    requires StandsAt(format, i, "." + text)
    ensures i < |format| && At(format, i) == '.' && StandsAt(format, i + 1, text)
  {
    assert format[i + 1..i + 1 + |text|] == format[i..i + 1 + |text|][1..];
    assert ("." + text)[1..] == text;
  }

  lemma ReadsLength(format: CString, s: Spec, l: Length)
    requires StandsAt(format, s.next, LengthText(l)) && !IsLength(At(format, s.next + |LengthText(l)|))
    ensures LengthAt(format, s) == WithLength(s, l).(next := s.next + |LengthText(l)|)
  {
    var text := LengthText(l);
    if |text| > 0 { assert format[s.next..s.next + |text|][0] == text[0]; }
    if |text| > 1 { assert format[s.next..s.next + |text|][1] == text[1]; }
    hide IntOf;
    match l
    case Plain =>
    case Long =>
    case LongLong =>
    case Short =>
    case Char =>
    case Ptrdiff =>
    case Intmax =>
    case Size =>
  }

  lemma StandsInParts(format: CString, i: nat, a: seq<char>, b: seq<char>)
    requires StandsAt(format, i, a + b)
    ensures StandsAt(format, i, a) && StandsAt(format, i + |a|, b)
  {
    assert format[i..i + |a|] == format[i..i + |a + b|][..|a|];
    assert format[i + |a|..i + |a| + |b|] == format[i..i + |a + b|][|a|..];
  }

  lemma FirstAt(format: CString, i: nat, text: seq<char>)
    requires StandsAt(format, i, text) && text != []
    ensures At(format, i) == text[0]
  {
    assert format[i..i + |text|][0] == text[0];
  }

  /** The character after the precision begins the length or ends the specification. */
  lemma AfterPrecision(format: CString, i: nat, l: Length)
    requires StandsAt(format, i, LengthText(l)) && Ends(At(format, i + |LengthText(l)|))
    ensures var c := At(format, i); !IsFlag(c) && !IsDigit(c) && c != '*' && c != '.'
  {
    if LengthText(l) != [] { FirstAt(format, i, LengthText(l)); }
    hide At;
  }

  lemma AfterWidth(format: CString, i: nat, p: Option<Field>)
    requires StandsAt(format, i, PrecisionText(p))
    requires var c := At(format, i + |PrecisionText(p)|); !IsFlag(c) && !IsDigit(c) && c != '*' && c != '.'
    ensures var c := At(format, i); !IsFlag(c) && !IsDigit(c) && c != '*' && (p.None? ==> c != '.')
  {
    if p.Some? { FirstAt(format, i, PrecisionText(p)); }
    hide At, FieldText;
  }

  lemma AfterFlags(format: CString, i: nat, width: Field)
    requires WritableWidth(width) && StandsAt(format, i, FieldText(width))
    requires var c := At(format, i + |FieldText(width)|); !IsFlag(c) && c != '*'
    ensures !IsFlag(At(format, i)) && (width.Omitted? ==> At(format, i) != '*')
  {
    match width
    case Omitted =>
    case Literal(n) =>
      NumberText(n);
      FirstAt(format, i, FieldText(width));
      assert IsDigit(FieldText(width)[0]);
      hide At, FieldText, Denotes;
    case Argument(_) =>
      StarAt(format, i);
  }

  /** What a request means, once its text has been read up to an index. */
  function Meaning(r: Request, next: nat, rest: seq<Arg>): Spec {
    var plain := Spec(WithFlags(NO_FLAGS, r.flags), 0, 0, next, rest);
    WithLength(WithPrecision(WithWidth(plain, r.width), r.precision), r.length)
  }

  lemma MovesOn(s: Spec, r: Request, next: nat, args: seq<Arg>)
    ensures WithWidth(s, r.width).(next := next, args := args) == WithWidth(s.(next := next, args := args), r.width)
    ensures var t := WithWidth(s, r.width); t.next == s.next && t.args == s.args && t.prec == s.prec
  {
    hide FieldValue;
  }

  lemma PrecisionMovesOn(s: Spec, r: Request, next: nat, args: seq<Arg>)
    ensures WithPrecision(s, r.precision).(next := next, args := args)
      == WithPrecision(s.(next := next, args := args), r.precision)
    ensures WithPrecision(s, r.precision).next == s.next
  {
    hide FieldValue;
  }

  lemma LengthMovesOn(s: Spec, r: Request, next: nat)
    ensures WithLength(s, r.length).(next := next) == WithLength(s.(next := next), r.length)
  {
  }

  /** The parts of a rendered request, where they stand and what follows each. */
  lemma Parts(format: CString, i: nat, r: Request)
    requires Writable(r) && StandsAt(format, i, Rendered(r)) && Ends(At(format, i + |Rendered(r)|))
    ensures var i1 := i + |r.flags|;
      var i2 := i1 + |FieldText(r.width)|;
      var i3 := i2 + |PrecisionText(r.precision)|;
      var i4 := i3 + |LengthText(r.length)|;
      && i4 == i + |Rendered(r)|
      && StandsAt(format, i, r.flags) && !IsFlag(At(format, i1))
      && StandsAt(format, i1, FieldText(r.width)) && !IsDigit(At(format, i2))
      && (r.width.Omitted? ==> At(format, i1) != '*')
      && StandsAt(format, i2, PrecisionText(r.precision)) && !IsDigit(At(format, i3)) && At(format, i3) != '*'
      && (r.precision.None? ==> At(format, i2) != '.')
      && StandsAt(format, i3, LengthText(r.length)) && !IsLength(At(format, i4))
  {
    var w, p, l := FieldText(r.width), PrecisionText(r.precision), LengthText(r.length);
    hide StandsAt, FieldText, PrecisionText, LengthText, At, IsFlag, IsDigit, IsLength;
    StandsInParts(format, i, r.flags + w + p, l);
    StandsInParts(format, i, r.flags + w, p);
    StandsInParts(format, i, r.flags, w);
    AfterPrecision(format, i + |r.flags| + |w| + |p|, r.length);
    AfterWidth(format, i + |r.flags| + |w|, r.precision);
    AfterFlags(format, i + |r.flags|, r.width);
  }

  lemma SpecByParts(format: CString, i: nat, args: seq<Arg>, flags: Flags, next: nat, wide: Spec, precise: Spec)
    requires i <= |format| && next <= |format| && wide.next <= |format| && precise.next <= |format|
    requires FlagsAt(format, i, NO_FLAGS) == (flags, next)
    requires WidthAt(format, Spec(flags, 0, 0, next, args)) == Some(wide)
    requires PrecisionAt(format, wide) == Some(precise)
    ensures SpecAt(format, i, args) == Some(LengthAt(format, precise))
  {
    hide FlagsAt, WidthAt, PrecisionAt, LengthAt;
  }

  lemma MeaningByParts(r: Request, i1: nat, i2: nat, i3: nat, i4: nat, args: seq<Arg>, later: seq<Arg>, rest: seq<Arg>)
    ensures var s1 := Spec(WithFlags(NO_FLAGS, r.flags), 0, 0, i1, args);
      var s2 := WithWidth(s1, r.width).(next := i2, args := later);
      var s3 := WithPrecision(s2, r.precision).(next := i3, args := rest);
      WithLength(s3, r.length).(next := i4) == Meaning(r, i4, rest)
      && s1.width == 0 && s2.prec == 0 && s2.next == i2 && s2.args == later && s3.next == i3
  {
    var s1 := Spec(WithFlags(NO_FLAGS, r.flags), 0, 0, i1, args);
    var s2 := WithWidth(s1, r.width).(next := i2, args := later);
    MovesOn(s1, r, i2, later);
    MovesOn(s1, r, i4, rest);
    PrecisionMovesOn(s2, r, i3, rest);
    PrecisionMovesOn(s2, r, i4, rest);
    LengthMovesOn(WithPrecision(s2, r.precision).(next := i3, args := rest), r, i4);
    hide WithFlags, WithWidth, WithPrecision, WithLength;
  }

  lemma SplitsArgs(r: Request, later: seq<Arg>, rest: seq<Arg>)
    requires later == (if r.precision.Some? then FieldArgs(r.precision.value) else []) + rest
    ensures Supplies(RequestArgs(r) + rest, r.width, later)
    ensures if r.precision.Some? then Supplies(later, r.precision.value, rest) else later == rest
  {
    assert RequestArgs(r) + rest == FieldArgs(r.width) + later;
    hide FieldArgs;
  }

  lemma InFormat(format: CString, i: nat, text: seq<char>)
    requires StandsAt(format, i, text)
    ensures i <= i + |text| <= |format|
  {
  }

  lemma WritableParts(r: Request)
    requires Writable(r)
    ensures WritableWidth(r.width) && (r.precision.Some? && r.precision.value.Literal? ==> r.precision.value.n < TWO_32)
    ensures forall k :: 0 <= k < |r.flags| ==> IsFlag(r.flags[k])
  {
    hide IsFlag;
  }

  /**
   * Reading back: wherever a rendered request stands in a format, followed by a character that ends it,
   * the parser finds the flags, width, precision and length that were asked for, takes exactly the
   * arguments of the '*' fields, and goes on right after the text.
   */
  lemma ReadsBackRequest(format: CString, i: nat, r: Request, rest: seq<Arg>)
    requires Writable(r) && StandsAt(format, i, Rendered(r)) && Ends(At(format, i + |Rendered(r)|))
    ensures i <= |format| && SpecAt(format, i, RequestArgs(r) + rest) == Some(Meaning(r, i + |Rendered(r)|, rest))
  {
    hide *;
    Parts(format, i, r);
    WritableParts(r);
    InFormat(format, i, Rendered(r));
    var i1 := i + |r.flags|;
    var i2 := i1 + |FieldText(r.width)|;
    var i3 := i2 + |PrecisionText(r.precision)|;
    var i4 := i3 + |LengthText(r.length)|;
    var args := RequestArgs(r) + rest;
    var later := (if r.precision.Some? then FieldArgs(r.precision.value) else []) + rest;
    SplitsArgs(r, later, rest);
    var s1 := Spec(WithFlags(NO_FLAGS, r.flags), 0, 0, i1, args);
    var s2 := WithWidth(s1, r.width).(next := i2, args := later);
    var s3 := WithPrecision(s2, r.precision).(next := i3, args := rest);
    MeaningByParts(r, i1, i2, i3, i4, args, later, rest);
    ReadsFlags(format, i, r.flags, NO_FLAGS);
    ReadsWidth(format, s1, r.width, later);
    ReadsPrecision(format, s2, r.precision, rest);
    ReadsLength(format, s3, r.length);
    SpecByParts(format, i, args, WithFlags(NO_FLAGS, r.flags), i1, s2, s3);
  }
}
