/** Where the parsers and the printer part from ISO/IEC 9899:2011. */
module IsoC {
  import opened CStrings
  import opened Numerals
  import opened NumberFormat
  import RoundTrip
  import Strtol
  import Vsprintf

  // ---- Section 7.22.1.4: strtol and strtoul ----

  /** Where a numeral begins, after blanks and a sign. */
  function Start(s: string): (i: nat)
    ensures i <= |s|
  {
    var blank := Strtol.SkipBlanks(s, 0); if Strtol.IsSign(At(s, blank)) then blank + 1 else blank
  }

  /** A 0x that the radix allows, and no hexadecimal digit behind it. */
  predicate BarePrefix(s: string, radix: int) {
    Strtol.HasHexPrefix(s, Start(s), radix) && DigitOf(At(s, Start(s) + 2)) >= 16
  }

  /** The standard reads the longest prefix that has the form of a numeral: a 0x without a digit behind
      it is none, but its 0 is. */
  function IsoRead(s: string, radix: int): (r: Strtol.Reading)
    ensures r.from <= r.upto <= |s|
  {
    var start := Start(s);
    var hex := Strtol.HasHexPrefix(s, start, radix) && !BarePrefix(s, radix);
    var base := if hex then 16 else if radix != 0 then radix else if At(s, start) == '0' then 8 else 10;
    var from := if hex then start + 2 else start;
    var upto := if 2 <= base <= 36 then RunEnd(s, from, base) else from;
    Strtol.Reading(At(s, Strtol.SkipBlanks(s, 0)) == '-', base, from, upto)
  }

  /** The parsers stop elsewhere exactly at a bare prefix, where they stop at the very start, and the
      standard after the 0. They have the same value everywhere. */
  lemma ReadsAsIso(s: string, radix: int)
    ensures var r, iso := Strtol.Read(s, radix), IsoRead(s, radix);
      && (Strtol.Stop(r) == Strtol.Stop(iso) <==> !BarePrefix(s, radix))
      && (BarePrefix(s, radix) ==> Strtol.Stop(r) == 0 && Strtol.Stop(iso) == Start(s) + 1)
      && r.neg == iso.neg && (r.IsValid() <==> iso.IsValid())
      && (r.IsValid() ==> Strtol.Magnitude(s, r) == Strtol.Magnitude(s, iso))
  {
    hide RunEnd, Strtol.SkipBlanks, Value, DigitOf;
    if BarePrefix(s, radix) { BareNumeral(s, Start(s), IsoRead(s, radix).radix); }
  }

  lemma BareNumeral(s: string, start: nat, base: nat)
    requires start + 1 < |s| && s[start] == '0' && (s[start + 1] == 'x' || s[start + 1] == 'X')
    requires DigitOf(At(s, start + 2)) >= 16 && (base == 8 || base == 16)
    ensures RunEnd(s, start, base) == start + 1 && RunEnd(s, start + 2, 16) == start + 2
    ensures Value(s[start..start + 1], base) == 0 == Value(s[start + 2..start + 2], 16)
  {
    RunEndIs(s, start, start + 1, base);
    RunEndIs(s, start + 2, start + 2, 16);
    assert s[start..start + 1] == "" + ['0'];
    ValuePush("", '0', base);
    EmptyRun(s, start + 2, 16);
    EmptyRun(s, start + 2, base);
  }

  /** At "0x" strtol and strtoul read nothing, in radix 16 and 0; the standard reads the 0. */
  lemma BarePrefixIsNotRead(radix: int)
    requires radix == 0 || radix == 16
    ensures Strtol.Stop(Strtol.Read("0x", radix)) == 0 && Strtol.Stop(IsoRead("0x", radix)) == 1
  {
    var s := "0x";
    assert Strtol.SkipBlanks(s, 0) == 0;
    ReadsAsIso(s, radix);
  }

  // ---- Section 7.21.6.1: d, i, o, u, x and X ----

  function NumeralDigit(v: nat, upper: bool): char
    requires v < 36
  {
    if v < 10 then "0123456789"[v]
    else if upper then "ABCDEFGHIJKLMNOPQRSTUVWXYZ"[v - 10]
    else "abcdefghijklmnopqrstuvwxyz"[v - 10]
  }

  /** A numeral in the digits of the standard. */
  function Numeral(n: nat, base: nat, upper: bool): string
    requires 2 <= base <= 36
  {
    (if n < base then "" else Numeral(Quot(n, base), base, upper)) + [NumeralDigit(Rem(n, base), upper)]
  }

  function IsoSign(num: int, t: Flags): string {
    if !t.sign then "" else if num < 0 then "-" else if t.plus then "+" else if t.space then " " else ""
  }

  /** The # flag puts 0x before a nonzero number only. */
  function IsoPrefix(mag: nat, base: nat, t: Flags): string {
    if !t.special || base != 16 || mag == 0 then "" else if t.large then "0X" else "0x"
  }

  /** Zeros up to the precision; for o, the # flag adds one only if the first digit would not be 0. */
  function IsoZeros(digits: string, base: nat, precision: int, t: Flags): nat {
    if |digits| < precision then precision - |digits|
    else if t.special && base == 8 && (digits == "" || digits[0] != '0') then 1 else 0
  }

  /** What the standard has printed of `num`, flag by flag: a zero value under a precision of zero has
      no digits, and the 0 flag is ignored under the - flag and under a precision. A negative
      precision stands for none. */
  function IsoText(num: int, base: nat, width: int, precision: int, t: Flags): string
    requires 2 <= base <= 36
  {
    var mag: nat := if t.sign && num < 0 then -num else num % 0x1_0000_0000;
    var digits := if mag == 0 && precision == 0 then "" else Numeral(mag, base, t.large);
    var front := IsoSign(num, t) + IsoPrefix(mag, base, t);
    var number := Fill('0', IsoZeros(digits, base, precision, t)) + digits;
    var room := width - |front| - |number|;
    if t.left then front + number + Fill(' ', room)
    else if t.zeropad && precision < 0 then front + Fill('0', room) + number
    else Fill(' ', room) + front + number
  }

  // The same in the parts that the printer has.

  /** A zero value under a precision of zero has no digits. */
  function IsoDigits(mag: nat, base: nat, precision: int, t: Flags): string
    requires 2 <= base <= 36
  {
    if mag == 0 && precision == 0 then "" else Digits(mag, base, t)
  }

  function IsoNeeded(num: int, base: nat, precision: int, t: Flags): nat
    requires 2 <= base <= 36
  {
    var mag := Magnitude(num, t);
    var digits := IsoDigits(mag, base, precision, t);
    |SignText(num, t)| + |IsoPrefix(mag, base, t)| + IsoZeros(digits, base, precision, t) + |digits|
  }

  /** The 0 flag is ignored under the - flag and under a precision. */
  predicate IsoZeropad(precision: int, t: Flags) { t.zeropad && !t.left && precision < 0 }

  function IsoPadding(room: int, precision: int, t: Flags): Padding {
    if t.left then Padding(0, 0, Max(room, 0))
    else if IsoZeropad(precision, t) then Padding(0, Max(room, 0), 0)
    else Padding(Max(room, 0), 0, 0)
  }

  function IsoLayout(num: int, base: nat, size: int, precision: int, t: Flags): string
    requires 2 <= base <= 36
  {
    var mag := Magnitude(num, t);
    var digits := IsoDigits(mag, base, precision, t);
    var p := IsoPadding(size - IsoNeeded(num, base, precision, t), precision, t);
    Layout(p, SignText(num, t), IsoPrefix(mag, base, t), '0', IsoZeros(digits, base, precision, t), digits)
  }

  lemma NumeralDigitIs(v: nat, t: Flags)
    requires v < 36
    ensures NumeralDigit(v, t.large) == DigitChar(v, t)
  {
  }

  lemma {:induction false} NumeralIs(n: nat, base: nat, t: Flags)
    requires 2 <= base <= 36
    ensures Numeral(n, base, t.large) == Digits(n, base, t)
  {
    hide Quot, Rem, NumeralDigit, DigitChar;
    NumeralDigitIs(Rem(n, base), t);
    if n >= base { NumeralIs(Quot(n, base), base, t); }
  }

  lemma IsoTextIsLayout(num: int, base: nat, size: int, precision: int, t: Flags)
    requires 2 <= base <= 36
    ensures IsoText(num, base, size, precision, t) == IsoLayout(num, base, size, precision, t)
  {
    hide Numeral, Digits, SignText, IsoSign, IsoPrefix, IsoZeros;
    var mag := Magnitude(num, t);
    NumeralIs(mag, base, t);
    SignIs(num, t);
    var digits := IsoDigits(mag, base, precision, t);
    var room := size - IsoNeeded(num, base, precision, t);
    LayoutOneFill(IsoPadding(room, precision, t), IsoSign(num, t), IsoPrefix(mag, base, t),
                  IsoZeros(digits, base, precision, t), digits);
    FillNone(room);
  }

  lemma SignIs(num: int, t: Flags)
    ensures IsoSign(num, t) == SignText(num, t)
  {
  }

  lemma FillNone(n: int)
    ensures Fill(' ', n) == Fill(' ', Max(n, 0)) && Fill('0', n) == Fill('0', Max(n, 0))
  {
  }

  lemma LayoutOneFill(p: Padding, sign: string, prefix: string, zeros: nat, digits: string)
    ensures var text, number := Layout(p, sign, prefix, '0', zeros, digits), Fill('0', zeros) + digits;
      && (p.lead == 0 && p.fill == 0 ==> text == sign + prefix + number + Fill(' ', p.trail))
      && (p.lead == 0 && p.trail == 0 ==> text == sign + prefix + Fill('0', p.fill) + number)
      && (p.fill == 0 && p.trail == 0 ==> text == Fill(' ', p.lead) + (sign + prefix) + number)
  {
    hide Fill;
    var lead, fill, zs, trail := Fill(' ', p.lead), Fill('0', p.fill), Fill('0', zeros), Fill(' ', p.trail);
    NoFill();
    if p.lead == 0 && p.fill == 0 { assert lead + sign == sign && sign + prefix + fill == sign + prefix; }
    if p.lead == 0 && p.trail == 0 { assert lead + sign == sign; }
    if p.fill == 0 && p.trail == 0 { assert lead + sign + prefix + fill == lead + (sign + prefix); }
  }

  lemma NoFill()
    ensures forall c :: Fill(c, 0) == ""
  {
  }

  /** The number itself is longer than the standard has it: a zero under a precision of zero, a zero
      with a prefix, or an octal prefix before zeros that the precision gives anyway. */
  predicate TooLong(num: int, base: nat, precision: int, t: Flags)
    requires 2 <= base <= 36
  {
    var mag := Magnitude(num, t);
    || (mag == 0 && (precision == 0 || (t.special && base != 10)))
    || (t.special && base == 8 && precision > |Digits(mag, base, t)|)
  }

  /** When the printer parts from the standard: the number is too long, unless it is an octal zero that
      zero padding makes as long anyway, or zeros are filled in although there is a precision. */
  predicate Departs(num: int, base: nat, size: int, precision: int, t: Flags)
    requires 2 <= base <= 36
  {
    var needed := Needed(num, base, precision, t);
    if IsoZeropad(precision, t) then TooLong(num, base, precision, t) && (base == 16 || size < needed)
    else TooLong(num, base, precision, t) || (t.zeropad && !t.left && size > needed)
  }

  lemma {:induction false} FirstDigit(n: nat, base: nat, t: Flags)
    requires 2 <= base <= 36
    ensures Digits(n, base, t)[0] == '0' <==> n == 0
  {
    hide Quot, Rem, DigitChar;
    if n < base { ZeroChar(n, t); } else { FirstDigit(Quot(n, base), base, t); }
  }

  lemma ZeroChar(v: nat, t: Flags)
    requires v < 36
    ensures DigitChar(v, t) == '0' <==> v == 0
  {
  }

  /** The standard never needs more room, and less exactly where the number is too long. */
  lemma IsoNeedsLess(num: int, base: nat, precision: int, t: Flags)
    requires base in {8, 10, 16}
    ensures IsoNeeded(num, base, precision, t) <= Needed(num, base, precision, t)
    ensures IsoNeeded(num, base, precision, t) < Needed(num, base, precision, t) <==> TooLong(num, base, precision, t)
  {
    hide Digits, Magnitude, SignText;
    var mag := Magnitude(num, t);
    FirstDigit(mag, base, t);
    ZeroDigits(base, t);
  }

  lemma ZeroDigits(base: nat, t: Flags)
    requires 2 <= base <= 36
    ensures Digits(0, base, t) == "0"
  {
  }

  // ---- Blanks ----

  lemma {:induction false} BlanksOfFill(c: char, n: int)
    ensures Count(' ', Fill(c, n)) == if c == ' ' then Max(n, 0) else 0
    decreases n
  {
    if n > 0 {
      BlanksOfFill(c, n - 1);
      assert Fill(c, n)[1..] == Fill(c, n - 1);
    }
  }

  lemma BlanksOfLayout(p: Padding, sign: string, prefix: string, c: char, zeros: int, digits: string)
    requires ' ' !in prefix && ' ' !in digits
    ensures Count(' ', Layout(p, sign, prefix, c, zeros, digits))
         == p.lead + Count(' ', sign) + (if c == ' ' then p.fill else 0) + p.trail
  {
    hide Count, Fill;
    var lead, fill, zs, trail := Fill(' ', p.lead), Fill(c, p.fill), Fill('0', zeros), Fill(' ', p.trail);
    BlanksOfFill(' ', p.lead);
    BlanksOfFill(c, p.fill);
    BlanksOfFill('0', zeros);
    BlanksOfFill(' ', p.trail);
    CountConcat(' ', lead, sign);
    CountConcat(' ', lead + sign, prefix);
    CountConcat(' ', lead + sign + prefix, fill);
    CountConcat(' ', lead + sign + prefix + fill, zs);
    CountConcat(' ', lead + sign + prefix + fill + zs, digits);
    CountConcat(' ', lead + sign + prefix + fill + zs + digits, trail);
  }

  /** Length and number of blanks of the two texts. */
  lemma Measures(num: int, base: nat, size: int, precision: int, t: Flags)
    requires base in {8, 10, 16} && IsLong(size)
    requires size - Needed(num, base, precision, t) >= LONG_MIN + 2
    ensures var text, iso := NumberText(num, base, size, precision, t), IsoLayout(num, base, size, precision, t);
      var n, m := Needed(num, base, precision, t), IsoNeeded(num, base, precision, t);
      var signs := Count(' ', SignText(num, t));
      && |text| == Max(size, n) && |iso| == Max(size, m)
      && Count(' ', text) == signs + (if t.zeropad && !t.left then 0 else Max(size - n, 0))
      && Count(' ', iso) == signs + (if IsoZeropad(precision, t) then 0 else Max(size - m, 0))
  {
    hide Digits, Magnitude, SignText, PrefixText, ToLong, IsoZeros, Layout, Count;
    var mag := Magnitude(num, t);
    var digits, isoDigits := Digits(mag, base, t), IsoDigits(mag, base, precision, t);
    var sign, prefix := SignText(num, t), PrefixText(base, t);
    DigitsValue(mag, base, t);
    assert ' ' !in digits;
    NoBlankPrefix(base, t);
    ToLongSmall(size - Needed(num, base, precision, t));
    var p := PaddingOf(Room(num, base, size, precision, t), t);
    LayoutLength(p, sign, prefix, FillChar(t), precision - |digits|, digits);
    BlanksOfLayout(p, sign, prefix, FillChar(t), precision - |digits|, digits);
    var q := IsoPadding(size - IsoNeeded(num, base, precision, t), precision, t);
    var zeros := IsoZeros(isoDigits, base, precision, t);
    LayoutLength(q, sign, IsoPrefix(mag, base, t), '0', zeros, isoDigits);
    BlanksOfLayout(q, sign, IsoPrefix(mag, base, t), '0', zeros, isoDigits);
  }

  lemma NoBlankPrefix(base: nat, t: Flags)
    ensures ' ' !in PrefixText(base, t)
  {
  }

  // ---- Where the texts agree ----

  /** What the printer has between sign and digits is what the standard has there: the same pieces, or
      as many zeros. */
  lemma SameLayout(p: Padding, q: Padding, sign: string, prefix: string, prefix': string, c: char,
                   zeros: int, zeros': int, digits: string)
    requires p.lead == q.lead && p.trail == q.trail && (c == '0' || p.fill == 0)
    requires if prefix == prefix' then p.fill == q.fill && Max(zeros, 0) == Max(zeros', 0)
             else prefix == "0" && prefix' == "" && 1 + p.fill + Max(zeros, 0) == q.fill + Max(zeros', 0)
    ensures Layout(p, sign, prefix, c, zeros, digits) == Layout(q, sign, prefix', '0', zeros', digits)
  {
    var middle := prefix + Fill(c, p.fill) + Fill('0', zeros);
    assert middle == prefix' + Fill('0', q.fill) + Fill('0', zeros');
    Bracketed(Fill(' ', p.lead) + sign, prefix, Fill(c, p.fill), Fill('0', zeros));
    Bracketed(Fill(' ', q.lead) + sign, prefix', Fill('0', q.fill), Fill('0', zeros'));
  }

  lemma Bracketed(a: string, b: string, c: string, d: string)
    ensures a + b + c + d == a + (b + c + d)
  {
  }

  lemma Agrees(num: int, base: nat, size: int, precision: int, t: Flags)
    requires base in {8, 10, 16} && IsLong(size)
    requires size - Needed(num, base, precision, t) >= LONG_MIN + 2
    requires !Departs(num, base, size, precision, t)
    ensures NumberText(num, base, size, precision, t) == IsoLayout(num, base, size, precision, t)
  {
    hide Digits, Magnitude, SignText, ToLong, Layout;
    var mag := Magnitude(num, t);
    var digits := Digits(mag, base, t);
    FirstDigit(mag, base, t);
    ZeroDigits(base, t);
    ToLongSmall(size - Needed(num, base, precision, t));
    var p := PaddingOf(Room(num, base, size, precision, t), t);
    var q := IsoPadding(size - IsoNeeded(num, base, precision, t), precision, t);
    SameLayout(p, q, SignText(num, t), PrefixText(base, t), IsoPrefix(mag, base, t), FillChar(t),
               precision - |digits|, IsoZeros(digits, base, precision, t), digits);
  }

  /** A zero with a hexadecimal prefix has an x in it; the standard's text has none. */
  lemma HexZeroHasX(num: int, size: int, precision: int, t: Flags)
    requires t.special && Magnitude(num, t) == 0
    ensures NumberText(num, 16, size, precision, t) != IsoLayout(num, 16, size, precision, t)
  {
    var text, iso := NumberText(num, 16, size, precision, t), IsoLayout(num, 16, size, precision, t);
    var x := DigitChar(33, t);
    ZeroDigits(16, t);
    assert x in PrefixText(16, t) && x in text;
    assert x !in iso;
  }

  /** The printer prints d, i, o, u, x and X as the standard has it except where Departs says, wherever
      the spare room does not wrap. */
  lemma PrintsAsIso(num: int, base: nat, size: int, precision: int, t: Flags)
    requires base in {8, 10, 16} && IsLong(size)
    requires size - Needed(num, base, precision, t) >= LONG_MIN + 2
    ensures NumberText(num, base, size, precision, t) == IsoText(num, base, size, precision, t)
       <==> !Departs(num, base, size, precision, t)
  {
    hide NumberText, IsoText, IsoLayout, Needed, IsoNeeded, Digits, SignText, Magnitude, Count;
    IsoTextIsLayout(num, base, size, precision, t);
    if !Departs(num, base, size, precision, t) {
      Agrees(num, base, size, precision, t);
    } else if base == 16 && IsoZeropad(precision, t) {
      HexZeroHasX(num, size, precision, t);
    } else {
      Measures(num, base, size, precision, t);
      IsoNeedsLess(num, base, precision, t);
    }
  }

  /** An int or short argument, in two's complement: `range` is 2^32 or 2^16. */
  function IsoInt(v: int, range: nat, signed: bool): int
    requires range > 0
  {
    if signed then (v + range / 2) % range - range / 2 else v % range
  }

  /** The precision as the standard takes it: a negative argument stands for none. */
  function IsoPrecision(d: Vsprintf.Directive, args: seq<Vsprintf.Arg>): int
    requires d.Conversion? && Vsprintf.Suits(d, args)
  {
    match d.precision
    case Absent => -1
    case Given(n) => if n < 0 then 0 else n
    case FromArg =>
      var p := IsoInt(args[if d.width.FromArg? then 1 else 0].v, 0x1_0000_0000, true); if p < 0 then -1 else p
  }

  /** Flags and width: a negative argument stands for the - flag and its size. */
  function IsoWidth(d: Vsprintf.Directive, args: seq<Vsprintf.Arg>): (Flags, int)
    requires d.Conversion? && Vsprintf.Suits(d, args)
  {
    match d.width
    case Absent => (d.flags, 0)
    case Given(n) => (d.flags, n)
    case FromArg =>
      var w := IsoInt(args[0].v, 0x1_0000_0000, true); if w < 0 then (d.flags.(left := true), -w) else (d.flags, w)
  }

  /** What the standard has an integer directive print. */
  function IsoRender(d: Vsprintf.Directive, args: seq<Vsprintf.Arg>): string
    requires d.Conversion? && d.conv in "dioxXu" && Vsprintf.Suits(d, args)
  {
    var own := args[(if d.width.FromArg? then 1 else 0) + (if d.precision.FromArg? then 1 else 0)];
    var signed := d.conv == 'd' || d.conv == 'i';
    var num := IsoInt(own.v, if d.qualifier == 'h' then 0x1_0000 else 0x1_0000_0000, signed);
    var base := if d.conv == 'o' then 8 else if d.conv == 'x' || d.conv == 'X' then 16 else 10;
    var (t, width) := IsoWidth(d, args);
    IsoText(num, base, width, IsoPrecision(d, args), t.(sign := signed, large := d.conv == 'X'))
  }

  lemma ZeroPrecisionIsNone(num: int, base: nat, size: int, t: Flags)
    requires 2 <= base <= 36
    ensures NumberText(num, base, size, 0, t) == NumberText(num, base, size, -1, t)
    ensures Needed(num, base, 0, t) == Needed(num, base, -1, t)
  {
    hide Digits, Magnitude, ToLong, PaddingOf, SignText, PrefixText, FillChar;
    var digits := Digits(Magnitude(num, t), base, t);
    assert Fill('0', 0 - |digits|) == Fill('0', -1 - |digits|);
  }

  /** The same for integer directives, from the flags to the last argument. That vsprintf takes a
      negative precision argument for a precision of zero makes no difference. */
  lemma DirectivePrintsAsIso(d: Vsprintf.Directive, args: seq<Vsprintf.Arg>)
    requires d.Conversion? && d.conv in "dioxXu" && Vsprintf.Suits(d, args)
    requires var f := Vsprintf.FieldOf(d, args);
      IsLong(f.width) && f.width - Needed(f.num, f.base, f.precision, f.t) >= LONG_MIN + 2
    ensures var f := Vsprintf.FieldOf(d, args);
      Vsprintf.Render(d, args) == IsoRender(d, args)
      <==> !Departs(f.num, f.base, f.width, IsoPrecision(d, args), f.t)
  {
    hide NumberText, IsoText, Departs, Needed, Vsprintf.Render, Vsprintf.FieldOf, IsoRender;
    var f := Vsprintf.FieldOf(d, args);
    Vsprintf.IntRender(d, args);
    ZeroPrecisionIsNone(f.num, f.base, f.width, f.t);
    IsoRenderIs(d, args);
    PrintsAsIso(f.num, f.base, f.width, IsoPrecision(d, args), f.t);
  }

  /** The standard's reading of a directive is vsprintf's, but for the precision. */
  lemma IsoRenderIs(d: Vsprintf.Directive, args: seq<Vsprintf.Arg>)
    requires d.Conversion? && d.conv in "dioxXu" && Vsprintf.Suits(d, args)
    requires Vsprintf.FieldOf(d, args).width > LONG_MIN
    ensures var f, precision := Vsprintf.FieldOf(d, args), IsoPrecision(d, args);
      && IsoRender(d, args) == IsoText(f.num, f.base, f.width, precision, f.t)
      && (f.precision == precision || (f.precision == 0 && precision == -1))
  {
    hide IsoText, Vsprintf.IntOf, IsoInt, IsoWidth, Vsprintf.NumberOrArg, IsoPrecision, Vsprintf.PrecisionOf;
    var f, precision := Vsprintf.FieldOf(d, args), IsoPrecision(d, args);
    var own := args[Vsprintf.Fetches(d.width) + Vsprintf.Fetches(d.precision)];
    var num := IsoInt(own.v, if d.qualifier == 'h' then 0x1_0000 else 0x1_0000_0000, f.t.sign);
    IntIs(own.v, d.qualifier, f.t.sign);
    IsoAmounts(d, args);
    SameNumber(f.num, num, f.base, f.width, precision, f.t);
    NoWidth(num, f.base, precision, f.t);
  }

  lemma IsoAmounts(d: Vsprintf.Directive, args: seq<Vsprintf.Arg>)
    requires d.Conversion? && Vsprintf.Suits(d, args)
    requires Vsprintf.NumberOrArg(d.width, args, d.flags).1 > LONG_MIN
    ensures var (t, width) := Vsprintf.NumberOrArg(d.width, args, d.flags);
      IsoWidth(d, args) == (t, width) || (width == -1 && IsoWidth(d, args) == (t, 0))
    ensures var p, iso := Vsprintf.PrecisionOf(d, args), IsoPrecision(d, args);
      p == iso || (p == 0 && iso == -1)
  {
    hide IsoInt, ToLong, Vsprintf.SuitsConv;
    if d.width.FromArg? { IntIs(args[0].v, '\0', true); }
    if d.precision.FromArg? { IntIs(args[Vsprintf.Fetches(d.width)].v, '\0', true); }
  }

  lemma IntIs(v: int, qualifier: char, signed: bool)
    ensures var r := Vsprintf.IntOf(v, qualifier, signed);
      var iso := IsoInt(v, if qualifier == 'h' then 0x1_0000 else 0x1_0000_0000, signed);
      && (signed ==> r == iso) && ToUlong(r) == ToUlong(iso)
      && (qualifier != 'h' ==> r == ToLong(v))
      && (signed && iso < 0 ==> ToLong(-iso) == if iso == LONG_MIN then LONG_MIN else -iso)
  {
  }

  lemma SameNumber(num: int, num': int, base: nat, width: int, precision: int, t: Flags)
    requires 2 <= base <= 36 && (t.sign ==> num == num') && ToUlong(num) == ToUlong(num')
    ensures IsoText(num, base, width, precision, t) == IsoText(num', base, width, precision, t)
  {
  }

  lemma NoWidth(num: int, base: nat, precision: int, t: Flags)
    requires 2 <= base <= 36
    ensures IsoText(num, base, -1, precision, t) == IsoText(num, base, 0, precision, t)
  {
    hide Numeral, IsoSign, IsoPrefix, IsoZeros;
  }

  // ---- Section 7.21.6.1: c and s ----

  /** A text in its field. */
  function IsoField(text: string, width: int, left: bool): string {
    if left then text + Fill(' ', width - |text|) else Fill(' ', width - |text|) + text
  }

  /** A character is printed as the standard has it unless a width that was written out has wrapped
      next to LONG_MIN. */
  lemma CharPrintsAsIso(d: Vsprintf.Directive, args: seq<Vsprintf.Arg>)
    requires d.Conversion? && d.conv == 'c' && Vsprintf.Suits(d, args) && (d.width.Given? ==> IsLong(d.width.n))
    ensures var own := args[(if d.width.FromArg? then 1 else 0) + (if d.precision.FromArg? then 1 else 0)];
      var (t, width) := IsoWidth(d, args);
      Vsprintf.Render(d, args) == IsoField([(own.v % 256) as char], width, t.left)
      <==> (d.width.Given? ==> width > LONG_MIN + if t.left then 0 else 1)
  {
    hide ToLong, IsoInt, IsoField, IsoPrecision, Vsprintf.PrecisionOf, Vsprintf.CharText, Vsprintf.Render;
    var own := args[Vsprintf.Fetches(d.width) + Vsprintf.Fetches(d.precision)];
    if d.width.FromArg? { IntIs(args[0].v, '\0', true); }
    var (t, width) := Vsprintf.NumberOrArg(d.width, args, d.flags);
    CharRender(d, args);
    CharField(own.v, width, t);
  }

  lemma CharRender(d: Vsprintf.Directive, args: seq<Vsprintf.Arg>)
    requires d.Conversion? && d.conv == 'c' && Vsprintf.Suits(d, args)
    ensures var own := args[Vsprintf.Fetches(d.width) + Vsprintf.Fetches(d.precision)];
      var (t, width) := Vsprintf.NumberOrArg(d.width, args, d.flags);
      own.Word? && Vsprintf.Render(d, args) == Vsprintf.CharText(own.v, width, t)
  {
    hide ToLong, Vsprintf.CharText, Vsprintf.PrecisionOf, Vsprintf.NumberOrArg;
  }

  lemma CharField(v: int, width: int, t: Flags)
    requires IsLong(width)
    ensures var c := [(v % 256) as char];
      && (Vsprintf.CharText(v, width, t) == IsoField(c, width, t.left) <==> width > LONG_MIN + if t.left then 0 else 1)
      && (t.left && width == LONG_MIN ==> Vsprintf.CharText(v, width, t) == IsoField(c, -width, true))
      && IsoField(c, 0, t.left) == IsoField(c, -1, t.left)
  {
  }

  /** A string, cut to its precision, is printed as the standard has it, <NULL> for the null pointer.
      Only a negative precision argument, which the standard takes for none, cuts everything off. */
  lemma StringPrintsAsIso(d: Vsprintf.Directive, args: seq<Vsprintf.Arg>)
    requires d.Conversion? && d.conv == 's' && Vsprintf.Suits(d, args) && (d.width.Given? ==> IsLong(d.width.n))
    requires d.precision.Given? ==> IsLong(d.precision.n)
    requires Vsprintf.NumberOrArg(d.width, args, d.flags).1 > LONG_MIN
    ensures var own := args[(if d.width.FromArg? then 1 else 0) + (if d.precision.FromArg? then 1 else 0)];
      var whole := if own.s == None then "<NULL>" else own.s.value;
      var precision, (t, width) := IsoPrecision(d, args), IsoWidth(d, args);
      var part := if 0 <= precision < |whole| then whole[..precision] else whole;
      |whole| <= LONG_MAX ==>
        (Vsprintf.Render(d, args) == IsoField(part, width, t.left)
         <==> (d.precision.FromArg? && precision < 0 ==> |whole| <= Max(width, 0) && RoundTrip.All(' ', whole)))
  {
    hide ToLong, IsoInt, IsoField, IsoWidth, IsoPrecision, Vsprintf.StringText, Vsprintf.NumberOrArg, Vsprintf.PrecisionOf;
    var own := args[Vsprintf.Fetches(d.width) + Vsprintf.Fetches(d.precision)];
    IsoAmounts(d, args);
    PrecisionFits(d, args);
    var (t, width) := Vsprintf.NumberOrArg(d.width, args, d.flags);
    var whole := if own.s == None then "<NULL>" else own.s.value;
    if |whole| <= LONG_MAX {
      var p := Vsprintf.PrecisionOf(d, args);
      StringField(own.s, whole, width, p, t);
      CutOff(whole, width, t.left);
      NoWidthField("", t.left);
      NoWidthField(whole, t.left);
      NoWidthField(if 0 <= p < |whole| then whole[..p] else whole, t.left);
    }
  }

  lemma PrecisionFits(d: Vsprintf.Directive, args: seq<Vsprintf.Arg>)
    requires d.Conversion? && Vsprintf.Suits(d, args) && (d.precision.Given? ==> IsLong(d.precision.n))
    ensures var p, iso := Vsprintf.PrecisionOf(d, args), IsoPrecision(d, args);
      p <= LONG_MAX && (iso != p <==> d.precision.FromArg? && iso < 0)
    ensures (d.width.Given? ==> IsLong(d.width.n)) ==> IsLong(Vsprintf.NumberOrArg(d.width, args, d.flags).1)
  {
    hide IsoInt, ToLong;
    if d.precision.FromArg? { IntIs(args[Vsprintf.Fetches(d.width)].v, '\0', true); }
  }

  lemma NoWidthField(text: string, left: bool)
    ensures IsoField(text, 0, left) == IsoField(text, -1, left)
  {
  }

  lemma CutIs(whole: string, precision: int)
    requires -1 <= precision <= LONG_MAX && |whole| <= LONG_MAX
    ensures Vsprintf.Cut(whole, precision) == if 0 <= precision < |whole| then precision else |whole|
  {
    assert ToUlong(precision) == if precision == -1 then ULONG_MAX else precision;
    hide ToUlong;
    ToLongSmall(if 0 <= precision < |whole| then precision else |whole|);
  }

  lemma StringField(s: Option<string>, whole: string, width: int, precision: int, t: Flags)
    requires LONG_MIN < width <= LONG_MAX && -1 <= precision <= LONG_MAX && |whole| <= LONG_MAX
    requires whole == if s == None then "<NULL>" else s.value
    ensures var part := if 0 <= precision < |whole| then whole[..precision] else whole;
      Vsprintf.StringText(s, width, precision, t) == IsoField(part, width, t.left)
  {
    hide Fill, ToLong, Vsprintf.Cut, Vsprintf.TextOf, Vsprintf.DropTo;
    TextIs(s);
    CutIs(whole, precision);
    var len := Vsprintf.Cut(whole, precision);
    var part := whole[..len];
    assert part == if 0 <= precision < |whole| then whole[..precision] else whole;
    DropIs(width, len);
    NoFillBelow(' ', if t.left then 0 else Vsprintf.DropTo(width, len) - len);
    NoFillBelow(' ', 0);
    if t.left {
      assert "" + part == part;
    } else {
      assert Fill(' ', width - len) + part + "" == Fill(' ', width - len) + part;
    }
  }

  lemma TextIs(s: Option<string>)
    ensures Vsprintf.TextOf(s) == if s == None then "<NULL>" else s.value
  {
  }

  lemma DropIs(width: int, len: int)
    requires LONG_MIN < width <= LONG_MAX && 0 <= len <= LONG_MAX
    ensures Vsprintf.DropTo(width, len) == (if width > len then len else width) - 1
  {
    ToLongSmall((if width > len then len else width) - 1);
  }

  lemma NoFillBelow(c: char, n: int)
    ensures n <= 0 ==> Fill(c, n) == ""
  {
  }

  lemma CutOff(whole: string, width: int, left: bool)
    ensures IsoField("", width, left) == IsoField(whole, width, left)
       <==> |whole| <= Max(width, 0) && RoundTrip.All(' ', whole)
  {
    var blank, text := IsoField("", width, left), IsoField(whole, width, left);
    var room := Max(width - |whole|, 0);
    assert forall i :: 0 <= i < |blank| ==> blank[i] == ' ';
    assert forall i :: 0 <= i < |whole| ==> whole[i] == text[if left then i else i + room];
    if |whole| <= Max(width, 0) && RoundTrip.All(' ', whole) {
      assert |text| == |blank| && forall i :: 0 <= i < |text| ==> text[i] == ' ';
    }
  }

  /** `%.*s` of -1 and a string prints nothing, in the standard the string. */
  lemma NegativePrecisionDeparts(d: Vsprintf.Directive, args: seq<Vsprintf.Arg>)
    requires d == Vsprintf.Conversion(Vsprintf.NO_FLAGS, Vsprintf.Absent, Vsprintf.FromArg, '\0', 's')
    requires args == [Vsprintf.Word(-1), Vsprintf.Text(Some("ab"))]
    ensures Vsprintf.Suits(d, args) && Vsprintf.Render(d, args) == "" && IsoPrecision(d, args) == -1
  {
    assert args[1..][0] == args[1];
  }

  // One input for each way of an integer directive to depart.

  /** `%#x`, `%#o` and `%.0d` of 0. */
  lemma ZeroDeparts(t: Flags)
    requires t == Vsprintf.NO_FLAGS
    ensures var s := t.(special := true);
      && NumberText(0, 16, -1, -1, s) == "0x0" && IsoText(0, 16, -1, -1, s) == "0"
      && NumberText(0, 8, -1, -1, s) == "00" && IsoText(0, 8, -1, -1, s) == "0"
    ensures var d := t.(sign := true);
      NumberText(0, 10, -1, 0, d) == "0" && IsoText(0, 10, -1, 0, d) == ""
  {
    hide Digits;
    ZeroDigits(16, t.(special := true));
    ZeroDigits(8, t.(special := true));
    ZeroDigits(10, t.(sign := true));
  }

  /** `%#.3o` of 8. */
  lemma OctalDeparts(t: Flags)
    requires t == Vsprintf.NO_FLAGS.(special := true)
    ensures NumberText(8, 8, -1, 3, t) == "0010" && IsoText(8, 8, -1, 3, t) == "010"
  {
    assert Digits(8, 8, t) == "10" by { assert Digits(1, 8, t) == "1"; }
    hide Digits;
  }

  /** `%05.3d` of 7. */
  lemma ZeroFillDeparts(t: Flags)
    requires t == Vsprintf.NO_FLAGS.(sign := true, zeropad := true)
    ensures NumberText(7, 10, 5, 3, t) == "00007" && IsoText(7, 10, 5, 3, t) == "  007"
  {
    assert Digits(7, 10, t) == "7";
    hide Digits;
  }
}
