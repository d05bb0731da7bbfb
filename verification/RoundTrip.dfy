/** What util/vsprintf.c prints, util/strtol.c and util/STRTOUL.C read back. */
module RoundTrip {
  import opened CStrings
  import opened Numerals
  import Strtol
  import opened NumberFormat

  /** The pieces a parser sees: blanks, sign, 0x, digits, and what stops it. */
  datatype Shape = Shape(lead: string, sign: string, hex: string, digits: string, tail: string) {
    function Text(): string { lead + sign + hex + digits + tail }

    predicate Valid(base: nat) {
      && 2 <= base <= 36
      && (forall i :: 0 <= i < |lead| ==> IsSpace(lead[i]))
      && (sign == "" || sign == "-" || sign == "+")
      && (hex == "" || (base == 16 && (hex == "0x" || hex == "0X")))
      && digits != "" && (forall i :: 0 <= i < |digits| ==> DigitOf(digits[i]) < base)
      && (tail == "" || (DigitOf(tail[0]) >= base && tail[0] != 'x' && tail[0] != 'X'))
    }
  }

  /** The radix given to the parser leads to the base of the shape. */
  predicate RadixFits(radix: int, base: nat, s: Shape) {
    radix == base ||
    (radix == 0 && (s.hex != "" || (s.digits != "" && base == if s.digits[0] == '0' then 8 else 10)))
  }

  lemma BlanksAre(s: string, i: nat, j: nat)
    requires i <= j <= |s| && forall k :: i <= k < j ==> IsSpace(s[k])
    requires j < |s| ==> !IsSpace(s[j])
    ensures Strtol.SkipBlanks(s, i) == j
    decreases j - i
  {
    if i < j { BlanksAre(s, i + 1, j); }
  }

  /** Where the pieces lie in the text. */
  lemma Pieces(s: Shape)
    ensures var text, a := s.Text(), |s.lead|;
      var b := a + |s.sign|; var c := b + |s.hex|; var d := c + |s.digits|;
      && |text| == d + |s.tail|
      && text[..a] == s.lead && text[a..b] == s.sign && text[b..c] == s.hex && text[c..d] == s.digits && text[d..] == s.tail
  {
  }

  lemma SliceAt(text: string, a: nat, b: nat, k: nat)
    requires a <= k < b <= |text|
    ensures text[k] == text[a..b][k - a]
  {
  }

  lemma HexFound(s: Shape, base: nat, radix: int)
    requires s.Valid(base) && RadixFits(radix, base, s)
    ensures var b := |s.lead| + |s.sign|;
      b < |s.Text()| && (Strtol.HasHexPrefix(s.Text(), b, radix) <==> s.hex != "")
  {
    var text := s.Text();
    var b := |s.lead| + |s.sign|;
    Pieces(s);
    if s.hex != "" {
      SliceAt(text, b, b + 2, b);
      SliceAt(text, b, b + 2, b + 1);
    } else if b + 1 < |text| {
      var d := b + |s.digits|;
      if b + 1 < d { SliceAt(text, b, d, b + 1); } else { assert text[b + 1] == s.tail[0]; }
    }
  }

  /** What is read of a text that has blanks up to `a`, a sign up to `b`, 0x up to `c`, and digits,
      or none, up to `d`. */
  lemma ReadPieces(text: string, a: nat, b: nat, c: nat, d: nat, base: nat, radix: int)
    requires a <= b <= c <= d <= |text| && c < |text| && 2 <= base <= 36
    requires (forall k :: 0 <= k < a ==> IsSpace(text[k])) && !IsSpace(text[a])
    requires b == if Strtol.IsSign(text[a]) then a + 1 else a
    requires c == if Strtol.HasHexPrefix(text, b, radix) then b + 2 else b
    requires if c > b then base == 16 else radix == base || (radix == 0 && base == if text[b] == '0' then 8 else 10)
    requires forall k :: c <= k < d ==> DigitOf(text[k]) < base
    requires d < |text| ==> DigitOf(text[d]) >= base
    ensures Strtol.Read(text, radix) == Strtol.Reading(text[a] == '-', base, c, d)
  {
    hide RunEnd, Strtol.SkipBlanks, Strtol.HasHexPrefix;
    BlanksAre(text, 0, a);
    RunEndIs(text, c, d, base);
  }

  /** The parser finds the pieces where they are. */
  lemma ReadShape(s: Shape, base: nat, radix: int)
    requires s.Valid(base) && RadixFits(radix, base, s)
    ensures var from := |s.lead| + |s.sign| + |s.hex|;
      Strtol.Read(s.Text(), radix) == Strtol.Reading(s.sign == "-", base, from, from + |s.digits|)
  {
    var text := s.Text();
    hide Strtol.HasHexPrefix, Strtol.Read, Shape.Text;
    var a := |s.lead|;
    var b := a + |s.sign|;
    var c := b + |s.hex|;
    var d := c + |s.digits|;
    Pieces(s);
    HexFound(s, base, radix);
    forall k | c <= k < d ensures DigitOf(text[k]) < base { SliceAt(text, c, d, k); }
    if s.hex != "" { SliceAt(text, b, c, b); } else { SliceAt(text, c, d, c); }
    if s.sign != "" { SliceAt(text, a, b, a); }
    forall k | 0 <= k < a ensures IsSpace(text[k]) { SliceAt(text, 0, a, k); }
    if d < |text| { assert text[d] == s.tail[0]; }
    ReadPieces(text, a, b, c, d, base, radix);
  }

  /** The value of the digits, leading zeros and all. */
  lemma ShapeValue(s: Shape, base: nat, radix: int)
    requires s.Valid(base) && RadixFits(radix, base, s)
    ensures var r := Strtol.Read(s.Text(), radix);
      r.IsValid() && Strtol.Magnitude(s.Text(), r) == Value(s.digits, base)
  {
    ReadShape(s, base, radix);
    var r := Strtol.Read(s.Text(), radix);
    assert s.Text()[r.from..r.upto] == s.digits;
  }

  /** The spare room has wrapped so that blanks come between sign or prefix and the digits. */
  ghost predicate Splits(num: int, base: nat, size: int, precision: int, t: Flags)
    requires 2 <= base <= 36
  {
    && !t.left && !t.zeropad && Room(num, base, size, precision, t) == LONG_MIN
    && (PrefixText(base, t) != "" || SignText(num, t) == "-" || SignText(num, t) == "+")
  }

  /** The shape of what `number` prints, unless blanks split it. */
  lemma PrintedShape(num: int, base: nat, size: int, precision: int, t: Flags) returns (s: Shape)
    requires IsLong(num) && 2 <= base <= 36 && !Splits(num, base, size, precision, t)
    ensures s.Valid(base) && All(' ', s.tail) && s.Text() == NumberText(num, base, size, precision, t)
    ensures (s.sign == "-") == (t.sign && num < 0)
    ensures Value(s.digits, base) == Magnitude(num, t)
    ensures t.special && base == 16 ==> s.hex != ""
    ensures t.special && base == 8 ==> "0" <= s.digits
  {
    hide Digits, Value, DigitOf, Magnitude, SignText, PrefixText, PaddingOf, Room;
    var digits := Digits(Magnitude(num, t), base, t);
    DigitsValue(Magnitude(num, t), base, t);
    SignAndPrefix(num, base, t);
    var p := PaddingOf(Room(num, base, size, precision, t), t);
    FilledWithBlanks(Room(num, base, size, precision, t), t);
    var lead, fill, zeros := Fill(' ', p.lead), Fill(FillChar(t), p.fill), Fill('0', precision - |digits|);
    var lead', sign', hex, zs := Front(lead, SignText(num, t), PrefixText(base, t), fill, zeros, fill != "" && FillChar(t) == ' ');
    s := Shape(lead', sign', hex, zs + digits, Fill(' ', p.trail));
    Regroup(lead + SignText(num, t) + PrefixText(base, t) + fill + zeros, digits, s.tail, lead', sign', hex, zs);
    ZerosThenDigits(zs, digits, base);
    BlankIsNoDigit();
  }

  lemma BlankIsNoDigit()
    ensures DigitOf(' ') == 36
  {
  }

  ghost predicate All(c: char, s: string) { forall i :: 0 <= i < |s| ==> s[i] == c }

  /** What comes before the digits, as a parser sees it: a blank for a sign, and a fill of blanks, are
      leading blanks; the prefix 0, and a fill of zeros, are digits. */
  lemma Front(lead: string, sign: string, prefix: string, fill: string, zeros: string, blank: bool)
    returns (lead': string, sign': string, hex: string, zs: string)
    requires All(' ', lead) && All('0', zeros) && All(if blank then ' ' else '0', fill)
    requires sign in {"", " ", "+", "-"} && prefix in {"", "0", "0x", "0X"}
    requires blank ==> prefix == "" && sign != "+" && sign != "-"
    ensures lead' + sign' + hex + zs == lead + sign + prefix + fill + zeros
    ensures All(' ', lead') && sign' in {"", "+", "-"} && hex in {"", "0x", "0X"} && All('0', zs)
    ensures (sign' == "-") == (sign == "-")
    ensures prefix == "0" ==> zs != ""
    ensures prefix == "0x" || prefix == "0X" ==> hex == prefix
    ensures hex == "" || hex == prefix
  {
    if blank {
      lead', sign', hex, zs := lead + sign + fill, "", "", zeros;
      assert lead + sign + prefix == lead + sign;
    } else {
      lead', sign' := if sign == " " then lead + sign else lead, if sign == " " then "" else sign;
      hex, zs := if prefix == "0" then "" else prefix, if prefix == "0" then prefix + fill + zeros else fill + zeros;
      Reassociate(lead', sign', hex, zs, lead, sign, prefix, fill, zeros);
    }
  }

  lemma Reassociate(lead': string, sign': string, hex: string, zs: string,
                    lead: string, sign: string, prefix: string, fill: string, zeros: string)
    requires lead' + sign' == lead + sign && hex + zs == prefix + fill + zeros
    ensures lead' + sign' + hex + zs == lead + sign + prefix + fill + zeros
  {
    assert lead' + sign' + hex + zs == (lead' + sign') + (hex + zs);
    assert lead + sign + prefix + fill + zeros == (lead + sign) + (prefix + fill + zeros);
  }

  lemma FilledWithBlanks(room: int, t: Flags)
    ensures PaddingOf(room, t).fill > 0 && FillChar(t) == ' ' ==> !t.left && !t.zeropad && room == LONG_MIN
  {
  }

  lemma Regroup(front: string, digits: string, tail: string, lead: string, sign: string, hex: string, zs: string)
    requires lead + sign + hex + zs == front
    ensures lead + sign + hex + (zs + digits) + tail == front + digits + tail
  {
    assert lead + sign + hex + (zs + digits) == (lead + sign + hex + zs) + digits;
  }

  lemma ZerosThenDigits(zs: string, digits: string, base: nat)
    requires base >= 2 && forall i :: 0 <= i < |zs| ==> zs[i] == '0'
    requires forall i :: 0 <= i < |digits| ==> DigitOf(digits[i]) < base
    ensures forall i :: 0 <= i < |zs + digits| ==> DigitOf((zs + digits)[i]) < base
    ensures Value(zs + digits, base) == Value(digits, base)
  {
    LeadingZeros(zs, digits, base);
  }

  lemma SignAndPrefix(num: int, base: nat, t: Flags)
    ensures SignText(num, t) in {"", " ", "+", "-"}
    ensures (SignText(num, t) == "-") == (t.sign && num < 0)
    ensures PrefixText(base, t) ==
            if !t.special then "" else if base == 8 then "0" else if base != 16 then "" else if t.large then "0X" else "0x"
  {
  }

  lemma SignedBack(num: int, t: Flags)
    requires IsLong(num)
    ensures var n := Strtol.Signed(t.sign && num < 0, Magnitude(num, t));
      (t.sign ==> n == num) && ToUlong(n) == ToUlong(num) && Magnitude(num, t) <= ULONG_MAX
  {
  }

  /** The parsers, given `radix`, read `text` as `num`: strtol if it was printed as a signed number,
      strtoul modulo 2^32; both stop just after the last digit, before nothing but blanks. */
  ghost predicate ReadsBack(text: string, radix: int, num: int, base: nat, signed: bool) {
    var stop := Strtol.Stop(Strtol.Read(text, radix));
    && (signed ==> Strtol.LongOf(text, radix) == num)
    && Strtol.UlongOf(text, radix) == ToUlong(num)
    && 0 < stop <= |text| && DigitOf(text[stop - 1]) < base
    && forall k :: stop <= k < |text| ==> text[k] == ' '
  }

  /** The base is given to the parser, or left to the 0x or 0 of the # flag. */
  predicate RadixLeadsTo(radix: int, base: nat, t: Flags) {
    radix == base || (radix == 0 && t.special && (base == 8 || base == 16))
  }

  /** Print, then parse, is the identity: for every long, base, width, precision and mix of flags,
      LONG_MIN included, exactly when blanks do not split the number. */
  lemma PrintThenParse(num: int, base: nat, size: int, precision: int, t: Flags, radix: int)
    requires IsLong(num) && 2 <= base <= 36 && RadixLeadsTo(radix, base, t)
    ensures ReadsBack(NumberText(num, base, size, precision, t), radix, num, base, t.sign)
       <==> !Splits(num, base, size, precision, t)
  {
    hide NumberText, Magnitude, ToUlong, Strtol.Read, Value, DigitOf, Splits;
    if Splits(num, base, size, precision, t) {
      SplitIsNotRead(num, base, size, precision, t, radix);
    } else {
      var s := PrintedShape(num, base, size, precision, t);
      ReadShape(s, base, radix);
      ShapeValue(s, base, radix);
      SignedBack(num, t);
      var stop := |s.lead| + |s.sign| + |s.hex| + |s.digits|;
      assert s.Text()[stop - 1] == s.digits[|s.digits| - 1];
      assert forall k :: stop <= k < |s.Text()| ==> s.Text()[k] == s.tail[k - stop];
    }
  }

  /** The spare room does not wrap for widths and precisions that number is called with in earnest. */
  lemma OrdinaryFieldsDoNotSplit(num: int, base: nat, size: int, precision: int, t: Flags)
    requires IsLong(num) && 2 <= base <= 36 && -1 <= size <= LONG_MAX && precision < LONG_MAX - 3
    ensures !Splits(num, base, size, precision, t)
  {
    hide Digits, Magnitude;
    Negated(num, t);
    LongDigitsFit(Magnitude(num, t), base, t);
    SignAndPrefix(num, base, t);
    ToLongSmall(size - Needed(num, base, precision, t));
  }

  /** What is split begins with blanks, sign and prefix, and ends with a digit after more blanks. */
  lemma SplitText(num: int, base: nat, size: int, precision: int, t: Flags)
    requires IsLong(num) && 2 <= base <= 36 && Splits(num, base, size, precision, t)
    ensures var text := NumberText(num, base, size, precision, t);
      var front := SignText(num, t) + PrefixText(base, t);
      && |front| + 1 < |text| && text[..|front|] == front && text[|front|] == ' '
      && DigitOf(text[|text| - 1]) < base
  {
    hide Digits, DigitOf, SignText, PrefixText;
    var digits := Digits(Magnitude(num, t), base, t);
    DigitsValue(Magnitude(num, t), base, t);
    var text, front := NumberText(num, base, size, precision, t), SignText(num, t) + PrefixText(base, t);
    var rest := Fill(' ', LONG_MAX) + Fill('0', precision - |digits|) + digits;
    assert text == front + rest;
    assert rest[|rest| - 1] == digits[|digits| - 1];
  }

  /** A parser stops at the blanks after sign and prefix, and has read no digit or the prefix 0. */
  lemma SplitIsNotRead(num: int, base: nat, size: int, precision: int, t: Flags, radix: int)
    requires IsLong(num) && 2 <= base <= 36 && RadixLeadsTo(radix, base, t) && Splits(num, base, size, precision, t)
    ensures !ReadsBack(NumberText(num, base, size, precision, t), radix, num, base, t.sign)
  {
    hide NumberText, Strtol.Read, Magnitude;
    SplitText(num, base, size, precision, t);
    SignAndPrefix(num, base, t);
    var text := NumberText(num, base, size, precision, t);
    var sign, prefix := SignText(num, t), PrefixText(base, t);
    var front := sign + prefix;
    assert forall k :: 0 <= k < |front| ==> text[k] == front[k];
    var a := if sign == " " then 1 else 0;
    var b := |sign|;
    if prefix == "0" {
      ReadPieces(text, a, b, b, b + 1, base, radix);
    } else {
      ReadPieces(text, a, b, |front|, |front|, base, radix);
    }
    assert text[|text| - 1] != ' ';
  }
}
