/** What strtol, strtoul and atol read, in characters and for numerals of any length. */
module StrtolLaws {
  import opened CStrings
  import opened Numerals
  import opened Strtol
  import IsoC
  import NumberFormat
  import RoundTrip

  /** White space of the C locale. */
  predicate IsWhite(c: char) {
    c == ' ' || c == '\t' || c == '\n' || c == '\r' || c == 11 as char || c == 12 as char
  }

  ghost predicate AllWhite(s: string) { forall i :: 0 <= i < |s| ==> IsWhite(s[i]) }

  ghost predicate AllDigits(ds: string, base: nat) { forall i :: 0 <= i < |ds| ==> DigitOf(ds[i]) < base }

  ghost predicate AllTabs(s: string) { forall i :: 0 <= i < |s| ==> s[i] == ' ' || s[i] == '\t' }

  /** What follows a numeral and does not go on with it. */
  predicate EndsNumeral(tail: string, base: nat) {
    tail == "" || (DigitOf(tail[0]) >= base && tail[0] != 'x' && tail[0] != 'X')
  }

  /** strtol saturates at the limits of a 32-bit long and strtoul at 2^32 - 1, negating modulo 2^32;
      white space, one sign and a 0x are passed over, and both stop just after the digits. That is so
      for digits of any number, in every base, and with a radix of 0 by the prefix. */
  lemma ReadsNumeral(lead: string, sign: string, hex: string, ds: string, tail: string, base: nat, radix: int)
    requires AllWhite(lead) && sign in {"", "-", "+"} && 2 <= base <= 36
    requires ds != "" && AllDigits(ds, base) && EndsNumeral(tail, base)
    requires hex == "" || (base == 16 && hex in {"0x", "0X"})
    requires radix == base || (radix == 0 && base == if hex != "" then 16 else if ds[0] == '0' then 8 else 10)
    ensures var text, n := lead + sign + hex + ds + tail, Value(ds, base);
      && Stop(Read(text, radix)) == |lead| + |sign| + |hex| + |ds|
      && LongOf(text, radix) == (if sign == "-" then (if n > 0x8000_0000 then -0x8000_0000 else 0 - n)
                                 else if n > 0x7fff_ffff then 0x7fff_ffff else n)
      && UlongOf(text, radix) == (if n > 0xffff_ffff then 0xffff_ffff
                                  else if sign == "-" && n > 0 then 0x1_0000_0000 - n else n)
  {
    hide Read, Value, DigitOf, IsWhite, Clamp, Signed, ToUlong, AllWhite, AllDigits, EndsNumeral;
    var s := RoundTrip.Shape(lead, sign, hex, ds, tail);
    ShapeIsValid(s, base);
    RoundTrip.ReadShape(s, base, radix);
    RoundTrip.ShapeValue(s, base, radix);
    Limits(sign == "-", Value(ds, base));
  }

  lemma ShapeIsValid(s: RoundTrip.Shape, base: nat)
    requires AllWhite(s.lead) && s.sign in {"", "-", "+"} && 2 <= base <= 36
    requires s.digits != "" && AllDigits(s.digits, base) && EndsNumeral(s.tail, base)
    requires s.hex == "" || (base == 16 && s.hex in {"0x", "0X"})
    ensures s.Valid(base)
  {
    hide DigitOf;
  }

  lemma Limits(neg: bool, n: nat)
    ensures Clamp(Signed(neg, n)) == if neg then (if n > 0x8000_0000 then -0x8000_0000 else 0 - n)
                                     else if n > 0x7fff_ffff then 0x7fff_ffff else n
    ensures n <= 0xffff_ffff ==> ToUlong(Signed(neg, n)) == if neg && n > 0 then 0x1_0000_0000 - n else n
  {
  }

  /** The digits 0 to 9, a to z and A to Z have the values 0 to 35, and a numeral is read as the number
      it was made from. */
  lemma NumeralValue(n: nat, base: nat, upper: bool)
    requires 2 <= base <= 36
    ensures Value(IsoC.Numeral(n, base, upper), base) == n && AllDigits(IsoC.Numeral(n, base, upper), base)
  {
    var t := NumberFormat.Flags(false, false, false, false, false, false, upper);
    IsoC.NumeralIs(n, base, t);
    NumberFormat.DigitsValue(n, base, t);
  }

  /** Without a digit there is no number: the end pointer is the start. */
  lemma NoNumeral(lead: string, sign: string, tail: string, radix: int)
    requires AllWhite(lead) && sign in {"", "-", "+"} && (radix == 0 || 2 <= radix <= 36)
    requires EndsNumeral(tail, if radix == 0 then 10 else radix)
    requires sign == "" && tail != "" ==> !IsWhite(tail[0]) && tail[0] != '-' && tail[0] != '+'
    ensures var text := lead + sign + tail;
      Stop(Read(text, radix)) == 0 && LongOf(text, radix) == 0 && UlongOf(text, radix) == 0
  {
    hide Read, AllWhite, IsWhite, DigitOf;
    NoDigits();
    HeadIsRead(lead, sign, tail);
    TailIs(lead + sign, tail);
    NothingIsRead(lead + sign + tail, |lead|, |lead| + |sign|, radix);
  }

  lemma NothingIsRead(text: string, a: nat, b: nat, radix: int)
    requires a <= b <= |text| && SkipBlanks(text, 0) == a && (radix == 0 || 2 <= radix <= 36)
    requires b == if IsSign(At(text, a)) then a + 1 else a
    requires b < |text| ==> DigitOf(text[b]) >= if radix == 0 then 10 else radix
    ensures Stop(Read(text, radix)) == 0 && LongOf(text, radix) == 0 && UlongOf(text, radix) == 0
  {
    var base := if radix == 0 then 10 else radix;
    assert At(text, b) != '0';
    RunEndIs(text, b, b, base);
    EmptyRun(text, b, base);
    hide RunEnd, Value, DigitOf, SkipBlanks;
    assert Read(text, radix) == Reading(At(text, a) == '-', base, b, b);
  }

  lemma TailIs(front: string, tail: string)
    ensures At(front + tail, |front|) == At(tail, 0) && |front| <= |front + tail|
  {
  }

  /** A radix that is none makes every number 0. */
  lemma BadRadix(text: string, radix: int)
    requires radix < 0 || radix == 1 || radix > 36
    ensures LongOf(text, radix) == 0 && UlongOf(text, radix) == 0 && Stop(Read(text, radix)) == IsoC.Start(text)
  {
  }

  /** Where blanks and sign end. */
  lemma HeadIsRead(lead: string, sign: string, rest: string)
    requires AllWhite(lead) && sign in {"", "-", "+"}
    requires sign == "" && rest != "" ==> !IsWhite(rest[0])
    ensures var text := lead + sign + rest;
      SkipBlanks(text, 0) == |lead| && At(text, |lead|) == if sign == "" then At(rest, 0) else sign[0]
  {
    var text := lead + sign + rest;
    var a := |lead|;
    assert text == lead + (sign + rest);
    forall k | 0 <= k < a ensures IsSpace(text[k]) { assert text[k] == lead[k]; }
    assert a < |text| ==> text[a] == (sign + rest)[0];
    RoundTrip.BlanksAre(text, 0, a);
  }

  /** atol passes over blanks and tabs only, and its number is the decimal digits after one sign, of
      any number; nothing else begins one. */
  lemma AtolReads(lead: string, sign: string, ds: string, tail: string)
    requires AllTabs(lead) && sign in {"", "-", "+"}
    requires AllDigits(ds, 10) && (tail == "" || DigitOf(tail[0]) >= 10)
    requires sign == "" && ds == "" && tail != "" ==> !IsTabOrSpace(tail[0]) && !IsSign(tail[0])
    ensures DecimalOf(lead + sign + ds + tail) == if sign == "-" then 0 - Value(ds, 10) else Value(ds, 10)
  {
    hide Value, DigitOf, SkipTabs, RunEnd, DecimalOf, AllDigits, AllTabs;
    var text := lead + sign + ds + tail;
    HeadOfDecimal(lead, sign, ds, tail);
    DigitRun(lead + sign, ds, tail, 10);
    DecimalIs(text, |lead|, |lead| + |sign|, |lead| + |sign| + |ds|);
  }

  lemma HeadOfDecimal(lead: string, sign: string, ds: string, tail: string)
    requires AllTabs(lead) && sign in {"", "-", "+"} && AllDigits(ds, 10)
    requires sign == "" && ds == "" && tail != "" ==> !IsTabOrSpace(tail[0]) && !IsSign(tail[0])
    ensures var text := lead + sign + ds + tail;
      && SkipTabs(text, 0) == |lead| && (IsSign(At(text, |lead|)) <==> sign != "")
      && (At(text, |lead|) == '-' <==> sign == "-")
  {
    hide DigitOf, SkipTabs, AllDigits, AllTabs;
    NoDigits();
    FirstDigit(ds, tail);
    TabsAreSkipped(lead, sign, ds + tail);
    Regroup(lead + sign, ds, tail);
  }

  lemma DecimalIs(text: string, a: nat, b: nat, e: nat)
    requires a <= b <= e <= |text| && SkipTabs(text, 0) == a && RunEnd(text, b, 10) == e
    requires b == if IsSign(At(text, a)) then a + 1 else a
    ensures DecimalOf(text) == Signed(At(text, a) == '-', Value(text[b..e], 10))
  {
    hide Value, SkipTabs, RunEnd;
  }

  lemma FirstDigit(ds: string, tail: string)
    ensures ds != "" && AllDigits(ds, 10) ==> (ds + tail)[0] == ds[0] && DigitOf(ds[0]) < 10
    ensures ds == "" ==> ds + tail == tail
  {
  }

  lemma Regroup(a: string, b: string, c: string)
    ensures a + b + c == a + (b + c)
  {
  }

  lemma DigitRun(front: string, ds: string, tail: string, base: nat)
    requires AllDigits(ds, base) && (tail == "" || DigitOf(tail[0]) >= base)
    ensures var text, b := front + ds + tail, |front|;
      RunEnd(text, b, base) == b + |ds| && text[b..b + |ds|] == ds
  {
    hide DigitOf, RunEnd;
    var text, b := front + ds + tail, |front|;
    assert text[b..b + |ds|] == ds;
    forall k | b <= k < b + |ds| ensures DigitOf(text[k]) < base { assert text[k] == ds[k - b]; }
    assert b + |ds| < |text| ==> text[b + |ds|] == tail[0];
    RunEndIs(text, b, b + |ds|, base);
  }

  lemma NoDigits()
    ensures DigitOf(' ') == DigitOf('\t') == DigitOf('-') == DigitOf('+') == 36
  {
  }

  lemma TabsAreSkipped(lead: string, sign: string, rest: string)
    requires AllTabs(lead) && sign in {"", "-", "+"}
    requires sign == "" && rest != "" ==> rest[0] != ' ' && rest[0] != '\t'
    ensures var text := lead + sign + rest;
      SkipTabs(text, 0) == |lead| && At(text, |lead|) == if sign == "" then At(rest, 0) else sign[0]
  {
    var text := lead + sign + rest;
    assert text == lead + (sign + rest);
    assert forall k :: 0 <= k < |lead| ==> text[k] == lead[k];
    assert |lead| < |text| ==> text[|lead|] == (sign + rest)[0];
    TabsAre(text, 0, |lead|);
  }

  lemma {:induction false} TabsAre(s: string, i: nat, j: nat)
    requires i <= j <= |s| && forall k :: i <= k < j ==> IsTabOrSpace(s[k])
    requires j < |s| ==> !IsTabOrSpace(s[j])
    ensures SkipTabs(s, i) == j
    decreases j - i
  {
    if i < j { TabsAre(s, i + 1, j); }
  }
}
