/** Printing a number (util/vsprintf.c, number). */
module NumberFormat {
  import opened CStrings
  import opened Numerals

  /** The flag bits of util/vsprintf.c, lines 123-129. */
  datatype Flags = Flags(zeropad: bool, sign: bool, plus: bool, space: bool, left: bool, special: bool, large: bool)

  // ---- Meaning ----

  /** Entry `v` of the digit table: 0-9, then a-z or A-Z. */
  function DigitChar(v: nat, t: Flags): (c: char)
    requires v < 36
    ensures DigitOf(c) == v
  {
    if v < 10 then (v + 48) as char else if t.large then (v + 55) as char else (v + 87) as char
  }

  function Digits(n: nat, base: nat, t: Flags): (s: string)
    requires 2 <= base <= 36
    ensures s != ""
  {
    (if n < base then "" else Digits(Quot(n, base), base, t)) + [DigitChar(Rem(n, base), t)]
  }

  /** The number that is printed: its size if it is signed, else its value as an unsigned long. */
  function Magnitude(num: int, t: Flags): nat {
    if t.sign && num < 0 then -num else ToUlong(num)
  }

  function SignText(num: int, t: Flags): string {
    if !t.sign then "" else if num < 0 then "-" else if t.plus then "+" else if t.space then " " else ""
  }

  function PrefixText(base: nat, t: Flags): string {
    if t.special && base == 8 then "0" else if t.special && base == 16 then ['0', DigitChar(33, t)] else ""
  }

  function Max(a: int, b: int): int { if a > b then a else b }

  function Min(a: int, b: int): int { if a < b then a else b }

  /** The room that sign, prefix and digits need. */
  function Needed(num: int, base: nat, precision: int, t: Flags): nat
    requires 2 <= base <= 36
  {
    |SignText(num, t)| + |PrefixText(base, t)| + Max(precision, |Digits(Magnitude(num, t), base, t)|)
  }

  /** What the field has to spare, in 32 bits. */
  function Room(num: int, base: nat, size: int, precision: int, t: Flags): int
    requires 2 <= base <= 36
  {
    ToLong(size - Needed(num, base, precision, t))
  }

  /** How much is filled in: blanks in front, blanks or zeros after the prefix, blanks behind. */
  datatype Padding = Padding(lead: nat, fill: nat, trail: nat)

  /** The spare room goes behind the number when left justified, after the prefix when zero padded,
      and else in front. Each loop that finds no room takes one off nevertheless, so that next to
      LONG_MIN the count wraps, and a later loop fills LONG_MAX characters. */
  function PaddingOf(room: int, t: Flags): Padding {
    if t.left then Padding(0, 0, Max(room, 0))
    else if t.zeropad then
      if room == LONG_MIN then Padding(0, 0, LONG_MAX) else Padding(0, Max(room, 0), 0)
    else if room == LONG_MIN then Padding(0, LONG_MAX, 0)
    else if room == LONG_MIN + 1 then Padding(0, 0, LONG_MAX)
    else Padding(Max(room, 0), 0, 0)
  }

  function FillChar(t: Flags): char { if t.zeropad && !t.left then '0' else ' ' }

  /** The parts of a printed number, in their order. */
  function Layout(p: Padding, sign: string, prefix: string, c: char, zeros: int, digits: string): string {
    Fill(' ', p.lead) + sign + prefix + Fill(c, p.fill) + Fill('0', zeros) + digits + Fill(' ', p.trail)
  }

  /** What `number` prints. */
  function NumberText(num: int, base: nat, size: int, precision: int, t: Flags): string
    requires 2 <= base <= 36
  {
    var digits := Digits(Magnitude(num, t), base, t);
    Layout(PaddingOf(Room(num, base, size, precision, t), t), SignText(num, t), PrefixText(base, t), FillChar(t),
           precision - |digits|, digits)
  }

  /** How much is filled in, in all: just the spare room, unless it wraps into something else. */
  lemma PaddingInAll(spare: int, t: Flags)
    requires LONG_MIN - LONG_MAX - 3 <= spare <= LONG_MAX
    ensures var p := PaddingOf(ToLong(spare), t);
      p.lead + p.fill + p.trail == Max(spare, 0) <==>
      spare >= LONG_MIN + (if t.left then 0 else if t.zeropad then 1 else 2) || spare <= -TWO32
  {
    if spare >= LONG_MIN { ToLongSmall(spare); } else { ToLongShift(spare, 1); }
  }

  /** A number is cut by no field, and it fills its field exactly when the spare room does not wrap
      into something to fill. */
  lemma FieldIsFilled(num: int, base: nat, size: int, precision: int, t: Flags)
    requires 2 <= base <= 36 && IsLong(num) && IsLong(size) && IsLong(precision)
    ensures var needed := Needed(num, base, precision, t);
      var text := NumberText(num, base, size, precision, t);
      && |text| >= needed
      && (|text| == Max(size, needed) <==>
          size - needed >= LONG_MIN + (if t.left then 0 else if t.zeropad then 1 else 2) || size - needed <= -TWO32)
  {
    hide Digits, PaddingOf, ToLong, Magnitude, FillChar, Layout;
    Negated(num, t);
    var digits := Digits(Magnitude(num, t), base, t);
    LongDigitsFit(Magnitude(num, t), base, t);
    var needed := Needed(num, base, precision, t);
    PaddingInAll(size - needed, t);
    var p := PaddingOf(Room(num, base, size, precision, t), t);
    LayoutLength(p, SignText(num, t), PrefixText(base, t), FillChar(t), precision - |digits|, digits);
  }

  // ---- Facts about digits ----

  /** The printed digits stand for the number. */
  lemma {:induction false} DigitsValue(n: nat, base: nat, t: Flags)
    requires 2 <= base <= 36
    ensures Value(Digits(n, base, t), base) == n
    ensures forall i :: 0 <= i < |Digits(n, base, t)| ==> DigitOf(Digits(n, base, t)[i]) < base
  {
    hide Value, DigitChar, Quot, Rem;
    var rest := if n < base then "" else Digits(Quot(n, base), base, t);
    if n < base { EmptyRun("", 0, base); } else { DigitsValue(Quot(n, base), base, t); }
    QuotRem(n, base);
    ValuePush(rest, DigitChar(Rem(n, base), t), base);
  }

  function Pow2(k: nat): nat { if k == 0 then 1 else 2 * Pow2(k - 1) }

  lemma {:induction false} DigitsFit(n: nat, base: nat, t: Flags, k: nat)
    requires 2 <= base <= 36 && n < Pow2(k) && k >= 1
    ensures |Digits(n, base, t)| <= k
    decreases k
  {
    hide Quot, Rem, DigitChar;
    if n >= base {
      DigitsFit(Quot(n, base), base, t, k - 1);
    }
  }

  lemma LongDigitsFit(n: nat, base: nat, t: Flags)
    requires 2 <= base <= 36 && n < TWO32
    ensures |Digits(n, base, t)| <= 32
  {
    assert Pow2(8) == 256;
    assert Pow2(16) == 256 * Pow2(8);
    assert Pow2(24) == 256 * Pow2(16);
    assert Pow2(32) == 256 * Pow2(24);
    DigitsFit(n, base, t, 32);
  }

  // ---- The printer ----

  /** A buffer after `s` was written at `at`. */
  function WriteAt(buf: string, at: nat, s: string): (r: string)
    requires at + |s| <= |buf|
    ensures |r| == |buf|
  {
    buf[..at] + s + buf[at + |s|..]
  }

  lemma WriteTwice(buf: string, at: nat, s: string, t: string)
    requires at + |s| + |t| <= |buf|
    ensures WriteAt(WriteAt(buf, at, s), at + |s|, t) == WriteAt(buf, at, s + t)
  {
  }

  lemma WriteNothing(buf: string, at: nat)
    requires at <= |buf|
    ensures WriteAt(buf, at, "") == buf
  {
  }

  /** What `while (size-- > 0)` leaves of the size. */
  function Drop(size: int): int { if size > 0 then -1 else ToLong(size - 1) }

  /** `while (size-- > 0) *str++ = c;` */
  method Pad(buf: array<char>, str: nat, size: int, c: char) returns (end: nat, size': int)
    requires IsLong(size) && str + Max(size, 0) <= buf.Length
    modifies buf
    ensures end == str + Max(size, 0) && size' == Drop(size)
    ensures buf[..] == WriteAt(old(buf[..]), str, Fill(c, size))
  {
    end, size' := str, size;
    while size' > 0
      invariant str <= end <= buf.Length && size' <= size && end - str == size - size'
      invariant size' >= 0 || size' == size
      invariant forall k :: 0 <= k < buf.Length ==> buf[k] == if str <= k < end then c else old(buf[k])
    {
      buf[end] := c;
      end := end + 1;
      size' := size' - 1;
    }
    size' := ToLong(size' - 1);
  }

  /** `*str++ = s[0]; ...; *str++ = s[|s|-1];` */
  method Put(buf: array<char>, str: nat, s: string) returns (end: nat)
    requires str + |s| <= buf.Length
    modifies buf
    ensures end == str + |s|
    ensures buf[..] == WriteAt(old(buf[..]), str, s)
  {
    end := str;
    for i := 0 to |s|
      invariant end == str + i
      invariant forall k :: 0 <= k < buf.Length ==> buf[k] == if str <= k < end then s[k - str] else old(buf[k])
    {
      buf[end] := s[i];
      end := end + 1;
    }
  }

  function Reverse(s: string): (r: string)
    ensures |r| == |s| && forall i :: 0 <= i < |s| ==> r[i] == s[|s| - 1 - i]
  {
    seq(|s|, i requires 0 <= i < |s| => s[|s| - 1 - i])
  }

  /** The digit loop of number (util/vsprintf.c, lines 173-186): the digits, last one first. */
  method CollectDigits(tmp: array<char>, num0: nat, base: nat, t: Flags) returns (i: nat)
    requires tmp.Length >= 32 && num0 < TWO32 && 2 <= base <= 36
    modifies tmp
    ensures i <= tmp.Length && Reverse(tmp[..i]) == Digits(num0, base, t)
  {
    hide DigitChar, Quot, Rem;
    LongDigitsFit(num0, base, t);
    ghost var digits := Digits(num0, base, t);
    i := 0;
    var num: nat := num0;
    if num == 0 {
      tmp[i] := DigitChar(0, t);
      i := i + 1;
      assert tmp[..i] == [DigitChar(0, t)];
    } else {
      while num != 0
        invariant i <= |digits| <= 32
        invariant if num != 0 then digits == Digits(num, base, t) + Reverse(tmp[..i]) else digits == Reverse(tmp[..i])
        decreases num
      {
        ghost var before := tmp[..i];
        var res := Rem(num, base);
        num := Quot(num, base);
        tmp[i] := DigitChar(res, t);
        i := i + 1;
        assert tmp[..i] == before + [DigitChar(res, t)];
        assert Reverse(tmp[..i]) == [DigitChar(res, t)] + Reverse(before);
      }
    }
  }

  ghost function SignOf(sign: char): string { if sign == '\0' then "" else [sign] }

  /** The first part of it: blanks, sign, prefix (util/vsprintf.c, lines 190-201). */
  method EmitHead(buf: array<char>, str: nat, sign: char, base: nat, size0: int, t: Flags) returns (at: nat, size: int)
    requires IsLong(size0)
    requires str + Max(size0, 0) + |SignOf(sign)| + |PrefixText(base, t)| <= buf.Length
    modifies buf
    ensures var text := Fill(' ', if t.left || t.zeropad then 0 else size0) + SignOf(sign) + PrefixText(base, t);
      at == str + |text| && buf[..] == WriteAt(old(buf[..]), str, text)
    ensures size == if t.left || t.zeropad then size0 else Drop(size0)
  {
    hide DigitChar, WriteAt, Drop;
    ghost var buf0 := buf[..];
    ghost var lead := Fill(' ', if t.left || t.zeropad then 0 else size0);
    at, size := str, size0;
    WriteNothing(buf0, at);
    if !t.zeropad && !t.left { at, size := Pad(buf, at, size, ' '); }
    WriteTwice(buf0, str, lead, SignOf(sign));
    WriteNothing(buf[..], at);
    if sign != '\0' { at := Put(buf, at, [sign]); }
    WriteTwice(buf0, str, lead + SignOf(sign), PrefixText(base, t));
    WriteNothing(buf[..], at);
    if t.special {
      if base == 8 {
        at := Put(buf, at, "0");
      } else if base == 16 {
        at := Put(buf, at, ['0', DigitChar(33, t)]);
      }
    }
  }

  /** The writing half of number (util/vsprintf.c, lines 190-211). */
  method EmitNumber(buf: array<char>, str: nat, sign: char, base: nat, size0: int, precision: nat,
                    tmp: array<char>, i: nat, t: Flags)
    returns (at: nat)
    requires buf != tmp && i <= tmp.Length && i <= precision && str <= buf.Length
    requires IsLong(size0) && IsLong(precision) && (t.left ==> !t.zeropad)
    requires var p := PaddingOf(size0, t);
      str + p.lead + |SignOf(sign)| + |PrefixText(base, t)| + p.fill + precision + p.trail <= buf.Length
    modifies buf
    ensures var text :=
        Layout(PaddingOf(size0, t), SignOf(sign), PrefixText(base, t), FillChar(t), precision - i, Reverse(tmp[..i]));
      at == str + |text| <= buf.Length && buf[..] == WriteAt(old(buf[..]), str, text)
  {
    hide DigitChar, WriteAt, PrefixText, SignOf, PaddingOf, Drop;
    ghost var buf0, digits := buf[..], Reverse(tmp[..i]);
    ghost var p := PaddingOf(size0, t);
    PaddingSteps(size0, t);
    var size;
    at, size := EmitHead(buf, str, sign, base, size0, t);
    ghost var out := Fill(' ', p.lead) + SignOf(sign) + PrefixText(base, t);
    WriteTwice(buf0, str, out, Fill(FillChar(t), p.fill));
    WriteNothing(buf[..], at);
    if !t.left { at, size := Pad(buf, at, size, if t.zeropad then '0' else ' '); }
    out := out + Fill(FillChar(t), p.fill);
    WriteTwice(buf0, str, out, Fill('0', precision - i));
    var rest;
    at, rest := Pad(buf, at, precision - i, '0');
    out := out + Fill('0', precision - i);
    WriteTwice(buf0, str, out, digits);
    at := Put(buf, at, Reverse(tmp[..i]));
    WriteTwice(buf0, str, out + digits, Fill(' ', size));
    at, rest := Pad(buf, at, size, ' ');
  }

  /** The three loops of number over the size, one after the other. */
  lemma PaddingSteps(size: int, t: Flags)
    requires IsLong(size) && (t.left ==> !t.zeropad)
    ensures var p := PaddingOf(size, t);
      var size1 := if t.left || t.zeropad then size else Drop(size);
      var size2 := if t.left then size1 else Drop(size1);
      && IsLong(size1) && IsLong(size2)
      && p.lead == (if t.left || t.zeropad then 0 else Max(size, 0))
      && p.fill == (if t.left then 0 else Max(size1, 0))
      && p.trail == Max(size2, 0)
  {
  }

  /** The signs of number (util/vsprintf.c, lines 153-172): it takes the room for sign and prefix
      off the size, and makes the number positive. */
  method TakeSign(num0: int, base: nat, size0: int, t: Flags) returns (sign: char, num: int, size: int)
    requires IsLong(num0) && IsLong(size0)
    ensures SignOf(sign) == SignText(num0, t)
    ensures ToUlong(num) == Magnitude(num0, t) < TWO32
    ensures size == ToLong(size0 - |SignText(num0, t)| - |PrefixText(base, t)|)
  {
    hide DigitChar, ToUlong, ToLong;
    num, size, sign := num0, size0, '\0';
    Negated(num0, t);
    ToLongSmall(size0);
    ToLongLess(size0 - |SignText(num0, t)|, |PrefixText(base, t)|);
    if t.sign {
      if num < 0 {
        sign := '-';
        num := ToLong(-num);
        size := ToLong(size - 1);
      } else if t.plus {
        sign := '+';
        size := ToLong(size - 1);
      } else if t.space {
        sign := ' ';
        size := ToLong(size - 1);
      }
    }
    if t.special {
      if base == 16 { size := ToLong(size - 2); } else if base == 8 { size := ToLong(size - 1); }
    }
  }

  /** util/vsprintf.c, number. It writes the text at `str` and nothing else, and returns its end;
      None is the null pointer of a base out of range. */
  method Number(buf: array<char>, str: nat, num0: int, base: int, size0: int, precision0: int, t0: Flags)
    returns (end: Option<nat>)
    requires IsLong(num0) && IsLong(size0) && IsLong(precision0) && str <= buf.Length
    requires 2 <= base <= 36 ==> str + |NumberText(num0, base, size0, precision0, t0)| <= buf.Length
    modifies buf
    ensures !(2 <= base <= 36) ==> end == None && buf[..] == old(buf[..])
    ensures 2 <= base <= 36 ==>
              var text := NumberText(num0, base, size0, precision0, t0);
              end == Some(str + |text|) && buf[..] == WriteAt(old(buf[..]), str, text)
  {
    hide Digits, DigitChar, WriteAt, NumberText, Needed, Room, PaddingOf, Layout, PrefixText, ToUlong, ToLong;
    var t := t0;
    var precision := precision0;
    if t.left { t := t.(zeropad := false); }
    if base < 2 || base > 36 { return None; }
    var sign, num, size := TakeSign(num0, base, size0, t);
    var tmp := new char[66];
    var i := CollectDigits(tmp, ToUlong(num), base, t);
    if i > precision { precision := i; }
    SameDigits(ToUlong(num), base, t, t0);
    ToLongLess(size0 - |SignText(num0, t)| - |PrefixText(base, t)|, precision);
    size := ToLong(size - precision);
    TextParts(num0, base, size0, precision0, t0, t, i);
    var at := EmitNumber(buf, str, sign, base, size, precision, tmp, i, t);
    end := Some(at);
  }

  /** Negating LONG_MIN leaves it, which as an unsigned long is its size all the same. */
  lemma Negated(num: int, t: Flags)
    requires IsLong(num)
    ensures ToUlong(if t.sign && num < 0 then ToLong(-num) else num) == Magnitude(num, t) < TWO32
  {
  }

  /** NumberText in the terms number has worked out before it writes. */
  lemma TextParts(num: int, base: nat, size: int, precision: int, t0: Flags, t: Flags, i: nat)
    requires 2 <= base <= 36 && t == (if t0.left then t0.(zeropad := false) else t0)
    requires i == |Digits(Magnitude(num, t0), base, t0)|
    ensures var prefix := PrefixText(base, t);
      var room := ToLong(size - |SignText(num, t)| - |prefix| - Max(precision, i));
      && SignText(num, t) == SignText(num, t0)
      && var text := NumberText(num, base, size, precision, t0);
         && text == Layout(PaddingOf(room, t), SignText(num, t), prefix, FillChar(t), Max(precision, i) - i,
                           Digits(Magnitude(num, t0), base, t0))
         && var p := PaddingOf(room, t);
            |text| == p.lead + |SignText(num, t)| + |prefix| + p.fill + Max(precision, i) + p.trail
  {
    hide Digits, Magnitude, SignText, PrefixText, PaddingOf, FillChar, ToLong, Layout;
    LeftIsNotPadded(num, base, t0, t);
    var p := PaddingOf(Room(num, base, size, precision, t0), t0);
    var digits := Digits(Magnitude(num, t0), base, t0);
    assert Max(precision, i) - i == Max(precision - i, 0);
    LayoutLength(p, SignText(num, t0), PrefixText(base, t0), FillChar(t0), precision - i, digits);
  }

  /** Taking zero padding off what is left justified changes nothing. */
  lemma LeftIsNotPadded(num: int, base: nat, t0: Flags, t: Flags)
    requires t == if t0.left then t0.(zeropad := false) else t0
    ensures SignText(num, t) == SignText(num, t0) && PrefixText(base, t) == PrefixText(base, t0)
    ensures FillChar(t) == FillChar(t0) && forall room :: PaddingOf(room, t) == PaddingOf(room, t0)
  {
  }

  lemma LayoutLength(p: Padding, sign: string, prefix: string, c: char, zeros: int, digits: string)
    ensures |Layout(p, sign, prefix, c, zeros, digits)|
         == |sign| + |prefix| + Max(zeros + |digits|, |digits|) + (p.lead + p.fill + p.trail)
    ensures Layout(p, sign, prefix, c, zeros, digits) == Layout(p, sign, prefix, c, Max(zeros, 0), digits)
  {
    assert Fill('0', zeros) == Fill('0', Max(zeros, 0));
  }

  lemma {:induction false} SameDigits(n: nat, base: nat, t: Flags, t': Flags)
    requires 2 <= base <= 36 && t.large == t'.large
    ensures Digits(n, base, t) == Digits(n, base, t')
    ensures t.special == t'.special ==> PrefixText(base, t) == PrefixText(base, t')
    decreases n
  {
    if n >= base { SameDigits(Quot(n, base), base, t, t'); }
  }
}
