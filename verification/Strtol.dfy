/** The number parsers of util/strtol.c, util/STRTOUL.C and util/atol.c. */
module Strtol {
  import opened CStrings
  import opened Numerals

  // ---- Meaning ----

  function SkipBlanks(s: string, i: nat): (j: nat)
    requires i <= |s|
    ensures i <= j <= |s|
    ensures forall k :: i <= k < j ==> IsSpace(s[k])
    ensures j < |s| ==> !IsSpace(s[j])
    decreases |s| - i
  {
    if i < |s| && IsSpace(s[i]) then SkipBlanks(s, i + 1) else i
  }

  predicate IsSign(c: char) { c == '-' || c == '+' }

  /** A 0x at `i` that the radix allows. */
  predicate HasHexPrefix(s: string, i: nat, radix: int)
    requires i <= |s|
  {
    (radix == 0 || radix == 16) && At(s, i) == '0' && (At(s, i + 1) == 'x' || At(s, i + 1) == 'X')
  }

  /** How a string is read as a number: its sign, the radix that applies, and its digits. */
  datatype Reading = Reading(neg: bool, radix: int, from: nat, upto: nat) {
    predicate IsValid() { 2 <= radix <= 36 }
  }

  function Read(s: string, radix: int): (r: Reading)
    ensures r.from <= r.upto <= |s|
  {
    var blank := SkipBlanks(s, 0);
    var start := if IsSign(At(s, blank)) then blank + 1 else blank;
    var hex := HasHexPrefix(s, start, radix);
    var base := if hex then 16 else if radix != 0 then radix else if At(s, start) == '0' then 8 else 10;
    var from := if hex then start + 2 else start;
    Reading(At(s, blank) == '-', base, from, if 2 <= base <= 36 then RunEnd(s, from, base) else from)
  }

  function Magnitude(s: string, r: Reading): nat
    requires r.from <= r.upto <= |s| && r.IsValid()
  {
    Value(s[r.from..r.upto], r.radix)
  }

  function Signed(neg: bool, n: nat): int { if neg then 0 - n else n }

  /** Where a parser stops: after the digits, or at the very start when there are none. */
  function Stop(r: Reading): nat {
    if r.IsValid() && r.from == r.upto then 0 else r.upto
  }

  /** The value of the numeral, clamped to the range of long. */
  function LongOf(s: string, radix: int): int {
    var r := Read(s, radix); if r.IsValid() then Clamp(Signed(r.neg, Magnitude(s, r))) else 0
  }

  /** The value of the numeral, negated modulo 2^32 after a minus sign; ULONG_MAX if out of range. */
  function UlongOf(s: string, radix: int): nat {
    var r := Read(s, radix);
    if !r.IsValid() then 0
    else if Magnitude(s, r) > ULONG_MAX then ULONG_MAX
    else ToUlong(Signed(r.neg, Magnitude(s, r)))
  }

  // ---- The parsers ----

  datatype State = NoNumber | Ok | Overflow

  /** The test against max1 and max2 fires just when one more digit would exceed the limit. */
  lemma OverflowTest(n: nat, c: nat, radix: nat, lim: nat)
    requires 2 <= radix && c < radix
    ensures var max1 := lim / radix; var max2 := lim - max1 * radix;
      (n >= max1 && (n > max1 || c > max2)) <==> n * radix + c > lim
  {
    var max1 := lim / radix;
    assert lim == max1 * radix + lim % radix;
    if n > max1 {
      assert n * radix >= (max1 + 1) * radix;
    } else if n < max1 {
      assert (n + 1) * radix <= max1 * radix;
    }
  }

  /** The digit loop of strtol and strtoul (util/strtol.c, lines 76-101; util/STRTOUL.C, lines
      76-100), which differ in `lim` only. */
  method ReadDigits(s: string, from: nat, radix: nat, lim: nat) returns (n: nat, state: State, j: nat)
    requires NulFree(s) && from <= |s| && 2 <= radix <= 36 && lim <= ULONG_MAX
    ensures j == RunEnd(s, from, radix)
    ensures state == NoNumber <==> j == from
    ensures state == Overflow <==> Value(s[from..j], radix) > lim
    ensures state != Overflow ==> n == Value(s[from..j], radix)
  {
    hide RunEnd, Value;
    var max1 := lim / radix;
    var max2 := lim - max1 * radix;
    EmptyRun(s, from, radix);
    n, state, j := 0, NoNumber, from;
    while true
      invariant from <= j <= RunEnd(s, from, radix) == RunEnd(s, j, radix)
      invariant state == NoNumber <==> j == from
      invariant state == Overflow <==> Value(s[from..j], radix) > lim
      invariant state != Overflow ==> n == Value(s[from..j], radix) <= lim
      decreases |s| - j
    {
      RunStep(s, from, j, radix);
      var c := At(s, j);
      var digit: nat;
      if '0' <= c <= '9' {
        digit := c as int - '0' as int;
      } else if 'A' <= c <= 'Z' {
        digit := c as int - 'A' as int + 10;
      } else if 'a' <= c <= 'z' {
        digit := c as int - 'a' as int + 10;
      } else {
        break;
      }
      if digit >= radix { break; }
      OverflowTest(n, digit, radix, lim);
      ValueGrows(Value(s[from..j], radix), radix, digit);
      if n >= max1 && (n > max1 || digit > max2) { state := Overflow; }
      if state != Overflow {
        n := n * radix + digit;
        state := Ok;
      }
      j := j + 1;
    }
  }

  lemma ValueGrows(v: nat, radix: nat, digit: nat)
    requires radix >= 2
    ensures v * radix + digit >= v
  {
  }

  /** The opening of strtol and strtoul: blanks, sign, 0x prefix and the choice of the radix
      (util/strtol.c, lines 49-67; util/STRTOUL.C, lines 49-67). */
  method ReadHead(s: string, radix0: int) returns (neg: bool, radix: int, j: nat)
    requires NulFree(s)
    ensures var r := Read(s, radix0); neg == r.neg && radix == r.radix && j == r.from
  {
    hide RunEnd;
    j := 0;
    while IsSpace(At(s, j))
      invariant j <= |s| && SkipBlanks(s, j) == SkipBlanks(s, 0)
      decreases |s| - j
    {
      j := j + 1;
    }
    neg := false;
    radix := radix0;
    if At(s, j) == '-' {
      neg := true;
      j := j + 1;
    } else if At(s, j) == '+' {
      j := j + 1;
    }
    if (radix == 0 || radix == 16) && At(s, j) == '0' && (At(s, j + 1) == 'x' || At(s, j + 1) == 'X') {
      radix := 16;
      j := j + 2;
    }
    if radix == 0 { radix := if At(s, j) == '0' then 8 else 10; }
  }

  /** util/strtol.c, __mwdd32_strtol; `end` is where it leaves *end_ptr. */
  method Strtol(s: string, radix0: int) returns (result: int, end: nat)
    requires NulFree(s)
    ensures result == LongOf(s, radix0)
    ensures end == Stop(Read(s, radix0))
  {
    hide RunEnd, Value, SkipBlanks, HasHexPrefix;
    var neg, radix, j := ReadHead(s, radix0);
    result := 0;
    if 2 <= radix <= 36 {
      var lim := if neg then -LONG_MIN else LONG_MAX;
      EmptyRun(s, j, radix);
      var n, state;
      n, state, j := ReadDigits(s, j, radix, lim);
      match state {
        case NoNumber => result := 0; j := 0;
        case Ok => result := Signed(neg, n);
        case Overflow => result := if neg then LONG_MIN else LONG_MAX;
      }
    }
    end := j;
  }

  /** util/STRTOUL.C, __mwdd32_strtoul. */
  method Strtoul(s: string, radix0: int) returns (result: nat, end: nat)
    requires NulFree(s)
    ensures result == UlongOf(s, radix0)
    ensures end == Stop(Read(s, radix0))
  {
    hide RunEnd, Value, SkipBlanks, HasHexPrefix;
    var neg, radix, j := ReadHead(s, radix0);
    result := 0;
    if 2 <= radix <= 36 {
      EmptyRun(s, j, radix);
      var n, state;
      n, state, j := ReadDigits(s, j, radix, ULONG_MAX);
      match state {
        case NoNumber => result := 0; j := 0;
        case Ok => result := if neg then ToUlong(0 - n) else n;
        case Overflow => result := ULONG_MAX;
      }
    }
    end := j;
  }

  // ---- atol ----

  predicate IsTabOrSpace(c: char) { c == ' ' || c == '\t' }

  function SkipTabs(s: string, i: nat): (j: nat)
    requires i <= |s|
    ensures i <= j <= |s| && forall k :: i <= k < j ==> IsTabOrSpace(s[k])
    ensures j < |s| ==> !IsTabOrSpace(s[j])
    decreases |s| - i
  {
    if i < |s| && IsTabOrSpace(s[i]) then SkipTabs(s, i + 1) else i
  }

  /** The decimal number that atol reads, before it is cut to 32 bits. */
  function DecimalOf(s: string): int {
    var blank := SkipTabs(s, 0);
    var start := if IsSign(At(s, blank)) then blank + 1 else blank;
    Signed(At(s, blank) == '-', Value(s[start..RunEnd(s, start, 10)], 10))
  }

  /** util/atol.c, __mwdd32_atol, with long arithmetic that wraps. */
  method Atol(s: string) returns (result: int)
    requires NulFree(s)
    ensures result == ToLong(DecimalOf(s))
  {
    hide RunEnd, Value, ToLong;
    var neg, j := false, 0;
    while At(s, j) == ' ' || At(s, j) == '\t'
      invariant 0 <= j <= |s| && SkipTabs(s, j) == SkipTabs(s, 0)
      decreases |s| - j
    {
      j := j + 1;
    }
    if At(s, j) == '+' {
      j := j + 1;
    } else if At(s, j) == '-' {
      j := j + 1;
      neg := true;
    }
    var n := AtolDigits(s, j);
    ToLongStep(Value(s[j..RunEnd(s, j, 10)], 10), 0);
    result := if neg then ToLong(-n) else n;
  }

  /** The digit loop of atol (util/atol.c, lines 56-60). */
  method AtolDigits(s: string, start: nat) returns (n: int)
    requires NulFree(s) && start <= |s|
    ensures n == ToLong(Value(s[start..RunEnd(s, start, 10)], 10))
  {
    hide RunEnd, Value, ToLong;
    var j;
    n, j := 0, start;
    EmptyRun(s, start, 10);
    ToLongSmall(0);
    while '0' <= At(s, j) <= '9'
      invariant start <= j <= RunEnd(s, start, 10) == RunEnd(s, j, 10)
      invariant n == ToLong(Value(s[start..j], 10))
      decreases |s| - j
    {
      RunStep(s, start, j, 10);
      ToLongStep(Value(s[start..j], 10), DigitOf(s[j]));
      n := ToLong(n * 10 + (At(s, j) as int - '0' as int));
      j := j + 1;
    }
    RunStep(s, start, j, 10);
  }

  /** On strings whose leading blanks are spaces and tabs only, atol reads the number that strtol
      reads in radix 10. They agree exactly when it fits a long, or when what is left of it in 32
      bits happens to be the limit at which strtol saturates. */
  lemma AtolIsStrtol(s: string)
    requires SkipTabs(s, 0) == SkipBlanks(s, 0)
    ensures LongOf(s, 10) == Clamp(DecimalOf(s))
    ensures var n := DecimalOf(s);
      ToLong(n) == LongOf(s, 10) <==>
      IsLong(n) || (n > LONG_MAX && ToUlong(n) == LONG_MAX) || (n < LONG_MIN && ToUlong(n) == -LONG_MIN)
  {
    SameDecimal(s);
    WrapIsClamp(DecimalOf(s));
  }

  lemma SameDecimal(s: string)
    requires SkipTabs(s, 0) == SkipBlanks(s, 0)
    ensures LongOf(s, 10) == Clamp(DecimalOf(s))
  {
  }

  lemma WrapIsClamp(n: int)
    ensures ToLong(n) == Clamp(n) <==>
            IsLong(n) || (n > LONG_MAX && ToUlong(n) == LONG_MAX) || (n < LONG_MIN && ToUlong(n) == -LONG_MIN)
  {
    var q, r := n / TWO32, n % TWO32;
    assert n == q * TWO32 + r;
    ToLongShift(r, q);
  }
}
