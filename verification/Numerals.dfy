/** Numerals in a radix from 2 to 36, and 32-bit longs. */
module Numerals {
  import opened CStrings

  const LONG_MAX: int := 0x7fff_ffff
  const LONG_MIN: int := -0x8000_0000
  const ULONG_MAX: int := 0xffff_ffff
  const TWO32: int := 0x1_0000_0000

  predicate IsLong(x: int) { LONG_MIN <= x <= LONG_MAX }

  /** The unsigned long with the bits of `x`. */
  function ToUlong(x: int): nat { x % TWO32 }

  /** The long with the low 32 bits of `x`, in two's complement. */
  function ToLong(x: int): (r: int)
    ensures IsLong(r)
  {
    (x - LONG_MIN) % TWO32 + LONG_MIN
  }

  function Clamp(x: int): (r: int)
    ensures IsLong(r)
  {
    if x < LONG_MIN then LONG_MIN else if x > LONG_MAX then LONG_MAX else x
  }

  /** The digit that `c` stands for; 36, a digit of no radix, when it stands for none. */
  function DigitOf(c: char): (v: nat)
    ensures v <= 36
  {
    if IsDigit(c) then c as int - 48
    else if IsUpper(c) then c as int - 55
    else if IsLower(c) then c as int - 87
    else 36
  }

  /** The positional value of a string of digits. */
  function Value(ds: string, radix: nat): nat {
    if ds == "" then 0 else Value(ds[..|ds| - 1], radix) * radix + DigitOf(ds[|ds| - 1])
  }

  /** The end of the run of digits that begins at `i`. */
  function RunEnd(s: string, i: nat, radix: nat): (e: nat)
    requires i <= |s|
    ensures i <= e <= |s|
    ensures forall k :: i <= k < e ==> DigitOf(s[k]) < radix
    ensures e < |s| ==> DigitOf(s[e]) >= radix
    decreases |s| - i
  {
    if i < |s| && DigitOf(s[i]) < radix then RunEnd(s, i + 1, radix) else i
  }

  lemma RunEndIs(s: string, i: nat, e: nat, radix: nat)
    requires i <= e <= |s|
    requires forall k :: i <= k < e ==> DigitOf(s[k]) < radix
    requires e < |s| ==> DigitOf(s[e]) >= radix
    ensures RunEnd(s, i, radix) == e
  {
  }

  lemma ValuePush(ds: string, c: char, radix: nat)
    ensures Value(ds + [c], radix) == Value(ds, radix) * radix + DigitOf(c)
  {
    assert (ds + [c])[..|ds|] == ds;
  }

  // Division by a radix, behind functions that keep it away from other proofs.

  function Quot(n: nat, radix: nat): (q: nat)
    requires radix >= 2
    ensures q == 0 <==> n < radix
    ensures q <= n / 2
  {
    QuotFacts(n, radix, n / radix, n % radix);
    n / radix
  }

  lemma QuotFacts(n: nat, radix: nat, q: nat, r: nat)
    requires radix >= 2 && r < radix && n == radix * q + r
    ensures 2 * q <= n
    ensures q == 0 <==> n < radix
  {
    if q > 0 {
      assert radix * q >= 2 * q;
      assert radix * q >= radix * 1;
    }
  }

  function Rem(n: nat, radix: nat): (r: nat)
    requires radix >= 2
    ensures r < radix
    ensures n < radix ==> r == n
  {
    n % radix
  }

  lemma QuotRem(n: nat, radix: nat)
    requires radix >= 2
    ensures Quot(n, radix) * radix + Rem(n, radix) == n
  {
  }

  lemma EmptyRun(s: string, from: nat, radix: nat)
    requires from <= |s|
    ensures s[from..from] == "" && Value("", radix) == 0
  {
  }

  /** A run goes on with one more digit, or it ends. */
  lemma RunStep(s: string, from: nat, j: nat, radix: nat)
    requires from <= j <= |s|
    ensures if j < |s| && DigitOf(s[j]) < radix
            then RunEnd(s, j, radix) == RunEnd(s, j + 1, radix)
                 && Value(s[from..j + 1], radix) == Value(s[from..j], radix) * radix + DigitOf(s[j])
            else RunEnd(s, j, radix) == j
  {
    if j < |s| {
      assert s[from..j + 1] == s[from..j] + [s[j]];
      ValuePush(s[from..j], s[j], radix);
    }
  }

  lemma ToLongSmall(x: int)
    requires IsLong(x)
    ensures ToLong(x) == x
  {
  }

  lemma ToLongStep(x: int, d: int)
    ensures ToLong(ToLong(x) * 10 + d) == ToLong(x * 10 + d)
    ensures ToLong(-ToLong(x)) == ToLong(-x)
  {
    var k := (x - LONG_MIN) / TWO32;
    assert ToLong(x) == x - k * TWO32;
    ToLongShift(x * 10 + d, -10 * k);
    ToLongShift(-x, k);
  }

  /** Subtracting in 32 bits step by step is subtracting once. */
  lemma ToLongLess(x: int, y: int)
    ensures ToLong(ToLong(x) - y) == ToLong(x - y)
  {
    var k := (x - LONG_MIN) / TWO32;
    assert ToLong(x) == x - k * TWO32;
    ToLongShift(x - y, -k);
  }

  lemma ToLongShift(x: int, k: int)
    ensures ToLong(x + k * TWO32) == ToLong(x)
  {
    var q := (x - LONG_MIN) / TWO32;
    assert x + k * TWO32 - LONG_MIN == (q + k) * TWO32 + (x - LONG_MIN) % TWO32;
  }

  /** Leading zeros do not change a value. */
  lemma {:induction false} LeadingZeros(zs: string, ds: string, radix: nat)
    requires forall i :: 0 <= i < |zs| ==> zs[i] == '0'
    ensures Value(zs + ds, radix) == Value(ds, radix)
    decreases |zs| + |ds|
  {
    if ds != "" {
      var init := ds[..|ds| - 1];
      LeadingZeros(zs, init, radix);
      assert zs + ds == (zs + init) + [ds[|ds| - 1]];
      ValuePush(zs + init, ds[|ds| - 1], radix);
    } else if zs != "" {
      var init := zs[..|zs| - 1];
      assert zs + ds == init + ['0'] && init + "" == init;
      ValuePush(init, '0', radix);
      LeadingZeros(init, "", radix);
    }
  }
}
