/** Laws of formats: how directives are written, and what they print, in characters. */
module VsprintfLaws {
  import opened CStrings
  import opened Numerals
  import opened NumberFormat
  import opened Vsprintf
  import RoundTrip
  import Strtol

  // ---- Directives are read as they are written ----

  /** `text` stands at `i`. */
  predicate Stands(fmt: string, i: nat, text: string) {
    i + |text| <= |fmt| && fmt[i..i + |text|] == text
  }

  lemma StandsSplit(fmt: string, i: nat, a: string, b: string)
    ensures Stands(fmt, i, a + b) <==> Stands(fmt, i, a) && Stands(fmt, i + |a|, b)
    ensures Stands(fmt, i, a) ==> i + |a| <= |fmt| && (a != "" ==> fmt[i] == a[0])
  {
    if Stands(fmt, i, a + b) {
      assert fmt[i..i + |a|] == (a + b)[..|a|] && fmt[i + |a|..i + |a| + |b|] == (a + b)[|a|..];
    }
    if Stands(fmt, i, a) && Stands(fmt, i + |a|, b) {
      assert fmt[i..i + |a + b|] == fmt[i..i + |a|] + fmt[i + |a|..i + |a| + |b|];
    }
    if Stands(fmt, i, a) && a != "" { assert fmt[i..i + |a|][0] == fmt[i]; }
  }

  predicate AllFlags(fs: string) {
    forall k :: 0 <= k < |fs| ==> fs[k] in {'-', '+', ' ', '#', '0'}
  }

  /** Each flag that occurs is set. */
  function WithFlags(t: Flags, fs: string): Flags {
    Flags(t.zeropad || '0' in fs, t.sign, t.plus || '+' in fs, t.space || ' ' in fs, t.left || '-' in fs,
          t.special || '#' in fs, t.large)
  }

  lemma FirstFlag(t: Flags, fs: string)
    requires fs != "" && AllFlags(fs)
    ensures IsFlag(fs[0]) && AllFlags(fs[1..]) && WithFlags(AddFlag(t, fs[0]), fs[1..]) == WithFlags(t, fs)
  {
    assert forall x :: x in fs <==> x == fs[0] || x in fs[1..];
  }

  lemma {:induction false} FlagsAreRead(fmt: string, i: nat, fs: string, t: Flags)
    requires Stands(fmt, i, fs) && AllFlags(fs) && !IsFlag(At(fmt, i + |fs|))
    ensures ReadFlags(fmt, i, t) == (WithFlags(t, fs), i + |fs|)
    decreases |fs|
  {
    hide Stands, IsFlag, AddFlag, WithFlags, AllFlags;
    StandsSplit(fmt, i, fs, "");
    if fs == "" {
      NoFlags(t);
    } else {
      FirstFlag(t, fs);
      assert fs == [fs[0]] + fs[1..];
      StandsSplit(fmt, i, [fs[0]], fs[1..]);
      FlagsAreRead(fmt, i + 1, fs[1..], AddFlag(t, fs[0]));
    }
  }

  lemma NoFlags(t: Flags)
    ensures WithFlags(t, "") == t
  {
  }

  /** Digits, an asterisk or nothing. */
  predicate IsAmountText(w: string) {
    w == "" || w == "*" || forall k :: 0 <= k < |w| ==> '0' <= w[k] <= '9'
  }

  function AmountIn(w: string): Amount {
    if w == "" then Absent else if w == "*" then FromArg else Given(ToLong(Value(w, 10)))
  }

  lemma AmountIsRead(fmt: string, i: nat, w: string)
    requires Stands(fmt, i, w) && IsAmountText(w) && At(fmt, i + |w|) != '*' && !IsDigit(At(fmt, i + |w|))
    ensures ReadNumber(fmt, i) == (AmountIn(w), i + |w|)
  {
    StandsSplit(fmt, i, w, "");
    if w != "" && w != "*" {
      forall k | i <= k < i + |w| ensures DigitOf(fmt[k]) < 10 { assert fmt[k] == fmt[i..i + |w|][k - i]; }
      RunEndIs(fmt, i, i + |w|, 10);
    }
  }

  lemma PrecisionIsRead(fmt: string, i: nat, dot: bool, p: string)
    requires Stands(fmt, i, if dot then "." + p else "") && IsAmountText(p)
    requires var c := At(fmt, i + if dot then 1 + |p| else 0); c != '*' && c != '.' && !IsDigit(c)
    ensures ReadPrecision(fmt, i)
         == if dot then (if p == "" then Given(0) else AmountIn(p), i + 1 + |p|) else (Absent, i)
  {
    hide ReadNumber, Value;
    if dot {
      StandsSplit(fmt, i, ".", p);
      AmountIsRead(fmt, i + 1, p);
    }
  }

  /** A percent sign, flags in any order and number, a width that does not begin with 0, a precision, a
      qualifier and a conversion character: every directive that is so written is read as itself,
      wherever it stands. */
  lemma DirectiveIsRead(fmt: string, i: nat, fs: string, w: string, dot: bool, p: string, q: string, c: char)
    requires Stands(fmt, i, "%" + fs + w + (if dot then "." + p else "") + q + [c])
    requires AllFlags(fs) && IsAmountText(w) && !("0" <= w) && IsAmountText(p) && q in {"", "h", "l", "L"}
    requires !IsFlag(c) && !IsDigit(c) && c !in {'*', '.', 'h', 'l', 'L', '\0'}
    ensures var t := Flags('0' in fs, false, '+' in fs, ' ' in fs, '-' in fs, '#' in fs, false);
      var precision := if !dot then Absent else if p == "" then Given(0) else AmountIn(p);
      ReadDirective(fmt, i) == (Conversion(t, AmountIn(w), precision, if q == "" then '\0' else q[0], c),
                                i + 1 + |fs| + |w| + (if dot then 1 + |p| else 0) + |q| + 1)
  {
    hide ReadFlags, ReadNumber, ReadPrecision, Stands, AmountIn;
    var dp := if dot then "." + p else "";
    StandsSplit(fmt, i, "%" + fs + w + dp + q, [c]);
    StandsSplit(fmt, i, "%" + fs + w + dp, q);
    StandsSplit(fmt, i, "%" + fs + w, dp);
    StandsSplit(fmt, i, "%" + fs, w);
    StandsSplit(fmt, i, "%", fs);
    var k := i + 1 + |fs|;
    var l := k + |w|;
    var m := l + |dp|;
    StandsSplit(fmt, m + |q|, [c], "");
    StandsSplit(fmt, m, q, [c]);
    StandsSplit(fmt, l, dp, "");
    StandsSplit(fmt, k, w, "");
    FlagsAreRead(fmt, i + 1, fs, NO_FLAGS);
    AmountIsRead(fmt, k, w);
    PrecisionIsRead(fmt, l, dot, p);
  }

  // ---- What directives print ----

  /** Every integer conversion reads back in its own base: %d and %i in 10, %u in 10, %o in 8, %x and %X
      in 16; the argument is taken modulo 2^32, after h modulo 2^16. */
  lemma ConversionsReadBack(d: Directive, args: seq<Arg>)
    requires d.Conversion? && d.conv in {'d', 'i', 'o', 'u', 'x', 'X'} && Suits(d, args) && !Splits(d, args)
    ensures var v := args[Fetches(d.width) + Fetches(d.precision)].v;
      var range := if d.qualifier == 'h' then 0x1_0000 else 0x1_0000_0000;
      var text := Render(d, args);
      && (d.conv == 'o' ==> Strtol.UlongOf(text, 8) == v % range)
      && (d.conv == 'u' ==> Strtol.UlongOf(text, 10) == v % range)
      && (d.conv == 'x' || d.conv == 'X' ==> Strtol.UlongOf(text, 16) == v % range)
      && (d.conv == 'd' || d.conv == 'i' ==>
            var n := Strtol.LongOf(text, 10); -(range / 2) <= n < range / 2 && n % range == v % range)
  {
    hide Render, Splits, IntOf, Strtol.Read, Strtol.LongOf, Strtol.UlongOf, DigitOf, ToUlong;
    var signed := d.conv == 'd' || d.conv == 'i';
    IntDirectiveReadsBack(d, args, if d.conv == 'o' then 8 else if d.conv == 'x' || d.conv == 'X' then 16 else 10);
    IntIsModular(args[Fetches(d.width) + Fetches(d.precision)].v, d.qualifier, signed);
  }

  lemma IntIsModular(v: int, qualifier: char, signed: bool)
    ensures var n, range := IntOf(v, qualifier, signed), if qualifier == 'h' then 0x1_0000 else 0x1_0000_0000;
      if signed then -(range / 2) <= n < range / 2 && n % range == v % range else ToUlong(n) == v % range
  {
    if qualifier != 'h' {
      ToUlongOfLong(v);
    } else if signed {
      ShortIsModular(v, (v + 0x8000) / 0x1_0000);
    } else {
      SmallIsItself(v % 0x1_0000);
    }
  }

  lemma ShortIsModular(v: int, q: int)
    requires q == (v + 0x8000) / 0x1_0000
    ensures ((v + 0x8000) % 0x1_0000 - 0x8000) % 0x1_0000 == v % 0x1_0000
  {
    var p := v / 0x1_0000;
    var n := v - q * 0x1_0000;
    assert (v + 0x8000) % 0x1_0000 - 0x8000 == n;
    assert n == (p - q) * 0x1_0000 + v % 0x1_0000;
  }

  lemma SmallIsItself(n: nat)
    requires n < 0x1_0000
    ensures ToUlong(n) == n
  {
  }

  /** A directive prints the same from the arguments that it fetches as from all, and fewer do not
      suit it. */
  lemma FetchesJustEnough(d: Directive, args: seq<Arg>, k: nat)
    requires Suits(d, args)
    ensures Fetched(d) <= |args|
    ensures Suits(d, args[..Fetched(d)]) && Render(d, args[..Fetched(d)]) == Render(d, args)
    ensures k < Fetched(d) ==> !Suits(d, args[..k])
  {
    hide NumberText, CharText, StringText, OtherText, ToLong, IntOf, BaseOf;
    if d.Conversion? {
      var own := Fetches(d.width) + Fetches(d.precision);
      if ConvFetches(d.conv) == 1 { assert args[..Fetched(d)][own..][0] == args[own..][0]; }
    }
  }

  /** An asterisk for a width stands for the next argument, or, if that is negative, for the - flag and
      its size. */
  lemma WidthArgument(d: Directive, args: seq<Arg>)
    requires d.Conversion? && d.width.FromArg? && Suits(d, args) && LONG_MIN < args[0].v <= LONG_MAX
    ensures var w := args[0].v;
      var written := if w < 0 then d.(width := Given(-w), flags := d.flags.(left := true)) else d.(width := Given(w));
      && Suits(written, args[1..]) && Render(written, args[1..]) == Render(d, args)
      && Fetched(d) == 1 + Fetched(written)
  {
    hide NumberText, CharText, StringText, OtherText, SuitsConv, IntOf, ToLong;
    var w := args[0].v;
    ToLongSmall(w);
    ToLongSmall(-w);
    var p := Fetches(d.precision);
    assert args[1..][p..] == args[1 + p..];
  }

  /** An asterisk for a precision stands for the next argument, or for 0 if that is negative. */
  lemma PrecisionArgument(d: Directive, args: seq<Arg>)
    requires d.Conversion? && d.precision.FromArg? && !d.width.FromArg? && Suits(d, args) && IsLong(args[0].v)
    ensures var written := d.(precision := Given(if args[0].v < 0 then 0 else args[0].v));
      && Suits(written, args[1..]) && Render(written, args[1..]) == Render(d, args)
      && Fetched(d) == 1 + Fetched(written)
  {
    hide NumberText, CharText, StringText, OtherText, SuitsConv, IntOf, ToLong;
    ToLongSmall(args[0].v);
    assert args[1..][0..] == args[1..];
  }

  /** %p prints an address as %lx does and, without a width, as %08lx. */
  lemma PointerIsHex(d: Directive, args: seq<Arg>)
    requires d.Conversion? && d.conv == 'p' && Suits(d, args) && !d.flags.sign && !d.flags.large
    ensures var k := Fetches(d.width) + Fetches(d.precision);
      var words := args[k := Word(args[k].a)];
      var hex := d.(conv := 'x', qualifier := 'l');
      var padded := if d.width == Absent || d.width == Given(-1)
                    then hex.(width := Given(8), flags := d.flags.(zeropad := true)) else hex;
      Suits(padded, words) && Render(padded, words) == Render(d, args)
  {
    hide NumberText, CharText, StringText, OtherText, ToLong;
    var k := Fetches(d.width) + Fetches(d.precision);
    assert args[k..][0] == args[k];
    if d.width.FromArg? { NegatedWidth(args[0].v); }
  }

  lemma NegatedWidth(v: int)
    ensures ToLong(v) < 0 ==> ToLong(-ToLong(v)) != -1
  {
  }

  /** A conversion character that is none is printed after its percent sign. */
  lemma UnknownPrintsItself(d: Directive, args: seq<Arg>)
    requires d.Conversion? && d.conv !in {'c', 's', 'p', 'n', 'o', 'x', 'X', 'd', 'i', 'u', '%', '\0'} && Suits(d, args)
    ensures Render(d, args) == ['%', d.conv]
  {
  }

  /** A percent sign that ends the format prints itself. */
  lemma LonePercent(fmt: string)
    requires fmt != "" && fmt[|fmt| - 1] == '%'
    ensures var (d, next) := ReadDirective(fmt, |fmt| - 1);
      next == |fmt| && Suits(d, []) && Fetched(d) == 0 && Render(d, []) == "%"
  {
  }
}
