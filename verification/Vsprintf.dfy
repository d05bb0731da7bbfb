/** Formatted output (util/vsprintf.c, vsprintf): a format is a sequence of directives, and the
    output is what they render, one after the other. */
module Vsprintf {
  import opened CStrings
  import opened Numerals
  import opened NumberFormat
  import RoundTrip
  import Strtol

  /** An argument, by the type under which a directive fetches it. */
  datatype Arg =
    | Word(v: int)              // int, short or long, signed or not
    | Text(s: Option<string>)   // char *, None for the null pointer
    | Address(a: int)           // void *
    | Counter(target: nat)      // int * or long *, for %n

  datatype Amount = Absent | Given(n: int) | FromArg

  datatype Directive =
    | Plain(c: char)
    | Conversion(flags: Flags, width: Amount, precision: Amount, qualifier: char, conv: char)

  // ---- Reading a format ----

  const NO_FLAGS := Flags(false, false, false, false, false, false, false)

  predicate IsFlag(c: char) { c == '-' || c == '+' || c == ' ' || c == '#' || c == '0' }

  function AddFlag(t: Flags, c: char): Flags {
    match c
    case '-' => t.(left := true)
    case '+' => t.(plus := true)
    case ' ' => t.(space := true)
    case '#' => t.(special := true)
    case '0' => t.(zeropad := true)
    case _ => t
  }

  /** The flags from `i` on, added to `t`, and where they end. */
  function ReadFlags(fmt: string, i: nat, t: Flags): (r: (Flags, nat))
    requires i <= |fmt|
    ensures i <= r.1 <= |fmt|
    decreases |fmt| - i
  {
    if i < |fmt| && IsFlag(fmt[i]) then ReadFlags(fmt, i + 1, AddFlag(t, fmt[i])) else (t, i)
  }

  /** The digits or the asterisk at `i`. */
  function ReadNumber(fmt: string, i: nat): (r: (Amount, nat))
    requires i <= |fmt|
    ensures i <= r.1 <= |fmt|
  {
    if IsDigit(At(fmt, i)) then var e := RunEnd(fmt, i, 10); (Given(ToLong(Value(fmt[i..e], 10))), e)
    else if At(fmt, i) == '*' then (FromArg, i + 1)
    else (Absent, i)
  }

  function ReadPrecision(fmt: string, i: nat): (r: (Amount, nat))
    requires i <= |fmt|
    ensures i <= r.1 <= |fmt|
  {
    if At(fmt, i) == '.' then
      var (n, j) := ReadNumber(fmt, i + 1); (if n == Absent then Given(0) else n, j)
    else (Absent, i)
  }

  predicate IsQualifier(c: char) { c == 'h' || c == 'l' || c == 'L' }

  /** The directive at `i`, and where the next one begins. */
  function ReadDirective(fmt: string, i: nat): (r: (Directive, nat))
    requires i < |fmt|
    ensures i < r.1 <= |fmt|
  {
    if fmt[i] != '%' then (Plain(fmt[i]), i + 1)
    else
      var (t, j) := ReadFlags(fmt, i + 1, NO_FLAGS);
      var (width, k) := ReadNumber(fmt, j);
      var (precision, l) := ReadPrecision(fmt, k);
      var qualifier := if IsQualifier(At(fmt, l)) then At(fmt, l) else '\0';
      var m := if qualifier == '\0' then l else l + 1;
      (Conversion(t, width, precision, qualifier, At(fmt, m)), if m < |fmt| then m + 1 else m)
  }

  function Directives(fmt: string, i: nat): seq<Directive>
    requires i <= |fmt|
    decreases |fmt| - i
  {
    if i == |fmt| then [] else var (d, next) := ReadDirective(fmt, i); [d] + Directives(fmt, next)
  }

  // ---- Rendering ----

  function Fetches(n: Amount): nat { if n == FromArg then 1 else 0 }

  predicate IsIntConv(c: char) { c == 'o' || c == 'x' || c == 'X' || c == 'd' || c == 'i' || c == 'u' }

  /** The argument that the conversion itself fetches fits it. */
  ghost predicate SuitsConv(conv: char, args: seq<Arg>) {
    if conv == 'c' || IsIntConv(conv) then |args| > 0 && args[0].Word?
    else if conv == 's' then
      |args| > 0 && args[0].Text? && (args[0].s.Some? ==> NulFree(args[0].s.value) && |args[0].s.value| < ULONG_MAX)
    else if conv == 'p' then |args| > 0 && args[0].Address?
    else if conv == 'n' then |args| > 0 && args[0].Counter?
    else true
  }

  function ConvFetches(conv: char): nat {
    if conv == 'c' || conv == 's' || conv == 'p' || conv == 'n' || IsIntConv(conv) then 1 else 0
  }

  /** The arguments are there and have the types that the directive fetches. */
  ghost predicate Suits(d: Directive, args: seq<Arg>) {
    d.Plain? ||
    var w, p := Fetches(d.width), Fetches(d.precision);
    && |args| >= w + p
    && (w == 1 ==> args[0].Word?) && (p == 1 ==> args[w].Word?)
    && SuitsConv(d.conv, args[w + p..])
  }

  function Fetched(d: Directive): nat {
    if d.Plain? then 0 else Fetches(d.width) + Fetches(d.precision) + ConvFetches(d.conv)
  }

  /** Flags and field width: -1 if absent, and a negative argument asks for its size, left
      justified. */
  function NumberOrArg(n: Amount, args: seq<Arg>, t: Flags): (Flags, int)
    requires n.FromArg? ==> |args| > 0 && args[0].Word?
  {
    match n
    case Absent => (t, -1)
    case Given(w) => (t, w)
    case FromArg => var w := ToLong(args[0].v); if w < 0 then (t.(left := true), ToLong(-w)) else (t, w)
  }

  /** The precision, -1 if absent, at least 0 if given. */
  function PrecisionOf(d: Directive, args: seq<Arg>): (p: int)
    requires d.Conversion? && Suits(d, args)
    ensures p >= -1
  {
    match d.precision
    case Absent => -1
    case Given(n) => Max(n, 0)
    case FromArg => Max(ToLong(args[Fetches(d.width)].v), 0)
  }

  /** The long that an integer conversion prints: cut to 16 bits after h. */
  function IntOf(v: int, qualifier: char, signed: bool): (r: int)
    ensures IsLong(r)
  {
    if qualifier != 'h' then ToLong(v)
    else if signed then (v + 0x8000) % 0x1_0000 - 0x8000
    else v % 0x1_0000
  }

  /** A character in its field. The blanks behind it are what the second of two loops finds, which
      has taken one more off the width, in 32 bits. */
  function CharText(v: int, width: int, t: Flags): string {
    var room := ToLong(width - 1);
    Fill(' ', if t.left then 0 else room) + [(v % 256) as char]
    + Fill(' ', if t.left then room else if room == LONG_MIN then LONG_MAX else 0)
  }

  function TextOf(s: Option<string>): string { if s.Some? then s.value else "<NULL>" }

  /** How much of a string is printed, as an int; no precision, -1, cuts nothing off. */
  function Cut(s: string, precision: int): (len: int)
    ensures IsLong(len) && len <= |s|
  {
    var count := ToUlong(precision); ToLong(if count < |s| then count else |s|)
  }

  /** What `while (len < width--)` leaves of the width. */
  function DropTo(width: int, len: int): int { ToLong((if width > len then len else width) - 1) }

  function StringText(s: Option<string>, width: int, precision: int, t: Flags): string {
    var len := Cut(TextOf(s), precision);
    Fill(' ', if t.left then 0 else width - len) + TextOf(s)[..Max(len, 0)]
    + Fill(' ', (if t.left then width else DropTo(width, len)) - len)
  }

  /** A character fills its field exactly when the width is not next to LONG_MIN. */
  lemma CharFillsField(v: int, width: int, t: Flags)
    requires IsLong(width)
    ensures |CharText(v, width, t)| == Max(width, 1) <==> width > LONG_MIN + if t.left then 0 else 1
  {
  }

  /** So does a string, but for one of LONG_MAX characters, behind which nothing can follow. */
  lemma StringFillsField(s: Option<string>, width: int, precision: int, t: Flags)
    requires IsLong(width) && |TextOf(s)| <= LONG_MAX
    ensures var len := Cut(TextOf(s), precision);
      && len == (if ToUlong(precision) < |TextOf(s)| then ToUlong(precision) else |TextOf(s)|)
      && (|StringText(s, width, precision, t)| == Max(width, len) <==> width > LONG_MIN || t.left || len == LONG_MAX)
  {
    hide ToUlong, TextOf;
  }

  function BaseOf(conv: char): nat { if conv == 'o' then 8 else if conv == 'x' || conv == 'X' then 16 else 10 }

  function IntFlags(conv: char, t: Flags): Flags {
    t.(large := conv == 'X', sign := conv == 'd' || conv == 'i')
  }

  /** A character that is no conversion is printed after its percent sign; %% prints one, and so
      does a percent sign that ends the format. */
  function OtherText(c: char): string {
    if c == '%' || c == '\0' then "%" else "%" + [c]
  }

  /** What a directive prints. */
  function Render(d: Directive, args: seq<Arg>): string
    requires Suits(d, args)
  {
    if d.Plain? then [d.c]
    else
      var own := args[Fetches(d.width) + Fetches(d.precision)..];
      var precision, (t, width) := PrecisionOf(d, args), NumberOrArg(d.width, args, d.flags);
      if d.conv == 'c' then CharText(own[0].v, width, t)
      else if d.conv == 's' then StringText(own[0].s, width, precision, t)
      else if d.conv == 'p' then
        NumberText(ToLong(own[0].a), 16, if width == -1 then 8 else width, precision,
                   if width == -1 then t.(zeropad := true) else t)
      else if d.conv == 'n' then ""
      else if IsIntConv(d.conv) then
        var it := IntFlags(d.conv, t);
        NumberText(IntOf(own[0].v, d.qualifier, it.sign), BaseOf(d.conv), width, precision, it)
      else OtherText(d.conv)
  }

  /** A %n puts the length of the output before it into its target. */
  datatype Store = Store(target: nat, length: nat)

  /** The output of a format, and what its %n directives store. */
  datatype Output = Output(text: string, stores: seq<Store>) {
    function After(first: Output): Output { Output(first.text + text, first.stores + stores) }
  }

  ghost predicate AllSuit(ds: seq<Directive>, args: seq<Arg>) {
    ds == [] || (Suits(ds[0], args) && Fetched(ds[0]) <= |args| && AllSuit(ds[1..], args[Fetched(ds[0])..]))
  }

  /** What the directive itself stores. */
  function OwnStore(d: Directive, args: seq<Arg>, produced: nat): seq<Store>
    requires Suits(d, args)
  {
    if d.Conversion? && d.conv == 'n' then
      [Store(args[Fetches(d.width) + Fetches(d.precision)].target, produced)]
    else []
  }

  /** `produced` characters have been printed before. */
  ghost function RenderAll(ds: seq<Directive>, args: seq<Arg>, produced: nat): Output
    requires AllSuit(ds, args)
  {
    if ds == [] then Output("", [])
    else
      var text := Render(ds[0], args);
      var rest := RenderAll(ds[1..], args[Fetched(ds[0])..], produced + |text|);
      Output(text + rest.text, OwnStore(ds[0], args, produced) + rest.stores)
  }

  // ---- Laws ----

  /** The arguments that a sequence of directives leaves. */
  ghost function Left(ds: seq<Directive>, args: seq<Arg>): seq<Arg>
    requires AllSuit(ds, args)
  {
    if ds == [] then args else Left(ds[1..], args[Fetched(ds[0])..])
  }

  /** Output is concatenated directive by directive, and what a %n stores is the length of the
      output before it. */
  lemma {:induction false} RenderConcat(ds: seq<Directive>, es: seq<Directive>, args: seq<Arg>, produced: nat)
    requires AllSuit(ds, args) && AllSuit(es, Left(ds, args))
    ensures AllSuit(ds + es, args)
    ensures var first := RenderAll(ds, args, produced);
      var second := RenderAll(es, Left(ds, args), produced + |first.text|);
      RenderAll(ds + es, args, produced) == Output(first.text + second.text, first.stores + second.stores)
    decreases |ds|
  {
    hide AllSuit, RenderAll, Left, Suits, Render, Fetched;
    if ds == [] {
      assert ds + es == es;
      NoDirective(args, produced);
    } else {
      var rest := ds[1..] + es;
      assert ds == [ds[0]] + ds[1..] && ds + es == [ds[0]] + rest;
      RenderCons(ds[0], ds[1..], args, produced);
      var left, n := args[Fetched(ds[0])..], produced + |Render(ds[0], args)|;
      RenderConcat(ds[1..], es, left, n);
      RenderCons(ds[0], rest, args, produced);
    }
  }

  lemma NoDirective(args: seq<Arg>, produced: nat)
    ensures AllSuit([], args) && Left([], args) == args && RenderAll([], args, produced) == Output("", [])
  {
  }

  lemma RenderCons(d: Directive, rest: seq<Directive>, args: seq<Arg>, produced: nat)
    ensures AllSuit([d] + rest, args) <==>
            Suits(d, args) && Fetched(d) <= |args| && AllSuit(rest, args[Fetched(d)..])
    ensures AllSuit([d] + rest, args) ==>
              var text := Render(d, args);
              var out := RenderAll(rest, args[Fetched(d)..], produced + |text|);
              && Left([d] + rest, args) == Left(rest, args[Fetched(d)..])
              && RenderAll([d] + rest, args, produced)
                 == Output(text + out.text, OwnStore(d, args, produced) + out.stores)
  {
    hide Suits, Render, Fetched;
    assert ([d] + rest)[1..] == rest;
  }

  lemma OneDirective(d: Directive, args: seq<Arg>, produced: nat)
    requires AllSuit([d], args)
    ensures Suits(d, args)
    ensures RenderAll([d], args, produced)
         == Output(Render(d, args), OwnStore(d, args, produced))
  {
    assert [d] == [d] + [];
    RenderCons(d, [], args, produced);
    NoDirective(args[Fetched(d)..], produced + |Render(d, args)|);
  }

  /** A %n after the directives `ds` stores the length of what they printed, in its own target. */
  lemma CounterStoresLength(ds: seq<Directive>, n: Directive, args: seq<Arg>)
    requires AllSuit(ds, args) && n.Conversion? && n.conv == 'n'
    requires AllSuit([n], Left(ds, args))
    ensures AllSuit(ds + [n], args)
    ensures var k := Fetches(n.width) + Fetches(n.precision);
      && k < |Left(ds, args)| && Left(ds, args)[k].Counter?
      && var before, out := RenderAll(ds, args, 0), RenderAll(ds + [n], args, 0);
         && out.text == before.text
         && out.stores == before.stores + [Store(Left(ds, args)[k].target, |before.text|)]
  {
    hide AllSuit, RenderAll, Left;
    RenderConcat(ds, [n], args, 0);
    OneDirective(n, Left(ds, args), |RenderAll(ds, args, 0).text|);
  }

  function DoublePercents(s: string): string {
    if s == "" then "" else (if s[0] == '%' then "%%" else [s[0]]) + DoublePercents(s[1..])
  }

  /** A text with its percent signs doubled is a format that prints the text. */
  lemma {:induction false} DoubledPrintsItself(s: string, before: string, produced: nat)
    ensures var ds := Directives(before + DoublePercents(s), |before|);
      AllSuit(ds, []) && RenderAll(ds, [], produced) == Output(s, [])
    decreases |s|
  {
    hide AllSuit, RenderAll, Directives, Suits, Render, Fetched, ReadDirective;
    var fmt := before + DoublePercents(s);
    if s == "" {
      DirectivesEnd(fmt);
      NoDirective([], produced);
    } else {
      var piece := if s[0] == '%' then "%%" else [s[0]];
      DoubledPrintsItself(s[1..], before + piece, produced + 1);
      assert (before + piece) + DoublePercents(s[1..]) == fmt;
      assert fmt[|before|] == s[0] && (s[0] == '%' ==> fmt[|before| + 1] == '%');
      CharacterDirective(fmt, |before|);
      DirectivesNext(fmt, |before|);
      var (d, next) := ReadDirective(fmt, |before|);
      RenderCons(d, Directives(fmt, next), [], produced);
      assert s == [s[0]] + s[1..];
    }
  }

  lemma DirectivesEnd(fmt: string)
    ensures Directives(fmt, |fmt|) == []
  {
  }

  lemma DirectivesNext(fmt: string, i: nat)
    requires i < |fmt|
    ensures var (d, next) := ReadDirective(fmt, i); Directives(fmt, i) == [d] + Directives(fmt, next)
  {
    hide ReadDirective;
  }

  /** An ordinary character, and %%, print one character and fetch nothing. */
  lemma CharacterDirective(fmt: string, i: nat)
    requires i < |fmt| && (fmt[i] == '%' ==> i + 1 < |fmt| && fmt[i + 1] == '%')
    ensures var (d, next) := ReadDirective(fmt, i);
      && next == (if fmt[i] == '%' then i + 2 else i + 1)
      && Suits(d, []) && Fetched(d) == 0 && Render(d, []) == [fmt[i]] && (d.Conversion? ==> d.conv != 'n')
  {
    if fmt[i] == '%' {
      assert ReadFlags(fmt, i + 1, NO_FLAGS) == (NO_FLAGS, i + 1);
      assert ReadDirective(fmt, i) == (Conversion(NO_FLAGS, Absent, Absent, '\0', '%'), i + 2);
    }
  }

  // ---- The formatter ----

  /** util/vsprintf.c, skip_atoi, with int arithmetic that wraps. */
  method SkipAtoi(fmt: string, i: nat) returns (n: int, j: nat)
    requires NulFree(fmt) && i <= |fmt|
    ensures j == RunEnd(fmt, i, 10) && n == ToLong(Value(fmt[i..j], 10))
  {
    hide RunEnd, Value, ToLong;
    n, j := 0, i;
    EmptyRun(fmt, i, 10);
    ToLongSmall(0);
    while IsDigit(At(fmt, j))
      invariant i <= j <= RunEnd(fmt, i, 10) == RunEnd(fmt, j, 10)
      invariant n == ToLong(Value(fmt[i..j], 10))
      decreases |fmt| - j
    {
      RunStep(fmt, i, j, 10);
      ToLongStep(Value(fmt[i..j], 10), DigitOf(fmt[j]));
      n := ToLong(n * 10 + (At(fmt, j) as int - '0' as int));
      j := j + 1;
    }
    RunStep(fmt, i, j, 10);
  }

  /** util/vsprintf.c, strnlen. */
  method Strnlen(s: string, count0: nat) returns (len: nat)
    requires NulFree(s)
    ensures len == if count0 < |s| then count0 else |s|
  {
    var count := count0;
    len := 0;
    while At(s, len) != '\0' && count != 0
      invariant len <= |s| && len + count == count0
      decreases |s| - len
    {
      count := count - 1;
      len := len + 1;
    }
  }

  /** The flags after the percent sign at `i` (util/vsprintf.c, lines 236-245). */
  method TakeFlags(fmt: string, i: nat) returns (t: Flags, j: nat)
    requires NulFree(fmt) && i < |fmt|
    ensures (t, j) == ReadFlags(fmt, i + 1, NO_FLAGS)
  {
    t := NO_FLAGS;
    j := i + 1;
    while true
      invariant i < j <= |fmt| && ReadFlags(fmt, j, t) == ReadFlags(fmt, i + 1, NO_FLAGS)
      decreases |fmt| - j
    {
      var c := At(fmt, j);
      if c == '-' {
        t := t.(left := true);
      } else if c == '+' {
        t := t.(plus := true);
      } else if c == ' ' {
        t := t.(space := true);
      } else if c == '#' {
        t := t.(special := true);
      } else if c == '0' {
        t := t.(zeropad := true);
      } else {
        return;
      }
      j := j + 1;
    }
  }

  /** The field width at `i` (util/vsprintf.c, lines 248-259). */
  method TakeWidth(fmt: string, i: nat, args: seq<Arg>, k: nat, t0: Flags)
    returns (t: Flags, width: int, j: nat, k': nat)
    requires NulFree(fmt) && i <= |fmt| && k <= |args|
    requires ReadNumber(fmt, i).0.FromArg? ==> k < |args| && args[k].Word?
    ensures var (n, next) := ReadNumber(fmt, i);
      j == next && k' == k + Fetches(n) && (t, width) == NumberOrArg(n, args[k..], t0)
  {
    hide ToLong, Value, RunEnd;
    width, j, k', t := -1, i, k, t0;
    if IsDigit(At(fmt, j)) {
      width, j := SkipAtoi(fmt, j);
    } else if At(fmt, j) == '*' {
      j := j + 1;
      width := ToLong(args[k'].v);
      k' := k' + 1;
      if width < 0 {
        width := ToLong(-width);
        t := t.(left := true);
      }
    }
  }

  /** The precision at `i` (util/vsprintf.c, lines 262-274). */
  method TakePrecision(fmt: string, i: nat, args: seq<Arg>, k: nat) returns (precision: int, j: nat, k': nat)
    requires NulFree(fmt) && i <= |fmt| && k <= |args|
    requires ReadPrecision(fmt, i).0.FromArg? ==> k < |args| && args[k].Word?
    ensures var (n, next) := ReadPrecision(fmt, i);
      j == next && k' == k + Fetches(n)
      && precision == match n
                      case Absent => -1
                      case Given(p) => Max(p, 0)
                      case FromArg => Max(ToLong(args[k].v), 0)
  {
    hide ToLong, Value, RunEnd;
    precision, j, k' := -1, i, k;
    if At(fmt, j) == '.' {
      j := j + 1;
      if IsDigit(At(fmt, j)) {
        precision, j := SkipAtoi(fmt, j);
      } else if At(fmt, j) == '*' {
        j := j + 1;
        precision := ToLong(args[k'].v);
        k' := k' + 1;
      }
      if precision < 0 { precision := 0; }
    }
  }

  /** Flags, field width, precision and qualifier after the percent sign at `i` (util/vsprintf.c,
      lines 236-281): `j` is left at the conversion character, `k'` at its argument. */
  method TakeSpec(fmt: string, i: nat, args: seq<Arg>, k: nat)
    returns (t: Flags, width: int, precision: int, qualifier: char, j: nat, k': nat)
    requires NulFree(fmt) && i < |fmt| && fmt[i] == '%' && k <= |args|
    requires Suits(ReadDirective(fmt, i).0, args[k..])
    ensures var (d, next) := ReadDirective(fmt, i);
      && k' == k + Fetches(d.width) + Fetches(d.precision)
      && j <= |fmt| && d.conv == At(fmt, j) && next == (if j < |fmt| then j + 1 else j)
      && (t, width) == NumberOrArg(d.width, args[k..], d.flags) && precision == PrecisionOf(d, args[k..])
      && qualifier == d.qualifier
  {
    hide ReadFlags, ReadNumber, ReadPrecision, ToLong, SuitsConv;
    k' := k;
    t, j := TakeFlags(fmt, i);
    t, width, j, k' := TakeWidth(fmt, j, args, k', t);
    precision, j, k' := TakePrecision(fmt, j, args, k');
    qualifier := '\0';
    if At(fmt, j) == 'h' || At(fmt, j) == 'l' || At(fmt, j) == 'L' {
      qualifier := At(fmt, j);
      j := j + 1;
    }
  }

  /** `while (--width > 0) *str++ = ' ';` */
  method PadBelow(buf: array<char>, str: nat, width0: int) returns (end: nat, width: int)
    requires IsLong(width0) && str + Max(ToLong(width0 - 1), 0) <= buf.Length
    modifies buf
    ensures var room := ToLong(width0 - 1);
      && end == str + Max(room, 0) && width == Min(room, 0)
      && buf[..] == WriteAt(old(buf[..]), str, Fill(' ', room))
  {
    hide ToLong;
    end, width := str, ToLong(width0 - 1);
    ghost var room := width;
    while width > 0
      invariant str <= end <= buf.Length && width <= room && end - str == room - width
      invariant width >= 0 || width == room
      invariant forall k :: 0 <= k < buf.Length ==> buf[k] == if str <= k < end then ' ' else old(buf[k])
    {
      buf[end] := ' ';
      end := end + 1;
      width := width - 1;
    }
  }

  /** `while (len < width--) *str++ = ' ';` */
  method PadTo(buf: array<char>, str: nat, len: int, width0: int) returns (end: nat, width: int)
    requires IsLong(width0) && IsLong(len) && str + Max(width0 - len, 0) <= buf.Length
    modifies buf
    ensures end == str + Max(width0 - len, 0) && width == DropTo(width0, len)
    ensures buf[..] == WriteAt(old(buf[..]), str, Fill(' ', width0 - len))
  {
    hide ToLong;
    end, width := str, width0;
    while len < width
      invariant str <= end <= buf.Length && width <= width0 && end - str == width0 - width
      invariant width >= len || width == width0
      invariant forall k :: 0 <= k < buf.Length ==> buf[k] == if str <= k < end then ' ' else old(buf[k])
    {
      buf[end] := ' ';
      end := end + 1;
      width := width - 1;
    }
    width := ToLong(width - 1);
  }

  /** %c (util/vsprintf.c, lines 288-293). */
  method EmitChar(buf: array<char>, str: nat, v: int, width0: int, t: Flags) returns (at: nat)
    requires IsLong(width0) && str + |CharText(v, width0, t)| <= buf.Length
    modifies buf
    ensures at == str + |CharText(v, width0, t)|
    ensures buf[..] == WriteAt(old(buf[..]), str, CharText(v, width0, t))
  {
    hide WriteAt;
    ghost var buf0 := buf[..];
    ghost var lead := Fill(' ', if t.left then 0 else ToLong(width0 - 1));
    var width := width0;
    var c := (v % 256) as char;
    at := str;
    WriteNothing(buf0, at);
    if !t.left { at, width := PadBelow(buf, at, width); }
    WriteTwice(buf0, str, lead, [c]);
    at := Put(buf, at, [c]);
    WriteTwice(buf0, str, lead + [c], Fill(' ', ToLong(width - 1)));
    at, width := PadBelow(buf, at, width);
  }

  /** %s (util/vsprintf.c, lines 297-309). */
  method EmitString(buf: array<char>, str: nat, s0: Option<string>, width0: int, precision: int, t: Flags)
    returns (at: nat)
    requires s0.Some? ==> NulFree(s0.value) && |s0.value| < ULONG_MAX
    requires IsLong(width0) && str + |StringText(s0, width0, precision, t)| <= buf.Length
    modifies buf
    ensures at == str + |StringText(s0, width0, precision, t)|
    ensures buf[..] == WriteAt(old(buf[..]), str, StringText(s0, width0, precision, t))
  {
    hide WriteAt, ToUlong, ToLong;
    ghost var buf0 := buf[..];
    var s := if s0 == None then "<NULL>" else s0.value;
    var n := Strnlen(s, ToUlong(precision));
    var len := ToLong(n);
    assert len == Cut(TextOf(s0), precision);
    ghost var lead := Fill(' ', if t.left then 0 else width0 - len);
    var part := s[..Max(len, 0)];
    var width := width0;
    at := str;
    WriteNothing(buf0, at);
    if !t.left { at, width := PadTo(buf, at, len, width); }
    WriteTwice(buf0, str, lead, part);
    at := Put(buf, at, part);
    WriteTwice(buf0, str, lead + part, Fill(' ', width - len));
    at, width := PadTo(buf, at, len, width);
  }

  /** A conversion character that is none (util/vsprintf.c, lines 351-356). */
  method EmitOther(buf: array<char>, str: nat, c: char) returns (at: nat)
    requires str + |OtherText(c)| <= buf.Length
    modifies buf
    ensures at == str + |OtherText(c)| && buf[..] == WriteAt(old(buf[..]), str, OtherText(c))
  {
    hide WriteAt;
    ghost var buf0 := buf[..];
    at := str;
    if c != '%' { at := Put(buf, at, "%"); }
    if c != '\0' {
      if c != '%' { WriteTwice(buf0, str, "%", [c]); }
      at := Put(buf, at, [c]);
    }
  }

  /** The conversion character and what it prints (util/vsprintf.c, lines 283-370). */
  method EmitConversion(buf: array<char>, str: nat, c: char, qualifier: char, ghost d: Directive, ghost args: seq<Arg>,
                        own: seq<Arg>, width0: int, precision: int, t0: Flags)
    returns (at: nat, stores: seq<Store>)
    requires d.Conversion? && c == d.conv && qualifier == d.qualifier && Suits(d, args)
    requires own == args[Fetches(d.width) + Fetches(d.precision)..]
    requires (t0, width0) == NumberOrArg(d.width, args, d.flags) && precision == PrecisionOf(d, args)
    requires IsLong(width0) && IsLong(precision) && !t0.sign && !t0.large && str + |Render(d, args)| <= buf.Length
    modifies buf
    ensures at == str + |Render(d, args)| && buf[..] == WriteAt(old(buf[..]), str, Render(d, args))
    ensures stores == OwnStore(d, args, str)
  {
    hide WriteAt, CharText, StringText, NumberText, ToLong, IntOf, NumberOrArg, PrecisionOf;
    var width, t := width0, t0;
    at, stores := str, [];
    var base := 10;
    WriteNothing(buf[..], str);
    if c == 'c' {
      at := EmitChar(buf, at, own[0].v, width, t);
    } else if c == 's' {
      at := EmitString(buf, at, own[0].s, width, precision, t);
    } else if c == 'p' {
      if width == -1 {
        width := 8;
        t := t.(zeropad := true);
      }
      var end := Number(buf, at, ToLong(own[0].a), 16, width, precision, t);
      at := end.value;
    } else if c == 'n' {
      stores := [Store(own[0].target, at)];
    } else if IsIntConv(c) {
      if c == 'o' {
        base := 8;
      } else if c == 'X' {
        t := t.(large := true);
        base := 16;
      } else if c == 'x' {
        base := 16;
      } else if c != 'u' {
        t := t.(sign := true);
      }
      var num := IntOf(own[0].v, qualifier, t.sign);
      var end := Number(buf, at, num, base, width, precision, t);
      at := end.value;
    } else {
      at := EmitOther(buf, at, c);
    }
  }

  lemma FlagsRead(fmt: string, i: nat, t: Flags)
    requires i <= |fmt| && !t.sign && !t.large
    ensures var r := ReadFlags(fmt, i, t).0; !r.sign && !r.large
    decreases |fmt| - i
  {
  }

  /** What a directive read from a format can hold. */
  lemma DirectiveRead(fmt: string, i: nat, args: seq<Arg>)
    requires i < |fmt| && fmt[i] == '%' && Suits(ReadDirective(fmt, i).0, args)
    ensures var d := ReadDirective(fmt, i).0;
      && d.Conversion? && IsLong(PrecisionOf(d, args))
      && var (t, width) := NumberOrArg(d.width, args, d.flags); IsLong(width) && !t.sign && !t.large
  {
    FlagsRead(fmt, i + 1, NO_FLAGS);
  }

  /** One turn of the loop of vsprintf for a percent sign at `i` (util/vsprintf.c, lines 236-370). */
  method Convert(buf: array<char>, str: nat, fmt: string, i: nat, args: seq<Arg>, k: nat)
    returns (at: nat, next: nat, k': nat, stores: seq<Store>)
    requires NulFree(fmt) && i < |fmt| && fmt[i] == '%' && k <= |args|
    requires var d := ReadDirective(fmt, i).0;
      Suits(d, args[k..]) && Fetched(d) <= |args[k..]| && str + |Render(d, args[k..])| <= buf.Length
    modifies buf
    ensures var d := ReadDirective(fmt, i).0;
      && next == ReadDirective(fmt, i).1 && k' == k + Fetched(d)
      && at == str + |Render(d, args[k..])| && buf[..] == WriteAt(old(buf[..]), str, Render(d, args[k..]))
      && stores == OwnStore(d, args[k..], str)
  {
    hide WriteAt, ReadDirective, Suits, Render, NumberOrArg, PrecisionOf;
    ghost var d := ReadDirective(fmt, i).0;
    DirectiveRead(fmt, i, args[k..]);
    var t, width, precision, qualifier, j;
    t, width, precision, qualifier, j, k' := TakeSpec(fmt, i, args, k);
    ghost var own := args[k..][Fetches(d.width) + Fetches(d.precision)..];
    assert own == args[k'..];
    var conv := At(fmt, j);
    at, stores := EmitConversion(buf, str, conv, qualifier, d, args[k..], args[k'..], width, precision, t);
    if ConvFetches(conv) == 1 { k' := k' + 1; }
    next := if conv != '\0' then j + 1 else j;
  }

  /** util/vsprintf.c, vsprintf: it writes the output and a NUL to `buf`, returns the length, and
      stores through the arguments of %n. */
  method VSprintf(buf: array<char>, fmt: string, args: seq<Arg>) returns (len: nat, stores: seq<Store>)
    requires NulFree(fmt) && AllSuit(Directives(fmt, 0), args)
    requires |RenderAll(Directives(fmt, 0), args, 0).text| < buf.Length
    modifies buf
    ensures var out := RenderAll(Directives(fmt, 0), args, 0);
      len == |out.text| && stores == out.stores && buf[..] == WriteAt(old(buf[..]), 0, out.text + "\0")
  {
    hide WriteAt, AllSuit, RenderAll, Directives, ReadDirective, Render, Suits, Fetched, OwnStore;
    ghost var buf0 := buf[..];
    ghost var out := RenderAll(Directives(fmt, 0), args, 0);
    ghost var done := "";
    ghost var left := args;
    WriteNothing(buf0, 0);
    var str: nat, i: nat, k: nat := 0, 0, 0;
    stores := [];
    AfterNothing(out);
    while At(fmt, i) != '\0'
      invariant i <= |fmt| && k <= |args| && left == args[k..] && str == |done|
      invariant AllSuit(Directives(fmt, i), left)
      invariant out == RenderAll(Directives(fmt, i), left, str).After(Output(done, stores))
      invariant |done| <= buf.Length && buf[..] == WriteAt(buf0, 0, done)
      decreases |fmt| - i
    {
      ghost var (d, next) := ReadDirective(fmt, i);
      NextDirective(fmt, i, left, Output(done, stores));
      ghost var text := Render(d, left);
      WriteTwice(buf0, 0, done, text);
      done := done + text;
      if At(fmt, i) != '%' {
        PlainDirective(fmt, i, left);
        str := Put(buf, str, [fmt[i]]);
        i := i + 1;
      } else {
        var stored;
        str, i, k, stored := Convert(buf, str, fmt, i, args, k);
        stores := stores + stored;
      }
      left := left[Fetched(d)..];
    }
    LastDirective(fmt, left, Output(done, stores));
    WriteTwice(buf0, 0, done, "\0");
    var end := Put(buf, str, "\0");
    len := str;
  }

  lemma AfterNothing(o: Output)
    ensures o.After(Output("", [])) == o
  {
  }

  lemma LastDirective(fmt: string, args: seq<Arg>, done: Output)
    requires AllSuit(Directives(fmt, |fmt|), args)
    ensures RenderAll(Directives(fmt, |fmt|), args, |done.text|).After(done) == done
  {
    NoDirective(args, |done.text|);
  }

  /** One turn of the loop moves one directive's text and stores to what is done. */
  lemma NextDirective(fmt: string, i: nat, args: seq<Arg>, done: Output)
    requires i < |fmt| && AllSuit(Directives(fmt, i), args)
    ensures var (d, next) := ReadDirective(fmt, i);
      && Suits(d, args) && Fetched(d) <= |args| && AllSuit(Directives(fmt, next), args[Fetched(d)..])
      && var now := Output(done.text + Render(d, args), done.stores + OwnStore(d, args, |done.text|));
         && RenderAll(Directives(fmt, i), args, |done.text|).After(done)
            == RenderAll(Directives(fmt, next), args[Fetched(d)..], |now.text|).After(now)
         && |now.text| <= |RenderAll(Directives(fmt, i), args, |done.text|).After(done).text|
  {
    hide AllSuit, RenderAll, ReadDirective, Render, Suits, Fetched, OwnStore;
    var (d, next) := ReadDirective(fmt, i);
    RenderCons(d, Directives(fmt, next), args, |done.text|);
    var rest := RenderAll(Directives(fmt, next), args[Fetched(d)..], |done.text| + |Render(d, args)|);
    assert done.text + (Render(d, args) + rest.text) == (done.text + Render(d, args)) + rest.text;
    var own := OwnStore(d, args, |done.text|);
    assert done.stores + (own + rest.stores) == (done.stores + own) + rest.stores;
  }

  lemma PlainDirective(fmt: string, i: nat, args: seq<Arg>)
    requires i < |fmt| && fmt[i] != '%'
    ensures ReadDirective(fmt, i) == (Plain(fmt[i]), i + 1)
    ensures Suits(Plain(fmt[i]), args) && Fetched(Plain(fmt[i])) == 0 && Render(Plain(fmt[i]), args) == [fmt[i]]
    ensures forall n :: OwnStore(Plain(fmt[i]), args, n) == []
  {
  }

  /** What `number` is given to print for an integer directive. */
  datatype Field = Field(num: int, base: nat, width: int, precision: int, t: Flags)

  function FieldOf(d: Directive, args: seq<Arg>): (f: Field)
    requires d.Conversion? && IsIntConv(d.conv) && Suits(d, args)
    ensures IsLong(f.num) && f.base in {8, 10, 16}
  {
    var (t, width) := NumberOrArg(d.width, args, d.flags);
    var it := IntFlags(d.conv, t);
    Field(IntOf(args[Fetches(d.width) + Fetches(d.precision)].v, d.qualifier, it.sign), BaseOf(d.conv),
          width, PrecisionOf(d, args), it)
  }

  lemma IntRender(d: Directive, args: seq<Arg>)
    requires d.Conversion? && IsIntConv(d.conv) && Suits(d, args)
    ensures var f := FieldOf(d, args); Render(d, args) == NumberText(f.num, f.base, f.width, f.precision, f.t)
  {
    hide NumberText, ToLong, IntOf, PrecisionOf;
  }

  /** The wrapped width of an integer directive puts blanks between its sign or prefix and its digits. */
  ghost predicate Splits(d: Directive, args: seq<Arg>)
    requires d.Conversion? && IsIntConv(d.conv) && Suits(d, args)
  {
    var f := FieldOf(d, args); RoundTrip.Splits(f.num, f.base, f.width, f.precision, f.t)
  }

  /** What an integer directive prints, under any qualifier, is read back: by strtol for %d and %i, by
      strtoul modulo 2^32 for all, up to the last digit, and with radix 0 under the # flag. That is so
      exactly when the width does not split it. */
  lemma IntDirectiveReadsBack(d: Directive, args: seq<Arg>, radix: int)
    requires d.Conversion? && IsIntConv(d.conv) && Suits(d, args)
    requires radix == BaseOf(d.conv) || (radix == 0 && d.flags.special && BaseOf(d.conv) != 10)
    ensures var signed := d.conv == 'd' || d.conv == 'i';
      var n := IntOf(args[Fetches(d.width) + Fetches(d.precision)].v, d.qualifier, signed);
      RoundTrip.ReadsBack(Render(d, args), radix, n, BaseOf(d.conv), signed) <==> !Splits(d, args)
  {
    hide NumberText, ToLong, IntOf, RoundTrip.Splits, RoundTrip.ReadsBack, PrecisionOf, Render;
    var f := FieldOf(d, args);
    IntRender(d, args);
    RoundTrip.PrintThenParse(f.num, f.base, f.width, f.precision, f.t, radix);
  }

  /** Without h, and unless the width splits it, that is the argument in 32 bits. */
  lemma LongDirectiveReadsBack(d: Directive, args: seq<Arg>)
    requires d.Conversion? && IsIntConv(d.conv) && d.qualifier != 'h' && Suits(d, args) && !Splits(d, args)
    ensures var v := args[Fetches(d.width) + Fetches(d.precision)].v;
      && (d.conv == 'd' || d.conv == 'i' ==> Strtol.LongOf(Render(d, args), 10) == ToLong(v))
      && Strtol.UlongOf(Render(d, args), BaseOf(d.conv)) == ToUlong(v)
  {
    hide Render, Splits, ToLong, ToUlong, Strtol.Read, Strtol.LongOf, Strtol.UlongOf, DigitOf;
    IntDirectiveReadsBack(d, args, BaseOf(d.conv));
    ToUlongOfLong(args[Fetches(d.width) + Fetches(d.precision)].v);
  }

  /** A width that was written out and has not wrapped, or that comes from an argument, does not split
      anything. */
  lemma OrdinaryWidthsDoNotSplit(d: Directive, args: seq<Arg>)
    requires d.Conversion? && IsIntConv(d.conv) && Suits(d, args)
    requires (d.width.Given? ==> 0 <= d.width.n <= LONG_MAX) && PrecisionOf(d, args) < LONG_MAX - 3
    ensures !Splits(d, args)
  {
    hide PrecisionOf, IntOf, ToLong, Room;
    var f := FieldOf(d, args);
    if !f.t.left { RoundTrip.OrdinaryFieldsDoNotSplit(f.num, f.base, f.width, f.precision, f.t); }
  }

  /** `%+2147483650d` of 5: the width wraps to LONG_MIN + 2. */
  lemma WrappedWidthSplits(d: Directive, args: seq<Arg>)
    requires d == Conversion(NO_FLAGS.(plus := true), Given(ToLong(2147483650)), Absent, '\0', 'd') && args == [Word(5)]
    ensures Suits(d, args) && Splits(d, args)
  {
    var f := FieldOf(d, args);
    assert f == Field(5, 10, LONG_MIN + 2, -1, d.flags.(sign := true));
    assert Digits(5, 10, f.t) == "5";
  }

  lemma ToUlongOfLong(v: int)
    ensures ToUlong(ToLong(v)) == ToUlong(v)
  {
    var q := (v - LONG_MIN) / TWO32;
    assert ToLong(v) == v - q * TWO32;
    assert v % TWO32 == (v - q * TWO32) % TWO32 by { UlongShift(v, -q); }
  }

  lemma UlongShift(x: int, k: int)
    ensures (x + k * TWO32) % TWO32 == x % TWO32
  {
    var q := x / TWO32;
    assert x + k * TWO32 == (q + k) * TWO32 + x % TWO32;
  }
}
