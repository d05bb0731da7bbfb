/** The command line scan of the sample base driver (skeleton/basedev/drv32_init_base.c, lines
    144-164), on strupr, strpbrk and strtoul. */
module InitOptions {
  import opened CStrings
  import opened Numerals
  import Strtol

  // ---- Upper-casing in place ----

  /** util/strupr.c, __mwdd32_strupr; `end` is where its loop stops. */
  method Strupr(buf: array<char>, ghost text: string) returns (end: nat)
    requires NulFree(text) && |text| < buf.Length && buf[..|text|] == text && buf[|text|] == '\0'
    modifies buf
    ensures end == |text| && buf[..end] == Upper(text)
    ensures forall k :: end <= k < buf.Length ==> buf[k] == old(buf[k])
  {
    end := 0;
    while buf[end] != '\0'
      invariant end <= |text|
      invariant forall k :: 0 <= k < buf.Length ==> buf[k] == if k < end then ToUpper(old(buf[k])) else old(buf[k])
      invariant forall k :: end <= k < |text| ==> buf[k] == text[k]
      decreases |text| - end
    {
      if IsLower(buf[end]) { buf[end] := (buf[end] as int - 'a' as int + 'A' as int) as char; }
      end := end + 1;
    }
    forall k | 0 <= k < |text| ensures buf[k] == Upper(text)[k] {
      assert old(buf[..|text|])[k] == text[k];
    }
  }

  // ---- Searching ----

  /** The first character of `accept` from `i` on. */
  function FirstOf(s: string, i: nat, accept: string): (r: Option<nat>)
    requires i <= |s|
    ensures r.Some? ==> i <= r.value < |s| && s[r.value] in accept
    ensures forall k :: i <= k < (if r.Some? then r.value else |s|) ==> s[k] !in accept
    decreases |s| - i
  {
    if i == |s| then None else if s[i] in accept then Some(i) else FirstOf(s, i + 1, accept)
  }

  /** util/STRPBRK.C, __mwdd32_strpbrk: a table of the characters to pass over, then one scan. */
  method Strpbrk(s: string, i: nat, accept: string) returns (r: Option<nat>)
    requires NulFree(s) && NulFree(accept) && IsBytes(s) && IsBytes(accept) && i <= |s|
    ensures r == FirstOf(s, i, accept)
  {
    var table := new bool[256](k => true);
    var j: nat := 0;
    while At(accept, j) != '\0'
      invariant j <= |accept|
      invariant forall c: char :: c as int < 256 ==> (table[c as int] <==> c !in accept[..j])
      decreases |accept| - j
    {
      table[At(accept, j) as int] := false;
      j := j + 1;
      assert accept[..j] == accept[..j - 1] + [accept[j - 1]];
    }
    assert accept[..j] == accept;
    table[0] := false;
    j := i;
    while table[At(s, j) as int]
      invariant i <= j <= |s| && FirstOf(s, j, accept) == FirstOf(s, i, accept)
      decreases |s| - j
    {
      j := j + 1;
    }
    r := if At(s, j) == '\0' then None else Some(j);
  }

  // ---- Meaning of a command line ----

  const MARKS := "-/"
  const IRQ := "IRQ_LEVEL:"

  /** `strncmp(s + i, word, |word|) == 0` */
  predicate HasWord(s: string, i: nat, word: string)
    requires i <= |s|
  {
    i + |word| <= |s| && s[i..i + |word|] == word
  }

  predicate IsQuiet(s: string, v: nat)
    requires v < |s|
  {
    HasWord(s, v + 1, "Q")
  }

  predicate IsIrq(s: string, v: nat)
    requires v < |s|
  {
    HasWord(s, v + 1, IRQ)
  }

  /** What follows the colon of the IRQ_LEVEL option marked at `v`. */
  function Argument(s: string, v: nat): string
    requires v < |s| && IsIrq(s, v)
  {
    s[v + 11..]
  }

  function IrqLevel(s: string, v: nat): nat
    requires v < |s| && IsIrq(s, v)
  {
    Strtol.UlongOf(Argument(s, v), 0) % 0x1_0000
  }

  /** Where the search goes on after the mark at `v`: past the number of an IRQ_LEVEL option. */
  function Resume(s: string, v: nat): (n: nat)
    requires v < |s|
    ensures v < n <= |s|
  {
    if IsIrq(s, v) then v + 11 + Strtol.Stop(Strtol.Read(Argument(s, v), 0)) else v + 1
  }

  /** The marks that the loop visits from `from` on. */
  function Visits(s: string, from: nat): (vs: seq<nat>)
    requires from <= |s|
    ensures Within(vs, s) && forall v <- vs :: from <= v < |s| && s[v] in MARKS
    decreases |s| - from
  {
    match FirstOf(s, from, MARKS)
    case None => []
    case Some(v) => [v] + Visits(s, Resume(s, v))
  }

  ghost predicate Within(vs: seq<nat>, s: string) {
    forall k :: 0 <= k < |vs| ==> vs[k] < |s|
  }

  datatype Settings = Settings(quiet: bool, irqOk: bool, irqLevel: nat)

  function Apply(s: string, v: nat, o: Settings): Settings
    requires v < |s|
  {
    if IsQuiet(s, v) then o.(quiet := true)
    else if IsIrq(s, v) then o.(irqOk := true, irqLevel := IrqLevel(s, v))
    else o
  }

  function ApplyAll(s: string, vs: seq<nat>, o: Settings): Settings
    requires Within(vs, s)
  {
    if vs == [] then o else ApplyAll(s, vs[1..], Apply(s, vs[0], o))
  }

  // ---- The loop ----

  method HasWordAt(s: string, i: nat, word: string) returns (r: bool)
    requires NulFree(s) && NulFree(word) && i <= |s|
    ensures r == HasWord(s, i, word)
  {
    for k := 0 to |word|
      invariant i + k <= |s| && s[i..i + k] == word[..k]
    {
      if At(s, i + k) != word[k] { return false; }
      assert s[i..i + k + 1] == s[i..i + k] + [s[i + k]];
    }
    return true;
  }

  /** The body of the loop for the mark at `v` (lines 146-163). */
  method Act(s: string, v: nat, o0: Settings) returns (o: Settings, i: nat)
    requires NulFree(s) && v < |s|
    ensures o == Apply(s, v, o0) && i == Resume(s, v)
  {
    hide Strtol.Read, Strtol.UlongOf;
    OneWord(s, v);
    o := o0;
    i := v + 1;
    var isQuiet := HasWordAt(s, i, "Q");
    if isQuiet {
      o := o.(quiet := true);
    } else {
      var isIrq := HasWordAt(s, i, IRQ);
      if isIrq {
        var level, stop := Strtol.Strtoul(s[i + 10..], 0);
        o := o.(irqOk := true, irqLevel := level % 0x1_0000);
        i := i + 10 + stop;
      }
    }
  }

  /** The scan: upper-case the command line, then act on every mark visited. */
  method ScanOptions(buf: array<char>, ghost text: string, irqLevel0: nat) returns (o: Settings)
    requires NulFree(text) && IsBytes(text) && |text| < buf.Length && buf[..|text|] == text && buf[|text|] == '\0'
    modifies buf
    ensures buf[..|text|] == Upper(text)
    ensures o == ApplyAll(Upper(text), Visits(Upper(text), 0), Settings(false, false, irqLevel0))
  {
    hide FirstOf, Apply, Visits, ApplyAll, Resume;
    var end := Strupr(buf, text);
    var s := buf[..end];
    o := Settings(false, false, irqLevel0);
    var tmp := Strpbrk(s, 0, MARKS);
    ghost var from := 0;
    while tmp != None
      invariant from <= |s| && s == Upper(text) && tmp == FirstOf(s, from, MARKS)
      invariant buf[..|text|] == Upper(text)
      invariant ApplyAll(s, Visits(s, from), o) == ApplyAll(s, Visits(s, 0), Settings(false, false, irqLevel0))
      decreases |s| - from
    {
      ghost var v := tmp.value;
      VisitStep(s, from, v, o);
      var i;
      o, i := Act(s, tmp.value, o);
      from := i;
      tmp := Strpbrk(s, i, MARKS);
    }
    ScanEnds(s, from, o);
  }

  lemma ScanEnds(s: string, from: nat, o: Settings)
    requires from <= |s| && FirstOf(s, from, MARKS) == None
    ensures ApplyAll(s, Visits(s, from), o) == o
  {
  }

  /** One turn of the loop acts on the first mark. */
  lemma VisitStep(s: string, from: nat, v: nat, o: Settings)
    requires from <= |s| && FirstOf(s, from, MARKS) == Some(v)
    ensures ApplyAll(s, Visits(s, from), o) == ApplyAll(s, Visits(s, Resume(s, v)), Apply(s, v, o))
  {
    hide FirstOf, Apply, Resume;
    assert Visits(s, from)[1..] == Visits(s, Resume(s, v));
  }

  lemma OneWord(s: string, v: nat)
    requires v < |s|
    ensures !(IsQuiet(s, v) && IsIrq(s, v))
  {
    if IsQuiet(s, v) { assert s[v + 1..v + 2][0] == 'Q'; }
    if IsIrq(s, v) { assert s[v + 1..v + 11][0] == 'I'; }
  }

  // ---- What the scan finds ----

  ghost predicate IsLastIrq(s: string, vs: seq<nat>, j: nat)
    requires Within(vs, s)
  {
    j < |vs| && IsIrq(s, vs[j]) && forall k :: j < k < |vs| ==> !IsIrq(s, vs[k])
  }

  lemma ApplyIs(s: string, v: nat, o: Settings)
    requires v < |s|
    ensures var r := Apply(s, v, o);
      && r.quiet == (o.quiet || IsQuiet(s, v)) && r.irqOk == (o.irqOk || IsIrq(s, v))
      && r.irqLevel == if IsIrq(s, v) then IrqLevel(s, v) else o.irqLevel
  {
    OneWord(s, v);
  }

  /** `quiet` is set exactly when a visited mark is followed by Q, `irqOk` exactly when one is
      followed by IRQ_LEVEL:. */
  lemma {:induction false} SettingsAre(s: string, vs: seq<nat>, o: Settings)
    requires Within(vs, s)
    ensures var r := ApplyAll(s, vs, o);
      && (r.quiet <==> o.quiet || exists k :: 0 <= k < |vs| && IsQuiet(s, vs[k]))
      && (r.irqOk <==> o.irqOk || exists k :: 0 <= k < |vs| && IsIrq(s, vs[k]))
    decreases |vs|
  {
    hide Apply, IsQuiet, IsIrq, IrqLevel;
    if vs != [] {
      var rest := vs[1..];
      ApplyIs(s, vs[0], o);
      SettingsAre(s, rest, Apply(s, vs[0], o));
      assert forall k :: 0 < k < |vs| ==> vs[k] == rest[k - 1];
      assert forall k :: 0 <= k < |rest| ==> rest[k] == vs[k + 1];
    }
  }

  /** The IRQ level is the number of the last visited IRQ_LEVEL option. */
  lemma {:induction false} IrqLevelIsLast(s: string, vs: seq<nat>, o: Settings, j: nat)
    requires Within(vs, s)
    ensures IsLastIrq(s, vs, j) ==> ApplyAll(s, vs, o).irqLevel == IrqLevel(s, vs[j])
    ensures (forall k :: 0 <= k < |vs| ==> !IsIrq(s, vs[k])) ==> ApplyAll(s, vs, o).irqLevel == o.irqLevel
    decreases |vs|
  {
    hide Apply, IsQuiet, IsIrq, IrqLevel;
    if vs != [] {
      var rest := vs[1..];
      ApplyIs(s, vs[0], o);
      IrqLevelIsLast(s, rest, Apply(s, vs[0], o), if j > 0 then j - 1 else 0);
      assert forall k :: 0 <= k < |rest| ==> rest[k] == vs[k + 1];
    }
  }

  // ---- Which marks are visited ----

  /** The mark at `i` is the sign of the number of the IRQ_LEVEL option marked at `v`. */
  ghost predicate IsSignOf(s: string, v: nat, i: nat)
    requires v < |s|
  {
    && IsIrq(s, v) && Resume(s, v) > v + 11
    && i == v + 11 + Strtol.SkipBlanks(Argument(s, v), 0) < |s| && s[i] == '-'
  }

  /** What strtoul passes over holds no mark but the sign of the number. */
  lemma MarkInNumber(a: string, i: nat)
    requires i < Strtol.Stop(Strtol.Read(a, 0)) && a[i] in MARKS
    ensures i == Strtol.SkipBlanks(a, 0) && a[i] == '-'
  {
  }

  lemma SignComesEarly(a: string)
    requires Strtol.Stop(Strtol.Read(a, 0)) > 0
    ensures Strtol.SkipBlanks(a, 0) < Strtol.Stop(Strtol.Read(a, 0))
  {
  }

  lemma MarkInWord(s: string, v: nat, i: nat)
    requires v < i < v + 11 && v < |s| && IsIrq(s, v)
    ensures i < |s| && s[i] !in MARKS
  {
    assert s[i] == s[v + 1..v + 11][i - v - 1] == IRQ[i - v - 1];
  }

  lemma SignIsPassed(s: string, v: nat, i: nat)
    requires v < |s| && IsSignOf(s, v, i)
    ensures v < i < Resume(s, v)
  {
    SignComesEarly(Argument(s, v));
  }

  /** The only mark that the scan passes over between two visits is the sign of a number. */
  lemma PassedIsSign(s: string, v: nat, i: nat)
    requires v < |s| && v < i < Resume(s, v) && s[i] in MARKS
    ensures IsSignOf(s, v, i)
  {
    if i < v + 11 { MarkInWord(s, v, i); } else { MarkInNumber(Argument(s, v), i - v - 11); }
  }

  lemma VisitsFirst(s: string, from: nat, i: nat)
    requires from <= i < |s| && s[i] in MARKS
    ensures var v := FirstOf(s, from, MARKS);
      v.Some? && from <= v.value <= i && Visits(s, from) == [v.value] + Visits(s, Resume(s, v.value))
  {
  }

  /** The scan goes on strictly to the right, and it visits every - and / of the command line but
      the sign of a number after IRQ_LEVEL:. */
  lemma {:induction false} VisitsAllButSigns(s: string, from: nat, i: nat)
    requires from <= i < |s| && s[i] in MARKS
    ensures i in Visits(s, from) <==> !exists v <- Visits(s, from) :: IsSignOf(s, v, i)
    decreases |s| - from
  {
    hide FirstOf, Visits, Resume, IsSignOf;
    VisitsFirst(s, from, i);
    var v := FirstOf(s, from, MARKS).value;
    var later := Visits(s, Resume(s, v));
    forall w <- [v] + later | IsSignOf(s, w, i) ensures w < i < Resume(s, w) {
      SignIsPassed(s, w, i);
    }
    if i >= Resume(s, v) {
      VisitsAllButSigns(s, Resume(s, v), i);
    } else if i > v {
      PassedIsSign(s, v, i);
      assert v in [v] + later;
    }
  }

  // ---- Upper and lower case ----

  /** `word` stands at `i`, each letter in upper or lower case. */
  ghost predicate HasWordInAnyCase(s: string, i: nat, word: string, low: string)
    requires |word| == |low|
  {
    i + |word| <= |s| && forall k :: 0 <= k < |word| ==> s[i + k] == word[k] || s[i + k] == low[k]
  }

  lemma UpperWord(s: string, i: nat, word: string, low: string)
    requires i <= |s| && |low| == |word|
    requires forall k :: 0 <= k < |word| ==>
               !IsLower(word[k]) && low[k] == if IsUpper(word[k]) then (word[k] as int + 32) as char else word[k]
    ensures HasWord(Upper(s), i, word) <==> HasWordInAnyCase(s, i, word, low)
  {
    if i + |word| <= |s| {
      var part := Upper(s)[i..i + |word|];
      assert forall k :: 0 <= k < |word| ==> part[k] == ToUpper(s[i + k]);
      assert part == word <==> forall k :: 0 <= k < |word| ==> part[k] == word[k];
    }
  }

  /** Upper-casing first does not change what strtoul reads. */
  lemma UpperReadsSame(a: string, radix: int)
    ensures Strtol.Read(Upper(a), radix) == Strtol.Read(a, radix)
    ensures Strtol.UlongOf(Upper(a), radix) == Strtol.UlongOf(a, radix)
  {
    hide Upper, Value, RunEnd, Strtol.SkipBlanks, Strtol.HasHexPrefix;
    var blank := Strtol.SkipBlanks(a, 0);
    UpperBlanks(a, 0);
    UpperAt(a, blank, radix);
    UpperAt(a, if Strtol.IsSign(At(a, blank)) then blank + 1 else blank, radix);
    var r := Strtol.Read(a, radix);
    if r.IsValid() {
      UpperRun(a, r.from, r.radix);
      UpperValue(a, r.from, r.upto, r.radix);
    }
  }

  lemma UpperAt(a: string, i: nat, radix: int)
    requires i <= |a|
    ensures Strtol.HasHexPrefix(Upper(a), i, radix) == Strtol.HasHexPrefix(a, i, radix)
    ensures (At(Upper(a), i) == '-') == (At(a, i) == '-') && (At(Upper(a), i) == '+') == (At(a, i) == '+')
    ensures (At(Upper(a), i) == '0') == (At(a, i) == '0')
  {
  }

  lemma {:induction false} UpperBlanks(a: string, i: nat)
    requires i <= |a|
    ensures Strtol.SkipBlanks(Upper(a), i) == Strtol.SkipBlanks(a, i)
    decreases |a| - i
  {
    if i < |a| && IsSpace(a[i]) { UpperBlanks(a, i + 1); }
  }

  lemma {:induction false} UpperRun(a: string, i: nat, radix: nat)
    requires i <= |a|
    ensures RunEnd(Upper(a), i, radix) == RunEnd(a, i, radix)
    decreases |a| - i
  {
    if i < |a| && DigitOf(a[i]) < radix { UpperRun(a, i + 1, radix); }
  }

  lemma {:induction false} UpperValue(a: string, i: nat, j: nat, radix: nat)
    requires i <= j <= |a|
    ensures Value(Upper(a)[i..j], radix) == Value(a[i..j], radix)
    decreases j
  {
    if i < j {
      UpperValue(a, i, j - 1, radix);
      var u := Upper(a);
      hide Upper, Value;
      assert DigitOf(u[j - 1]) == DigitOf(a[j - 1]);
      hide DigitOf, ToUpper;
      assert a[i..j] == a[i..j - 1] + [a[j - 1]];
      assert u[i..j] == u[i..j - 1] + [u[j - 1]];
      ValuePush(a[i..j - 1], a[j - 1], radix);
      ValuePush(u[i..j - 1], u[j - 1], radix);
    }
  }

  ghost predicate AsksQuiet(text: string, v: nat) { HasWordInAnyCase(text, v + 1, "Q", "q") }

  ghost predicate AsksIrq(text: string, v: nat)
    ensures AsksIrq(text, v) ==> v + 11 <= |text|
  {
    HasWordInAnyCase(text, v + 1, "IRQ_LEVEL:", "irq_level:")
  }

  /** What the scan makes of a command line, in the characters of the command line itself: quiet when a
      visited mark is followed by q in either case, an IRQ requested when one is followed by irq_level:
      in any case, and its level what strtoul reads, cut to 16 bits, after the last such word. Every -
      and / is visited but the signs of such numbers. */
  lemma OptionsInAnyCase(text: string, vs: seq<nat>, irqLevel0: nat)
    requires vs == Visits(Upper(text), 0)
    ensures forall k :: 0 <= k < |vs| ==> vs[k] < |text| && (text[vs[k]] == '-' || text[vs[k]] == '/')
    ensures forall i :: 0 <= i < |text| && (text[i] == '-' || text[i] == '/')
              ==> (i in vs <==> !exists v <- vs :: IsSignOf(Upper(text), v, i))
    ensures var o := ApplyAll(Upper(text), vs, Settings(false, false, irqLevel0));
      && (o.quiet <==> exists k :: 0 <= k < |vs| && AsksQuiet(text, vs[k]))
      && (o.irqOk <==> exists k :: 0 <= k < |vs| && AsksIrq(text, vs[k]))
      && forall j :: 0 <= j < |vs| && AsksIrq(text, vs[j]) && (forall k :: j < k < |vs| ==> !AsksIrq(text, vs[k]))
           ==> o.irqLevel == Strtol.UlongOf(text[vs[j] + 11..], 0) % 0x1_0000
  {
    hide Apply, ApplyAll, Visits, IsQuiet, IsIrq, AsksQuiet, AsksIrq, IrqLevel, IsSignOf, Strtol.UlongOf, Upper;
    var s, o := Upper(text), Settings(false, false, irqLevel0);
    SettingsAre(s, vs, o);
    forall k | 0 <= k < |vs|
      ensures text[vs[k]] == '-' || text[vs[k]] == '/'
      ensures IsQuiet(s, vs[k]) <==> AsksQuiet(text, vs[k])
      ensures IsIrq(s, vs[k]) <==> AsksIrq(text, vs[k])
    {
      assert vs[k] in vs;
      MarkIs(text, vs[k]);
      OptionWords(text, vs[k]);
    }
    forall i | 0 <= i < |text| && (text[i] == '-' || text[i] == '/')
      ensures i in vs <==> !exists v <- vs :: IsSignOf(s, v, i)
    {
      MarkStays(text, i);
      VisitsAllButSigns(s, 0, i);
    }
    forall j | 0 <= j < |vs| && IsLastIrq(s, vs, j)
      ensures AsksIrq(text, vs[j]) && ApplyAll(s, vs, o).irqLevel == Strtol.UlongOf(text[vs[j] + 11..], 0) % 0x1_0000
    {
      IrqLevelIsLast(s, vs, o, j);
      LevelIs(text, vs[j]);
    }
  }

  lemma MarkIs(text: string, v: nat)
    requires v < |text| && Upper(text)[v] in MARKS
    ensures text[v] == '-' || text[v] == '/'
  {
  }

  lemma MarkStays(text: string, i: nat)
    requires i < |text| && (text[i] == '-' || text[i] == '/')
    ensures Upper(text)[i] in MARKS
  {
  }

  lemma OptionWords(text: string, v: nat)
    requires v < |text|
    ensures IsQuiet(Upper(text), v) <==> AsksQuiet(text, v)
    ensures IsIrq(Upper(text), v) <==> AsksIrq(text, v)
  {
    UpperWord(text, v + 1, "Q", "q");
    UpperWord(text, v + 1, "IRQ_LEVEL:", "irq_level:");
  }

  lemma LevelIs(text: string, v: nat)
    requires v < |text| && IsIrq(Upper(text), v)
    ensures v + 11 <= |text| && IrqLevel(Upper(text), v) == Strtol.UlongOf(text[v + 11..], 0) % 0x1_0000
  {
    hide Strtol.UlongOf;
    UpperReadsSame(text[v + 11..], 0);
    assert Upper(text)[v + 11..] == Upper(text[v + 11..]);
  }
}
