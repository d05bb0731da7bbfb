/** Laws of OS/2 and DOS style masks for one component, in characters: the final dot, masks without
    wildcards, and runs of question marks. */
module FnmatchCompLaws {
  import opened CStrings
  import opened FnmatchFlags
  import opened FnmatchPaths
  import opened FnmatchLaws
  import Comp = FnmatchOs2

  // ---- A dot at the end of a mask ----

  /** A name, but for its last character. */
  function Init(d: string): string { if d == "" then "" else d[..|d| - 1] }

  lemma CoversInit(p: char, d: string, k: nat, o: Options, hasDot: bool, hasDot': bool)
    requires p != '.' && d != "" && d[|d| - 1] == '.' && k < |d|
    ensures Comp.Covers(p, d, k, o, hasDot) <==> Comp.Covers(p, Init(d), k, o, hasDot')
  {
    assert Init(d)[..k] == d[..k];
  }

  /** In a name that has a dot, a final dot of the mask takes the name's final dot. */
  lemma {:induction false} FinalDot(c: string, d: string, o: Options, hasDot: bool)
    requires '.' !in c
    ensures Comp.Fits(c + ".", d, o, true) <==> d != "" && d[|d| - 1] == '.' && Comp.Fits(c, Init(d), o, hasDot)
  {
    hide Comp.Covers;
    var m := c + ".";
    if c == "" {
      assert m[1..] == "" && m[0] == '.';
      forall k | 0 <= k <= |d|
        ensures Comp.Covers('.', d, k, o, true) && Comp.Fits("", d[k..], o, true) <==> k == 1 && d == "."
      {
        DotCovers(d, k, o, true);
      }
      assert d == "." ==> d[1..] == "" && Init(d) == "";
    } else {
      var p, rest := c[0], c[1..];
      assert m[0] == p && m[1..] == rest + ".";
      forall k | 0 <= k <= |d|
        ensures Comp.Covers(p, d, k, o, true) && Comp.Fits(rest + ".", d[k..], o, true)
           <==> d != "" && d[|d| - 1] == '.' && k < |d|
                && Comp.Covers(p, Init(d), k, o, hasDot) && Comp.Fits(rest, Init(d)[k..], o, hasDot)
      {
        FinalDot(rest, d[k..], o, hasDot);
        if k < |d| {
          assert d[k..][|d| - k - 1] == d[|d| - 1] && Init(d[k..]) == Init(d)[k..];
          if d[|d| - 1] == '.' { CoversInit(p, d, k, o, true, hasDot); }
        }
      }
    }
  }

  lemma DotCovers(d: string, k: nat, o: Options, hasDot: bool)
    requires k <= |d|
    ensures Comp.Covers('.', d, k, o, hasDot) <==> (k == 1 && d[0] == '.') || (d == "" && !hasDot)
  {
  }

  lemma CoversAnyway(p: char, d: string, k: nat, o: Options, hasDot: bool, hasDot': bool)
    requires p != '.' && k <= |d|
    ensures Comp.Covers(p, d, k, o, hasDot) <==> Comp.Covers(p, d, k, o, hasDot')
  {
  }

  /** In a name without a dot, a final dot of the mask takes nothing. */
  lemma {:induction false} ImplicitDot(c: string, d: string, o: Options, hasDot: bool)
    requires '.' !in c && '.' !in d
    ensures Comp.Fits(c + ".", d, o, false) <==> Comp.Fits(c, d, o, hasDot)
  {
    hide Comp.Covers;
    var m := c + ".";
    if c == "" {
      assert m[1..] == "" && m[0] == '.';
      forall k | 0 <= k <= |d| ensures Comp.Covers('.', d, k, o, false) <==> d == "" { DotCovers(d, k, o, false); }
      assert d == "" ==> d[0..] == "";
    } else {
      assert m[0] == c[0] && m[1..] == c[1..] + ".";
      forall k | 0 <= k <= |d|
        ensures Comp.Covers(c[0], d, k, o, false) <==> Comp.Covers(c[0], d, k, o, hasDot)
        ensures Comp.Fits(c[1..] + ".", d[k..], o, false) <==> Comp.Fits(c[1..], d[k..], o, hasDot)
      {
        CoversAnyway(c[0], d, k, o, false, hasDot);
        ImplicitDot(c[1..], d[k..], o, hasDot);
      }
    }
  }

  /** After a mask without dots a final dot asks for a name that ends in its dot, or has none: the
      implicit final dot belongs to names without a dot only. */
  lemma FinalDotLaw(c: string, d: string, o: Options)
    requires '.' !in c
    ensures Comp.CompMatches(c + ".", d, o)
       <==> if '.' in d then d[|d| - 1] == '.' && Comp.CompMatches(c, d[..|d| - 1], o) else Comp.CompMatches(c, d, o)
  {
    var hasDot := '.' in d;
    Comp.FitsIffAlignment(c + ".", d, o, hasDot);
    Comp.FitsIffAlignment(c, Init(d), o, '.' in Init(d));
    Comp.FitsIffAlignment(c, d, o, hasDot);
    if hasDot { FinalDot(c, d, o, '.' in Init(d)); } else { ImplicitDot(c, d, o, hasDot); }
  }

  /** `*.` matches the names without a dot and those that end in a dot; in DOS style, in their only
      one. */
  lemma StarDot(name: string, o: Options)
    requires (o.style.Os2? || o.style.Dos?) && IsPlainName(name)
    ensures Outcome("*.", name, o) == Match
       <==> '.' !in name || (name[|name| - 1] == '.' && (o.style.Dos? ==> '.' !in name[..|name| - 1]))
  {
    hide Outcome, Comp.CompMatches;
    OneComponent("*.", name, o);
    assert "*" + "." == "*.";
    FinalDotLaw("*", name, o);
    StarTakes("*", name, o);
    if name != "" { StarTakes("*", name[..|name| - 1], o); }
  }

  lemma StarTakes(c: string, d: string, o: Options)
    requires c == "*"
    ensures Comp.CompMatches(c, d, o) <==> o.style.Dos? ==> '.' !in d
  {
    Comp.FitsIffAlignment(c, d, o, '.' in d);
    assert d[..|d|] == d && d[|d|..] == "";
    if o.style.Dos? ==> '.' !in d { assert Comp.Covers('*', d, |d|, o, '.' in d) && Comp.Fits("", d[|d|..], o, '.' in d); }
    forall k | 0 <= k <= |d| && Comp.Fits(c[1..], d[k..], o, '.' in d) ensures k == |d| {}
  }

  // ---- Masks without wildcards ----

  ghost predicate IsLiteral(c: string) { forall k :: 0 <= k < |c| ==> c[k] != '?' && c[k] != '*' }

  ghost predicate AllDots(c: string) { forall k :: 0 <= k < |c| ==> c[k] == '.' }

  lemma {:induction false} LiteralFits(c: string, d: string, o: Options, hasDot: bool)
    requires IsLiteral(c) && !o.ignoreCase && (!hasDot ==> '.' !in d)
    ensures Comp.Fits(c, d, o, hasDot) <==> d <= c && (if hasDot then |c| == |d| else AllDots(c[|d|..]))
  {
    hide Comp.Covers;
    if c != "" {
      forall k | 0 <= k <= |d|
        ensures Comp.Covers(c[0], d, k, o, hasDot)
           <==> (k == 1 && d[0] == c[0]) || (k == 0 && d == "" && c[0] == '.' && !hasDot)
      {
        LiteralCovers(c[0], d, k, o, hasDot);
      }
      if d == "" {
        LiteralFits(c[1..], d, o, hasDot);
        assert d[0..] == d && c[|d|..] == c;
        assert AllDots(c) <==> c[0] == '.' && AllDots(c[1..]);
      } else {
        LiteralFits(c[1..], d[1..], o, hasDot);
        assert d <= c <==> d[0] == c[0] && d[1..] <= c[1..];
        assert d <= c ==> c[1..][|d| - 1..] == c[|d|..];
      }
    }
  }

  lemma LiteralCovers(p: char, d: string, k: nat, o: Options, hasDot: bool)
    requires p != '?' && p != '*' && k <= |d| && !o.ignoreCase
    ensures Comp.Covers(p, d, k, o, hasDot)
       <==> (k == 1 && d[0] == p) || (k == 0 && d == "" && p == '.' && !hasDot)
  {
  }

  /** A mask without wildcards matches itself only and, if that has no dot, what is left of it without
      its final dots. */
  lemma LiteralMask(c: string, d: string, o: Options)
    requires IsLiteral(c) && !o.ignoreCase
    ensures Comp.CompMatches(c, d, o) <==> c == d || ('.' !in d && d <= c && AllDots(c[|d|..]))
  {
    var hasDot := '.' in d;
    Comp.FitsIffAlignment(c, d, o, hasDot);
    LiteralFits(c, d, o, hasDot);
    if c == d { assert c[|d|..] == ""; }
  }

  // ---- Question marks ----

  /** How many characters `n` question marks take: up to the next dot. */
  function Taken(n: nat, d: string): (k: nat)
    ensures k <= |d| && k <= n && forall i :: 0 <= i < k ==> d[i] != '.'
    ensures k == n || k == |d| || d[k] == '.'
  {
    if n == 0 || d == "" || d[0] == '.' then 0 else 1 + Taken(n - 1, d[1..])
  }

  lemma {:induction false} QuestionRun(n: nat, c: string, d: string, o: Options, hasDot: bool)
    ensures Comp.Fits(Fill('?', n) + c, d, o, hasDot) <==> Comp.Fits(c, d[Taken(n, d)..], o, hasDot)
    decreases n
  {
    hide Fill, Comp.Covers;
    var m := Fill('?', n) + c;
    if n == 0 {
      assert m == c && d[0..] == d;
    } else {
      assert m[0] == '?' && m[1..] == Fill('?', n - 1) + c;
      var k := if d != "" && d[0] != '.' then 1 else 0;
      forall j | 0 <= j <= |d| ensures Comp.Covers('?', d, j, o, hasDot) <==> j == k { QuestionCovers(d, j, o, hasDot); }
      QuestionRun(n - 1, c, d[k..], o, hasDot);
      assert d[k..][Taken(n - 1, d[k..])..] == d[Taken(n, d)..];
    }
  }

  lemma QuestionCovers(d: string, k: nat, o: Options, hasDot: bool)
    requires k <= |d|
    ensures Comp.Covers('?', d, k, o, hasDot) <==> k == if d != "" && d[0] != '.' then 1 else 0
  {
  }

  /** `a` question marks, a dot and `b` question marks, ????????.??? for one, match the names of at most
      `a` characters without a dot, and those of at most `a` before and `b` behind their only dot. */
  lemma NameAndExtension(a: nat, b: nat, d: string, o: Options)
    ensures Comp.CompMatches(Fill('?', a) + "." + Fill('?', b), d, o)
       <==> ('.' !in d && |d| <= a)
            || exists i :: 0 <= i < |d| && d[i] == '.' && i <= a && |d| - i - 1 <= b
                           && '.' !in d[..i] && '.' !in d[i + 1..]
  {
    hide Fill, Comp.Covers;
    var hasDot := '.' in d;
    var m, ext := Fill('?', a) + "." + Fill('?', b), Fill('?', b);
    assert m == Fill('?', a) + ("." + ext) && ("." + ext)[0] == '.' && ("." + ext)[1..] == ext == ext + "";
    Comp.FitsIffAlignment(m, d, o, hasDot);
    QuestionRun(a, "." + ext, d, o, hasDot);
    var i := Taken(a, d);
    var e := d[i..];
    forall k | 0 <= k <= |e| ensures Comp.Covers('.', e, k, o, hasDot) <==> (k == 1 && e[0] == '.') || (e == "" && !hasDot)
    {
      DotCovers(e, k, o, hasDot);
    }
    forall k | 0 <= k <= |e| ensures Comp.Fits(ext, e[k..], o, hasDot) <==> '.' !in e[k..] && |e[k..]| <= b {
      QuestionRun(b, "", e[k..], o, hasDot);
      AllTaken(b, e[k..]);
    }
    if i == |d| {
      assert e[0..] == "";
    } else if d[i] == '.' {
      assert e[1..] == d[i + 1..];
      assert forall j :: 0 <= j < |d| && d[j] == '.' && '.' !in d[..j] ==> j <= i by {
        forall j | i < j < |d| ensures '.' in d[..j] { assert d[..j][i] == '.'; }
      }
      assert forall x :: x in d[..i] ==> x != '.';
    }
  }

  lemma AllTaken(n: nat, d: string)
    ensures d[Taken(n, d)..] == "" <==> '.' !in d && |d| <= n
  {
  }
}
