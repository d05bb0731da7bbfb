/** Laws of fnmatch over all masks, names and flags. */
module FnmatchLaws {
  import opened CStrings
  import opened FnmatchFlags
  import opened FnmatchPaths
  import Comp = FnmatchOs2
  import Unix = FnmatchUnix

  // ---- DOS style is stricter than OS/2 style ----

  lemma DosComponentIsOs2(c: string, d: string, o: Options)
    requires o.style.Dos? && Comp.CompMatches(c, d, o)
    ensures Comp.CompMatches(c, d, o.(style := Os2))
  {
    var cuts :| Comp.IsAlignment(c, d, cuts, o, '.' in d);
    forall i | 0 <= i < |c| ensures Comp.PieceFits(c, d, cuts, i, o.(style := Os2), '.' in d) {
      assert Comp.PieceFits(c, d, cuts, i, o, '.' in d);
    }
    assert Comp.IsAlignment(c, d, cuts, o.(style := Os2), '.' in d);
  }

  lemma DosPathIsOs2(mask: string, name: string, o: Options)
    requires o.style.Dos? && PathMatches(mask, name, o)
    ensures PathMatches(mask, name, o.(style := Os2))
  {
    var ms, ns := if o.pathPrefix then Demanded(Split(mask)) else Split(mask), Split(name);
    forall i | 0 <= i < |ms| ensures Comp.CompMatches(ms[i], ns[i], o.(style := Os2)) {
      DosComponentIsOs2(ms[i], ns[i], o);
    }
  }

  /** Every DOS style match is an OS/2 style match. */
  lemma DosMatchIsOs2Match(mask: string, name: string, o: Options)
    requires o.style.Dos? && Outcome(mask, name, o) == Match
    ensures Outcome(mask, name, o.(style := Os2)) == Match
  {
    hide PathMatches;
    var m, n := AfterDrive(mask), AfterDrive(name);
    if IsUnc(n) { DosPathIsOs2(m[2..], n[2..], o); } else { DosPathIsOs2(m, n, o); }
  }

  // ---- _FNM_PATHPREFIX only adds matches ----

  lemma PrefixComponent(c: string, d: string, o: Options)
    requires Comp.CompMatches(c, d, o)
    ensures Comp.CompMatches(c, d, o.(pathPrefix := true))
  {
    var cuts :| Comp.IsAlignment(c, d, cuts, o, '.' in d);
    forall i | 0 <= i < |c| ensures Comp.PieceFits(c, d, cuts, i, o.(pathPrefix := true), '.' in d) {
      assert Comp.PieceFits(c, d, cuts, i, o, '.' in d);
    }
    assert Comp.IsAlignment(c, d, cuts, o.(pathPrefix := true), '.' in d);
  }

  lemma PrefixPath(mask: string, name: string, o: Options)
    requires PathMatches(mask, name, o)
    ensures PathMatches(mask, name, o.(pathPrefix := true))
  {
    var ms, ns := Split(mask), Split(name);
    var demanded := Demanded(ms);
    forall i | 0 <= i < |demanded| ensures Comp.CompMatches(demanded[i], ns[i], o.(pathPrefix := true)) {
      assert o.pathPrefix || ms[i] == demanded[i];
      PrefixComponent(demanded[i], ns[i], o);
    }
  }

  lemma {:induction false} PrefixTokens(mask: string, m: nat, o: Options)
    requires m <= |mask|
    ensures Unix.Tokens(mask, m, o) == Unix.Tokens(mask, m, o.(pathPrefix := true))
    decreases |mask| - m
  {
    if m < |mask| { PrefixTokens(mask, Unix.ReadToken(mask, m, o).1, o); }
  }

  lemma PrefixUnix(mask: string, name: string, o: Options)
    requires Unix.Matches(mask, name, o)
    ensures Unix.Matches(mask, name, o.(pathPrefix := true))
  {
    var p := o.(pathPrefix := true);
    var ts := Unix.Tokens(mask, 0, o);
    PrefixTokens(mask, 0, o);
    var cuts :| Unix.IsAlignment(ts, name, 0, cuts, o);
    forall i | 0 <= i < |ts| ensures Unix.PieceFits(ts, name, cuts, i, p) {
      assert Unix.PieceFits(ts, name, cuts, i, o);
    }
    assert Unix.IsAlignment(ts, name, 0, cuts, p);
  }

  /** Adding _FNM_PATHPREFIX loses no match, in any style. */
  lemma PathPrefixKeepsMatches(mask: string, name: string, o: Options)
    requires Outcome(mask, name, o) == Match
    ensures Outcome(mask, name, o.(pathPrefix := true)) == Match
  {
    hide PathMatches, Unix.Matches, AfterTwoSlashes;
    var m, n := AfterDrive(mask), AfterDrive(name);
    match o.style
    case Os2 | Dos =>
      if IsUnc(n) { PrefixPath(m[2..], n[2..], o); } else { PrefixPath(m, n, o); }
    case Posix =>
      if IsUnixUnc(n) { PrefixUnix(AfterTwoSlashes(m).value, n[2..], o); } else { PrefixUnix(m, n, o); }
    case Unknown =>
  }

  /** The two laws above, said of flag words. */
  lemma FlagWordLaws(mask: string, name: string, flags: bv32)
    ensures Decode(flags).style.Dos? && Outcome(mask, name, Decode(flags)) == Match
            ==> Outcome(mask, name, Decode((flags & !FNM_STYLE_MASK) | FNM_OS2)) == Match
    ensures Outcome(mask, name, Decode(flags)) == Match
            ==> Outcome(mask, name, Decode(flags | FNM_PATHPREFIX)) == Match
  {
    hide Outcome;
    assert Decode(flags | FNM_PATHPREFIX) == Decode(flags).(pathPrefix := true);
    assert Decode((flags & !FNM_STYLE_MASK) | FNM_OS2) == Decode(flags).(style := Os2);
    if Outcome(mask, name, Decode(flags)) == Match {
      PathPrefixKeepsMatches(mask, name, Decode(flags));
      if Decode(flags).style.Dos? { DosMatchIsOs2Match(mask, name, Decode(flags)); }
    }
  }

  // ---- _FNM_IGNORECASE is lower-casing both sides ----

  lemma LowerSlice(s: string, a: nat, b: nat)
    requires a <= b <= |s|
    ensures Lower(s)[a..b] == Lower(s[a..b])
    ensures Lower(s)[a..] == Lower(s[a..])
  {
  }

  lemma LowerKeeps(s: string, x: char)
    requires !IsAlpha(x)
    ensures x in Lower(s) <==> x in s
  {
    if x in s {
      var i :| 0 <= i < |s| && s[i] == x;
      assert Lower(s)[i] == x;
    }
  }

  lemma LowerCovers(p: char, d: string, k: nat, o: Options, hasDot: bool)
    requires k <= |d|
    ensures Comp.Covers(p, d, k, o.(ignoreCase := true), hasDot)
       <==> Comp.Covers(ToLower(p), Lower(d), k, o.(ignoreCase := false), hasDot)
  {
    LowerSlice(d, 0, k);
    LowerKeeps(d[..k], '.');
  }

  lemma LowerPiece(c: string, d: string, cuts: seq<nat>, i: nat, o: Options, hasDot: bool)
    requires |cuts| == |c| + 1 && i < |c|
    ensures Comp.PieceFits(c, d, cuts, i, o.(ignoreCase := true), hasDot)
       <==> Comp.PieceFits(Lower(c), Lower(d), cuts, i, o.(ignoreCase := false), hasDot)
  {
    hide Comp.Covers;
    if cuts[i] <= cuts[i + 1] <= |d| {
      LowerSlice(d, cuts[i], |d|);
      LowerCovers(c[i], d[cuts[i]..], cuts[i + 1] - cuts[i], o, hasDot);
    }
  }

  lemma LowerComponent(c: string, d: string, o: Options)
    ensures Comp.CompMatches(c, d, o.(ignoreCase := true))
       <==> Comp.CompMatches(Lower(c), Lower(d), o.(ignoreCase := false))
  {
    hide Comp.PieceFits;
    LowerKeeps(d, '.');
    var hasDot := '.' in d;
    forall cuts: seq<nat>
      ensures Comp.IsAlignment(c, d, cuts, o.(ignoreCase := true), hasDot)
         <==> Comp.IsAlignment(Lower(c), Lower(d), cuts, o.(ignoreCase := false), hasDot)
    {
      if |cuts| == |c| + 1 {
        forall i | 0 <= i < |c|
          ensures Comp.PieceFits(c, d, cuts, i, o.(ignoreCase := true), hasDot)
             <==> Comp.PieceFits(Lower(c), Lower(d), cuts, i, o.(ignoreCase := false), hasDot)
        {
          LowerPiece(c, d, cuts, i, o, hasDot);
        }
      }
    }
  }

  lemma {:induction false} LowerEnd(s: string, i: nat)
    requires i <= |s|
    ensures Comp.CompEnd(Lower(s), i) == Comp.CompEnd(s, i)
    decreases |s| - i
  {
    if i < |s| && !Comp.IsSep(s[i]) { LowerEnd(s, i + 1); }
  }

  lemma LowerRest(s: string)
    ensures Comp.CompEnd(Lower(s), 0) == Comp.CompEnd(s, 0)
    ensures Lower(s)[..Comp.CompEnd(s, 0)] == Lower(s[..Comp.CompEnd(s, 0)])
    ensures Rest(Lower(s)) == Lower(Rest(s))
  {
    hide Comp.CompEnd;
    LowerEnd(s, 0);
  }

  lemma {:induction false} LowerSplit(s: string)
    ensures |Split(Lower(s))| == |Split(s)|
    ensures forall i :: 0 <= i < |Split(s)| ==> Split(Lower(s))[i] == Lower(Split(s)[i])
    decreases |s|
  {
    hide Lower, Split, Rest, Comp.CompEnd;
    LowerRest(s);
    SplitFirst(s);
    SplitFirst(Lower(s));
    if Comp.CompEnd(s, 0) < |s| {
      RestShorter(s);
      LowerSplit(Rest(s));
    }
  }

  lemma RestShorter(s: string)
    ensures s != "" ==> |Rest(s)| < |s|
  {
  }

  lemma LowerPath(mask: string, name: string, o: Options)
    ensures PathMatches(mask, name, o.(ignoreCase := true))
       <==> PathMatches(Lower(mask), Lower(name), o.(ignoreCase := false))
  {
    hide Split, Comp.CompMatches;
    LowerSplit(mask);
    LowerSplit(name);
    forall i | 0 <= i < |Split(mask)| && i < |Split(name)|
      ensures Comp.CompMatches(Split(mask)[i], Split(name)[i], o.(ignoreCase := true))
         <==> Comp.CompMatches(Split(Lower(mask))[i], Split(Lower(name))[i], o.(ignoreCase := false))
    {
      LowerComponent(Split(mask)[i], Split(name)[i], o);
    }
  }

  lemma LowerAgree(m: string, n: string, o: Options)
    requires o.style.Os2? || o.style.Dos?
    ensures Agree(m, n, o.(ignoreCase := true)) <==> Agree(Lower(m), Lower(n), o.(ignoreCase := false))
  {
    hide PathMatches;
    LowerPath(m, n, o);
    if IsUnc(m) && IsUnc(n) {
      LowerSlice(m, 2, |m|);
      LowerSlice(n, 2, |n|);
      LowerPath(m[2..], n[2..], o);
    }
  }

  lemma LowerDrive(s: string)
    ensures HasDrive(Lower(s)) == HasDrive(s)
    ensures AfterDrive(Lower(s)) == Lower(AfterDrive(s))
    ensures ':' in Lower(AfterDrive(s)) <==> ':' in AfterDrive(s)
  {
    LowerKeeps(AfterDrive(s), ':');
  }

  // The same in Unix style, where only bracket sets stand in the way.

  function LowerToken(t: Unix.Token): Unix.Token {
    if t.Literal? then Unix.Literal(ToLower(t.c)) else t
  }

  lemma LowerReadToken(mask: string, m: nat, o: Options)
    requires m < |mask| && mask[m] != '['
    ensures var (t, next) := Unix.ReadToken(mask, m, o.(ignoreCase := true));
      Unix.ReadToken(Lower(mask), m, o.(ignoreCase := false)) == (LowerToken(t), next) && !t.Set?
  {
    LowerSlice(mask, m + 1, |mask|);
    assert Lower(mask[m + 1..]) == "\\" <==> mask[m + 1..] == "\\";
  }

  lemma {:induction false} LowerTokens(mask: string, m: nat, o: Options)
    requires m <= |mask| && '[' !in mask
    ensures var ts := Unix.Tokens(mask, m, o.(ignoreCase := true));
      var low := Unix.Tokens(Lower(mask), m, o.(ignoreCase := false));
      |low| == |ts| && forall i :: 0 <= i < |ts| ==> low[i] == LowerToken(ts[i]) && !ts[i].Set?
    decreases |mask| - m
  {
    hide Lower, Unix.ReadToken;
    if m < |mask| {
      LowerReadToken(mask, m, o);
      LowerTokens(mask, Unix.ReadToken(mask, m, o.(ignoreCase := true)).1, o);
    }
  }

  lemma LowerUnixCovers(t: Unix.Token, name: string, a: nat, b: nat, o: Options)
    requires a <= b <= |name| && !t.Set?
    ensures Unix.Covers(t, name, a, b, o.(ignoreCase := true))
       <==> Unix.Covers(LowerToken(t), Lower(name), a, b, o.(ignoreCase := false))
  {
    LowerSlice(name, a, b);
    LowerKeeps(name[a..b], '/');
  }

  lemma LowerUnix(mask: string, name: string, o: Options)
    requires '[' !in mask
    ensures Unix.Matches(mask, name, o.(ignoreCase := true))
       <==> Unix.Matches(Lower(mask), Lower(name), o.(ignoreCase := false))
  {
    hide Unix.Tokens, Unix.Covers;
    var yes, no := o.(ignoreCase := true), o.(ignoreCase := false);
    var ts, low := Unix.Tokens(mask, 0, yes), Unix.Tokens(Lower(mask), 0, no);
    LowerTokens(mask, 0, o);
    forall cuts: seq<nat>
      ensures Unix.IsAlignment(ts, name, 0, cuts, yes) <==> Unix.IsAlignment(low, Lower(name), 0, cuts, no)
    {
      if |cuts| == |ts| + 1 {
        forall i | 0 <= i < |ts|
          ensures Unix.PieceFits(ts, name, cuts, i, yes) <==> Unix.PieceFits(low, Lower(name), cuts, i, no)
        {
          if cuts[i] <= cuts[i + 1] <= |name| { LowerUnixCovers(ts[i], name, cuts[i], cuts[i + 1], o); }
        }
      }
    }
  }

  lemma LowerAfterSlash(m: string)
    ensures AfterSlash(Lower(m)).Some? == AfterSlash(m).Some?
    ensures AfterSlash(m).Some? ==> AfterSlash(Lower(m)) == Some(Lower(AfterSlash(m).value))
    ensures AfterSlash(m).Some? && '[' !in m ==> '[' !in AfterSlash(m).value
  {
    if |m| >= 1 { LowerSlice(m, 1, |m|); }
    if |m| >= 2 { LowerSlice(m, 2, |m|); }
  }

  lemma LowerPosix(m: string, n: string, o: Options)
    requires o.style.Posix? && '[' !in m
    ensures Agree(m, n, o.(ignoreCase := true)) <==> Agree(Lower(m), Lower(n), o.(ignoreCase := false))
  {
    hide Unix.Matches, AfterSlash;
    LowerUnix(m, n, o);
    LowerAfterSlash(m);
    if IsUnixUnc(n) && AfterSlash(m).Some? {
      LowerAfterSlash(AfterSlash(m).value);
      LowerSlice(n, 2, |n|);
      var rest := AfterTwoSlashes(m);
      if rest.Some? { LowerUnix(rest.value, n[2..], o); }
    }
  }

  /** Matching with _FNM_IGNORECASE is matching the lower-cased mask against the lower-cased name
      without it, drive letters included: for every mask in OS/2 and DOS style, and for every mask
      without a bracket in Unix style. */
  lemma IgnoreCaseIsLowering(mask: string, name: string, o: Options)
    requires o.style.Posix? ==> '[' !in mask
    ensures Outcome(mask, name, o.(ignoreCase := true)) == Outcome(Lower(mask), Lower(name), o.(ignoreCase := false))
  {
    hide AfterDrive, PathMatches, Unix.Matches, AfterTwoSlashes;
    LowerDrive(mask);
    LowerDrive(name);
    match o.style
    case Os2 | Dos => LowerAgree(AfterDrive(mask), AfterDrive(name), o);
    case Posix =>
      AfterDriveKeeps(mask, '[');
      LowerPosix(AfterDrive(mask), AfterDrive(name), o);
    case Unknown =>
  }

  lemma AfterDriveKeeps(s: string, x: char)
    requires x !in s
    ensures x !in AfterDrive(s)
  {
  }

  lemma SetNeedsMember(t: Unix.Token, name: string, o: Options)
    requires t.Set?
    ensures (exists cuts :: Unix.IsAlignment([t], name, 0, cuts, o)) ==>
              name != "" && Unix.SetAccepts(t.items, t.invert, name[0])
  {
    if cuts :| Unix.IsAlignment([t], name, 0, cuts, o) {
      assert Unix.PieceFits([t], name, cuts, 0, o);
    }
  }

  /** With a bracket the law fails in Unix style: `[a-z]` does not match `B`, whatever the flag, but
      it matches `b`. */
  lemma SetsStayCaseSensitive(o: Options)
    requires o == Options(Posix, false, false, false, false, false)
    ensures Outcome("[a-z]", "B", o.(ignoreCase := true)) == NoMatch
    ensures Lower("[a-z]") == "[a-z]" && Lower("B") == "b" && Outcome("[a-z]", "b", o) == Match
  {
    var mask := "[a-z]";
    var ts := [Unix.Set([Unix.Range('a', 'z')], false)];
    forall i: Options | !i.noEscape ensures Unix.Tokens(mask, 0, i) == ts {
      assert Unix.ReadSet(mask, 1, 4, false) == Unix.Closed([], 4);
      assert Unix.ReadItem(mask, 1, false) == Unix.Item(Unix.Range('a', 'z'), 4);
      assert Unix.ReadSet(mask, 1, 1, false) == Unix.Closed([Unix.Range('a', 'z')], 4);
      assert Unix.Tokens(mask, 5, i) == [];
    }
    var c := o.(ignoreCase := true);
    SetNeedsMember(ts[0], "B", c);
    assert !Unix.Matches(mask, "B", c);
    assert Unix.Range('a', 'z').Has('b') && ts[0].items[0].Has('b');
    assert Unix.PieceFits(ts, "b", [0, 1], 0, o);
    assert Unix.IsAlignment(ts, "b", 0, [0, 1], o);
    assert Unix.Matches(mask, "b", o);
  }

  // ---- *.* ----

  /** A name that is one component, without a colon. */
  ghost predicate IsPlainName(name: string) {
    forall k :: 0 <= k < |name| ==> !Comp.IsSep(name[k]) && name[k] != ':'
  }

  lemma {:induction false} NoSepNoEnd(s: string, i: nat)
    requires i <= |s| && forall k :: i <= k < |s| ==> !Comp.IsSep(s[k])
    ensures Comp.CompEnd(s, i) == |s|
    decreases |s| - i
  {
    if i < |s| { NoSepNoEnd(s, i + 1); }
  }

  /** A colon-free mask and name of one component each match as components do. */
  lemma OneComponent(mask: string, name: string, o: Options)
    requires (o.style.Os2? || o.style.Dos?) && IsPlainName(mask) && IsPlainName(name) && mask != ""
    ensures Outcome(mask, name, o) == Match <==> Comp.CompMatches(mask, name, o)
  {
    hide Comp.CompMatches;
    NoSepNoEnd(mask, 0);
    NoSepNoEnd(name, 0);
    assert Split(mask) == [mask] + [] && Split(name) == [name] + [];
    PairwiseCons(mask, [], name, [], o);
  }

  lemma CountPieces(s: string, a: nat, b: nat)
    requires a <= b <= |s|
    ensures Count('.', s) == Count('.', s[..a]) + Count('.', s[a..b]) + Count('.', s[b..])
  {
    hide Count;
    assert s[..b] + s[b..] == s;
    assert s[..a] + s[a..b] == s[..b];
    CountConcat('.', s[..b], s[b..]);
    CountConcat('.', s[..a], s[a..b]);
  }

  /** In DOS style the two asterisks of `*.*` match no dots, and the dot between them one at most. */
  lemma DosStarDotStar(mask: string, name: string, cuts: seq<nat>, o: Options, hasDot: bool)
    requires o.style.Dos? && mask == "*.*" && Comp.IsAlignment(mask, name, cuts, o, hasDot)
    ensures Count('.', name) <= 1
  {
    assert Comp.PieceFits(mask, name, cuts, 0, o, hasDot) && Comp.PieceFits(mask, name, cuts, 1, o, hasDot)
           && Comp.PieceFits(mask, name, cuts, 2, o, hasDot);
    var a, b := cuts[1], cuts[2];
    CountPieces(name, a, b);
    assert name[0..][..a] == name[..a] && name[b..][..cuts[3] - b] == name[b..];
    assert b == a || name[a..b] == [name[a]];
  }

  lemma StarDotStarFits(mask: string, name: string, o: Options)
    requires mask == "*.*" && (o.style.Os2? || (o.style.Dos? && Count('.', name) <= 1))
    ensures Comp.CompMatches(mask, name, o)
  {
    var hasDot := '.' in name;
    var a := FirstDot(name);
    var b := if a < |name| then a + 1 else a;
    var cuts: seq<nat> := [0, a, b, |name|];
    CountPieces(name, a, b);
    assert a < |name| ==> name[a..b] == ['.'] && Count('.', ['.']) == 1;
    assert name[0..][..a] == name[..a] && name[b..][..|name| - b] == name[b..];
    assert Comp.PieceFits(mask, name, cuts, 0, o, hasDot);
    assert Comp.PieceFits(mask, name, cuts, 1, o, hasDot);
    assert Comp.PieceFits(mask, name, cuts, 2, o, hasDot);
    assert Comp.IsAlignment(mask, name, cuts, o, hasDot);
  }

  /** `*.*` matches every name in OS/2 style, and in DOS style just those with at most one dot. */
  lemma StarDotStar(name: string, o: Options)
    requires (o.style.Os2? || o.style.Dos?) && IsPlainName(name)
    ensures Outcome("*.*", name, o) == Match <==> o.style.Os2? || Count('.', name) <= 1
  {
    hide Outcome, Comp.IsAlignment;
    OneComponent("*.*", name, o);
    if cuts :| Comp.IsAlignment("*.*", name, cuts, o, '.' in name) && o.style.Dos? {
      DosStarDotStar("*.*", name, cuts, o, '.' in name);
    }
    if o.style.Os2? || Count('.', name) <= 1 { StarDotStarFits("*.*", name, o); }
  }

  lemma FirstDot(s: string) returns (a: nat)
    ensures a <= |s| && '.' !in s[..a]
    ensures a < |s| ==> s[a] == '.'
    ensures a == |s| ==> '.' !in s
  {
    a := 0;
    while a < |s| && s[a] != '.'
      invariant a <= |s| && forall k :: 0 <= k < a ==> s[k] != '.'
    {
      a := a + 1;
    }
  }

  // ---- Unix style ----

  function CountSlashes(ts: seq<Unix.Token>): nat {
    if ts == [] then 0 else (if ts[0].Slash? then 1 else 0) + CountSlashes(ts[1..])
  }

  lemma CoverSlashes(t: Unix.Token, name: string, a: nat, b: nat, o: Options)
    requires a <= b <= |name| && Unix.Covers(t, name, a, b, o) && o.pathName && !o.pathPrefix
    requires t.Literal? ==> t.c != '/'
    ensures Count('/', name[a..b]) == if t.Slash? then 1 else 0
  {
    if b == a + 1 { assert name[a..b] == [name[a]]; }
  }

  lemma {:induction false} AlignedSlashes(ts: seq<Unix.Token>, name: string, n: nat, o: Options)
    requires n <= |name| && Unix.Fits(ts, name, n, o) && o.pathName && !o.pathPrefix
    requires forall i :: 0 <= i < |ts| && ts[i].Literal? ==> ts[i].c != '/'
    ensures Count('/', name[n..]) == CountSlashes(ts)
    decreases |ts|
  {
    hide Count, Unix.Covers;
    if ts == [] {
      assert name[n..] == "" && Count('/', "") == 0;
    } else {
      var k :| n <= k <= |name| && Unix.Covers(ts[0], name, n, k, o) && Unix.Fits(ts[1..], name, k, o);
      CoverSlashes(ts[0], name, n, k, o);
      AlignedSlashes(ts[1..], name, k, o);
      assert name[n..] == name[n..k] + name[k..];
      CountConcat('/', name[n..k], name[k..]);
    }
  }

  lemma {:induction false} TokensOfNoSlash(mask: string, m: nat, o: Options)
    requires m <= |mask|
    ensures forall i :: 0 <= i < |Unix.Tokens(mask, m, o)| && Unix.Tokens(mask, m, o)[i].Literal?
              ==> Unix.Tokens(mask, m, o)[i].c != '/'
    decreases |mask| - m
  {
    if m < |mask| { TokensOfNoSlash(mask, Unix.ReadToken(mask, m, o).1, o); }
  }

  lemma SlashToken(mask: string, m: nat, o: Options)
    requires m < |mask| && '[' !in mask
    ensures var (t, next) := Unix.ReadToken(mask, m, o); Count('/', mask[m..next]) == if t.Slash? then 1 else 0
  {
    var (t, next) := Unix.ReadToken(mask, m, o);
    assert mask[m] != '[';
    if next == m + 1 {
      assert mask[m..next] == [mask[m]];
    } else {
      assert mask[m..next] == [mask[m]] + [mask[m + 1]];
    }
  }

  lemma {:induction false} SlashTokens(mask: string, m: nat, o: Options)
    requires m <= |mask| && '[' !in mask
    ensures CountSlashes(Unix.Tokens(mask, m, o)) == Count('/', mask[m..])
    decreases |mask| - m
  {
    hide Unix.ReadToken, Count;
    if m < |mask| {
      var (t, next) := Unix.ReadToken(mask, m, o);
      SlashToken(mask, m, o);
      SlashTokens(mask, next, o);
      assert Unix.Tokens(mask, m, o)[1..] == Unix.Tokens(mask, next, o);
      assert mask[m..] == mask[m..next] + mask[next..];
      CountConcat('/', mask[m..next], mask[next..]);
    }
  }

  /** Under FNM_PATHNAME a match pairs every slash of the name with a slash of the mask. */
  lemma SlashesPairUp(mask: string, name: string, o: Options)
    requires o.pathName && !o.pathPrefix && Unix.Matches(mask, name, o)
    ensures Count('/', name) == CountSlashes(Unix.Tokens(mask, 0, o))
    ensures '[' !in mask ==> Count('/', name) == Count('/', mask)
  {
    Unix.FitsIffAlignment(Unix.Tokens(mask, 0, o), name, 0, o);
    TokensOfNoSlash(mask, 0, o);
    AlignedSlashes(Unix.Tokens(mask, 0, o), name, 0, o);
    assert name[0..] == name && mask[0..] == mask;
    if '[' !in mask { SlashTokens(mask, 0, o); }
  }

  /** Under FNM_PERIOD a component's leading dot is matched by a dot of the mask, and by nothing
      else: no ?, * or set consumes it. */
  lemma LeadingDotNeedsDot(mask: string, name: string, o: Options, cuts: seq<nat>, i: nat, p: nat)
    requires Unix.IsAlignment(Unix.Tokens(mask, 0, o), name, 0, cuts, o) && i < |Unix.Tokens(mask, 0, o)|
    requires cuts[i] <= p < cuts[i + 1] && p < |name| && Unix.IsLeadingDot(name, p, o)
    ensures Unix.Tokens(mask, 0, o)[i] == Unix.Literal('.')
  {
    var t := Unix.Tokens(mask, 0, o)[i];
    assert Unix.PieceFits(Unix.Tokens(mask, 0, o), name, cuts, i, o);
    if t.AnyMany? && p > cuts[i] { InSlice(name, cuts[i], cuts[i + 1], p - 1); }
  }

  lemma InSlice(s: string, a: nat, b: nat, p: nat)
    requires a <= p < b <= |s|
    ensures s[p] in s[a..b]
  {
    assert s[a..b][p - a] == s[p];
  }

  // ---- Inverted bracket sets ----

  /** What the comment at util/fnmatch.c, lines 346-347, says an inverted set accepts. */
  ghost predicate ListedNowhere(items: seq<Unix.Range>, c: char) {
    forall i :: 0 <= i < |items| ==> !items[i].Has(c)
  }

  /** Two elements list the same characters: they are the same range, or both are empty. */
  predicate SameExtent(r: Unix.Range, s: Unix.Range) {
    r == s || (r.lo > r.hi && s.lo > s.hi)
  }

  /** The code keeps that promise just for the sets whose elements all have the same extent. */
  lemma InvertedSetPromise(items: seq<Unix.Range>)
    requires items != []
    ensures (forall c :: Unix.SetAccepts(items, true, c) <==> ListedNowhere(items, c))
       <==> forall i, j :: 0 <= i < |items| && 0 <= j < |items| ==> SameExtent(items[i], items[j])
  {
    if forall c :: Unix.SetAccepts(items, true, c) <==> ListedNowhere(items, c) {
      forall i, j | 0 <= i < |items| && 0 <= j < |items| ensures SameExtent(items[i], items[j]) {
        forall c ensures items[i].Has(c) == items[j].Has(c) {
          assert Unix.SetAccepts(items, true, c) <==> ListedNowhere(items, c);
        }
        assert items[i].Has(items[i].lo) == items[j].Has(items[i].lo);
        assert items[i].Has(items[i].hi) == items[j].Has(items[i].hi);
        assert items[i].Has(items[j].lo) == items[j].Has(items[j].lo);
        assert items[i].Has(items[j].hi) == items[j].Has(items[j].hi);
      }
    } else {
      var c :| Unix.SetAccepts(items, true, c) != ListedNowhere(items, c);
      assert items[0].Has(c) || !items[0].Has(c);
    }
  }

  /** `[!ab]` matches `a`. */
  lemma InvertedSetAcceptsListed(o: Options)
    ensures Unix.Matches("[!ab]", "a", o)
  {
    var mask := "[!ab]";
    var items := [Unix.Range('a', 'a'), Unix.Range('b', 'b')];
    assert Unix.ReadSet(mask, 2, 4, o.noEscape) == Unix.Closed([], 4);
    assert Unix.ReadSet(mask, 2, 3, o.noEscape) == Unix.Closed([items[1]], 4);
    assert Unix.ReadSet(mask, 2, 2, o.noEscape) == Unix.Closed(items, 4);
    assert !items[1].Has('a');
    assert Unix.Tokens(mask, 5, o) == [];
    var ts := Unix.Tokens(mask, 0, o);
    assert ts == [Unix.Set(items, true)];
    assert Unix.PieceFits(ts, "a", [0, 1], 0, o);
    assert Unix.IsAlignment(ts, "a", 0, [0, 1], o);
  }
}
