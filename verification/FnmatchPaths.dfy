/** Whole paths (util/fnmatch.c, _fnmatch_unsigned): drive, colons, UNC prefix, then either the
    Unix matcher or the components one by one. */
module FnmatchPaths {
  import opened CStrings
  import opened FnmatchFlags
  import Comp = FnmatchOs2
  import Unix = FnmatchUnix

  // ---- Meaning ----

  predicate HasDrive(s: string) { |s| >= 2 && IsAlpha(s[0]) && s[1] == ':' }

  /** Both have the same drive, up to case if asked for, or neither has one. */
  predicate DrivesAgree(mask: string, name: string, o: Options) {
    && HasDrive(mask) == HasDrive(name)
    && (HasDrive(mask) ==> mask[0] == name[0] || (o.ignoreCase && ToLower(mask[0]) == ToLower(name[0])))
  }

  function AfterDrive(s: string): string { if HasDrive(s) then s[2..] else s }

  /** The components of a path in OS/2 and DOS style. */
  function Split(s: string): (cs: seq<string>)
    ensures |cs| >= 1
    ensures forall i :: 0 <= i < |cs| ==> forall k :: 0 <= k < |cs[i]| ==> !Comp.IsSep(cs[i][k])
  {
    var e := Comp.CompEnd(s, 0);
    if e == |s| then [s] else [s[..e]] + Split(s[e + 1..])
  }

  /** The components a mask demands of a name that may be longer: all but an empty last one. */
  function Demanded(cs: seq<string>): seq<string>
    requires |cs| >= 1
  {
    if cs[|cs| - 1] == "" then cs[..|cs| - 1] else cs
  }

  /** The first `|ms|` components of a name match those of a mask, pairwise. */
  ghost predicate Pairwise(ms: seq<string>, ns: seq<string>, o: Options) {
    |ms| <= |ns| && forall i :: 0 <= i < |ms| ==> Comp.CompMatches(ms[i], ns[i], o)
  }

  /** The meaning of an OS/2 or DOS style path match, on what follows drive and UNC prefix. */
  ghost predicate PathMatches(mask: string, name: string, o: Options) {
    var ms, ns := Split(mask), Split(name);
    if o.pathPrefix then Pairwise(Demanded(ms), ns, o) else |ms| == |ns| && Pairwise(ms, ns, o)
  }

  predicate IsUnc(s: string) { |s| >= 2 && Comp.IsSep(s[0]) && Comp.IsSep(s[1]) }

  predicate IsUnixUnc(s: string) { |s| >= 2 && s[0] == '/' && s[1] == '/' }

  /** The mask after one slash, which a backslash may precede. */
  function AfterSlash(mask: string): Option<string> {
    if |mask| >= 1 && mask[0] == '/' then Some(mask[1..])
    else if |mask| >= 2 && mask[0] == '\\' && mask[1] == '/' then Some(mask[2..])
    else None
  }

  function AfterTwoSlashes(mask: string): Option<string> {
    match AfterSlash(mask)
    case None => None
    case Some(rest) => AfterSlash(rest)
  }

  /** What a path match says of a mask and a name without drives and colons. */
  ghost predicate Agree(mask: string, name: string, o: Options) {
    match o.style
    case Os2 | Dos =>
      if IsUnc(name) then IsUnc(mask) && PathMatches(mask[2..], name[2..], o) else PathMatches(mask, name, o)
    case Posix =>
      if IsUnixUnc(name) then
        var rest := AfterTwoSlashes(mask); rest.Some? && Unix.Matches(rest.value, name[2..], o)
      else Unix.Matches(mask, name, o)
    case Unknown =>
      mask == "" && (name == "" || o.pathPrefix)
  }

  /** The meaning of fnmatch. */
  ghost function Outcome(mask: string, name: string, o: Options): Verdict {
    if !DrivesAgree(mask, name, o) then NoMatch
    else if ':' in AfterDrive(mask) then Error
    else if ':' in AfterDrive(name) then NoMatch
    else if Agree(AfterDrive(mask), AfterDrive(name), o) then Match
    else if o.style.Unknown? then Error
    else NoMatch
  }

  // ---- Component by component ----

  /** Where a path goes on after its first component. */
  function Rest(s: string): string {
    var e := Comp.CompEnd(s, 0); if e < |s| then s[e + 1..] else ""
  }

  lemma PairwiseCons(c: string, ms: seq<string>, d: string, ns: seq<string>, o: Options)
    ensures Pairwise([c] + ms, [d] + ns, o) <==> Comp.CompMatches(c, d, o) && Pairwise(ms, ns, o)
  {
    if Pairwise([c] + ms, [d] + ns, o) {
      forall i | 0 <= i < |ms| ensures Comp.CompMatches(ms[i], ns[i], o) {
        assert Comp.CompMatches(([c] + ms)[i + 1], ([d] + ns)[i + 1], o);
      }
      assert Comp.CompMatches(([c] + ms)[0], ([d] + ns)[0], o);
    }
  }

  lemma EmptyMatchesEmpty(d: string, o: Options)
    ensures Comp.CompMatches("", d, o) <==> d == ""
  {
    Comp.FitsIffAlignment("", d, o, '.' in d);
  }

  /** The components of `s` after the first. */
  function Later(s: string): seq<string> {
    if Comp.CompEnd(s, 0) < |s| then Split(Rest(s)) else []
  }

  lemma SplitFirst(s: string)
    ensures Split(s) == [s[..Comp.CompEnd(s, 0)]] + Later(s)
  {
    assert s[..|s|] == s;
  }

  lemma DemandedFirst(s: string)
    requires s != ""
    ensures Demanded(Split(s)) == [s[..Comp.CompEnd(s, 0)]] + Demanded(Split(Rest(s)))
  {
    SplitFirst(s);
    SplitFirst("");
    var c := s[..Comp.CompEnd(s, 0)];
    if Comp.CompEnd(s, 0) == |s| { assert c == s && Split(Rest(s)) == [""]; }
  }

  lemma DemandedNothing(s: string)
    ensures Demanded(Split(s)) == [] <==> s == ""
  {
    if s == "" { SplitFirst(""); } else { DemandedFirst(s); }
  }

  /** Matching the first components and going on with the rest is matching the whole: the point
      where the component matcher stops does not matter. */
  lemma PathStep(mask: string, name: string, o: Options)
    requires mask != "" || (name != "" && !o.pathPrefix)
    ensures var me, ne := Comp.CompEnd(mask, 0), Comp.CompEnd(name, 0);
      PathMatches(mask, name, o) <==> Comp.CompMatches(mask[..me], name[..ne], o)
                                      && Comp.EndsAgree(mask, me, name, ne, o)
                                      && PathMatches(Rest(mask), Rest(name), o)
  {
    hide Split, Demanded, Later, Comp.CompMatches, Comp.CompEnd;
    var me, ne := Comp.CompEnd(mask, 0), Comp.CompEnd(name, 0);
    var c, d := mask[..me], name[..ne];
    SplitFirst(name);
    LaterIsSplit(name);
    if o.pathPrefix {
      DemandedFirst(mask);
      DemandedNothing(Rest(mask));
      PairwiseCons(c, Demanded(Split(Rest(mask))), d, Later(name), o);
    } else {
      SplitFirst(mask);
      LaterIsSplit(mask);
      EmptyPathMatchesEmpty(o);
      PairwiseCons(c, Later(mask), d, Later(name), o);
    }
  }

  lemma LaterIsSplit(s: string)
    ensures Later(s) == if Comp.CompEnd(s, 0) < |s| then Split(Rest(s)) else []
    ensures Comp.CompEnd(s, 0) == |s| ==> Rest(s) == ""
  {
  }

  lemma EmptyPathMatchesEmpty(o: Options)
    ensures PathMatches("", "", o)
  {
    EmptyMatchesEmpty("", o);
  }

  /** Where the component loop goes on after the component at `i`. */
  function Next(s: string, i: nat): (j: nat)
    requires i <= |s|
    ensures i <= j <= |s|
  {
    if Comp.CompEnd(s, i) < |s| then Comp.CompEnd(s, i) + 1 else |s|
  }

  lemma {:induction false} SuffixEnd(s: string, i: nat, j: nat)
    requires i + j <= |s|
    ensures Comp.CompEnd(s[i..], j) == Comp.CompEnd(s, i + j) - i
    decreases |s| - i - j
  {
    if i + j < |s| && !Comp.IsSep(s[i + j]) { SuffixEnd(s, i, j + 1); }
  }

  lemma FirstOfSuffix(s: string, i: nat)
    requires i <= |s|
    ensures Comp.CompEnd(s[i..], 0) == Comp.CompEnd(s, i) - i
    ensures s[i..][..Comp.CompEnd(s, i) - i] == s[i..Comp.CompEnd(s, i)]
    ensures Rest(s[i..]) == s[Next(s, i)..]
  {
    SuffixEnd(s, i, 0);
  }

  /** PathStep, said of cursors. */
  lemma ComponentStep(mask: string, m: nat, name: string, n: nat, o: Options)
    requires m <= |mask| && n <= |name| && (m < |mask| || (n < |name| && !o.pathPrefix))
    ensures var me, ne := Comp.CompEnd(mask, m), Comp.CompEnd(name, n);
      PathMatches(mask[m..], name[n..], o) <==> Comp.CompMatches(mask[m..me], name[n..ne], o)
                                                && Comp.EndsAgree(mask, me, name, ne, o)
                                                && PathMatches(mask[Next(mask, m)..], name[Next(name, n)..], o)
  {
    hide PathMatches, Comp.CompMatches, Comp.CompEnd, Rest, Next;
    FirstOfSuffix(mask, m);
    FirstOfSuffix(name, n);
    PathStep(mask[m..], name[n..], o);
  }

  /** The loop of _fnmatch_unsigned over the two slashes of a UNC mask (util/fnmatch.c, lines
      527-533); None is its return of FNM_NOMATCH. */
  method SkipTwoSlashes(mask: string, m0: nat) returns (r: Option<nat>)
    requires NulFree(mask) && m0 <= |mask|
    ensures r.Some? ==> r.value <= |mask|
    ensures AfterTwoSlashes(mask[m0..]) == if r.Some? then Some(mask[r.value..]) else None
  {
    var m: nat := m0;
    for i := 0 to 2
      invariant m <= |mask|
      invariant AfterTwoSlashes(mask[m0..]) == (if i == 0 then AfterTwoSlashes(mask[m..])
                                                else if i == 1 then AfterSlash(mask[m..]) else Some(mask[m..]))
    {
      if At(mask, m) == '/' {
        m := m + 1;
      } else if At(mask, m) == '\\' && At(mask, m + 1) == '/' {
        m := m + 2;
      } else {
        return None;
      }
    }
    r := Some(m);
  }

  /** The switch on the style in _fnmatch_unsigned (util/fnmatch.c, lines 506-540), and the
      component loop that follows it. */
  method MatchStyle(mask: string, m0: nat, name: string, n0: nat, o: Options) returns (rc: Verdict)
    requires NulFree(mask) && NulFree(name) && m0 <= |mask| && n0 <= |name|
    ensures rc == if Agree(mask[m0..], name[n0..], o) then Match else if o.style.Unknown? then Error else NoMatch
  {
    hide PathMatches, Unix.Matches, Unix.FitsAt, AfterTwoSlashes;
    var m, n := m0, n0;
    match o.style {
      case Os2 | Dos =>
        if Comp.IsSep(At(name, n)) && Comp.IsSep(At(name, n + 1)) {
          if !(Comp.IsSep(At(mask, m)) && Comp.IsSep(At(mask, m + 1))) { return NoMatch; }
          n := n + 2;
          m := m + 2;
          assert mask[m..] == mask[m0..][2..] && name[n..] == name[n0..][2..];
        }
      case Posix =>
        if At(name, n) == '/' && At(name, n + 1) == '/' {
          n := n + 2;
          assert name[n..] == name[n0..][2..];
          var skipped := SkipTwoSlashes(mask, m);
          if skipped == None { return NoMatch; }
          m := skipped.value;
        }
        rc := Unix.MatchUnix(mask[m..], 0, name[n..], 0, o, 0);
        Unix.MatchesIffFits(mask[m..], name[n..], o);
        return rc;
      case Unknown =>
    }
    rc := MatchComponents(mask, m, name, n, o);
  }

  /** util/fnmatch.c, _fnmatch_unsigned: drives and colons, then MatchStyle. */
  method FnmatchUnsigned(mask: string, name: string, o: Options) returns (rc: Verdict)
    requires NulFree(mask) && NulFree(name)
    ensures rc == Outcome(mask, name, o)
  {
    hide Agree, ToLower;
    var mDrive: Option<char> := if IsAlpha(At(mask, 0)) && At(mask, 1) == ':' then Some(mask[0]) else None;
    var nDrive: Option<char> := if IsAlpha(At(name, 0)) && At(name, 1) == ':' then Some(name[0]) else None;
    if mDrive != nDrive {
      if mDrive == None || nDrive == None { return NoMatch; }
      if !o.ignoreCase { return NoMatch; }
      if ToLower(mDrive.value) != ToLower(nDrive.value) { return NoMatch; }
    }
    var m, n := 0, 0;
    if mDrive != None { m := 2; }
    if nDrive != None { n := 2; }
    assert mask[m..] == AfterDrive(mask) && name[n..] == AfterDrive(name);
    if ':' in mask[m..] { return Error; }
    if ':' in name[n..] { return NoMatch; }
    rc := MatchStyle(mask, m, name, n, o);
  }

  /** The loop over components of _fnmatch_unsigned (util/fnmatch.c, lines 545-573). */
  method MatchComponents(mask: string, m0: nat, name: string, n0: nat, o: Options) returns (rc: Verdict)
    requires NulFree(mask) && NulFree(name) && m0 <= |mask| && n0 <= |name| && !o.style.Posix?
    ensures o.style.Os2? || o.style.Dos? ==> rc == if PathMatches(mask[m0..], name[n0..], o) then Match else NoMatch
    ensures o.style.Unknown? ==> rc == if m0 == |mask| && (n0 == |name| || o.pathPrefix) then Match else Error
  {
    hide PathMatches, Comp.CompMatches, Comp.CompEnd, Comp.EndsAgree;
    var m, n := m0, n0;
    while At(mask, m) != '\0' || At(name, n) != '\0'
      invariant m0 <= m <= |mask| && n0 <= n <= |name|
      invariant o.style.Unknown? ==> m == m0 && n == n0
      invariant PathMatches(mask[m..], name[n..], o) <==> PathMatches(mask[m0..], name[n0..], o)
      decreases |mask| - m + |name| - n
    {
      if At(mask, m) == '\0' && o.pathPrefix {
        EmptyMask(name[n..], o);
        assert mask[m..] == "";
        return Match;
      }
      rc := Comp.MatchComp(mask, m, name, n, o);
      ComponentStep(mask, m, name, n, o);
      if rc != Match { return rc; }
      m := Comp.SkipComp(mask, m);
      n := Comp.SkipComp(name, n);
    }
    EmptyMask("", o);
    assert mask[m..] == "" && name[n..] == "";
    if At(mask, m) == '\0' && At(name, n) == '\0' { return Match; }
    return NoMatch;
  }

  lemma EmptyMask(name: string, o: Options)
    requires o.pathPrefix || name == ""
    ensures PathMatches("", name, o)
  {
    EmptyMatchesEmpty("", o);
  }

  /** The public entry point, with its flag word. */
  method Fnmatch(mask: string, name: string, flags: bv32) returns (rc: int)
    requires NulFree(mask) && NulFree(name)
    ensures rc == Outcome(mask, name, Decode(flags)).Code()
  {
    var verdict := FnmatchUnsigned(mask, name, Decode(flags));
    rc := verdict.Code();
  }
}
