/** Matching one path component in OS/2 or DOS style (util/fnmatch.c, match_comp_os2 and
    match_comp). The specification is an alignment: the name component is cut into one piece per
    mask character, and each piece is one that its mask character covers. */
module FnmatchOs2 {
  import opened CStrings
  import opened FnmatchFlags

  predicate IsSep(c: char) { c == '/' || c == '\\' }

  predicate IsEnd(c: char) { c == '\0' || IsSep(c) }

  /** The end of the component of `s` that position `i` lies in. */
  function CompEnd(s: string, i: nat): (e: nat)
    requires i <= |s|
    ensures i <= e <= |s|
    ensures forall k :: i <= k < e ==> !IsSep(s[k])
    ensures e < |s| ==> IsSep(s[e])
    decreases |s| - i
  {
    if i == |s| || IsSep(s[i]) then i else CompEnd(s, i + 1)
  }

  /** Mask character `p` covers the first `k` characters of `d`, the rest of the name component. */
  ghost predicate Covers(p: char, d: string, k: nat, o: Options, hasDot: bool)
    requires k <= |d|
  {
    match p
    case '?' => k == if d != "" && d[0] != '.' then 1 else 0
    case '*' => o.style.Dos? ==> '.' !in d[..k]
    case '.' => (k == 1 && d[0] == '.') || (d == "" && !hasDot)
    case _ => k == 1 && SameChar(p, d[0], o)
  }

  /** Piece `i` of the cut-up name component lies under mask character `i`, which covers it. */
  ghost predicate PieceFits(c: string, d: string, cuts: seq<nat>, i: nat, o: Options, hasDot: bool)
    requires |cuts| == |c| + 1 && i < |c|
  {
    cuts[i] <= cuts[i + 1] <= |d| && Covers(c[i], d[cuts[i]..], cuts[i + 1] - cuts[i], o, hasDot)
  }

  /** `cuts` says where name component `d` is cut to lie along mask component `c`. */
  ghost predicate IsAlignment(c: string, d: string, cuts: seq<nat>, o: Options, hasDot: bool) {
    && |cuts| == |c| + 1 && cuts[0] == 0 && cuts[|c|] == |d|
    && forall i :: 0 <= i < |c| ==> PieceFits(c, d, cuts, i, o, hasDot)
  }

  /** Mask component `c` matches name component `d`: the meaning of a component match. */
  ghost predicate CompMatches(c: string, d: string, o: Options) {
    exists cuts :: IsAlignment(c, d, cuts, o, '.' in d)
  }

  // ---- The same relation, one mask character at a time ----

  ghost predicate Fits(c: string, d: string, o: Options, hasDot: bool) {
    if c == "" then d == ""
    else exists k :: 0 <= k <= |d| && Covers(c[0], d, k, o, hasDot) && Fits(c[1..], d[k..], o, hasDot)
  }

  /** A piece keeps its place when the first piece, of length `k`, is taken away. */
  lemma PieceShift(c: string, d: string, k: nat, cuts: seq<nat>, rest: seq<nat>, i: nat, o: Options, hasDot: bool)
    requires |cuts| == |c| + 1 && |rest| == |c| && 0 < i < |c| && k <= |d|
    requires cuts[i] == rest[i - 1] + k && cuts[i + 1] == rest[i] + k
    ensures PieceFits(c, d, cuts, i, o, hasDot) <==> PieceFits(c[1..], d[k..], rest, i - 1, o, hasDot)
  {
    if rest[i - 1] <= |d[k..]| { assert d[k..][rest[i - 1]..] == d[cuts[i]..]; }
  }

  lemma {:induction false} FitsToAlignment(c: string, d: string, o: Options, hasDot: bool) returns (cuts: seq<nat>)
    requires Fits(c, d, o, hasDot)
    ensures IsAlignment(c, d, cuts, o, hasDot)
  {
    if c == "" {
      cuts := [0];
    } else {
      var k :| 0 <= k <= |d| && Covers(c[0], d, k, o, hasDot) && Fits(c[1..], d[k..], o, hasDot);
      var rest := FitsToAlignment(c[1..], d[k..], o, hasDot);
      cuts := [0] + seq(|rest|, i requires 0 <= i < |rest| => rest[i] + k);
      assert d[0..] == d;
      forall i | 0 < i < |c| ensures PieceFits(c, d, cuts, i, o, hasDot) {
        PieceShift(c, d, k, cuts, rest, i, o, hasDot);
      }
    }
  }

  lemma {:induction false} AlignmentToFits(c: string, d: string, cuts: seq<nat>, o: Options, hasDot: bool)
    requires IsAlignment(c, d, cuts, o, hasDot)
    ensures Fits(c, d, o, hasDot)
    decreases |c|
  {
    if c != "" {
      var k := cuts[1];
      assert PieceFits(c, d, cuts, 0, o, hasDot) && d[0..] == d;
      CutsMonotone(c, d, cuts, o, hasDot, 1);
      var rest := seq(|c|, i requires 0 <= i < |c| => cuts[i + 1] - k);
      forall i | 0 <= i < |c[1..]| ensures PieceFits(c[1..], d[k..], rest, i, o, hasDot) {
        assert PieceFits(c, d, cuts, i + 1, o, hasDot);
        PieceShift(c, d, k, cuts, rest, i + 1, o, hasDot);
      }
      AlignmentToFits(c[1..], d[k..], rest, o, hasDot);
    }
  }

  lemma {:induction false} CutsMonotone(c: string, d: string, cuts: seq<nat>, o: Options, hasDot: bool, from: nat)
    requires IsAlignment(c, d, cuts, o, hasDot) && from <= |c|
    ensures forall j :: from <= j <= |c| ==> cuts[from] <= cuts[j]
    decreases |c| - from
  {
    if from < |c| {
      assert PieceFits(c, d, cuts, from, o, hasDot);
      CutsMonotone(c, d, cuts, o, hasDot, from + 1);
    }
  }

  /** The step-wise relation is exactly the existence of an alignment. */
  lemma FitsIffAlignment(c: string, d: string, o: Options, hasDot: bool)
    ensures Fits(c, d, o, hasDot) <==> exists cuts :: IsAlignment(c, d, cuts, o, hasDot)
  {
    if Fits(c, d, o, hasDot) {
      var cuts := FitsToAlignment(c, d, o, hasDot);
    }
    if cuts :| IsAlignment(c, d, cuts, o, hasDot) {
      AlignmentToFits(c, d, cuts, o, hasDot);
    }
  }

  /** A run of asterisks matches what one asterisk matches. */
  lemma StarRunIsOneStar(c: string, d: string, o: Options, hasDot: bool)
    requires |c| >= 2 && c[0] == '*' && c[1] == '*'
    ensures Fits(c, d, o, hasDot) <==> Fits(c[1..], d, o, hasDot)
  {
    if Fits(c, d, o, hasDot) {
      var k :| 0 <= k <= |d| && Covers(c[0], d, k, o, hasDot) && Fits(c[1..], d[k..], o, hasDot);
      var j :| 0 <= j <= |d[k..]| && Covers(c[1..][0], d[k..], j, o, hasDot)
               && Fits(c[1..][1..], d[k..][j..], o, hasDot);
      assert d[k..][j..] == d[k + j..];
      assert d[..k + j] == d[..k] + d[k..][..j];
      assert Covers(c[1..][0], d, k + j, o, hasDot);
    }
    if Fits(c[1..], d, o, hasDot) {
      assert d[0..] == d && Covers(c[0], d, 0, o, hasDot);
    }
  }

  // ---- The matcher ----

  /** What follows the two components is compatible: both end, both go on, or _FNM_PATHPREFIX
      excuses the difference. */
  ghost predicate EndsAgree(mask: string, me: nat, name: string, ne: nat, o: Options)
    requires me <= |mask| && ne <= |name|
  {
    if me == |mask| then ne == |name| || o.pathPrefix
    else ne < |name| || (o.pathPrefix && me + 1 == |mask|)
  }

  /** The components at `m` and `n` match up to their ends, and their ends agree. */
  ghost predicate CompAgrees(mask: string, m: nat, name: string, n: nat, o: Options, hasDot: bool)
    requires m <= |mask| && n <= |name|
  {
    var me, ne := CompEnd(mask, m), CompEnd(name, n);
    Fits(mask[m..me], name[n..ne], o, hasDot) && EndsAgree(mask, me, name, ne, o)
  }

  /** CompAgrees after `k` name characters were given to the mask character at `m`. */
  ghost predicate After(mask: string, m: nat, name: string, n: nat, k: nat, o: Options, hasDot: bool)
    requires m < |mask| && n <= |name| && k <= CompEnd(name, n) - n
  {
    && Covers(mask[m], name[n..CompEnd(name, n)], k, o, hasDot)
    && CompAgrees(mask, m + 1, name, n + k, o, hasDot)
  }

  lemma CompEndStable(s: string, i: nat, j: nat)
    requires i <= |s| && i <= j <= CompEnd(s, i)
    ensures CompEnd(s, j) == CompEnd(s, i)
    decreases j - i
  {
    if i < j { CompEndStable(s, i + 1, j); }
  }

  /** A component match splits off its first mask character. */
  lemma Step(mask: string, m: nat, name: string, n: nat, o: Options, hasDot: bool)
    requires m < |mask| && !IsSep(mask[m]) && n <= |name|
    ensures CompAgrees(mask, m, name, n, o, hasDot)
       <==> exists k :: 0 <= k <= CompEnd(name, n) - n && After(mask, m, name, n, k, o, hasDot)
  {
    var me, ne := CompEnd(mask, m), CompEnd(name, n);
    var c, d := mask[m..me], name[n..ne];
    assert c[1..] == mask[m + 1..me] && CompEnd(mask, m + 1) == me;
    forall k | 0 <= k <= ne - n
      ensures (Covers(c[0], d, k, o, hasDot) && Fits(c[1..], d[k..], o, hasDot) && EndsAgree(mask, me, name, ne, o))
         <==> After(mask, m, name, n, k, o, hasDot)
    {
      CompEndStable(name, n, n + k);
      assert d[k..] == name[n + k..ne];
    }
  }

  /** One more asterisk before the asterisk at `m` changes nothing. */
  lemma StarRunCollapses(mask: string, m: nat, name: string, n: nat, o: Options, hasDot: bool)
    requires m + 1 < |mask| && n <= |name| && mask[m] == '*' && mask[m + 1] == '*'
    ensures CompAgrees(mask, m, name, n, o, hasDot) <==> CompAgrees(mask, m + 1, name, n, o, hasDot)
  {
    var me, ne := CompEnd(mask, m), CompEnd(name, n);
    var c := mask[m..me];
    assert CompEnd(mask, m + 1) == me && CompEnd(mask, m + 2) == me;
    assert c[1..] == mask[m + 1..me];
    StarRunIsOneStar(c, name[n..ne], o, hasDot);
  }

  /** An asterisk gives its place to the rest of the mask, or it takes one character and stays. */
  lemma StarTakesOneOrLeaves(mask: string, m: nat, name: string, n: nat, o: Options, hasDot: bool)
    requires m < |mask| && n <= |name| && mask[m] == '*'
    ensures CompAgrees(mask, m, name, n, o, hasDot)
       <==> CompAgrees(mask, m + 1, name, n, o, hasDot)
            || (n < CompEnd(name, n) && !(name[n] == '.' && o.style.Dos?) && CompAgrees(mask, m, name, n + 1, o, hasDot))
  {
    Step(mask, m, name, n, o, hasDot);
    var ne := CompEnd(name, n);
    assert After(mask, m, name, n, 0, o, hasDot) <==> CompAgrees(mask, m + 1, name, n, o, hasDot);
    if n < ne {
      var n1 := n + 1;
      Step(mask, m, name, n1, o, hasDot);
      if k :| 1 <= k <= ne - n && After(mask, m, name, n, k, o, hasDot) {
        StarShift(mask, m, name, n, k, o, hasDot);
      }
      if j :| 0 <= j <= ne - n1 && After(mask, m, name, n1, j, o, hasDot) {
        StarShift(mask, m, name, n, j + 1, o, hasDot);
      }
    }
  }

  lemma StarShift(mask: string, m: nat, name: string, n: nat, k: nat, o: Options, hasDot: bool)
    requires m < |mask| && n < |name| && mask[m] == '*' && 1 <= k <= CompEnd(name, n) - n
    ensures After(mask, m, name, n, k, o, hasDot)
       <==> !(name[n] == '.' && o.style.Dos?) && After(mask, m, name, n + 1, k - 1, o, hasDot)
  {
    var ne := CompEnd(name, n);
    assert name[n..ne][..k] == [name[n]] + name[n + 1..ne][..k - 1];
  }

  /** A mask character other than an asterisk can cover one length only. */
  lemma StepBy(mask: string, m: nat, name: string, n: nat, k: nat, o: Options, hasDot: bool)
    requires m < |mask| && n <= |name| && !IsSep(mask[m]) && mask[m] != '*' && k <= CompEnd(name, n) - n
    requires Covers(mask[m], name[n..CompEnd(name, n)], k, o, hasDot)
    ensures CompAgrees(mask, m, name, n, o, hasDot) <==> CompAgrees(mask, m + 1, name, n + k, o, hasDot)
  {
    Step(mask, m, name, n, o, hasDot);
    assert After(mask, m, name, n, k, o, hasDot) <==> CompAgrees(mask, m + 1, name, n + k, o, hasDot);
  }

  lemma StepFails(mask: string, m: nat, name: string, n: nat, o: Options, hasDot: bool)
    requires m < |mask| && n <= |name| && !IsSep(mask[m])
    requires forall k :: 0 <= k <= CompEnd(name, n) - n ==> !Covers(mask[m], name[n..CompEnd(name, n)], k, o, hasDot)
    ensures !CompAgrees(mask, m, name, n, o, hasDot)
  {
    Step(mask, m, name, n, o, hasDot);
  }

  // One lemma for each case of the matcher's switch.

  lemma EndCase(mask: string, m: nat, name: string, n: nat, o: Options, hasDot: bool)
    requires m <= |mask| && n <= |name| && NulFree(mask) && NulFree(name) && IsEnd(At(mask, m))
    ensures CompAgrees(mask, m, name, n, o, hasDot)
       <==> IsEnd(At(name, n)) && EndsAgree(mask, m, name, n, o)
  {
  }

  lemma QuestionCase(mask: string, m: nat, name: string, n: nat, o: Options, hasDot: bool)
    requires m < |mask| && n <= |name| && NulFree(name) && mask[m] == '?'
    ensures CompAgrees(mask, m, name, n, o, hasDot)
       <==> CompAgrees(mask, m + 1, name, if At(name, n) != '.' && !IsEnd(At(name, n)) then n + 1 else n, o, hasDot)
  {
    var d := name[n..CompEnd(name, n)];
    StepBy(mask, m, name, n, if d != "" && d[0] != '.' then 1 else 0, o, hasDot);
  }

  lemma DotCase(mask: string, m: nat, name: string, n: nat, o: Options, hasDot: bool)
    requires m < |mask| && n <= |name| && NulFree(name) && mask[m] == '.'
    ensures CompAgrees(mask, m, name, n, o, hasDot)
       <==> if At(name, n) == '.' then CompAgrees(mask, m + 1, name, n + 1, o, hasDot)
            else !hasDot && IsEnd(At(name, n)) && CompAgrees(mask, m + 1, name, n, o, hasDot)
  {
    if At(name, n) == '.' {
      StepBy(mask, m, name, n, 1, o, hasDot);
    } else if !hasDot && IsEnd(At(name, n)) {
      StepBy(mask, m, name, n, 0, o, hasDot);
    } else {
      StepFails(mask, m, name, n, o, hasDot);
    }
  }

  lemma LiteralCase(mask: string, m: nat, name: string, n: nat, o: Options, hasDot: bool)
    requires m < |mask| && n <= |name| && NulFree(mask) && NulFree(name)
    requires !IsSep(mask[m]) && mask[m] !in "*?."
    ensures CompAgrees(mask, m, name, n, o, hasDot)
       <==> SameChar(mask[m], At(name, n), o) && CompAgrees(mask, m + 1, name, n + 1, o, hasDot)
  {
    if SameChar(mask[m], At(name, n), o) {
      StepBy(mask, m, name, n, 1, o, hasDot);
    } else {
      StepFails(mask, m, name, n, o, hasDot);
    }
  }

  /** util/fnmatch.c, match_comp_os2. */
  method MatchCompOs2(mask: string, m0: nat, name: string, n0: nat, o: Options, hasDot: bool) returns (rc: Verdict)
    requires NulFree(mask) && NulFree(name) && m0 <= |mask| && n0 <= |name|
    ensures rc != Error
    ensures rc == Match <==> CompAgrees(mask, m0, name, n0, o, hasDot)
    decreases |mask| - m0
  {
    hide CompAgrees;
    var m, n := m0, n0;
    while true
      invariant m0 <= m <= |mask| && n0 <= n <= |name|
      invariant CompAgrees(mask, m, name, n, o, hasDot) <==> CompAgrees(mask, m0, name, n0, o, hasDot)
      decreases |mask| - m
    {
      match At(mask, m)
      case '\0' =>
        EndCase(mask, m, name, n, o, hasDot);
        if At(name, n) == '\0' || (o.pathPrefix && IsSep(At(name, n))) { return Match; }
        return NoMatch;
      case '/' | '\\' =>
        EndCase(mask, m, name, n, o, hasDot);
        if IsSep(At(name, n)) { return Match; }
        if o.pathPrefix && At(mask, m + 1) == '\0' && At(name, n) == '\0' { return Match; }
        return NoMatch;
      case '?' =>
        QuestionCase(mask, m, name, n, o, hasDot);
        if At(name, n) != '.' && !IsEnd(At(name, n)) { n := n + 1; }
        m := m + 1;
      case '*' =>
        m := m + 1;
        while At(mask, m) == '*'
          invariant m0 < m <= |mask| && mask[m - 1] == '*'
          invariant CompAgrees(mask, m - 1, name, n, o, hasDot) <==> CompAgrees(mask, m0, name, n0, o, hasDot)
          decreases |mask| - m
        {
          StarRunCollapses(mask, m - 1, name, n, o, hasDot);
          m := m + 1;
        }
        while true
          invariant n0 <= n <= |name|
          invariant CompAgrees(mask, m - 1, name, n, o, hasDot) <==> CompAgrees(mask, m0, name, n0, o, hasDot)
          decreases |name| - n
        {
          StarTakesOneOrLeaves(mask, m - 1, name, n, o, hasDot);
          rc := MatchCompOs2(mask, m, name, n, o, hasDot);
          if rc != NoMatch { return rc; }
          if IsEnd(At(name, n)) { return NoMatch; }
          if At(name, n) == '.' && o.style.Dos? { return NoMatch; }
          n := n + 1;
        }
      case '.' =>
        DotCase(mask, m, name, n, o, hasDot);
        m := m + 1;
        if At(name, n) == '.' {
          n := n + 1;
        } else if hasDot || !IsEnd(At(name, n)) {
          return NoMatch;
        }
      case _ =>
        LiteralCase(mask, m, name, n, o, hasDot);
        if !SameChar(At(mask, m), At(name, n), o) { return NoMatch; }
        m := m + 1;
        n := n + 1;
    }
  }

  /** util/fnmatch.c, match_comp, for the two styles that compare component by component: it looks
      for a dot in the name component first. */
  method MatchComp(mask: string, m: nat, name: string, n: nat, o: Options) returns (rc: Verdict)
    requires NulFree(mask) && NulFree(name) && m <= |mask| && n <= |name|
    ensures !o.style.Os2? && !o.style.Dos? ==> rc == Error
    ensures o.style.Os2? || o.style.Dos? ==> rc != Error
    ensures o.style.Os2? || o.style.Dos? ==>
              (rc == Match <==> CompMatches(mask[m..CompEnd(mask, m)], name[n..CompEnd(name, n)], o)
                                && EndsAgree(mask, CompEnd(mask, m), name, CompEnd(name, n), o))
  {
    match o.style
    case Os2 | Dos =>
      var s := n;
      while !IsEnd(At(name, s)) && At(name, s) != '.'
        invariant n <= s <= CompEnd(name, n)
        invariant forall k :: n <= k < s ==> name[k] != '.'
        decreases |name| - s
      {
        s := s + 1;
      }
      ghost var d := name[n..CompEnd(name, n)];
      assert At(name, s) == '.' ==> d[s - n] == '.';
      rc := MatchCompOs2(mask, m, name, n, o, At(name, s) == '.');
      FitsIffAlignment(mask[m..CompEnd(mask, m)], d, o, '.' in d);
    case _ =>
      rc := Error;
  }

  /** util/fnmatch.c, skip_comp_os2. */
  method SkipComp(s: string, i: nat) returns (j: nat)
    requires NulFree(s) && i <= |s|
    ensures j == if CompEnd(s, i) < |s| then CompEnd(s, i) + 1 else |s|
  {
    j := i;
    while !IsEnd(At(s, j))
      invariant i <= j <= CompEnd(s, i)
      decreases |s| - j
    {
      j := j + 1;
    }
    if At(s, j) != '\0' { j := j + 1; }
  }
}
