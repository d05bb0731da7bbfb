/** Matching a whole path in Unix style (util/fnmatch.c, match_unix). The mask is read as a
    sequence of tokens; the specification is an alignment that cuts the name into one piece per
    token, each piece being one that its token covers. */
module FnmatchUnix {
  import opened CStrings
  import opened FnmatchFlags

  /** A range of a bracket set, both ends included. */
  datatype Range = Range(lo: char, hi: char) {
    predicate Has(c: char) { lo <= c <= hi }
  }

  datatype Token =
    | Literal(c: char)
    | AnyOne
    | AnyMany
    | Slash(last: bool)  // last: nothing but at most one idle backslash follows in the mask
    | Set(items: seq<Range>, invert: bool)
    | Nothing            // a backslash that escapes neither ? nor *

  // ---- Reading a mask ----

  datatype SetBody = Unclosed | Closed(items: seq<Range>, close: nat) {
    function Prepend(r: Range): SetBody {
      match this
      case Unclosed => Unclosed
      case Closed(items, close) => Closed([r] + items, close)
    }

    ghost function After(seen: seq<Range>): SetBody {
      match this
      case Unclosed => Unclosed
      case Closed(items, close) => Closed(seen + items, close)
    }
  }

  /** One element of a bracket set: the character or range at `i`, and where the next one begins. */
  datatype SetItem = Cut | Item(range: Range, next: nat)

  function ReadItem(mask: string, i: nat, noEscape: bool): (r: SetItem)
    requires i < |mask|
    ensures r.Item? ==> i < r.next <= |mask|
  {
    var j := if !noEscape && mask[i] == '\\' then i + 1 else i;
    if j == |mask| then Cut
    else if At(mask, j + 1) == '-' && At(mask, j + 2) != ']' then
      var k := if !noEscape && At(mask, j + 2) == '\\' then j + 3 else j + 2;
      if k == |mask| then Cut else Item(Range(mask[j], mask[k]), k + 1)
    else Item(Range(mask[j], mask[j]), j + 1)
  }

  /** The set whose elements begin at `start`, read from `i` on. A ] closes it, unless it is the
      first character. */
  function ReadSet(mask: string, start: nat, i: nat, noEscape: bool): (r: SetBody)
    requires start <= i <= |mask|
    ensures r.Closed? ==> i <= r.close < |mask| && mask[r.close] == ']'
    decreases |mask| - i
  {
    if i == |mask| then Unclosed
    else if mask[i] == ']' && i != start then Closed([], i)
    else match ReadItem(mask, i, noEscape)
      case Cut => Unclosed
      case Item(range, next) => ReadSet(mask, start, next, noEscape).Prepend(range)
  }

  /** The token at `m`, and where the next one begins. */
  function ReadToken(mask: string, m: nat, o: Options): (r: (Token, nat))
    requires m < |mask|
    ensures m < r.1 <= |mask|
  {
    match mask[m]
    case '?' => (AnyOne, m + 1)
    case '*' => (AnyMany, m + 1)
    case '/' => (Slash(mask[m + 1..] == "" || (!o.noEscape && mask[m + 1..] == "\\")), m + 1)
    case '[' =>
      var invert := At(mask, m + 1) == '!' || At(mask, m + 1) == '^';
      var start := if invert then m + 2 else m + 1;
      (match ReadSet(mask, start, start, o.noEscape)
       case Unclosed => (Literal('['), m + 1)
       case Closed(items, close) => (Set(items, invert), close + 1))
    case '\\' =>
      if o.noEscape then (Literal('\\'), m + 1)
      else if At(mask, m + 1) == '*' || At(mask, m + 1) == '?' then (Literal(mask[m + 1]), m + 2)
      else (Nothing, m + 1)
    case c => (Literal(c), m + 1)
  }

  function Tokens(mask: string, m: nat, o: Options): seq<Token>
    requires m <= |mask|
    decreases |mask| - m
  {
    if m == |mask| then []
    else var (t, next) := ReadToken(mask, m, o); [t] + Tokens(mask, next, o)
  }

  // ---- What a mask matches ----

  /** Position `n` begins a component: only the very first one does unless FNM_PATHNAME is set. */
  predicate IsCompStart(name: string, n: nat, o: Options)
    requires n <= |name|
  {
    n == 0 || (o.pathName && name[n - 1] == '/')
  }

  /** Under FNM_PERIOD a dot that begins a component has to be matched by a dot. */
  predicate IsLeadingDot(name: string, n: nat, o: Options)
    requires n <= |name|
  {
    o.period && n < |name| && name[n] == '.' && IsCompStart(name, n, o)
  }

  predicate IsBarredSlash(name: string, n: nat, o: Options)
    requires n < |name|
  {
    o.pathName && name[n] == '/'
  }

  /** A set accepts `c` when some element has it or, inverted, when some element lacks it. */
  ghost predicate SetAccepts(items: seq<Range>, invert: bool, c: char) {
    exists i :: 0 <= i < |items| && items[i].Has(c) != invert
  }

  /** Token `t` covers `name[a..b]`. */
  ghost predicate Covers(t: Token, name: string, a: nat, b: nat, o: Options)
    requires a <= b <= |name|
  {
    match t
    case Literal(c) => b == a + 1 && SameChar(c, name[a], o)
    case AnyOne => b == a + 1 && !IsBarredSlash(name, a, o) && !IsLeadingDot(name, a, o)
    case AnyMany => !IsLeadingDot(name, a, o) && (o.pathName ==> '/' !in name[a..b])
    case Slash(last) => (b == a + 1 && name[a] == '/') || (a == b == |name| && o.pathPrefix && last)
    case Set(items, invert) =>
      b == a + 1 && !IsBarredSlash(name, a, o) && !IsLeadingDot(name, a, o) && SetAccepts(items, invert, name[a])
    case Nothing => b == a
  }

  /** The mask may end at `n`: at the end of the name or, with _FNM_PATHPREFIX, at a slash. */
  predicate MayEnd(name: string, n: nat, o: Options)
    requires n <= |name|
  {
    n == |name| || (o.pathPrefix && name[n] == '/')
  }

  ghost predicate PieceFits(ts: seq<Token>, name: string, cuts: seq<nat>, i: nat, o: Options)
    requires |cuts| == |ts| + 1 && i < |ts|
  {
    cuts[i] <= cuts[i + 1] <= |name| && Covers(ts[i], name, cuts[i], cuts[i + 1], o)
  }

  /** `cuts` says where the name is cut, from position `n` on, to lie along the tokens. */
  ghost predicate IsAlignment(ts: seq<Token>, name: string, n: nat, cuts: seq<nat>, o: Options) {
    && |cuts| == |ts| + 1 && cuts[0] == n && cuts[|ts|] <= |name| && MayEnd(name, cuts[|ts|], o)
    && forall i :: 0 <= i < |ts| ==> PieceFits(ts, name, cuts, i, o)
  }

  /** The mask matches the name: the meaning of a Unix style match. */
  ghost predicate Matches(mask: string, name: string, o: Options) {
    exists cuts :: IsAlignment(Tokens(mask, 0, o), name, 0, cuts, o)
  }

  // ---- The same relation, one token at a time ----

  ghost predicate Fits(ts: seq<Token>, name: string, n: nat, o: Options)
    requires n <= |name|
  {
    if ts == [] then MayEnd(name, n, o)
    else exists k :: n <= k <= |name| && Covers(ts[0], name, n, k, o) && Fits(ts[1..], name, k, o)
  }

  lemma {:induction false} FitsToAlignment(ts: seq<Token>, name: string, n: nat, o: Options) returns (cuts: seq<nat>)
    requires n <= |name| && Fits(ts, name, n, o)
    ensures IsAlignment(ts, name, n, cuts, o)
  {
    if ts == [] {
      cuts := [n];
    } else {
      var k :| n <= k <= |name| && Covers(ts[0], name, n, k, o) && Fits(ts[1..], name, k, o);
      var rest := FitsToAlignment(ts[1..], name, k, o);
      cuts := [n] + rest;
      forall i | 0 <= i < |ts| ensures PieceFits(ts, name, cuts, i, o) {
        if i > 0 { assert PieceFits(ts[1..], name, rest, i - 1, o); }
      }
    }
  }

  lemma {:induction false} AlignmentToFits(ts: seq<Token>, name: string, n: nat, cuts: seq<nat>, o: Options)
    requires IsAlignment(ts, name, n, cuts, o)
    ensures n <= |name| && Fits(ts, name, n, o)
  {
    if ts != [] {
      assert PieceFits(ts, name, cuts, 0, o);
      forall i | 0 <= i < |ts[1..]| ensures PieceFits(ts[1..], name, cuts[1..], i, o) {
        assert PieceFits(ts, name, cuts, i + 1, o);
      }
      AlignmentToFits(ts[1..], name, cuts[1], cuts[1..], o);
    }
  }

  /** The token-wise relation is exactly the existence of an alignment. */
  lemma FitsIffAlignment(ts: seq<Token>, name: string, n: nat, o: Options)
    requires n <= |name|
    ensures Fits(ts, name, n, o) <==> exists cuts :: IsAlignment(ts, name, n, cuts, o)
  {
    if Fits(ts, name, n, o) {
      var cuts := FitsToAlignment(ts, name, n, o);
    }
    if cuts :| IsAlignment(ts, name, n, cuts, o) {
      AlignmentToFits(ts, name, n, cuts, o);
    }
  }

  ghost predicate FitsAt(mask: string, m: nat, name: string, n: nat, o: Options)
    requires m <= |mask| && n <= |name|
  {
    Fits(Tokens(mask, m, o), name, n, o)
  }

  lemma MatchesIffFits(mask: string, name: string, o: Options)
    ensures Matches(mask, name, o) <==> FitsAt(mask, 0, name, 0, o)
  {
    FitsIffAlignment(Tokens(mask, 0, o), name, 0, o);
  }

  ghost predicate After(mask: string, m: nat, name: string, n: nat, k: nat, o: Options)
    requires m < |mask| && n <= k <= |name|
  {
    var (t, next) := ReadToken(mask, m, o);
    Covers(t, name, n, k, o) && FitsAt(mask, next, name, k, o)
  }

  lemma Step(mask: string, m: nat, name: string, n: nat, o: Options)
    requires m < |mask| && n <= |name|
    ensures FitsAt(mask, m, name, n, o) <==> exists k :: n <= k <= |name| && After(mask, m, name, n, k, o)
  {
    var (t, next) := ReadToken(mask, m, o);
    var ts := Tokens(mask, m, o);
    assert ts[0] == t && ts[1..] == Tokens(mask, next, o);
    forall k | n <= k <= |name|
      ensures Covers(ts[0], name, n, k, o) && Fits(ts[1..], name, k, o) <==> After(mask, m, name, n, k, o)
    {
    }
  }

  // One lemma for each kind of case of the matcher's switch.

  lemma OneCharCase(mask: string, m: nat, name: string, n: nat, o: Options)
    requires m < |mask| && n <= |name|
    requires var t := ReadToken(mask, m, o).0; t.Literal? || t.AnyOne? || t.Set?
    ensures FitsAt(mask, m, name, n, o) <==> n < |name| && After(mask, m, name, n, n + 1, o)
  {
    Step(mask, m, name, n, o);
  }

  lemma QuestionCase(mask: string, m: nat, name: string, n: nat, o: Options)
    requires m < |mask| && n <= |name| && mask[m] == '?'
    ensures FitsAt(mask, m, name, n, o)
       <==> n < |name| && !IsBarredSlash(name, n, o) && !IsLeadingDot(name, n, o) && FitsAt(mask, m + 1, name, n + 1, o)
  {
    OneCharCase(mask, m, name, n, o);
  }

  lemma LiteralCase(mask: string, m: nat, name: string, n: nat, o: Options)
    requires m < |mask| && n <= |name| && mask[m] !in "?*/[\\" && NulFree(mask)
    ensures FitsAt(mask, m, name, n, o)
       <==> SameChar(mask[m], At(name, n), o) && FitsAt(mask, m + 1, name, n + 1, o)
    ensures SameChar(mask[m], At(name, n), o) ==> n < |name| && name[n] != '/'
  {
    OneCharCase(mask, m, name, n, o);
  }

  lemma SlashCase(mask: string, m: nat, name: string, n: nat, o: Options)
    requires m < |mask| && n <= |name| && mask[m] == '/' && NulFree(mask) && NulFree(name)
    ensures FitsAt(mask, m, name, n, o)
       <==> if At(name, n) == '/' then FitsAt(mask, m + 1, name, n + 1, o)
            else n == |name| && o.pathPrefix && FitsAt(mask, m + 1, name, n, o)
                 && (At(mask, m + 1) == '\0'
                     || (!o.noEscape && At(mask, m + 1) == '\\' && At(mask, m + 2) == '\0'))
  {
    Step(mask, m, name, n, o);
    assert mask[m + 1..] == "" <==> m + 1 == |mask|;
    assert mask[m + 1..] == "\\" <==> m + 2 == |mask| && mask[m + 1] == '\\';
    if n < |name| {
      assert After(mask, m, name, n, n + 1, o) <==> name[n] == '/' && FitsAt(mask, m + 1, name, n + 1, o);
    } else {
      assert After(mask, m, name, n, n, o) <==> o.pathPrefix && ReadToken(mask, m, o).0.last && FitsAt(mask, m + 1, name, n, o);
    }
  }

  lemma NothingCase(mask: string, m: nat, name: string, n: nat, o: Options)
    requires m < |mask| && n <= |name| && ReadToken(mask, m, o) == (Nothing, m + 1)
    ensures FitsAt(mask, m, name, n, o) <==> FitsAt(mask, m + 1, name, n, o)
  {
    Step(mask, m, name, n, o);
    assert After(mask, m, name, n, n, o) <==> FitsAt(mask, m + 1, name, n, o);
  }

  lemma StarShift(mask: string, m: nat, name: string, n: nat, k: nat, o: Options)
    requires m < |mask| && mask[m] == '*' && n < k <= |name|
    ensures After(mask, m, name, n, k, o)
       <==> !IsLeadingDot(name, n, o) && !IsBarredSlash(name, n, o) && After(mask, m, name, n + 1, k, o)
  {
    assert name[n..k] == [name[n]] + name[n + 1..k];
  }

  /** An asterisk gives its place to the rest of the mask, or it takes one character and stays. */
  lemma StarTakesOneOrLeaves(mask: string, m: nat, name: string, n: nat, o: Options)
    requires m < |mask| && n <= |name| && mask[m] == '*'
    ensures FitsAt(mask, m, name, n, o)
       <==> !IsLeadingDot(name, n, o)
            && (FitsAt(mask, m + 1, name, n, o)
                || (n < |name| && !IsBarredSlash(name, n, o) && FitsAt(mask, m, name, n + 1, o)))
  {
    Step(mask, m, name, n, o);
    assert After(mask, m, name, n, n, o) <==> !IsLeadingDot(name, n, o) && FitsAt(mask, m + 1, name, n, o);
    if n < |name| {
      var n1 := n + 1;
      Step(mask, m, name, n1, o);
      if k :| n1 <= k <= |name| && After(mask, m, name, n, k, o) {
        StarShift(mask, m, name, n, k, o);
      }
      if k :| n1 <= k <= |name| && After(mask, m, name, n1, k, o) {
        StarShift(mask, m, name, n, k, o);
      }
    }
  }

  /** A run of asterisks matches what one asterisk matches. */
  lemma {:induction false} StarRunIsOneStar(mask: string, m: nat, name: string, n: nat, o: Options)
    requires m + 1 < |mask| && n <= |name| && mask[m] == '*' && mask[m + 1] == '*'
    ensures FitsAt(mask, m, name, n, o) <==> FitsAt(mask, m + 1, name, n, o)
    decreases |name| - n
  {
    StarTakesOneOrLeaves(mask, m, name, n, o);
    StarTakesOneOrLeaves(mask, m + 1, name, n, o);
    if n < |name| { StarRunIsOneStar(mask, m, name, n + 1, o); }
  }

  // ---- The matcher ----

  /** Where the component of position `n` begins. */
  function CompStart(name: string, n: nat, o: Options): (s: nat)
    requires n <= |name|
    ensures s <= n && IsCompStart(name, s, o)
    ensures forall k :: s < k <= n ==> !IsCompStart(name, k, o)
    decreases n
  {
    if IsCompStart(name, n, o) then n else CompStart(name, n - 1, o)
  }

  /** The loop of match_unix over a bracket set (util/fnmatch.c, lines 358-401): it tests `ch`
      against each element while it looks for the closing ]. */
  method ScanSet(mask: string, start: nat, ch: char, invert: bool, noEscape: bool) returns (matched: bool, m: nat)
    requires start <= |mask| && NulFree(mask)
    ensures start <= m <= |mask|
    ensures m == |mask| <==> ReadSet(mask, start, start, noEscape).Unclosed?
    ensures m < |mask| ==>
              var set_ := ReadSet(mask, start, start, noEscape);
              m == set_.close && (matched <==> SetAccepts(set_.items, invert, ch))
  {
    hide ReadSet, SetAccepts;
    m, matched := start, false;
    SetOfNone(invert, ch);
    ReadSetEnds(mask, start, start, noEscape);
    ghost var seen: seq<Range> := [];
    ghost var whole := ReadSet(mask, start, start, noEscape);
    while !(At(mask, m) == '\0' || (At(mask, m) == ']' && m != start))
      invariant start <= m <= |mask|
      invariant matched <==> SetAccepts(seen, invert, ch)
      invariant whole == ReadSet(mask, start, m, noEscape).After(seen)
      decreases |mask| - m
    {
      ReadSetStep(mask, start, m, noEscape, seen);
      ghost var item := ReadItem(mask, m, noEscape);
      var c1 := At(mask, m);
      var c2;
      m := m + 1;
      if !noEscape && c1 == '\\' {
        if At(mask, m) == '\0' { break; }
        c1 := At(mask, m);
        m := m + 1;
      }
      if At(mask, m) == '-' && At(mask, m + 1) != ']' {
        m := m + 1;
        if !noEscape && At(mask, m) == '\\' { m := m + 1; }
        if At(mask, m) == '\0' { break; }
        c2 := At(mask, m);
        m := m + 1;
      } else {
        c2 := c1;
      }
      assert item == Item(Range(c1, c2), m);
      if c1 <= ch <= c2 {
        if !invert { matched := true; }
      } else {
        if invert { matched := true; }
      }
      SetGrows(seen, Range(c1, c2), invert, ch);
      seen := seen + [Range(c1, c2)];
    }
    ReadSetEnds(mask, start, m, noEscape);
    assert seen + [] == seen;
  }

  lemma ReadSetStep(mask: string, start: nat, i: nat, noEscape: bool, seen: seq<Range>)
    requires start <= i < |mask| && !(mask[i] == ']' && i != start)
    ensures ReadItem(mask, i, noEscape).Cut? ==> ReadSet(mask, start, i, noEscape).After(seen) == Unclosed
    ensures var item := ReadItem(mask, i, noEscape);
      item.Item? ==>
        ReadSet(mask, start, i, noEscape).After(seen) == ReadSet(mask, start, item.next, noEscape).After(seen + [item.range])
  {
    match ReadItem(mask, i, noEscape)
    case Cut =>
    case Item(range, next) =>
      match ReadSet(mask, start, next, noEscape)
      case Unclosed =>
      case Closed(items, close) => assert seen + ([range] + items) == seen + [range] + items;
  }

  lemma ReadSetEnds(mask: string, start: nat, i: nat, noEscape: bool)
    requires start <= i <= |mask|
    ensures i == |mask| ==> ReadSet(mask, start, i, noEscape) == Unclosed
    ensures i < |mask| && mask[i] == ']' && i != start ==> ReadSet(mask, start, i, noEscape) == Closed([], i)
    ensures i == start ==> ReadSet(mask, start, i, noEscape).After([]) == ReadSet(mask, start, i, noEscape)
  {
  }

  lemma SetOfNone(invert: bool, c: char)
    ensures !SetAccepts([], invert, c)
  {
  }

  lemma SetGrows(items: seq<Range>, r: Range, invert: bool, c: char)
    ensures SetAccepts(items + [r], invert, c) <==> SetAccepts(items, invert, c) || r.Has(c) != invert
  {
    var more := items + [r];
    assert more[|items|] == r;
    if i :| 0 <= i < |items| && items[i].Has(c) != invert {
      assert more[i].Has(c) != invert;
    }
  }

  /** Only a barred slash ends the component that a position lies in. */
  lemma CompMoves(name: string, n: nat, o: Options)
    requires n < |name|
    ensures IsLeadingDot(name, n, o) <==> name[n] == '.' && o.period && n == CompStart(name, n, o)
    ensures CompStart(name, n + 1, o) == if IsBarredSlash(name, n, o) then n + 1 else CompStart(name, n, o)
    ensures !IsBarredSlash(name, n, o) ==> !IsLeadingDot(name, n + 1, o)
  {
  }

  /** The bracket case of match_unix (util/fnmatch.c, lines 336-421), with its way back to the [
      when no ] closes the set. */
  method MatchSet(mask: string, m0: nat, name: string, n0: nat, o: Options, comp: nat)
    returns (accepted: bool, m: nat, n: nat)
    requires NulFree(mask) && NulFree(name) && m0 < |mask| && n0 <= |name| && mask[m0] == '['
    requires n0 < |name| ==> comp == CompStart(name, n0, o)
    ensures if accepted then m0 < m <= |mask| && n == n0 + 1 <= |name| && !IsBarredSlash(name, n0, o)
                             && (FitsAt(mask, m0, name, n0, o) <==> FitsAt(mask, m, name, n, o))
            else !FitsAt(mask, m0, name, n0, o)
  {
    hide FitsAt, ReadSet, SetAccepts, CompStart, IsCompStart;
    m, n := m0, n0;
    ghost var first := if At(mask, m + 1) == '!' || At(mask, m + 1) == '^' then m + 2 else m + 1;
    SetCase(mask, m, first, ReadSet(mask, first, first, o.noEscape), name, n, o);
    if At(name, n) == '\0' { return false, m, n; }
    CompMoves(name, n, o);
    if o.pathName && At(name, n) == '/' { return false, m, n; }
    if At(name, n) == '.' && o.period && n == comp { return false, m, n; }
    var invert := false;
    m := m + 1;
    if At(mask, m) == '!' || At(mask, m) == '^' {
      m := m + 1;
      invert := true;
    }
    var start := m;
    var matched;
    matched, m := ScanSet(mask, start, name[n], invert, o.noEscape);
    if At(mask, m) == '\0' {
      if At(name, n) != '[' { return false, m, n; }
      n := n + 1;
      m := start;
      if invert { m := m - 1; }
    } else {
      if !matched { return false, m, n; }
      m := m + 1;
      n := n + 1;
    }
    accepted := true;
  }

  /** The backslash case of match_unix (util/fnmatch.c, lines 424-439): an ordinary character, the
      quote of an asterisk or a question mark, or nothing. */
  method MatchBackslash(mask: string, m0: nat, name: string, n0: nat, o: Options)
    returns (accepted: bool, m: nat, n: nat)
    requires NulFree(mask) && NulFree(name) && m0 < |mask| && n0 <= |name| && mask[m0] == '\\'
    ensures if accepted then m0 < m <= |mask| && (n == n0 || (n == n0 + 1 <= |name| && !IsBarredSlash(name, n0, o)))
                             && (FitsAt(mask, m0, name, n0, o) <==> FitsAt(mask, m, name, n, o))
            else !FitsAt(mask, m0, name, n0, o)
  {
    hide FitsAt;
    BackslashCase(mask, m0, name, n0, o);
    m, n := m0 + 1, n0;
    if o.noEscape {
      if At(name, n) != '\\' { return false, m, n; }
      n := n + 1;
    } else if At(mask, m) == '*' || At(mask, m) == '?' {
      if At(mask, m) != At(name, n) { return false, m, n; }
      m := m + 1;
      n := n + 1;
    }
    accepted := true;
  }

  /** The asterisk case of match_unix (util/fnmatch.c, lines 291-307): refuse a leading dot, skip the
      run of asterisks, then try the rest of the mask at every place the asterisk may reach. */
  method MatchStar(mask: string, m0: nat, name: string, n0: nat, o: Options, comp: nat) returns (rc: Verdict)
    requires NulFree(mask) && NulFree(name) && m0 < |mask| && n0 <= |name| && mask[m0] == '*'
    requires n0 < |name| ==> comp == CompStart(name, n0, o)
    ensures rc != Error
    ensures rc == Match <==> FitsAt(mask, m0, name, n0, o)
    decreases |mask| - m0, 0
  {
    hide FitsAt, CompStart, IsCompStart, SameChar;
    var m, n := m0, n0;
    if n < |name| { CompMoves(name, n, o); }
    if At(name, n) == '.' && o.period && n == comp {
      StarTakesOneOrLeaves(mask, m, name, n, o);
      return NoMatch;
    }
    m := m + 1;
    while At(mask, m) == '*'
      invariant m0 < m <= |mask| && mask[m - 1] == '*'
      invariant FitsAt(mask, m - 1, name, n, o) <==> FitsAt(mask, m0, name, n0, o)
      decreases |mask| - m
    {
      StarRunIsOneStar(mask, m - 1, name, n, o);
      m := m + 1;
    }
    while true
      invariant n0 <= n <= |name|
      invariant n < |name| ==> comp == CompStart(name, n, o)
      invariant !IsLeadingDot(name, n, o)
      invariant FitsAt(mask, m - 1, name, n, o) <==> FitsAt(mask, m0, name, n0, o)
      decreases |name| - n
    {
      StarTakesOneOrLeaves(mask, m - 1, name, n, o);
      if n < |name| { CompMoves(name, n, o); }
      rc := MatchUnix(mask, m, name, n, o, comp);
      if rc != NoMatch { return rc; }
      if At(name, n) == '\0' { return NoMatch; }
      if o.pathName && At(name, n) == '/' { return NoMatch; }
      n := n + 1;
    }
  }

  /** util/fnmatch.c, match_unix. `comp` is where the current component of the name begins; every
      call and every step below keeps it so. */
  method MatchUnix(mask: string, m0: nat, name: string, n0: nat, o: Options, comp0: nat) returns (rc: Verdict)
    requires NulFree(mask) && NulFree(name) && m0 <= |mask| && n0 <= |name|
    requires n0 < |name| ==> comp0 == CompStart(name, n0, o)
    ensures rc != Error
    ensures rc == Match <==> FitsAt(mask, m0, name, n0, o)
    decreases |mask| - m0, 1
  {
    hide FitsAt, CompStart, IsCompStart, SameChar;
    var m, n := m0, n0;
    var comp: nat := comp0;
    while true
      invariant m0 <= m <= |mask| && n0 <= n <= |name|
      invariant n < |name| ==> comp == CompStart(name, n, o)
      invariant FitsAt(mask, m, name, n, o) <==> FitsAt(mask, m0, name, n0, o)
      decreases |mask| - m
    {
      if n < |name| { CompMoves(name, n, o); }
      match At(mask, m)
      case '\0' =>
        EndCase(mask, name, n, o);
        if At(name, n) == '\0' { return Match; }
        if o.pathPrefix && At(name, n) == '/' { return Match; }
        return NoMatch;
      case '?' =>
        QuestionCase(mask, m, name, n, o);
        if At(name, n) == '\0' { return NoMatch; }
        if o.pathName && At(name, n) == '/' { return NoMatch; }
        if At(name, n) == '.' && o.period && n == comp { return NoMatch; }
        n := n + 1;
        m := m + 1;
      case '*' =>
        rc := MatchStar(mask, m, name, n, o, comp);
        return rc;
      case '/' =>
        SlashCase(mask, m, name, n, o);
        if !(At(name, n) == '/'
             || (o.pathPrefix && At(name, n) == '\0'
                 && (At(mask, m + 1) == '\0'
                     || (!o.noEscape && At(mask, m + 1) == '\\' && At(mask, m + 2) == '\0')))) {
          return NoMatch;
        }
        m := m + 1;
        if At(name, n) != '\0' { n := n + 1; }
        if o.pathName { comp := n; }
      case '[' =>
        var accepted;
        accepted, m, n := MatchSet(mask, m, name, n, o, comp);
        if !accepted { return NoMatch; }
      case '\\' =>
        var accepted;
        accepted, m, n := MatchBackslash(mask, m, name, n, o);
        if !accepted { return NoMatch; }
      case _ =>
        LiteralCase(mask, m, name, n, o);
        if !SameChar(At(mask, m), At(name, n), o) { return NoMatch; }
        m := m + 1;
        n := n + 1;
    }
  }

  // The cases of the switch that need more than one token rule.

  lemma EndCase(mask: string, name: string, n: nat, o: Options)
    requires n <= |name| && NulFree(name)
    ensures FitsAt(mask, |mask|, name, n, o) <==> At(name, n) == '\0' || (o.pathPrefix && At(name, n) == '/')
  {
  }

  lemma SetCase(mask: string, m: nat, start: nat, body: SetBody, name: string, n: nat, o: Options)
    requires m < |mask| && n <= |name| && mask[m] == '['
    requires start == if At(mask, m + 1) == '!' || At(mask, m + 1) == '^' then m + 2 else m + 1
    requires body == ReadSet(mask, start, start, o.noEscape)
    ensures n == |name| ==> !FitsAt(mask, m, name, n, o)
    ensures n < |name| && body.Unclosed? ==>
              (FitsAt(mask, m, name, n, o) <==> name[n] == '[' && FitsAt(mask, m + 1, name, n + 1, o))
    ensures n < |name| && body.Closed? ==>
              (FitsAt(mask, m, name, n, o) <==>
               !IsBarredSlash(name, n, o) && !IsLeadingDot(name, n, o)
               && SetAccepts(body.items, start == m + 2, name[n]) && FitsAt(mask, body.close + 1, name, n + 1, o))
  {
    hide ReadSet, SetAccepts;
    OneCharCase(mask, m, name, n, o);
  }

  lemma BackslashCase(mask: string, m: nat, name: string, n: nat, o: Options)
    requires m < |mask| && n <= |name| && mask[m] == '\\' && NulFree(name)
    ensures
      if o.noEscape then FitsAt(mask, m, name, n, o) <==> At(name, n) == '\\' && FitsAt(mask, m + 1, name, n + 1, o)
      else if At(mask, m + 1) == '*' || At(mask, m + 1) == '?' then
        FitsAt(mask, m, name, n, o) <==> At(name, n) == mask[m + 1] && FitsAt(mask, m + 2, name, n + 1, o)
      else FitsAt(mask, m, name, n, o) <==> FitsAt(mask, m + 1, name, n, o)
  {
    if o.noEscape || At(mask, m + 1) == '*' || At(mask, m + 1) == '?' {
      OneCharCase(mask, m, name, n, o);
    } else {
      NothingCase(mask, m, name, n, o);
    }
  }
}
