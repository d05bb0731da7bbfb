/** Laws of Unix style masks, in characters: how masks are written, and what the simple ones match. */
module FnmatchUnixLaws {
  import opened CStrings
  import opened FnmatchFlags
  import opened FnmatchUnix

  // ---- Masks are read as they are written ----

  /** An element of a bracket set, every character quoted. */
  function WriteRange(r: Range): (s: string)
    ensures |s| >= 2
  {
    if r.lo == r.hi then ['\\', r.lo] else ['\\', r.lo, '-', '\\', r.hi]
  }

  function WriteRanges(items: seq<Range>): string {
    if items == [] then "" else WriteRange(items[0]) + WriteRanges(items[1..])
  }

  /** The characters of a token; a quote before an asterisk and a question mark that stand for
      themselves. */
  function WriteToken(t: Token): (s: string)
    requires IsWritable(t)
    ensures s != ""
  {
    match t
    case Literal(c) => if c == '*' || c == '?' then ['\\', c] else [c]
    case AnyOne => "?"
    case AnyMany => "*"
    case Slash(_) => "/"
    case Set(items, invert) => "[" + (if invert then "!" else "") + WriteRanges(items) + "]"
  }

  predicate IsWritable(t: Token) {
    match t
    case Literal(c) => c != '/' && c != '[' && c != '\\'
    case Set(items, invert) => items != []
    case Nothing => false
    case _ => true
  }

  ghost predicate AllWritable(ts: seq<Token>) { forall i :: 0 <= i < |ts| ==> IsWritable(ts[i]) }

  function Write(ts: seq<Token>): string
    requires AllWritable(ts)
  {
    if ts == [] then "" else WriteToken(ts[0]) + Write(ts[1..])
  }

  /** The tokens with the mark of a last slash in its place. */
  function Marked(ts: seq<Token>): (r: seq<Token>)
    ensures |r| == |ts|
  {
    if ts == [] then []
    else [if ts[0].Slash? then Slash(|ts| == 1) else ts[0]] + Marked(ts[1..])
  }

  /** What stands at `i`, and what follows it. */
  lemma Suffix(mask: string, i: nat, w: string, more: string)
    requires i <= |mask| && mask[i..] == w + more
    ensures i + |w| <= |mask| && mask[i + |w|..] == more
    ensures forall k :: 0 <= k < |w| ==> mask[i + k] == w[k]
    ensures more != "" ==> i + |w| < |mask| && mask[i + |w|] == more[0]
  {
    assert forall k :: 0 <= k < |mask| - i ==> mask[i + k] == mask[i..][k];
  }

  lemma Bracket(a: string, b: string, c: string)
    ensures a + b + c == a + (b + c)
  {
  }

  lemma RangeIsRead(mask: string, i: nat, r: Range, rest: string)
    requires i <= |mask| && mask[i..] == WriteRange(r) + rest && rest != "" && rest[0] != '-'
    ensures i < |mask| && ReadItem(mask, i, false) == Item(r, i + |WriteRange(r)|) && mask[i] == '\\'
  {
    Suffix(mask, i, WriteRange(r), rest);
    assert mask[i] == WriteRange(r)[0] && mask[i + 1] == WriteRange(r)[1];
    if r.lo != r.hi { assert mask[i + 2] == '-' && mask[i + 3] == '\\' && mask[i + 4] == r.hi; }
  }

  lemma {:induction false} SetIsRead(mask: string, start: nat, i: nat, items: seq<Range>, rest: string)
    requires start <= i <= |mask| && mask[i..] == WriteRanges(items) + ("]" + rest) && (items == [] ==> i != start)
    ensures ReadSet(mask, start, i, false) == Closed(items, i + |WriteRanges(items)|)
    decreases |items|
  {
    hide ReadItem, WriteRange;
    if items == [] {
      Suffix(mask, i, "", "]" + rest);
    } else {
      var w, more := WriteRange(items[0]), WriteRanges(items[1..]) + ("]" + rest);
      Bracket(w, WriteRanges(items[1..]), "]" + rest);
      MoreIsNoDash(items[1..], rest);
      Suffix(mask, i, w, more);
      RangeIsRead(mask, i, items[0], more);
      SetIsRead(mask, start, i + |w|, items[1..], rest);
      assert [items[0]] + items[1..] == items;
    }
  }

  lemma MoreIsNoDash(items: seq<Range>, rest: string)
    ensures var more := WriteRanges(items) + ("]" + rest); more != "" && more[0] != '-'
  {
  }

  lemma SetText(open: string, ranges: string, rest: string)
    ensures open + ranges + "]" + rest == open + (ranges + ("]" + rest))
  {
  }

  lemma SetTokenIsRead(mask: string, m: nat, t: Token, rest: string, o: Options)
    requires m <= |mask| && t.Set? && IsWritable(t) && mask[m..] == WriteToken(t) + rest && !o.noEscape
    ensures m < |mask| && ReadToken(mask, m, o) == (t, m + |WriteToken(t)|)
  {
    hide WriteRanges, ReadToken;
    var mark := if t.invert then "!" else "";
    SetText("[" + mark, WriteRanges(t.items), rest);
    SetAt(mask, m, t.items, mark, rest, o);
  }

  lemma SetAt(mask: string, m: nat, items: seq<Range>, mark: string, rest: string, o: Options)
    requires m <= |mask| && items != [] && !o.noEscape && mark in {"", "!", "^"}
    requires mask[m..] == "[" + mark + (WriteRanges(items) + ("]" + rest))
    ensures m < |mask| && ReadToken(mask, m, o) == (Set(items, mark != ""), m + 1 + |mark| + |WriteRanges(items)| + 1)
  {
    hide WriteRanges, ReadToken, ReadSet;
    var open := "[" + mark;
    var start := m + |open|;
    Suffix(mask, m, open, WriteRanges(items) + ("]" + rest));
    FirstIsQuote(items);
    assert mask[m] == open[0] && (mark != "" ==> mask[m + 1] == open[1]);
    SetIsRead(mask, start, start, items, rest);
    SetToken(mask, m, mark != "", start, o);
  }

  lemma SetToken(mask: string, m: nat, invert: bool, start: nat, o: Options)
    requires m < start < |mask| && mask[m] == '[' && start == (if invert then m + 2 else m + 1)
    requires if invert then mask[m + 1] == '!' || mask[m + 1] == '^' else mask[m + 1] == '\\'
    requires ReadSet(mask, start, start, o.noEscape).Closed?
    ensures var set_ := ReadSet(mask, start, start, o.noEscape);
      ReadToken(mask, m, o) == (Set(set_.items, invert), set_.close + 1)
  {
    hide ReadSet;
  }

  lemma FirstIsQuote(items: seq<Range>)
    ensures items != [] ==> WriteRanges(items) != "" && WriteRanges(items)[0] == '\\'
  {
  }

  lemma TokenIsRead(mask: string, m: nat, t: Token, rest: string, o: Options)
    requires m <= |mask| && IsWritable(t) && mask[m..] == WriteToken(t) + rest && !o.noEscape && rest != "\\"
    ensures m < |mask|
    ensures ReadToken(mask, m, o) == (if t.Slash? then Slash(rest == "") else t, m + |WriteToken(t)|)
  {
    hide ReadSet, WriteRanges;
    Suffix(mask, m, WriteToken(t), rest);
    assert mask[m] == WriteToken(t)[0];
    if t.Set? {
      SetTokenIsRead(mask, m, t, rest, o);
    } else if |WriteToken(t)| == 2 {
      assert mask[m + 1] == WriteToken(t)[1];
    }
  }

  /** Every sequence of tokens whose literals are no slash, bracket or backslash can be written as a
      mask, and reading the mask gives the tokens. */
  lemma {:induction false} ReadsWhatIsWritten(mask: string, m: nat, ts: seq<Token>, o: Options)
    requires m <= |mask| && AllWritable(ts) && mask[m..] == Write(ts) && !o.noEscape
    ensures Tokens(mask, m, o) == Marked(ts)
    decreases |ts|
  {
    hide ReadToken, WriteToken, IsWritable;
    if ts != [] {
      var w, rest := WriteToken(ts[0]), Write(ts[1..]);
      assert IsWritable(ts[0]);
      NoLoneBackslash(ts[1..]);
      TokenIsRead(mask, m, ts[0], rest, o);
      assert mask[m + |w|..] == mask[m..][|w|..] == rest;
      ReadsWhatIsWritten(mask, m + |w|, ts[1..], o);
    }
  }

  lemma NoLoneBackslash(ts: seq<Token>)
    requires AllWritable(ts)
    ensures Write(ts) != "\\" && (Write(ts) == "" <==> ts == [])
  {
    if ts != [] && Write(ts) == "\\" {
      assert WriteToken(ts[0])[0] == Write(ts)[0];
    }
  }

  // ---- What simple masks match ----

  /** One written set accepts one character that some element has or, after ! or ^, that some element
      lacks; no slash under FNM_PATHNAME, and no dot under FNM_PERIOD. */
  lemma SetLaw(items: seq<Range>, mark: string, name: string, o: Options)
    requires items != [] && mark in {"", "!", "^"} && !o.noEscape && !o.pathPrefix
    ensures Matches("[" + mark + (WriteRanges(items) + "]"), name, o)
       <==> |name| == 1 && (o.pathName ==> name[0] != '/') && (o.period ==> name[0] != '.')
            && exists i :: 0 <= i < |items| && (items[i].lo <= name[0] <= items[i].hi) != (mark != "")
  {
    hide WriteRanges, ReadToken, Covers;
    var mask := "[" + mark + (WriteRanges(items) + "]");
    var t := Set(items, mark != "");
    assert mask[0..] == mask && "]" + "" == "]";
    SetAt(mask, 0, items, mark, "", o);
    assert Tokens(mask, 0, o) == [t] + [] == [t];
    FitsIffAlignment([t], name, 0, o);
    OneToken(t, name, o);
    SetCovers(items, mark != "", name, |name|, o);
  }

  /** A ] that comes first is an element: `[]]` matches `]` only. */
  lemma FirstBracketIsElement(mask: string, name: string, o: Options)
    requires mask == "[]]" && !o.pathPrefix
    ensures Matches(mask, name, o) <==> name == "]"
  {
    hide Covers;
    var items := [Range(']', ']')];
    assert ReadSet(mask, 1, 2, o.noEscape) == Closed([], 2);
    assert ReadSet(mask, 1, 1, o.noEscape) == Closed(items, 2);
    var t := Set(items, false);
    assert Tokens(mask, 0, o) == [t] + [] == [t];
    FitsIffAlignment([t], name, 0, o);
    OneToken(t, name, o);
    SetCovers(items, false, name, |name|, o);
    assert items[0].lo == ']' == items[0].hi;
    assert name == "]" <==> |name| == 1 && ']' <= name[0] <= ']';
  }

  lemma OneToken(t: Token, name: string, o: Options)
    requires !o.pathPrefix
    ensures Fits([t], name, 0, o) <==> Covers(t, name, 0, |name|, o)
  {
    hide Covers;
    assert [t][0] == t && [t][1..] == [];
    assert forall k :: 0 <= k <= |name| ==> (Fits([], name, k, o) <==> k == |name|);
    assert Covers([t][0], name, 0, |name|, o) && Fits([t][1..], name, |name|, o) ==> Fits([t], name, 0, o);
  }

  lemma SetCovers(items: seq<Range>, invert: bool, name: string, k: nat, o: Options)
    requires k <= |name|
    ensures Covers(Set(items, invert), name, 0, k, o)
       <==> k == 1 && (o.pathName ==> name[0] != '/') && (o.period ==> name[0] != '.')
            && exists i :: 0 <= i < |items| && (items[i].lo <= name[0] <= items[i].hi) != invert
  {
    if k == 1 {
      assert forall i :: 0 <= i < |items| ==> (items[i].Has(name[0]) <==> items[i].lo <= name[0] <= items[i].hi);
    }
  }

  /** `n` question marks match the names of `n` characters, without slashes under FNM_PATHNAME and
      without a leading dot under FNM_PERIOD. */
  lemma QuestionMarks(mask: string, name: string, o: Options)
    requires (forall i :: 0 <= i < |mask| ==> mask[i] == '?') && !o.pathPrefix
    ensures Matches(mask, name, o)
       <==> |name| == |mask| && (o.pathName ==> '/' !in name) && (o.period && name != "" ==> name[0] != '.')
  {
    MatchesIffFits(mask, name, o);
    QuestionsFrom(mask, 0, name, 0, o);
  }

  lemma {:induction false} QuestionsFrom(mask: string, m: nat, name: string, n: nat, o: Options)
    requires m <= |mask| && n <= |name| && (forall i :: 0 <= i < |mask| ==> mask[i] == '?') && !o.pathPrefix
    requires n > 0 ==> !(o.pathName && name[n - 1] == '/')
    ensures FitsAt(mask, m, name, n, o)
       <==> |name| - n == |mask| - m && (forall k :: n <= k < |name| ==> !(o.pathName && name[k] == '/'))
            && (o.period && n == 0 && name != "" ==> name[0] != '.')
    decreases |mask| - m
  {
    hide FitsAt;
    if m == |mask| {
      EndOfMask(mask, name, n, o);
    } else {
      QuestionCase(mask, m, name, n, o);
      if n < |name| && !IsBarredSlash(name, n, o) { QuestionsFrom(mask, m + 1, name, n + 1, o); }
    }
  }

  lemma EndOfMask(mask: string, name: string, n: nat, o: Options)
    requires n <= |name|
    ensures FitsAt(mask, |mask|, name, n, o) <==> n == |name| || (o.pathPrefix && name[n] == '/')
  {
  }

  predicate NeedsQuote(c: char, o: Options) { !o.noEscape && (c == '*' || c == '?') }

  /** A text as a mask: its asterisks and question marks quoted, unless FNM_NOESCAPE is set. */
  function Quote(s: string, o: Options): string {
    if s == "" then ""
    else (if NeedsQuote(s[0], o) then ['\\', s[0]] else [s[0]]) + Quote(s[1..], o)
  }

  /** The text can be written as a mask: backslashes that are quotes cannot, nor without quotes what
      needs one, nor in `mask` a [ that some ] may close. */
  predicate IsQuotable(s: string, mask: string, o: Options) {
    ('[' !in s || ']' !in mask) && if o.noEscape then '*' !in s && '?' !in s else '\\' !in s
  }

  /** A character that stands for itself in the mask, quoted if it needs to be. */
  lemma OneQuoted(mask: string, m: nat, c: char, name: string, n: nat, o: Options)
    requires m < |mask| && n <= |name| && NulFree(mask) && NulFree(name) && !o.ignoreCase
    requires if NeedsQuote(c, o) then m + 1 < |mask| && mask[m] == '\\' && mask[m + 1] == c else mask[m] == c
    requires (c == '[' ==> ']' !in mask) && if o.noEscape then c != '*' && c != '?' else c != '\\'
    ensures var next := m + if NeedsQuote(c, o) then 2 else 1;
      && (n < |name| && name[n] == c ==> (FitsAt(mask, m, name, n, o) <==> FitsAt(mask, next, name, n + 1, o)))
      && ((n == |name| || name[n] != c) && !(o.pathPrefix && n == |name| && c == '/') ==> !FitsAt(mask, m, name, n, o))
  {
    hide FitsAt, ReadSet;
    if mask[m] == '\\' {
      BackslashCase(mask, m, name, n, o);
    } else if c == '/' {
      SlashCase(mask, m, name, n, o);
    } else if c == '[' {
      var start := if At(mask, m + 1) == '!' || At(mask, m + 1) == '^' then m + 2 else m + 1;
      SetCase(mask, m, start, ReadSet(mask, start, start, o.noEscape), name, n, o);
    } else {
      LiteralCase(mask, m, name, n, o);
    }
  }

  /** One character of a text is matched by itself. */
  lemma FirstQuoted(mask: string, m: nat, s: string, more: string, name: string, n: nat, o: Options)
    requires m <= |mask| && s != "" && mask[m..] == Quote(s, o) + more && n <= |name| && NulFree(mask) && NulFree(name)
    requires IsQuotable(s, mask, o) && !o.ignoreCase
    ensures IsQuotable(s[1..], mask, o)
    ensures var next := m + if NeedsQuote(s[0], o) then 2 else 1;
      && next <= |mask| && mask[next..] == Quote(s[1..], o) + more
      && (n < |name| && name[n] == s[0] ==> (FitsAt(mask, m, name, n, o) <==> FitsAt(mask, next, name, n + 1, o)))
      && ((n == |name| || name[n] != s[0]) && !(o.pathPrefix && n == |name| && s[0] == '/')
          ==> !FitsAt(mask, m, name, n, o))
  {
    hide FitsAt;
    var c, rest := s[0], s[1..];
    var w := if NeedsQuote(c, o) then ['\\', c] else [c];
    Bracket(w, Quote(rest, o), more);
    Suffix(mask, m, w, Quote(rest, o) + more);
    assert mask[m + 0] == w[0] && (|w| == 2 ==> mask[m + 1] == w[1]);
    assert c in s && forall x :: x in rest ==> x in s;
    OneQuoted(mask, m, c, name, n, o);
  }

  /** A text takes itself off the name, and the mask goes on. */
  lemma {:induction false} QuotedFrom(mask: string, m: nat, s: string, more: string, name: string, n: nat, o: Options)
    requires m <= |mask| && mask[m..] == Quote(s, o) + more && n <= |name| && NulFree(mask) && NulFree(name)
    requires IsQuotable(s, mask, o) && !o.ignoreCase && !o.pathPrefix
    ensures FitsAt(mask, m, name, n, o) <==> s <= name[n..] && FitsAt(mask, |mask| - |more|, name, n + |s|, o)
    decreases |s|
  {
    hide FitsAt;
    if s != "" {
      FirstQuoted(mask, m, s, more, name, n, o);
      var next := m + if NeedsQuote(s[0], o) then 2 else 1;
      if n < |name| && name[n] == s[0] { QuotedFrom(mask, next, s[1..], more, name, n + 1, o); }
      assert s <= name[n..] <==> n < |name| && name[n] == s[0] && s[1..] <= name[n + 1..];
    }
  }

  /** A text as a mask matches itself and nothing else; a [ that nothing closes is an ordinary character. */
  lemma TextMatchesItself(s: string, name: string, o: Options)
    requires NulFree(s) && NulFree(name) && IsQuotable(s, s, o) && !o.ignoreCase && !o.pathPrefix
    ensures Matches(Quote(s, o), name, o) <==> name == s
  {
    hide FitsAt;
    var mask := Quote(s, o);
    QuoteIsNulFree(s, o);
    assert mask[0..] == mask + "" && name[0..] == name;
    MatchesIffFits(mask, name, o);
    QuotedFrom(mask, 0, s, "", name, 0, o);
    if s <= name { EndOfMask(mask, name, |s|, o); }
  }

  lemma {:induction false} QuoteIsNulFree(s: string, o: Options)
    requires NulFree(s)
    ensures NulFree(Quote(s, o)) && (']' in Quote(s, o) ==> ']' in s)
  {
    if s != "" {
      assert NulFree(s[1..]) by { assert forall i :: 0 <= i < |s| - 1 ==> s[1..][i] == s[i + 1]; }
      QuoteIsNulFree(s[1..], o);
    }
  }

  /** A text with a backslash before every character. */
  function Backslashed(s: string): string {
    if s == "" then "" else ['\\', s[0]] + Backslashed(s[1..])
  }

  lemma {:induction false} BackslashedFrom(mask: string, m: nat, s: string, name: string, n: nat, o: Options)
    requires m <= |mask| && mask[m..] == Backslashed(s) && n <= |name| && NulFree(mask) && NulFree(name)
    requires '[' !in s && '\\' !in s && !o.noEscape && !o.ignoreCase && !o.pathPrefix
    ensures FitsAt(mask, m, name, n, o) <==> name[n..] == s
    decreases |s|
  {
    hide FitsAt;
    if s == "" {
      EndOfMask(mask, name, n, o);
    } else {
      var c, rest := s[0], s[1..];
      Suffix(mask, m, ['\\', c], Backslashed(rest));
      assert c in s && forall x :: x in rest ==> x in s;
      assert mask[m + 0] == '\\' && mask[m + 1] == c;
      BackslashCase(mask, m, name, n, o);
      if c == '/' {
        SlashCase(mask, m + 1, name, n, o);
      } else if c != '*' && c != '?' {
        LiteralCase(mask, m + 1, name, n, o);
      }
      if n < |name| && name[n] == c { BackslashedFrom(mask, m + 2, rest, name, n + 1, o); }
      assert name[n..] == s <==> n < |name| && name[n] == c && name[n + 1..] == rest;
    }
  }

  /** A backslash quotes what needs it and is idle before any other character but a bracket or a
      backslash. */
  lemma BackslashedMatchesItself(s: string, name: string, o: Options)
    requires NulFree(s) && NulFree(name) && '[' !in s && '\\' !in s
    requires !o.noEscape && !o.ignoreCase && !o.pathPrefix
    ensures Matches(Backslashed(s), name, o) <==> name == s
  {
    hide FitsAt;
    var mask := Backslashed(s);
    BackslashedIsNulFree(s);
    assert mask[0..] == mask && name[0..] == name;
    MatchesIffFits(mask, name, o);
    BackslashedFrom(mask, 0, s, name, 0, o);
  }

  lemma {:induction false} BackslashedIsNulFree(s: string)
    requires NulFree(s)
    ensures NulFree(Backslashed(s))
  {
    if s != "" {
      assert NulFree(s[1..]) by { assert forall i :: 0 <= i < |s| - 1 ==> s[1..][i] == s[i + 1]; }
      BackslashedIsNulFree(s[1..]);
    }
  }

  /** With _FNM_PATHPREFIX it matches the names that go on with a slash as well, and a slash at its end
      may be missing in the name. A backslash at the end of the mask is idle, unless FNM_NOESCAPE is set. */
  lemma TextMatchesPrefix(s: string, idle: string, name: string, o: Options)
    requires NulFree(s) && NulFree(name) && IsQuotable(s, s, o) && !o.ignoreCase && o.pathPrefix
    requires idle == "" || (idle == "\\" && !o.noEscape)
    ensures Matches(Quote(s, o) + idle, name, o) <==> name == s || s + "/" <= name || s == name + "/"
  {
    hide FitsAt, Quote;
    var mask := Quote(s, o) + idle;
    QuoteIsNulFree(s, o);
    assert mask[0..] == mask && name[0..] == name;
    MatchesIffFits(mask, name, o);
    PrefixFrom(mask, 0, s, idle, name, 0, o);
  }

  lemma {:induction false} PrefixFrom(mask: string, m: nat, s: string, idle: string, name: string, n: nat, o: Options)
    requires m <= |mask| && mask[m..] == Quote(s, o) + idle && n <= |name| && NulFree(mask) && NulFree(name)
    requires IsQuotable(s, mask, o) && !o.ignoreCase && o.pathPrefix
    requires idle == "" || (idle == "\\" && !o.noEscape)
    ensures var rest := name[n..]; FitsAt(mask, m, name, n, o) <==> rest == s || s + "/" <= rest || s == rest + "/"
    decreases |s|
  {
    hide FitsAt, IsQuotable;
    var rest := name[n..];
    if s == "" {
      IdleEnd(mask, m, idle, name, n, o);
      assert s + "/" <= rest <==> n < |name| && name[n] == '/';
    } else {
      FirstQuoted(mask, m, s, idle, name, n, o);
      var next := m + if NeedsQuote(s[0], o) then 2 else 1;
      if n < |name| && name[n] == s[0] {
        PrefixFrom(mask, next, s[1..], idle, name, n + 1, o);
        SameFirst(s, rest);
      } else if n == |name| && s[0] == '/' {
        LastSlash(mask, m, s, idle, name, o);
      } else {
        OtherFirst(s, rest);
      }
    }
  }

  lemma IdleEnd(mask: string, m: nat, idle: string, name: string, n: nat, o: Options)
    requires m <= |mask| && mask[m..] == idle && n <= |name| && NulFree(mask) && NulFree(name)
    requires idle == "" || (idle == "\\" && !o.noEscape)
    ensures FitsAt(mask, m, name, n, o) <==> n == |name| || (o.pathPrefix && name[n] == '/')
  {
    hide FitsAt;
    EndOfMask(mask, name, n, o);
    if idle != "" {
      assert mask[m] == mask[m..][0];
      BackslashCase(mask, m, name, n, o);
    }
  }

  lemma SameFirst(s: string, t: string)
    requires s != "" && t != "" && s[0] == t[0]
    ensures t == s <==> t[1..] == s[1..]
    ensures s + "/" <= t <==> s[1..] + "/" <= t[1..]
    ensures s == t + "/" <==> s[1..] == t[1..] + "/"
  {
    assert s == [s[0]] + s[1..] && t == [t[0]] + t[1..];
  }

  lemma OtherFirst(s: string, t: string)
    requires s != "" && (t == "" ==> s[0] != '/') && (t != "" ==> s[0] != t[0])
    ensures t != s && !(s + "/" <= t) && s != t + "/"
  {
    assert (t + "/")[0] == if t == "" then '/' else t[0];
    assert (s + "/")[0] == s[0];
  }

  /** A slash of the mask at the end of the name. */
  lemma LastSlash(mask: string, m: nat, s: string, idle: string, name: string, o: Options)
    requires m <= |mask| && mask[m..] == Quote(s, o) + idle && NulFree(mask) && NulFree(name)
    requires s != "" && s[0] == '/' && o.pathPrefix && IsQuotable(s, mask, o)
    requires idle == "" || (idle == "\\" && !o.noEscape)
    ensures FitsAt(mask, m, name, |name|, o) <==> s == "" + "/"
  {
    hide FitsAt;
    var more := Quote(s[1..], o) + idle;
    Bracket("/", Quote(s[1..], o), idle);
    Suffix(mask, m, "/", more);
    SlashCase(mask, m, name, |name|, o);
    if s[1..] == "" {
      assert more == idle;
      IdleEnd(mask, m + 1, idle, name, |name|, o);
    } else {
      MoreFollows(mask, m + 1, s[1..], idle, o);
    }
  }

  lemma MoreFollows(mask: string, m: nat, s: string, idle: string, o: Options)
    requires m <= |mask| && mask[m..] == Quote(s, o) + idle && s != "" && IsQuotable(s, mask, o) && NulFree(mask)
    ensures At(mask, m) != '\0' && !(!o.noEscape && At(mask, m) == '\\' && At(mask, m + 1) == '\0')
  {
    assert s[0] in s;
    Suffix(mask, m, Quote(s, o), idle);
    assert mask[m] == Quote(s, o)[0];
  }

  lemma StarAtEnd(mask: string, name: string, n: nat, o: Options)
    requires mask != "" && mask[|mask| - 1] == '*' && n <= |name| && !o.pathPrefix
    ensures FitsAt(mask, |mask| - 1, name, n, o) <==> !IsLeadingDot(name, n, o) && (o.pathName ==> '/' !in name[n..])
  {
    hide FitsAt;
    var m: nat := |mask| - 1;
    Step(mask, m, name, n, o);
    assert name[n..|name|] == name[n..];
    forall k | n <= k <= |name|
      ensures After(mask, m, name, n, k, o)
         <==> k == |name| && !IsLeadingDot(name, n, o) && (o.pathName ==> '/' !in name[n..])
    {
      EndOfMask(mask, name, k, o);
    }
    assert After(mask, m, name, n, |name|, o) <==> !IsLeadingDot(name, n, o) && (o.pathName ==> '/' !in name[n..]);
  }

  /** A text and an asterisk match the names that begin with the text: what follows holds no slash under
      FNM_PATHNAME, and under FNM_PERIOD no dot that begins the name or, under both, a component. */
  lemma TextAndStar(s: string, name: string, o: Options)
    requires NulFree(s) && NulFree(name) && IsQuotable(s, s, o) && !o.ignoreCase && !o.pathPrefix
    ensures Matches(Quote(s, o) + "*", name, o)
       <==> s <= name && (o.pathName ==> '/' !in name[|s|..])
            && (o.period && |s| < |name| && name[|s|] == '.' ==> s != "" && !(o.pathName && s[|s| - 1] == '/'))
  {
    hide FitsAt, Matches, Quote;
    QuoteIsNulFree(s, o);
    TextAndStarFits(Quote(s, o) + "*", s, name, o);
    MatchesIffFits(Quote(s, o) + "*", name, o);
  }

  lemma TextAndStarFits(mask: string, s: string, name: string, o: Options)
    requires NulFree(mask) && NulFree(name) && IsQuotable(s, mask, o) && mask == Quote(s, o) + "*"
    requires !o.ignoreCase && !o.pathPrefix
    ensures FitsAt(mask, 0, name, 0, o)
       <==> s <= name && (o.pathName ==> '/' !in name[|s|..])
            && (o.period && |s| < |name| && name[|s|] == '.' ==> s != "" && !(o.pathName && s[|s| - 1] == '/'))
  {
    hide FitsAt, Quote, IsLeadingDot, NulFree, IsQuotable;
    var more := "*";
    assert mask[0..] == Quote(s, o) + more && name[0..] == name;
    QuotedFrom(mask, 0, s, more, name, 0, o);
    if s <= name {
      StarAtEnd(mask, name, |s|, o);
      DotAfter(s, name, o);
    }
  }

  lemma DotAfter(s: string, name: string, o: Options)
    requires s <= name
    ensures IsLeadingDot(name, |s|, o)
       <==> o.period && |s| < |name| && name[|s|] == '.' && (s == "" || (o.pathName && s[|s| - 1] == '/'))
  {
  }
}
