/** The tokenizer of util/strtok.c: a static cursor into a buffer that it cuts up in place. */
module Strtok {
  import opened CStrings

  /** A NUL ends the string at `p`. */
  ghost predicate Terminated(m: string, p: nat)
    ensures Terminated(m, p) ==> p < |m|
  {
    exists e :: p <= e < |m| && m[e] == '\0'
  }

  // ---- Meaning ----

  /** Memory and the static pointer `next`, None for NULL. */
  datatype State = State(mem: string, next: Option<nat>)

  /** The first character from `p` on that is no delimiter. */
  function SkipDelims(m: string, p: nat, d: string): (a: nat)
    requires Terminated(m, p) && '\0' !in d
    ensures p <= a < |m| && m[a] !in d && Terminated(m, a)
    ensures forall k :: p <= k < a ==> m[k] in d
    decreases |m| - p
  {
    if m[p] in d then SkipDelims(m, p + 1, d) else p
  }

  /** The first delimiter or terminator from `p` on. */
  function SkipToken(m: string, p: nat, d: string): (b: nat)
    requires Terminated(m, p)
    ensures p <= b < |m| && (m[b] in d || m[b] == '\0') && Terminated(m, b)
    ensures forall k :: p <= k < b ==> m[k] !in d && m[k] != '\0'
    decreases |m| - p
  {
    if m[p] in d || m[p] == '\0' then p else SkipToken(m, p + 1, d)
  }

  /** A token as a pair: where it begins, and where it ends. */
  function Tokens(m: string, p: nat, d: string): (ts: seq<(nat, nat)>)
    requires Terminated(m, p) && '\0' !in d
    decreases |m| - p
  {
    var a := SkipDelims(m, p, d);
    if m[a] == '\0' then []
    else
      var b := SkipToken(m, a, d);
      [(a, b)] + if m[b] == '\0' then [] else Tokens(m, b + 1, d)
  }

  /** One call: the new state and the result. */
  function Call(s: State, string1: Option<nat>, d: string): (r: (State, Option<nat>))
    requires '\0' !in d
    requires string1.Some? ==> Terminated(s.mem, string1.value)
    requires string1 == None && s.next.Some? ==> Terminated(s.mem, s.next.value)
    ensures |r.0.mem| == |s.mem|
    ensures r.0.next.Some? ==> Terminated(r.0.mem, r.0.next.value)
  {
    if string1 == None && s.next == None then (s, None)
    else
      var p := if string1.Some? then string1.value else s.next.value;
      var a := SkipDelims(s.mem, p, d);
      var b := SkipToken(s.mem, a, d);
      if s.mem[b] == '\0' then
        if a == b then (s.(next := None), None) else (s.(next := Some(b)), Some(a))
      else
        var mem := s.mem[b := '\0'];
        assert forall k :: b < k < |mem| ==> mem[k] == s.mem[k];
        (State(mem, Some(b + 1)), Some(a))
  }

  // ---- The function ----

  class Tokenizer {
    var mem: array<char>
    var next: Option<nat>

    ghost predicate Valid()
      reads this, mem
    {
      IsBytes(mem[..]) && (next.Some? ==> Terminated(mem[..], next.value))
    }

    ghost function Now(): State
      reads this, mem
    {
      State(mem[..], next)
    }

    constructor (mem: array<char>)
      requires IsBytes(mem[..])
      ensures Valid() && this.mem == mem && next == None
    {
      this.mem := mem;
      next := None;
    }

    /** util/strtok.c, strtok. */
    method Strtok(string1: Option<nat>, string2: string) returns (result: Option<nat>)
      requires Valid() && NulFree(string2) && IsBytes(string2)
      requires string1.Some? ==> Terminated(mem[..], string1.value)
      modifies this`next, mem
      ensures Valid() && mem == old(mem)
      ensures (Now(), result) == Call(old(Now()), string1, string2)
    {
      hide SkipDelims, SkipToken, Terminated;
      ghost var m := mem[..];
      ghost var after := Call(Now(), string1, string2);
      var p: nat;
      if string1 != None {
        p := string1.value;
      } else {
        if next == None { return None; }
        p := next.value;
      }
      var table := MakeTable(string2);
      p := PastDelims(mem, p, table, string2);
      var a := p;
      table[0] := true;
      assert mem[..] == m;
      p := PastToken(mem, p, table, string2);
      if mem[p] == '\0' {
        if p == a {
          next := None;
          return None;
        }
      } else {
        mem[p] := '\0';
        p := p + 1;
        assert mem[..] == m[p - 1 := '\0'] == after.0.mem;
      }
      next := Some(p);
      return Some(a);
    }
  }

  /** The table marks the delimiters and, if `nul`, the terminator. */
  ghost predicate IsTable(table: array<bool>, d: string, nul: bool)
    reads table
  {
    table.Length == 256 && forall c: char :: c as int < 256 ==> (table[c as int] <==> c in d || (nul && c == '\0'))
  }

  /** util/strtok.c, lines 58-59. */
  method PastDelims(mem: array<char>, p0: nat, table: array<bool>, ghost d: string) returns (p: nat)
    requires IsBytes(mem[..]) && Terminated(mem[..], p0) && '\0' !in d && IsTable(table, d, false)
    ensures p == SkipDelims(mem[..], p0, d)
  {
    p := p0;
    while table[mem[p] as int]
      invariant p0 <= p < mem.Length && Terminated(mem[..], p)
      invariant SkipDelims(mem[..], p, d) == SkipDelims(mem[..], p0, d)
      decreases mem.Length - p
    {
      p := p + 1;
    }
  }

  /** util/strtok.c, lines 62-63. */
  method PastToken(mem: array<char>, p0: nat, table: array<bool>, ghost d: string) returns (p: nat)
    requires IsBytes(mem[..]) && Terminated(mem[..], p0) && '\0' !in d && IsTable(table, d, true)
    ensures p == SkipToken(mem[..], p0, d)
  {
    p := p0;
    while !table[mem[p] as int]
      invariant p0 <= p < mem.Length && Terminated(mem[..], p)
      invariant SkipToken(mem[..], p, d) == SkipToken(mem[..], p0, d)
      decreases mem.Length - p
    {
      p := p + 1;
    }
  }

  /** util/strtok.c, lines 54-57. */
  method MakeTable(d: string) returns (table: array<bool>)
    requires NulFree(d) && IsBytes(d)
    ensures fresh(table) && IsTable(table, d, false)
  {
    table := new bool[256](i => false);
    var i: nat := 0;
    while At(d, i) != '\0'
      invariant 0 <= i <= |d| && table.Length == 256 && fresh(table)
      invariant forall c: char :: c as int < 256 ==> (table[c as int] <==> c in d[..i])
      decreases |d| - i
    {
      table[At(d, i) as int] := true;
      i := i + 1;
      assert d[..i] == d[..i - 1] + [d[i - 1]];
    }
    assert d[..i] == d;
    table[0] := false;
  }

  /** One call on a string from `p` up to its NUL at `e`, with delimiters that may be others than in
      the call before: nothing is left when there are delimiters only; else the result is the first
      character `a` that is none, the token ends at the next delimiter or the NUL, a NUL is put there,
      and the next call goes on behind the delimiter, or at the NUL. */
  lemma OneCall(s: State, string1: Option<nat>, d: string, p: nat, e: nat)
    requires '\0' !in d && (string1 == Some(p) || (string1 == None && s.next == Some(p)))
    requires p <= e < |s.mem| && s.mem[e] == '\0' && forall k :: p <= k < e ==> s.mem[k] != '\0'
    ensures Terminated(s.mem, p)
    ensures var m, (after, result) := s.mem, Call(s, string1, d);
      if forall k :: p <= k < e ==> m[k] in d then result == None && after == State(m, None)
      else exists a, b ::
        && p <= a < b <= e && result == Some(a)
        && (forall k :: p <= k < a ==> m[k] in d) && (forall k :: a <= k < b ==> m[k] !in d) && (b == e || m[b] in d)
        && after == State(m[b := '\0'], Some(if b == e then e else b + 1))
  {
    var m := s.mem;
    var a := SkipDelims(m, p, d);
    var b := SkipToken(m, a, d);
    var (after, result) := Call(s, string1, d);
    hide SkipDelims, SkipToken, Terminated;
    assert m[e] !in d && a <= e && b <= e;
    assert m[e := '\0'] == m;
    if a < e {
      assert m[a] !in d && a < b && (b == e <==> m[b] == '\0');
      assert result == Some(a) && after == State(m[b := '\0'], Some(if b == e then e else b + 1));
    } else {
      assert b == e && result == None && after == State(m, None);
    }
  }

  // ---- Whole runs ----

  /** The terminator of the string at `p`. */
  function TextEnd(m: string, p: nat): nat
    requires Terminated(m, p)
  {
    SkipToken(m, p, "")
  }

  /** `m[a..b]` is a maximal non-empty run without delimiters in the string at `p`. */
  ghost predicate IsToken(m: string, p: nat, d: string, t: (nat, nat))
    requires Terminated(m, p)
  {
    var (a, b) := t;
    && p <= a < b <= TextEnd(m, p)
    && (forall k :: a <= k < b ==> m[k] !in d)
    && (a == p || m[a - 1] in d)
    && (b == TextEnd(m, p) || m[b] in d)
  }

  lemma TextEndIs(m: string, p: nat, e: nat)
    requires Terminated(m, p) && p <= e < |m| && m[e] == '\0' && forall k :: p <= k < e ==> m[k] != '\0'
    ensures TextEnd(m, p) == e
  {
  }

  lemma TerminatedNext(m: string, b: nat)
    requires Terminated(m, b)
    ensures m[b] != '\0' ==> Terminated(m, b + 1)
  {
  }

  lemma TokensUnfold(m: string, p: nat, d: string)
    requires Terminated(m, p) && '\0' !in d
    ensures var a := SkipDelims(m, p, d); var b := SkipToken(m, a, d);
      && (m[a] == '\0' ==> b == a)
      && (m[b] != '\0' ==> Terminated(m, b + 1))
      && Tokens(m, p, d) == (if m[a] == '\0' then [] else [(a, b)])
                            + (if m[b] == '\0' then [] else Tokens(m, b + 1, d))
  {
    hide SkipDelims;
    TerminatedNext(m, SkipToken(m, SkipDelims(m, p, d), d));
  }

  /** Tokens finds exactly the maximal runs. */
  lemma {:induction false} TokensAreMaximalRuns(m: string, p: nat, d: string, t: (nat, nat))
    requires Terminated(m, p) && '\0' !in d
    ensures t in Tokens(m, p, d) <==> IsToken(m, p, d, t)
    decreases |m| - p
  {
    hide SkipDelims, SkipToken, Tokens, Terminated, TextEnd;
    var e := TextEnd(m, p);
    var a := SkipDelims(m, p, d);
    var b := SkipToken(m, a, d);
    TokensUnfold(m, p, d);
    TextEndBounds(m, p);
    if IsToken(m, p, d, t) { assert m[t.0] !in d && (t.0 == p || m[t.0 - 1] in d); }
    if m[b] == '\0' {
      TextEndIs(m, p, b);
    } else {
      TextEndIs(m, b + 1, e);
      TokensAreMaximalRuns(m, b + 1, d, t);
    }
  }

  lemma TextEndBounds(m: string, p: nat)
    requires Terminated(m, p)
    ensures p <= TextEnd(m, p) < |m| && m[TextEnd(m, p)] == '\0'
    ensures forall k :: p <= k < TextEnd(m, p) ==> m[k] != '\0'
  {
  }

  /** The tokens come in order, with a delimiter between any two. */
  lemma {:induction false} TokensInOrder(m: string, p: nat, d: string)
    requires Terminated(m, p) && '\0' !in d
    ensures forall t <- Tokens(m, p, d) :: p <= t.0 < t.1
    ensures forall i, j :: 0 <= i < j < |Tokens(m, p, d)| ==> Tokens(m, p, d)[i].1 < Tokens(m, p, d)[j].0
    decreases |m| - p
  {
    hide SkipDelims, SkipToken, Tokens, Terminated;
    TokensUnfold(m, p, d);
    var b := SkipToken(m, SkipDelims(m, p, d), d);
    if m[b] != '\0' { TokensInOrder(m, b + 1, d); }
  }

  /** `n` calls with a null pointer. */
  function Calls(s: State, d: string, n: nat): (r: (State, seq<Option<nat>>))
    requires '\0' !in d && (s.next.Some? ==> Terminated(s.mem, s.next.value))
    ensures |r.1| == n
    decreases n
  {
    if n == 0 then (s, [])
    else
      var (s1, result) := Call(s, None, d);
      var (s2, results) := Calls(s1, d, n - 1);
      (s2, [result] + results)
  }

  /** A run on the string at `p`: one call with it, then `n` calls with a null pointer. */
  function WholeRun(s: State, p: nat, d: string, n: nat): (r: (State, seq<Option<nat>>))
    requires '\0' !in d && Terminated(s.mem, p)
    ensures |r.1| == n + 1
  {
    var (s1, result) := Call(s, Some(p), d);
    var (s2, results) := Calls(s1, d, n);
    (s2, [result] + results)
  }

  /** The results of `n` calls: where each token begins, in order, then null pointers. */
  ghost predicate AreResults(results: seq<Option<nat>>, ts: seq<(nat, nat)>) {
    forall j :: 0 <= j < |results| ==> results[j] == if j < |ts| then Some(ts[j].0) else None
  }

  /** `m'` is `m` with a NUL right after each of the first `n` tokens. */
  ghost predicate IsCut(m: string, m': string, ts: seq<(nat, nat)>, n: nat) {
    && |m'| == |m|
    && forall k :: 0 <= k < |m| ==>
         m'[k] == if exists j :: 0 <= j < n && j < |ts| && ts[j].1 == k then '\0' else m[k]
  }

  lemma {:induction false} TokensOfSuffix(m: string, m': string, p: nat, d: string)
    requires Terminated(m, p) && Terminated(m', p) && '\0' !in d
    requires |m'| == |m| && forall k :: p <= k < |m| ==> m'[k] == m[k]
    ensures Tokens(m', p, d) == Tokens(m, p, d)
    decreases |m| - p
  {
    hide SkipDelims, SkipToken, Tokens, Terminated;
    var a := SkipDelims(m, p, d);
    SkipsOfSuffix(m, m', p, d);
    SkipsOfSuffix(m, m', a, d);
    TokensUnfold(m, p, d);
    TokensUnfold(m', p, d);
    var b := SkipToken(m, a, d);
    if m[b] != '\0' { TokensOfSuffix(m, m', b + 1, d); }
  }

  lemma {:induction false} SkipsOfSuffix(m: string, m': string, p: nat, d: string)
    requires Terminated(m, p) && Terminated(m', p) && '\0' !in d
    requires |m'| == |m| && forall k :: p <= k < |m| ==> m'[k] == m[k]
    ensures SkipDelims(m', p, d) == SkipDelims(m, p, d) && SkipToken(m', p, d) == SkipToken(m, p, d)
    decreases |m| - p
  {
    if m[p] != '\0' { SkipsOfSuffix(m, m', p + 1, d); }
  }

  lemma {:induction false} NothingLeft(s: State, d: string, n: nat)
    requires s.next == None && '\0' !in d
    ensures Calls(s, d, n).0 == s && forall i :: 0 <= i < n ==> Calls(s, d, n).1[i] == None
  {
    if n > 0 { NothingLeft(s, d, n - 1); }
  }

  lemma {:induction false} CallsReturnTokens(s: State, d: string, n: nat)
    requires s.next.Some? && Terminated(s.mem, s.next.value) && '\0' !in d
    ensures var (last, results) := Calls(s, d, n);
      var ts := Tokens(s.mem, s.next.value, d);
      && AreResults(results, ts) && IsCut(s.mem, last.mem, ts, n)
      && (n > |ts| ==> last.next == None)
    decreases n
  {
    hide Call, Tokens, Terminated;
    if n > 0 {
      var ts := Tokens(s.mem, s.next.value, d);
      var (s1, result) := Call(s, None, d);
      var (last, results) := Calls(s1, d, n - 1);
      TokensInOrder(s.mem, s.next.value, d);
      TokensAfterCall(s, d);
      if s1.next == None {
        NothingLeft(s1, d, n - 1);
      } else {
        CallsReturnTokens(s1, d, n - 1);
        CutGrows(s.mem, last.mem, ts, n);
      }
    }
  }

  /** Cutting after the first token, and then after the first `n - 1` of the rest. */
  lemma CutGrows(m: string, m': string, ts: seq<(nat, nat)>, n: nat)
    requires n >= 1 && ts != [] && ts[0].1 < |m| && IsCut(m[ts[0].1 := '\0'], m', ts[1..], n - 1)
    ensures IsCut(m, m', ts, n)
  {
    var rest := ts[1..];
    forall k | 0 <= k < |m|
      ensures m'[k] == if exists j :: 0 <= j < n && j < |ts| && ts[j].1 == k then '\0' else m[k]
    {
      if j :| 0 <= j < n && j < |ts| && ts[j].1 == k {
        if j > 0 { assert rest[j - 1] == ts[j]; }
      }
      if j :| 0 <= j < n - 1 && j < |rest| && rest[j].1 == k {
        assert ts[j + 1] == rest[j];
      }
    }
  }

  /** A call that returns a token leaves the others, and cuts the string after it. */
  lemma TokensAfterCall(s: State, d: string)
    requires s.next.Some? && Terminated(s.mem, s.next.value) && '\0' !in d
    ensures var (s1, result) := Call(s, None, d);
      var ts := Tokens(s.mem, s.next.value, d);
      s1.next.Some? ==>
        && ts != [] && result == Some(ts[0].0) && ts[0].1 < |s.mem| && s1.mem == s.mem[ts[0].1 := '\0']
        && Tokens(s1.mem, s1.next.value, d) == ts[1..]
    ensures var (s1, result) := Call(s, None, d);
      s1.next == None ==> Tokens(s.mem, s.next.value, d) == [] && result == None && s1.mem == s.mem
  {
    hide SkipDelims, SkipToken, Tokens, Terminated;
    var (s1, result) := Call(s, None, d);
    var m, p := s.mem, s.next.value;
    var a := SkipDelims(m, p, d);
    var b := SkipToken(m, a, d);
    TokensUnfold(m, p, d);
    if m[b] == '\0' {
      assert m[b := '\0'] == m;
      if a < b { NothingAtEnd(m, b, d); }
    } else {
      TokensOfSuffix(m, s1.mem, b + 1, d);
    }
  }

  lemma NothingAtEnd(m: string, b: nat, d: string)
    requires b < |m| && m[b] == '\0' && '\0' !in d
    ensures Terminated(m, b) && Tokens(m, b, d) == []
  {
  }

  /** A whole run with one delimiter set returns exactly the maximal runs without delimiters of the
      original string, in order, then null pointers for ever; and it changes the buffer only where
      it puts a NUL right after each token. */
  lemma RunReturnsTokens(s: State, p: nat, d: string, n: nat)
    requires Terminated(s.mem, p) && '\0' !in d
    ensures var (last, results) := WholeRun(s, p, d, n);
      var ts := Tokens(s.mem, p, d);
      && AreResults(results, ts) && IsCut(s.mem, last.mem, ts, n + 1)
      && (n >= |ts| ==> last.next == None)
      && forall t :: t in ts <==> IsToken(s.mem, p, d, t)
  {
    hide Tokens, Terminated, SkipDelims, SkipToken;
    var from := s.(next := Some(p));
    CallsReturnTokens(from, d, n + 1);
    assert Call(s, Some(p), d) == Call(from, None, d);
    assert WholeRun(s, p, d, n) == Calls(from, d, n + 1);
    forall t ensures t in Tokens(s.mem, p, d) <==> IsToken(s.mem, p, d, t) {
      TokensAreMaximalRuns(s.mem, p, d, t);
    }
  }

  /** Each token returned can be read as a string of its own: the original characters up to the NUL
      put after it, no matter how many calls followed. */
  lemma TokensCanBeRead(s: State, p: nat, d: string, n: nat, j: nat)
    requires Terminated(s.mem, p) && '\0' !in d && j <= n && j < |Tokens(s.mem, p, d)|
    ensures var (last, results) := WholeRun(s, p, d, n);
      var (a, b) := Tokens(s.mem, p, d)[j];
      && results[j] == Some(a) && a < b < |s.mem| && Terminated(last.mem, a) && TextEnd(last.mem, a) == b
      && last.mem[a..b] == s.mem[a..b]
  {
    hide Tokens, WholeRun, TextEnd, Terminated;
    var (last, results) := WholeRun(s, p, d, n);
    var ts := Tokens(s.mem, p, d);
    var (a, b) := ts[j];
    RunReturnsTokens(s, p, d, n);
    TokensInOrder(s.mem, p, d);
    TextEndBounds(s.mem, p);
    assert ts[j] in ts && IsToken(s.mem, p, d, ts[j]);
    forall k | a <= k < b ensures last.mem[k] == s.mem[k] != '\0' {
      forall i | 0 <= i < |ts| ensures ts[i].1 != k { EndsOutside(ts, j, i, k); }
    }
    assert last.mem[b] == '\0';
    NulTerminates(last.mem, a, b);
    TextEndIs(last.mem, a, b);
  }

  lemma EndsOutside(ts: seq<(nat, nat)>, j: nat, i: nat, k: nat)
    requires i < |ts| && j < |ts| && ts[j].0 <= k < ts[j].1 && ts[i].0 < ts[i].1
    requires forall i, j :: 0 <= i < j < |ts| ==> ts[i].1 < ts[j].0
    ensures ts[i].1 != k
  {
  }

  lemma NulTerminates(m: string, a: nat, b: nat)
    requires a <= b < |m| && m[b] == '\0'
    ensures Terminated(m, a)
  {
  }
}
