/** Allocating several GDT selectors at once (devhlp32/DevHlp32_AllocGDTSelector.c). */
module GdtSelectors {
  type Selector = s: nat | s < 0x1_0000 witness 0

  const NO_ERROR: int := 0

  /** What the kernel answers to one allocation. */
  datatype Answer = Answer(rc: int, sel: Selector)

  /** The kernel's side: the selectors in use, and all that it has answered. An allocation may fail
      for any reason of its own, and otherwise gives a selector that was free. */
  class Kernel {
    var inUse: set<Selector>
    ghost var answers: seq<Answer>

    constructor ()
      ensures inUse == {} && answers == []
    {
      inUse := {};
      answers := [];
    }

    /** DevHlp32_AllocOneGDTSelector */
    method AllocOne() returns (rc: int, sel: Selector)
      modifies this
      ensures if rc == NO_ERROR then sel !in old(inUse) && inUse == old(inUse) + {sel}
              else inUse == old(inUse)
      ensures answers == old(answers) + [Answer(rc, sel)]
    {
      sel := *;
      rc := *;
      if sel in inUse && rc == NO_ERROR { rc := 1; }
      if rc == NO_ERROR { inUse := inUse + {sel}; }
      answers := answers + [Answer(rc, sel)];
    }

    /** DevHlp32_FreeGDTSelector */
    method Free(sel: Selector)
      requires sel in inUse
      modifies this
      ensures inUse == old(inUse) - {sel} && answers == old(answers)
    {
      inUse := inUse - {sel};
    }
  }

  function Range(s: seq<Selector>): (r: set<Selector>) {
    set i | 0 <= i < |s| :: s[i]
  }

  ghost predicate Distinct(s: seq<Selector>) {
    forall i, j :: 0 <= i < j < |s| ==> s[i] != s[j]
  }

  /** Adding a selector that is not there keeps the selectors distinct and adds just that one. */
  lemma Push(s: seq<Selector>, sel: Selector)
    ensures Range(s + [sel]) == Range(s) + {sel}
    ensures Distinct(s) && sel !in Range(s) ==> Distinct(s + [sel])
  {
    var t := s + [sel];
    assert t[|s|] == sel;
    forall x | x in Range(s) ensures x in Range(t) {
      var i :| 0 <= i < |s| && s[i] == x;
      assert t[i] == x;
    }
    if Distinct(s) && sel !in Range(s) {
      forall i, j | 0 <= i < j < |t| ensures t[i] != t[j] {
        if j == |s| { assert s[i] in Range(s); }
      }
    }
  }

  /** devhlp32/DevHlp32_AllocGDTSelector.c: all `count` selectors, or none. It asks the kernel for one
      after the other, until it has them all or the kernel refuses, and returns the last answer. */
  method AllocGDTSelector(kernel: Kernel, psel: array<Selector>, count: int) returns (rc: int)
    requires count <= psel.Length
    modifies kernel, psel
    ensures old(kernel.answers) <= kernel.answers
    ensures var asked := kernel.answers[|old(kernel.answers)|..];
      && (forall k :: 0 <= k < |asked| - 1 ==> asked[k].rc == NO_ERROR)
      && rc == (if asked == [] then NO_ERROR else asked[|asked| - 1].rc)
      && (rc == NO_ERROR ==> |asked| == if count > 0 then count else 0)
      && (rc == NO_ERROR ==> forall k :: 0 <= k < |asked| ==> psel[k] == asked[k].sel)
    ensures rc == NO_ERROR && count > 0 ==>
              && Distinct(psel[..count])
              && Range(psel[..count]) !! old(kernel.inUse)
              && kernel.inUse == old(kernel.inUse) + Range(psel[..count])
    ensures rc != NO_ERROR || count <= 0 ==> kernel.inUse == old(kernel.inUse)
    ensures count <= 0 ==> rc == NO_ERROR
    ensures forall k :: 0 <= k < psel.Length && k >= count ==> psel[k] == old(psel[k])
  {
    hide Distinct, Range;
    NoneYet();
    ghost var before, answers := kernel.inUse, kernel.answers;
    ghost var asked: seq<Answer> := [];
    var i := 0;
    rc := NO_ERROR;
    while rc == NO_ERROR && i < count
      invariant 0 <= i <= (if count > 0 then count else 0) && (count <= 0 ==> rc == NO_ERROR)
      invariant Distinct(psel[..i]) && Range(psel[..i]) !! before
      invariant kernel.inUse == before + Range(psel[..i])
      invariant kernel.answers == answers + asked && |asked| == if rc == NO_ERROR then i else i + 1
      invariant forall k :: 0 <= k < i ==> asked[k] == Answer(NO_ERROR, psel[k])
      invariant rc != NO_ERROR ==> i < count && asked[i].rc == rc
      invariant forall k :: 0 <= k < psel.Length && k >= count ==> psel[k] == old(psel[k])
      decreases if rc == NO_ERROR then 1 else 0, count - i
    {
      var sel;
      rc, sel := kernel.AllocOne();
      asked := asked + [Answer(rc, sel)];
      if rc == NO_ERROR {
        Push(psel[..i], sel);
        ghost var head := psel[..i];
        psel[i] := sel;
        i := i + 1;
        assert psel[..i] == head + [sel];
      }
    }
    assert (answers + asked)[|answers|..] == asked;
    if rc != NO_ERROR {
      while i != 0
        invariant 0 <= i <= count && kernel.answers == answers + asked
        invariant Distinct(psel[..i]) && Range(psel[..i]) !! before
        invariant kernel.inUse == before + Range(psel[..i])
        invariant forall k :: 0 <= k < psel.Length && k >= count ==> psel[k] == old(psel[k])
        decreases i
      {
        i := i - 1;
        Pop(psel[..i + 1]);
        assert psel[..i + 1][..i] == psel[..i];
        kernel.Free(psel[i]);
      }
    }
  }

  lemma NoneYet()
    ensures Distinct([]) && Range([]) == {}
  {
  }

  /** Taking the last of distinct selectors away takes just that one. */
  lemma Pop(s: seq<Selector>)
    requires s != [] && Distinct(s)
    ensures Distinct(s[..|s| - 1]) && s[|s| - 1] in Range(s)
    ensures Range(s[..|s| - 1]) == Range(s) - {s[|s| - 1]}
  {
    var init, last := s[..|s| - 1], s[|s| - 1];
    assert s == init + [last];
    Push(init, last);
    forall i | 0 <= i < |init| ensures init[i] != last {
      assert s[i] == init[i];
    }
  }
}
