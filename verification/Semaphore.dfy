/** RAM semaphores (include/os2/fsh32.h, lines 46-115) as steps of any number of threads on one
    processor. A step is one access to the shared word, one change of the interrupt flag or one
    call of the kernel, so threads interleave everywhere the code lets them: while a thread has
    interrupts disabled nobody else runs, and DevHlp32_ProcBlock gives the processor away. */
module Semaphore {
  import opened CStrings

  type Tid = nat

  datatype Call = Request | Set | Wait

  datatype Rc = NoError | BlockFailed | AlreadyOwned

  /** Where a thread is. `held` tells whether it held the semaphore when it made the call. */
  datatype Pc =
    | Idle
    | Starting(call: Call, held: bool)        // before _disable()
    | Testing(call: Call, held: bool)         // before the exchange or the test of the word
    | GoingToBlock(call: Call, held: bool)    // the word was 1; before DevHlp32_ProcBlock
    | Blocked(call: Call, held: bool)         // in DevHlp32_ProcBlock
    | Leaving(call: Call, held: bool, rc: Rc) // before _enable() and the return
    | Clearing                                // fsh32_semclear, between *sem = 0 and DevHlp32_ProcRun

  /** `masked` is the thread that has interrupts disabled; `holders` are the threads that acquired
      the semaphore and have not cleared it since. */
  datatype State = State(word: int, pc: map<Tid, Pc>, masked: Option<Tid>, holders: set<Tid>)

  datatype Action =
    | Enter(t: Tid, call: Call) | Disable(t: Tid) | Test(t: Tid) | Block(t: Tid)
    | Expire(t: Tid) | Leave(t: Tid) | Store(t: Tid) | Run(t: Tid)

  ghost predicate Init(s: State) {
    s.word == 0 && s.masked == None && s.holders == {} && forall t <- s.pc :: s.pc[t] == Idle
  }

  /** Thread `a.t` is at the point of the action, and no other thread keeps it from running. Only a
      holder calls fsh32_semclear. */
  predicate Enabled(s: State, a: Action) {
    && a.t in s.pc
    && (s.masked == None || s.masked == Some(a.t))
    && match a
       case Enter(t, _) => s.pc[t].Idle?
       case Disable(t) => s.pc[t].Starting?
       case Test(t) => s.pc[t].Testing?
       case Block(t) => s.pc[t].GoingToBlock?
       case Expire(t) => s.pc[t].Blocked?
       case Leave(t) => s.pc[t].Leaving?
       case Store(t) => s.pc[t].Idle? && t in s.holders
       case Run(t) => s.pc[t].Clearing?
  }

  /** The exchange of fsh32_semrequest and fsh32_semset, or the test of fsh32_semwait. */
  function TestWord(s: State, t: Tid): State
    requires t in s.pc && s.pc[t].Testing?
  {
    var Testing(call, held) := s.pc[t];
    if call.Wait? then
      s.(pc := s.pc[t := if s.word != 0 then GoingToBlock(call, held) else Leaving(call, held, NoError)])
    else if s.word != 0 then
      s.(word := 1, pc := s.pc[t := if call.Set? then Leaving(call, held, AlreadyOwned) else GoingToBlock(call, held)])
    else
      s.(word := 1, pc := s.pc[t := Leaving(call, held, NoError)], holders := s.holders + {t})
  }

  /** DevHlp32_ProcRun: every thread blocked on the semaphore goes on, to test the word again. */
  function Wake(pc: map<Tid, Pc>): (r: map<Tid, Pc>)
    ensures r.Keys == pc.Keys
    ensures forall t <- pc :: r[t] == if pc[t].Blocked? then Starting(pc[t].call, pc[t].held) else pc[t]
  {
    map t | t in pc :: if pc[t].Blocked? then Starting(pc[t].call, pc[t].held) else pc[t]
  }

  function Next(s: State, a: Action): State
    requires Enabled(s, a)
  {
    match a
    case Enter(t, call) => s.(pc := s.pc[t := Starting(call, t in s.holders)])
    case Disable(t) => s.(masked := Some(t), pc := s.pc[t := Testing(s.pc[t].call, s.pc[t].held)])
    case Test(t) => TestWord(s, t)
    case Block(t) => s.(masked := None, pc := s.pc[t := Blocked(s.pc[t].call, s.pc[t].held)])
    case Expire(t) => s.(pc := s.pc[t := Leaving(s.pc[t].call, s.pc[t].held, BlockFailed)])
    case Leave(t) => s.(masked := None, pc := s.pc[t := Idle])
    case Store(t) => s.(word := 0, pc := s.pc[t := Clearing], holders := s.holders - {t})
    case Run(t) => s.(pc := Wake(s.pc)[t := Idle])
  }

  // ---- Runs ----

  ghost predicate IsRun(s: State, actions: seq<Action>)
    decreases |actions|
  {
    actions == [] || (Enabled(s, actions[0]) && IsRun(Next(s, actions[0]), actions[1..]))
  }

  ghost function Exec(s: State, actions: seq<Action>): State
    requires IsRun(s, actions)
    decreases |actions|
  {
    if actions == [] then s else Exec(Next(s, actions[0]), actions[1..])
  }

  ghost predicate Reachable(s: State) {
    exists s0, actions :: Init(s0) && IsRun(s0, actions) && Exec(s0, actions) == s
  }

  // ---- The invariant ----

  /** Thread `t` has interrupts disabled by its place in the code. */
  predicate IsMasking(p: Pc) {
    p.Testing? || p.GoingToBlock? || (p.Leaving? && p.rc != BlockFailed)
  }

  predicate InCall(p: Pc) { !p.Idle? && !p.Clearing? }

  /** At most one thread holds the semaphore, and the word says whether one does. */
  ghost predicate MutualExclusion(s: State) {
    && (forall t, u :: t in s.holders && u in s.holders ==> t == u)
    && s.holders <= s.pc.Keys
    && s.word == if s.holders == {} then 0 else 1
  }

  /** While a thread is blocked, the word is 1 or some thread has yet to call DevHlp32_ProcRun. */
  ghost predicate NoLostWakeUp(s: State) {
    (exists t <- s.pc :: s.pc[t].Blocked?) ==> s.word == 1 || exists t <- s.pc :: s.pc[t].Clearing?
  }

  /** What a thread's place in the code says of it. */
  ghost predicate PcOk(s: State, t: Tid)
    requires t in s.pc
  {
    var p := s.pc[t];
    && (IsMasking(p) <==> s.masked == Some(t))
    && (p.GoingToBlock? ==> s.word == 1)
    && (p.Clearing? ==> t !in s.holders)
    && (InCall(p) ==> (t in s.holders <==> p.held || (p.Leaving? && p.rc == NoError && !p.call.Wait?)))
    && (p.Leaving? && p.rc == NoError && !p.call.Wait? ==> !p.held)
    && (p.Leaving? ==> (p.rc == AlreadyOwned ==> p.call.Set?) && (p.rc == BlockFailed ==> !p.call.Set?))
    && ((p.GoingToBlock? || p.Blocked?) ==> !p.call.Set?)
  }

  ghost predicate Inv(s: State) {
    && MutualExclusion(s) && NoLostWakeUp(s)
    && (s.masked.Some? ==> s.masked.value in s.pc)
    && forall t <- s.pc :: PcOk(s, t)
  }

  lemma MaskedAlone(s: State, a: Action)
    requires Inv(s) && Enabled(s, a)
    ensures forall u <- s.pc :: u != a.t ==> !IsMasking(s.pc[u])
    ensures s.masked == if IsMasking(s.pc[a.t]) then Some(a.t) else None
  {
    assert PcOk(s, a.t);
    forall u <- s.pc | u != a.t ensures !IsMasking(s.pc[u]) {
      assert PcOk(s, u);
    }
  }

  lemma StepKeepsMutualExclusion(s: State, a: Action)
    requires Inv(s) && Enabled(s, a)
    ensures MutualExclusion(Next(s, a))
  {
    assert PcOk(s, a.t);
  }

  lemma StepKeepsWakeUps(s: State, a: Action)
    requires Inv(s) && Enabled(s, a)
    ensures NoLostWakeUp(Next(s, a))
  {
    var s' := Next(s, a);
    assert PcOk(s, a.t);
    if u :| u in s'.pc && s'.pc[u].Blocked? {
      if !a.Block? {
        assert s.pc[u].Blocked?;
        if s.word != 1 {
          var c :| c in s.pc && s.pc[c].Clearing?;
          assert s'.word == 1 || s'.pc[c].Clearing?;
        } else if a.Store? {
          assert s'.pc[a.t].Clearing?;
        }
      }
    }
  }

  lemma StepKeepsPlaces(s: State, a: Action)
    requires Inv(s) && Enabled(s, a)
    ensures var s' := Next(s, a);
      (s'.masked.Some? ==> s'.masked.value in s'.pc) && forall u <- s'.pc :: PcOk(s', u)
  {
    var s' := Next(s, a);
    MaskedAlone(s, a);
    forall u <- s'.pc ensures PcOk(s', u) {
      assert PcOk(s, u) && PcOk(s, a.t);
    }
  }

  /** Every step keeps the invariant. */
  lemma StepKeepsInv(s: State, a: Action)
    requires Inv(s) && Enabled(s, a)
    ensures Inv(Next(s, a))
  {
    StepKeepsMutualExclusion(s, a);
    StepKeepsWakeUps(s, a);
    StepKeepsPlaces(s, a);
  }

  lemma {:induction false} RunKeepsInv(s: State, actions: seq<Action>)
    requires Inv(s) && IsRun(s, actions)
    ensures Inv(Exec(s, actions))
    decreases |actions|
  {
    if actions != [] {
      StepKeepsInv(s, actions[0]);
      RunKeepsInv(Next(s, actions[0]), actions[1..]);
    }
  }

  /** In every reachable state of any number of threads at most one holds the semaphore, the word is
      1 exactly when one does, and no wake-up is lost. */
  lemma ReachableIsSafe(s: State)
    requires Reachable(s)
    ensures Inv(s)
    ensures |s.holders| <= 1 && (s.word == 1 <==> s.holders != {}) && (s.word == 0 <==> s.holders == {})
    ensures s.word == 0 && (exists t <- s.pc :: s.pc[t].Blocked?) ==> exists t <- s.pc :: s.pc[t].Clearing?
  {
    var s0, actions :| Init(s0) && IsRun(s0, actions) && Exec(s0, actions) == s;
    RunKeepsInv(s0, actions);
    if t :| t in s.holders { assert s.holders == {t}; }
  }

  // ---- What a call tells its caller ----

  lemma {:induction false} CallGoesOn(s: State, actions: seq<Action>, t: Tid)
    requires Inv(s) && IsRun(s, actions) && t in s.pc && InCall(s.pc[t])
    requires forall i :: 0 <= i < |actions| ==> actions[i] != Leave(t)
    ensures var p := Exec(s, actions).pc;
      t in p && InCall(p[t]) && p[t].call == s.pc[t].call && p[t].held == s.pc[t].held
    decreases |actions|
  {
    if actions != [] {
      var a := actions[0];
      StepKeepsInv(s, a);
      assert a != Leave(t);
      assert forall i :: 0 <= i < |actions[1..]| ==> actions[1..][i] == actions[i + 1];
      CallGoesOn(Next(s, a), actions[1..], t);
    }
  }

  /** Over a whole call, whatever the others do meanwhile: fsh32_semrequest and fsh32_semset return
      NO_ERROR exactly when the caller did not hold the semaphore before and holds it now; on any
      other return, and on every return of fsh32_semwait, it holds what it held before. */
  lemma ReturnTellsAcquired(s: State, call: Call, actions: seq<Action>, t: Tid)
    requires Inv(s) && Enabled(s, Enter(t, call)) && IsRun(Next(s, Enter(t, call)), actions)
    requires forall i :: 0 <= i < |actions| ==> actions[i] != Leave(t)
    requires Enabled(Exec(Next(s, Enter(t, call)), actions), Leave(t))
    ensures var last := Exec(Next(s, Enter(t, call)), actions);
      var rc := last.pc[t].rc;
      var after := Next(last, Leave(t));
      && (call != Wait ==> (rc == NoError <==> t !in s.holders && t in after.holders))
      && (call == Wait || rc != NoError ==> (t in after.holders <==> t in s.holders))
      && (rc == AlreadyOwned ==> call == Set) && (rc == BlockFailed ==> call != Set)
  {
    var s1 := Next(s, Enter(t, call));
    StepKeepsInv(s, Enter(t, call));
    CallGoesOn(s1, actions, t);
    RunKeepsInv(s1, actions);
    assert PcOk(Exec(s1, actions), t);
  }

  /** No step of thread `t` changes the word or the holders. */
  ghost predicate LeavesAlone(s: State, actions: seq<Action>, t: Tid)
    requires IsRun(s, actions)
    decreases |actions|
  {
    actions == [] ||
    var s' := Next(s, actions[0]);
    (actions[0].t == t ==> s'.word == s.word && s'.holders == s.holders) && LeavesAlone(s', actions[1..], t)
  }

  lemma {:induction false} LeavingStays(s: State, actions: seq<Action>, t: Tid)
    requires IsRun(s, actions) && t in s.pc && s.pc[t].Leaving?
    requires forall i :: 0 <= i < |actions| ==> actions[i] != Leave(t)
    ensures t in Exec(s, actions).pc && Exec(s, actions).pc[t] == s.pc[t]
    decreases |actions|
  {
    if actions != [] {
      assert actions[0] != Leave(t);
      LeavingStays(Next(s, actions[0]), actions[1..], t);
    }
  }

  /** A call that times out or is refused, and any wait, leaves word and owner alone at each of its
      own steps; what changes meanwhile, others change. */
  lemma {:induction false} FailedCallLeavesAlone(s: State, actions: seq<Action>, t: Tid)
    requires Inv(s) && IsRun(s, actions) && t in s.pc && InCall(s.pc[t])
    requires forall i :: 0 <= i < |actions| ==> actions[i] != Leave(t)
    requires var p := Exec(s, actions).pc; t in p && p[t].Leaving? && (p[t].rc != NoError || p[t].call.Wait?)
    ensures LeavesAlone(s, actions, t)
    decreases |actions|
  {
    if actions != [] {
      var a := actions[0];
      var s' := Next(s, a);
      assert a != Leave(t) && PcOk(s, a.t);
      StepKeepsInv(s, a);
      if s'.pc[t].Leaving? { LeavingStays(s', actions[1..], t); }
      FailedCallLeavesAlone(s', actions[1..], t);
    }
  }

  /** Thread `t` tests the word somewhere in the run, and finds it 0. */
  ghost predicate FindsItFree(s: State, actions: seq<Action>, t: Tid)
    requires IsRun(s, actions)
    decreases |actions|
  {
    actions != [] &&
    ((actions[0] == Test(t) && s.word == 0) || FindsItFree(Next(s, actions[0]), actions[1..], t))
  }

  lemma {:induction false} LeavingTestsNoMore(s: State, actions: seq<Action>, t: Tid)
    requires IsRun(s, actions) && t in s.pc && s.pc[t].Leaving?
    requires forall i :: 0 <= i < |actions| ==> actions[i] != Leave(t)
    ensures !FindsItFree(s, actions, t)
    decreases |actions|
  {
    if actions != [] {
      assert actions[0] != Leave(t);
      LeavingTestsNoMore(Next(s, actions[0]), actions[1..], t);
    }
  }

  /** A call returns NO_ERROR exactly when one of its own tests found the word 0: fsh32_semwait saw
      the semaphore free, fsh32_semrequest and fsh32_semset exchanged the 0. */
  lemma {:induction false} SuccessFoundItFree(s: State, actions: seq<Action>, t: Tid)
    requires Inv(s) && IsRun(s, actions) && t in s.pc && InCall(s.pc[t]) && !s.pc[t].Leaving?
    requires forall i :: 0 <= i < |actions| ==> actions[i] != Leave(t)
    requires var p := Exec(s, actions).pc; t in p && p[t].Leaving?
    ensures Exec(s, actions).pc[t].rc == NoError <==> FindsItFree(s, actions, t)
    decreases |actions|
  {
    if actions != [] {
      var a := actions[0];
      var s' := Next(s, a);
      assert a != Leave(t) && PcOk(s, a.t);
      StepKeepsInv(s, a);
      if s'.pc[t].Leaving? {
        LeavingStays(s', actions[1..], t);
        LeavingTestsNoMore(s', actions[1..], t);
      } else {
        SuccessFoundItFree(s', actions[1..], t);
      }
    }
  }

  lemma {:induction false} LeavingExpiresNoMore(s: State, actions: seq<Action>, t: Tid)
    requires IsRun(s, actions) && t in s.pc && s.pc[t].Leaving?
    requires forall i :: 0 <= i < |actions| ==> actions[i] != Leave(t)
    ensures Expire(t) !in actions
    decreases |actions|
  {
    if actions != [] {
      assert actions[0] != Leave(t);
      LeavingExpiresNoMore(Next(s, actions[0]), actions[1..], t);
    }
  }

  /** A call fails with the error of DevHlp32_ProcBlock exactly when it timed out while blocked: a
      request or a wait that finds the semaphore taken never gives up by itself. */
  lemma {:induction false} FailureIsTimeOut(s: State, actions: seq<Action>, t: Tid)
    requires Inv(s) && IsRun(s, actions) && t in s.pc && InCall(s.pc[t]) && !s.pc[t].Leaving?
    requires forall i :: 0 <= i < |actions| ==> actions[i] != Leave(t)
    requires var p := Exec(s, actions).pc; t in p && p[t].Leaving?
    ensures Exec(s, actions).pc[t].rc == BlockFailed <==> Expire(t) in actions
    decreases |actions|
  {
    if actions != [] {
      var a := actions[0];
      var s' := Next(s, a);
      assert a != Leave(t) && PcOk(s, a.t);
      StepKeepsInv(s, a);
      if s'.pc[t].Leaving? {
        LeavingStays(s', actions[1..], t);
        LeavingExpiresNoMore(s', actions[1..], t);
      } else {
        FailureIsTimeOut(s', actions[1..], t);
      }
    }
  }

  /** The return code of a whole call, from what happened during it: NO_ERROR when a test found the
      word 0, the error of DevHlp32_ProcBlock when the call timed out, and else, for fsh32_semset
      only, ERROR_EXCL_SEM_ALREADY_OWNED. */
  lemma ReturnCode(s: State, call: Call, actions: seq<Action>, t: Tid)
    requires Inv(s) && Enabled(s, Enter(t, call)) && IsRun(Next(s, Enter(t, call)), actions)
    requires forall i :: 0 <= i < |actions| ==> actions[i] != Leave(t)
    requires Enabled(Exec(Next(s, Enter(t, call)), actions), Leave(t))
    ensures var s1 := Next(s, Enter(t, call));
      var rc := Exec(s1, actions).pc[t].rc;
      && (rc == NoError <==> FindsItFree(s1, actions, t))
      && (rc == BlockFailed <==> Expire(t) in actions)
      && (rc == AlreadyOwned ==> call == Set) && (call == Set ==> rc != BlockFailed)
  {
    var s1 := Next(s, Enter(t, call));
    ReturnTellsAcquired(s, call, actions, t);
    StepKeepsInv(s, Enter(t, call));
    SuccessFoundItFree(s1, actions, t);
    FailureIsTimeOut(s1, actions, t);
  }

  // ---- Blocking ----

  /** How often thread `t` gives the processor away in DevHlp32_ProcBlock. */
  function Blocks(actions: seq<Action>, t: Tid): nat {
    if actions == [] then 0 else (if actions[0] == Block(t) then 1 else 0) + Blocks(actions[1..], t)
  }

  /** How often thread `t` tests the word and finds the semaphore taken. */
  ghost function TestsTaken(s: State, actions: seq<Action>, t: Tid): nat
    requires IsRun(s, actions)
    decreases |actions|
  {
    if actions == [] then 0
    else (if actions[0] == Test(t) && s.word != 0 then 1 else 0) + TestsTaken(Next(s, actions[0]), actions[1..], t)
  }

  /** No busy waiting: over a call, fsh32_semrequest and fsh32_semwait block exactly once for each
      test that finds the semaphore taken, and fsh32_semset never does. */
  lemma {:induction false} BlocksWhenTaken(s: State, actions: seq<Action>, t: Tid)
    requires Inv(s) && IsRun(s, actions) && t in s.pc && InCall(s.pc[t])
    requires forall i :: 0 <= i < |actions| ==> actions[i] != Leave(t)
    requires var p := Exec(s, actions).pc; t in p && p[t].Leaving?
    ensures s.pc[t].call == Set ==> Blocks(actions, t) == 0
    ensures s.pc[t].call != Set ==>
              Blocks(actions, t) == TestsTaken(s, actions, t) + (if s.pc[t].GoingToBlock? then 1 else 0)
    decreases |actions|
  {
    if actions != [] {
      var a := actions[0];
      assert a != Leave(t) && PcOk(s, a.t);
      StepKeepsInv(s, a);
      BlocksWhenTaken(Next(s, a), actions[1..], t);
    }
  }

  /** A blocked thread goes on by its own time-out or by a DevHlp32_ProcRun only. */
  lemma {:induction false} StaysBlocked(s: State, actions: seq<Action>, t: Tid)
    requires IsRun(s, actions) && t in s.pc && s.pc[t].Blocked?
    requires forall i :: 0 <= i < |actions| ==> actions[i] != Expire(t) && !actions[i].Run?
    ensures t in Exec(s, actions).pc && Exec(s, actions).pc[t] == s.pc[t]
    decreases |actions|
  {
    if actions != [] {
      assert actions[0] != Expire(t) && !actions[0].Run?;
      StaysBlocked(Next(s, actions[0]), actions[1..], t);
    }
  }

  // ---- The semaphore is a lock ----

  datatype LockEvent = Acquired(t: Tid) | Released(t: Tid)

  function EventOf(s: State, a: Action): seq<LockEvent>
    requires Enabled(s, a)
  {
    var h := Next(s, a).holders;
    if a.t in h && a.t !in s.holders then [Acquired(a.t)]
    else if a.t !in h && a.t in s.holders then [Released(a.t)]
    else []
  }

  ghost function History(s: State, actions: seq<Action>): seq<LockEvent>
    requires IsRun(s, actions)
    decreases |actions|
  {
    if actions == [] then [] else EventOf(s, actions[0]) + History(Next(s, actions[0]), actions[1..])
  }

  /** The history of a lock that `owner` has at first: it is acquired when free, and released by
      the thread that acquired it. */
  ghost predicate IsLockHistory(owner: Option<Tid>, events: seq<LockEvent>)
    decreases |events|
  {
    events == [] ||
    match events[0]
    case Acquired(t) => owner == None && IsLockHistory(Some(t), events[1..])
    case Released(t) => owner == Some(t) && IsLockHistory(None, events[1..])
  }

  ghost predicate IsOwner(owner: Option<Tid>, holders: set<Tid>) {
    holders == if owner == None then {} else {owner.value}
  }

  /** The acquisitions and releases of every run, of any number of threads and any length, are those
      of a lock. */
  lemma {:induction false} RunIsLockHistory(s: State, owner: Option<Tid>, actions: seq<Action>)
    requires Inv(s) && IsOwner(owner, s.holders) && IsRun(s, actions)
    ensures IsLockHistory(owner, History(s, actions))
    decreases |actions|
  {
    if actions != [] {
      var a := actions[0];
      var s', events := Next(s, a), EventOf(s, a);
      StepKeepsInv(s, a);
      assert PcOk(s, a.t);
      var owner' := if events == [] then owner else if events[0].Acquired? then Some(a.t) else None;
      var rest := History(s', actions[1..]);
      RunIsLockHistory(s', owner', actions[1..]);
      if events == [] { assert events + rest == rest; } else { assert (events + rest)[1..] == rest; }
    }
  }

  // ---- No deadlock ----

  /** Whenever the semaphore is free and some thread is not idle, some call can go on, and not by a
      time-out. */
  lemma FreeMeansProgress(s: State, t: Tid)
    requires Inv(s) && s.word == 0 && t in s.pc && !s.pc[t].Idle?
    ensures exists a :: Enabled(s, a) && !a.Enter? && !a.Expire? && !a.Store?
  {
    var u := t;
    if s.masked.Some? {
      u := s.masked.value;
    } else if s.pc[t].Blocked? {
      u :| u in s.pc && s.pc[u].Clearing?;
    }
    assert PcOk(s, u);
    match s.pc[u]
    case Starting(_, _) => assert Enabled(s, Disable(u));
    case Testing(_, _) => assert Enabled(s, Test(u));
    case Leaving(_, _, _) => assert Enabled(s, Leave(u));
    case Clearing => assert Enabled(s, Run(u));
    case _ =>
  }
}
