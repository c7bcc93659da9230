/**
 * gees_stub and its OCaml selection callback: the three process-wide
 * variables that let a native routine with a bare function-pointer SELECT
 * call an OCaml closure, and the runtime-lock bookkeeping around it.
 */
module Gees {
  import opened Values
  import opened Regions
  import opened Selection
  import opened RuntimeLock

  /** The closure runs, one event per invocation, on each presented candidate in order. */
  function Evaluations(f: Closure, cs: seq<Invocation>): (t: seq<Event>)
    ensures |t| == |cs|
    ensures forall k :: 0 <= k < |cs| ==> t[k] == Evaluate(f, cs[k].z)
    decreases |cs|
  {
    if cs == [] then []
    else Evaluations(f, cs[..|cs| - 1]) + [Evaluate(f, cs[|cs| - 1].z)]
  }

  /** The lock events of one gees_stub call. */
  ghost function StubTrace(sort: char, select: int, f: Closure, cs: seq<Invocation>): seq<Event>
  {
    match Dispatch(sort, select)
    case None => []
    case Some(sel) => if sel == Custom then [Release, Acquire] + Evaluations(f, cs) else [Release, Acquire]
  }

  /**
   * Whatever the call and however many callbacks fire, a gees_stub call
   * releases the lock at most once, takes it back at most once, and runs
   * every closure evaluation with the lock held: the trace is legal from
   * the held state and ends held.
   */
  lemma StubTraceBalanced(sort: char, select: int, f: Closure, cs: seq<Invocation>)
    ensures Run(true, StubTrace(sort, select, f, cs)) == Some(true)
    ensures LockOps(StubTrace(sort, select, f, cs)) == if Dispatch(sort, select).None? then [] else [Release, Acquire]
  {
    if Dispatch(sort, select).Some? {
      var evals := if Dispatch(sort, select) == Some(Custom) then Evaluations(f, cs) else [];
      assert StubTrace(sort, select, f, cs) == [Release, Acquire] + evals;
      BracketRestoresLock(evals);
      BracketLockOps();
      LockOpsOfEvaluations([Release, Acquire], evals);
    }
  }

  lemma {:induction false} LockOpsOfEvaluations(t: seq<Event>, evals: seq<Event>)
    requires forall k :: 0 <= k < |evals| ==> evals[k].Evaluate?
    ensures LockOps(t + evals) == LockOps(t)
    decreases |evals|
  {
    if evals == [] {
      assert t + evals == t;
    } else {
      var init := evals[..|evals| - 1];
      assert (t + evals)[..|t + evals| - 1] == t + init;
      LockOpsOfEvaluations(t, init);
    }
  }

  /**
   * The native routine's SELECT calls with a fixed predicate: one pure
   * comparison per presented candidate; the number of true answers is SDIM.
   */
  method SelectFixed(region: Region, cs: seq<Invocation>) returns (sdim: nat)
    ensures sdim == CountSelected(Fixed(region), cs)
  {
    sdim := 0;
    var i := 0;
    while i < |cs|
      invariant 0 <= i <= |cs|
      invariant sdim == CountSelected(Fixed(region), cs[..i])
    {
      assert cs[..i + 1][..i] == cs[..i];
      if InRegion(region, cs[i].z) {
        sdim := sdim + 1;
      }
      i := i + 1;
    }
    assert cs[..i] == cs;
  }

  /** The pieces of a custom call's lock trace (release, native call, exit) add up to StubTrace. */
  lemma CustomCallTrace(t0: seq<Event>, f: Closure, cs: seq<Invocation>)
    ensures t0 + [Release] + (if |cs| > 0 then [Acquire] else []) + Evaluations(f, cs) + (if |cs| > 0 then [] else [Acquire])
         == t0 + StubTrace('S', 4, f, cs)
  {
    var evals := Evaluations(f, cs);
    if |cs| == 0 {
      assert evals == [];
    }
  }

  class SelectRegistry {
    /** select_ocaml_callback: the closure of the running custom call, None for Val_unit. */
    var callback: Option<Closure>
    /** select_ocaml_callback_exn: the first exception the closure raised, None for Val_unit. */
    var pendingExn: Option<Exn>
    /** select_ocaml_locked_runtime: a callback has taken the runtime lock during the native call. */
    var lockedRuntime: bool
    /** The runtime lock of the calling thread. */
    const rt: Runtime

    /** Between calls: both slots empty, the flag clear, the lock held. */
    ghost predicate Idle()
      reads this, rt
    {
      rt.Valid() && rt.held && callback.None? && pendingExn.None? && !lockedRuntime
    }

    /** During a native call with the custom callback installed: the flag tells whether the lock is held. */
    ghost predicate InNativeCall()
      reads this, rt
    {
      rt.Valid() && callback.Some? && (lockedRuntime <==> rt.held)
    }

    /** The static initialisers of the three variables. */
    constructor (rt: Runtime)
      requires rt.Valid() && rt.held
      ensures this.rt == rt && Idle()
    {
      this.rt := rt;
      callback := None;
      pendingExn := None;
      lockedRuntime := false;
    }

    /** Binding SELECT_FUN into the callback slot, once the slot has been seen empty. */
    method InstallCallback(f: Closure)
      requires callback.None?
      modifies this
      ensures callback == Some(f)
      ensures pendingExn == old(pendingExn) && lockedRuntime == old(lockedRuntime)
    {
      callback := Some(f);
    }

    /**
     * select_ocaml_exec_callback: take the lock if no earlier invocation has,
     * run the installed closure, answer its boolean, or store a first
     * exception and answer false.  The lock is never given back here.
     */
    method ExecCallback(inv: Invocation) returns (selected: bool)
      requires InNativeCall()
      modifies this, rt
      ensures InNativeCall() && lockedRuntime && rt.held
      ensures callback == old(callback)
      ensures rt.trace == old(rt.trace) + (if old(lockedRuntime) then [] else [Acquire]) + [Evaluate(callback.value, inv.z)]
      ensures selected <==> inv.answer == Answered(true)
      ensures pendingExn == Capture(old(pendingExn), inv.answer)
    {
      if !lockedRuntime {
        rt.LeaveBlockingSection();
        lockedRuntime := true;
      }
      rt.Callback(callback.value, inv.z);
      var res := inv.answer;
      if res.Answered? {
        return res.b;
      } else {
        if pendingExn.None? {
          pendingExn := Some(res.exn);
        }
        return false;
      }
    }

    /**
     * The native routine's SELECT calls with the OCaml bridge installed: one
     * ExecCallback per presented candidate, in order; the number of true
     * answers is SDIM.  The first callback takes the lock, and the lock then
     * stays with this thread.
     */
    method SelectCustom(cs: seq<Invocation>) returns (sdim: nat)
      requires InNativeCall() && !lockedRuntime
      modifies this, rt
      ensures sdim == CountSelected(Custom, cs)
      ensures InNativeCall() && callback == old(callback)
      ensures lockedRuntime == (|cs| > 0)
      ensures pendingExn == CaptureAll(old(pendingExn), cs)
      ensures rt.trace == old(rt.trace) + (if |cs| > 0 then [Acquire] else []) + Evaluations(callback.value, cs)
    {
      ghost var e0, t0, f := pendingExn, rt.trace, callback.value;
      sdim := 0;
      var i := 0;
      while i < |cs|
        invariant 0 <= i <= |cs|
        invariant InNativeCall() && callback == Some(f)
        invariant sdim == CountSelected(Custom, cs[..i])
        invariant lockedRuntime == (i > 0)
        invariant pendingExn == CaptureAll(e0, cs[..i])
        invariant rt.trace == t0 + (if i > 0 then [Acquire] else []) + Evaluations(f, cs[..i])
      {
        assert cs[..i + 1][..i] == cs[..i];
        var chosen := ExecCallback(cs[i]);
        if chosen {
          sdim := sdim + 1;
        }
        i := i + 1;
      }
      assert cs[..i] == cs;
    }

    /**
     * The native routine: when SORT is 'S' it calls SELECT once per presented
     * candidate, in order, and reports how many were selected as SDIM; INFO
     * is its own status code.  Without the OCaml bridge nothing but the
     * native predicate runs.
     */
    method NativeGees(sort: char, sel: Selector, cs: seq<Invocation>, info: int) returns (sdim: int, infoOut: int)
      requires rt.Valid() && !rt.held && !lockedRuntime
      requires sort == 'S' ==> sel != NoSelect
      requires sel == Custom ==> callback.Some?
      modifies this, rt
      ensures sdim == (if sort == 'S' then CountSelected(sel, cs) else 0) && infoOut == info
      ensures callback == old(callback) && rt.Valid()
      ensures sort == 'S' && sel == Custom ==>
        && lockedRuntime == (|cs| > 0) && rt.held == lockedRuntime
        && pendingExn == CaptureAll(old(pendingExn), cs)
        && rt.trace == old(rt.trace) + (if |cs| > 0 then [Acquire] else []) + Evaluations(callback.value, cs)
      ensures !(sort == 'S' && sel == Custom) ==> unchanged(this, rt)
    {
      sdim, infoOut := 0, info;
      if sort == 'S' {
        match sel
        case Fixed(region) =>
          sdim := SelectFixed(region, cs);
        case Custom =>
          sdim := SelectCustom(cs);
      }
    }

    /**
     * The exit path of gees_stub.  On the custom path: give the lock back to
     * this thread unless a callback already took it, clear the flag, empty
     * the callback slot, then clear and re-raise a captured exception, if
     * any.  Otherwise just take the lock back.  The result is (SDIM, INFO)
     * unless an exception is re-raised.
     */
    method ExitPath(customSort: bool, sdim: int, info: int) returns (r: StubResult)
      requires customSort ==> InNativeCall()
      requires !customSort ==> rt.Valid() && !rt.held && callback.None? && pendingExn.None? && !lockedRuntime
      modifies this, rt
      ensures Idle()
      ensures r == if customSort && old(pendingExn).Some? then RaisedExn(old(pendingExn).value) else Done(sdim, info)
      ensures rt.trace == old(rt.trace) + (if customSort && old(lockedRuntime) then [] else [Acquire])
    {
      if customSort {
        if lockedRuntime {
          lockedRuntime := false;
        } else {
          rt.LeaveBlockingSection();
        }
        callback := None;
        if pendingExn.Some? {
          var exn := pendingExn.value;
          pendingExn := None;
          return RaisedExn(exn);
        }
      } else {
        rt.LeaveBlockingSection();
      }
      r := Done(sdim, info);
    }

    /**
     * gees_stub: choose the select function, install the closure for the
     * custom one, run the native routine with the lock released, then restore
     * the lock, empty both slots, and either re-raise the first exception of
     * the closure or return (SDIM, INFO).
     */
    method GeesStub(sort: char, select: int, selectFun: Closure, cs: seq<Invocation>, info: int)
      returns (r: StubResult)
      requires Idle()
      modifies this, rt
      ensures Idle()
      ensures r == GeesOutcome(sort, select, cs, info)
      ensures rt.trace == old(rt.trace) + StubTrace(sort, select, selectFun, cs)
    {
      ghost var t0 := rt.trace;
      var dispatched := Dispatch(sort, select);
      if dispatched.None? {
        return Failed(UnknownSelectMessage);
      }
      var sel := dispatched.value;
      var customSort := sel == Custom;
      if customSort {
        InstallCallback(selectFun);
      }
      rt.EnterBlockingSection();
      var sdim, infoOut := NativeGees(sort, sel, cs, info);
      r := ExitPath(customSort, sdim, infoOut);
      if customSort {
        CaptureAllIsFirstRaised(cs);
        CustomCallTrace(t0, selectFun, cs);
      }
    }
  }
}
