/**
 * The OCaml runtime lock as seen by the stubs: `caml_enter_blocking_section`
 * releases it, `caml_leave_blocking_section` takes it back, and OCaml code
 * (a closure run by `caml_callback_exn`) may only run while it is held.
 * The lock state is ghost; a ghost trace records every transition.
 */
module RuntimeLock {
  import opened Values

  datatype Event =
    | Release                          // caml_enter_blocking_section
    | Acquire                          // caml_leave_blocking_section
    | Evaluate(f: Closure, z: Complex) // an OCaml closure runs on a candidate

  /** The lock state after one event, or None when the event is not allowed in that state. */
  function Step(held: bool, e: Event): Option<bool>
  {
    match e
    case Release => if held then Some(false) else None
    case Acquire => if held then None else Some(true)
    case Evaluate(_, _) => if held then Some(true) else None
  }

  /** The lock state after a trace started in state `held`, or None if some step was not allowed. */
  function Run(held: bool, t: seq<Event>): Option<bool>
    decreases |t|
  {
    if t == [] then Some(held)
    else match Run(held, t[..|t| - 1])
      case None => None
      case Some(h) => Step(h, t[|t| - 1])
  }

  /** One more event runs from where the trace left the lock. */
  lemma RunSnoc(held: bool, t: seq<Event>, e: Event)
    ensures Run(held, t + [e]) == match Run(held, t) case None => None case Some(h) => Step(h, e)
  {
    assert (t + [e])[..|t|] == t;
  }

  /** The release and acquire events of a trace, in order. */
  function LockOps(t: seq<Event>): (ops: seq<Event>)
    ensures forall k :: 0 <= k < |ops| ==> !ops[k].Evaluate?
    decreases |t|
  {
    if t == [] then []
    else LockOps(t[..|t| - 1]) + if t[|t| - 1].Evaluate? then [] else [t[|t| - 1]]
  }

  /** Reference definition of lock discipline: releases and acquires alternate, starting with a release. */
  ghost predicate Alternating(ops: seq<Event>)
  {
    forall k :: 0 <= k < |ops| ==> ops[k] == if k % 2 == 0 then Release else Acquire
  }

  /**
   * A trace that runs from the held state has alternating lock operations,
   * so no release is ever doubled and no acquire is ever doubled; the lock is
   * held at the end exactly when releases and acquires balance.
   */
  lemma {:induction false} RunAlternates(t: seq<Event>)
    requires Run(true, t).Some?
    ensures Alternating(LockOps(t))
    ensures Run(true, t) == Some(|LockOps(t)| % 2 == 0)
    decreases |t|
  {
    if t != [] {
      RunAlternates(t[..|t| - 1]);
    }
  }

  /** The bracket of one foreign call, with closures run under the lock after it, leaves the lock held. */
  lemma {:induction false} BracketRestoresLock(evals: seq<Event>)
    requires forall k :: 0 <= k < |evals| ==> evals[k].Evaluate?
    ensures Run(true, [Release, Acquire] + evals) == Some(true)
    decreases |evals|
  {
    if evals != [] {
      var init := evals[..|evals| - 1];
      BracketRestoresLock(init);
      assert ([Release, Acquire] + evals)[..|[Release, Acquire] + evals| - 1] == [Release, Acquire] + init;
    } else {
      assert [Release, Acquire] + evals == [Release, Acquire];
      assert [Release, Acquire][..1] == [Release];
      assert [Release][..0] == [];
    }
  }

  /** The lock operations of a bare release/acquire bracket are that bracket. */
  lemma BracketLockOps()
    ensures LockOps([Release, Acquire]) == [Release, Acquire]
  {
    assert [Release, Acquire][..1] == [Release];
    assert [Release][..0] == [];
  }

  class Runtime {
    /** Whether the calling thread holds the runtime lock. */
    ghost var held: bool
    /** Every lock transition and OCaml evaluation since the thread started, in order. */
    ghost var trace: seq<Event>

    ghost predicate Valid()
      reads this
    {
      Run(true, trace) == Some(held)
    }

    /** A thread running OCaml code holds the lock and has done nothing yet. */
    constructor ()
      ensures Valid() && held && trace == []
    {
      held := true;
      trace := [];
    }

    /** caml_enter_blocking_section: give the lock to other threads. */
    method EnterBlockingSection()
      requires Valid() && held
      modifies this
      ensures Valid() && !held
      ensures trace == old(trace) + [Release]
    {
      RunSnoc(true, trace, Release);
      held := false;
      trace := trace + [Release];
    }

    /** caml_leave_blocking_section: take the lock back. */
    method LeaveBlockingSection()
      requires Valid() && !held
      modifies this
      ensures Valid() && held
      ensures trace == old(trace) + [Acquire]
    {
      RunSnoc(true, trace, Acquire);
      held := true;
      trace := trace + [Acquire];
    }

    /** caml_callback_exn: run an OCaml closure, which needs the lock. */
    method Callback(f: Closure, z: Complex)
      requires Valid() && held
      modifies this
      ensures Valid() && held
      ensures trace == old(trace) + [Evaluate(f, z)]
    {
      RunSnoc(true, trace, Evaluate(f, z));
      trace := trace + [Evaluate(f, z)];
    }
  }
}
