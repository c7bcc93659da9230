# Lacaml GEES selection bridge, modelled in Dafny

This project models the complex (C/Z) stub file of Lacaml, the OCaml binding to
BLAS and LAPACK, `lib/impl_CZ_c.c`. Almost every stub in that file marshals its
arguments, releases the OCaml runtime lock (`caml_enter_blocking_section`),
calls one LAPACK routine and takes the lock back (`caml_leave_blocking_section`).
The interesting one is `gees_stub`, the Schur factorisation. Its SELECT argument
can be one of four fixed native predicates or an OCaml closure. A native routine
can only call a bare function pointer, so the closure is passed through three
process-wide variables:

- the callback slot `select_ocaml_callback`;
- the exception slot `select_ocaml_callback_exn`;
- the flag `select_ocaml_locked_runtime`.

The model has these parts:

- `values.dfy` (module `Values`): complex candidates, closures, exceptions, and
  what one closure invocation returns. Closures and exceptions are known only by
  identity.
- `regions.dfy` (module `Regions`): the four fixed predicates, over exact reals.
- `runtime_lock.dfy` (module `RuntimeLock`): the runtime lock as a ghost
  boolean, plus a ghost trace of every release, acquire and OCaml evaluation.
  `Run` is a state machine over that trace. It yields `None` for a double
  release, a double acquire, or OCaml code run without the lock. The class
  `Runtime` keeps `Run(true, trace) == Some(held)` as its invariant. So every
  method that keeps `Valid()` is proved free of double release and double
  acquire.
- `selection.dfy` (module `Selection`): the pure part of `gees_stub`:
  - the SELECT dispatch;
  - what the chosen predicate answers;
  - the evolution of the exception slot ("first exception wins");
  - `GeesOutcome`, the reference result of a whole call.
- `gees.dfy` (module `Gees`): the class `SelectRegistry`, holding the three
  variables, with one method per step:
  - install;
  - the callback `select_ocaml_exec_callback`;
  - the native routine as a loop over its SELECT invocations;
  - the exit cleanup;
  - `gees_stub` itself.

  `GeesStub` is proved to return `GeesOutcome` and to leave both slots empty,
  the flag clear and the lock held. Its lock trace is proved to be `[]` when the
  stub fails, and `[Release, Acquire]` followed by the closure evaluations
  otherwise.
- `stubs.dfy` (module `Stubs`): the lock bracket that all other stubs share,
  and the leading-dimension fix-up of `geev_stub`.

The native routine and the OCaml closure are external. Each invocation of SELECT
is an input `Invocation(z, answer)`: `z` is the candidate the routine presents,
and `answer` is what the closure returns (`Answered(b)`) or raises (`Raised(e)`)
if it is the closure that runs. INFO is an input too. The routine calls SELECT
once per invocation, in order, only when SORT is `'S'`. The model takes the
routine to write SDIM on every call: the number of true answers, or 0 without
sorting.

### How the bridge behaves

- Lock after a callback. The callback takes the lock on the first invocation
  only (`lib/impl_CZ_c.c:408-411`) and never releases it. The rest of the
  native call then runs with the lock held. The exit path compensates through
  the flag (`lib/impl_CZ_c.c:526-528`). `ExecCallback`, `NativeGees` and
  `StubTrace` state exactly this. In a custom call the trace is
  `[Release, Acquire]` plus one evaluation per invocation, whether or not any
  callback fired.
- Evaluation after an exception. The closure is evaluated on every invocation
  (`lib/impl_CZ_c.c:417`), also after an exception has been stored. Only the
  first exception is kept, and each exception is answered with 0.
  `ExecCallback` logs an evaluation on every invocation.
- Unknown SELECT code. With SORT = `'S'`, a SELECT outside 0..4 raises the
  OCaml exception `Failure` through `caml_failwith` (`lib/impl_CZ_c.c:508`),
  before the lock is released and before any variable changes. `GeesStub`
  returns `Failed(message)` with an unchanged state and an empty lock trace.

## Model

| member | source | states |
|---|---|---|
| `Regions.HalfPlanesPartition` | lib/impl_CZ_c.c:367-375 | left selects re < 0 and right selects re > 0, so never both; neither selects exactly when re = 0 |
| `Regions.DisksPartition` | lib/impl_CZ_c.c:377-389 | interior (re²+im² < 1) and exterior (re²+im² > 1) never both hold; neither holds exactly on the unit circle |
| `Selection.SelectCode` | lib/impl_CZ_c.c:482-497 | each of the five predicates has a SELECT code in 0..4 |
| `Selection.Dispatch` | lib/impl_CZ_c.c:478-509 | SORT ≠ 'S' chooses no predicate; with SORT = 'S' the call fails iff SELECT is outside 0..4; a chosen predicate's code is SELECT; the custom callback is chosen iff SORT = 'S' and SELECT = 4 |
| `Selection.DispatchInvertsSelectCode` | lib/impl_CZ_c.c:482-497 | dispatching a predicate's own code with SORT = 'S' gives back that predicate, so codes 0..4 map one-to-one onto left/right/interior/exterior/custom |
| `Selection.CountSelected` | lib/impl_CZ_c.c:514-524 | SDIM is at most the number of invocations |
| `Selection.CountSelectedExtremes` | lib/impl_CZ_c.c:514-524 | SDIM is 0 iff no invocation was selected, and equal to the number of invocations iff all were |
| `Selection.Capture` | lib/impl_CZ_c.c:419-427 | a held exception is never replaced; a normal answer leaves an empty slot empty; an exception fills an empty slot |
| `Selection.CaptureAllKeepsFirst` | lib/impl_CZ_c.c:422-425 | once the exception slot holds e, no sequence of later invocations changes it |
| `Selection.CaptureAllIsFirstRaised` | lib/impl_CZ_c.c:417-427 | from an empty slot, the slot after all invocations is the exception of the earliest invocation that raised (reference definition `FirstRaised`) |
| `Selection.FirstRaisedAt` | lib/impl_CZ_c.c:422-425 | if invocation k raised and no earlier one did, the kept exception is invocation k's; otherwise some earlier invocation raised |
| `Selection.FirstRaisedNone` | lib/impl_CZ_c.c:419 | no exception is kept iff every invocation answered normally |
| `Selection.GeesOutcomeFailure` | lib/impl_CZ_c.c:481-509 | a call fails iff SORT = 'S' and SELECT is outside 0..4, and then with the message of `caml_failwith` |
| `Selection.GeesOutcomeUnsorted` | lib/impl_CZ_c.c:478-481 | with SORT ≠ 'S' the result is (0, INFO), whatever SELECT and the closure do |
| `Selection.GeesOutcomeDone` | lib/impl_CZ_c.c:539-541 | a normal result carries INFO unchanged and an SDIM between 0 and the number of invocations |
| `Selection.GeesOutcomeFirstExceptionWins` | lib/impl_CZ_c.c:530-535 | with the custom predicate, if invocation k is the first to raise, the call raises exactly k's exception, whatever later invocations raise |
| `Selection.GeesOutcomeCustomAnswers` | lib/impl_CZ_c.c:419 | with the custom predicate and no exception, the result is (number of true answers, INFO) |
| `Selection.CountSelectedAgree` | lib/impl_CZ_c.c:514-524 | two select functions that agree on every invocation give the same SDIM |
| `Selection.CustomMatchesFixed` | lib/impl_CZ_c.c:482-497 | a closure that answers as a fixed region does, on every invocation, gives the same result as that region's code |
| `RuntimeLock.RunAlternates` | lib/impl_CZ_c.c:66-72 | in every legal lock trace, releases and acquires alternate starting with a release, so there is no double release or double acquire; the lock is held at the end iff they balance |
| `RuntimeLock.BracketRestoresLock` | lib/impl_CZ_c.c:512-537 | a release, an acquire, then any number of closure evaluations is legal and ends with the lock held |
| `RuntimeLock.Runtime.EnterBlockingSection` | lib/impl_CZ_c.c:66 | requires the lock held, releases it, records one release |
| `RuntimeLock.Runtime.LeaveBlockingSection` | lib/impl_CZ_c.c:72 | requires the lock released, takes it, records one acquire |
| `RuntimeLock.Runtime.Callback` | lib/impl_CZ_c.c:417 | an OCaml closure runs only with the lock held, and the run is recorded |
| `Gees.StubTraceBalanced` | lib/impl_CZ_c.c:512-537 | every gees_stub lock trace is legal from the held state and ends held; its lock operations are none (failure) or exactly one release then one acquire, however many callbacks fire |
| `Gees.SelectRegistry.constructor` | lib/impl_CZ_c.c:393-395 | the variables start out idle: both slots empty, flag false |
| `Gees.SelectRegistry.InstallCallback` | lib/impl_CZ_c.c:504-505 | after observing the slot empty, the slot holds exactly SELECT_FUN; the exception slot and flag are unchanged |
| `Gees.SelectRegistry.ExecCallback` | lib/impl_CZ_c.c:404-428 | takes the lock only if the flag is false, then sets the flag; never releases; always evaluates the installed closure; answers its boolean, or false on an exception, which is stored only into an empty slot |
| `Gees.SelectFixed` | lib/impl_CZ_c.c:367-389 | with a fixed predicate, the native routine's SDIM is the number of candidates in that region |
| `Gees.SelectRegistry.SelectCustom` | lib/impl_CZ_c.c:404-428 | with the OCaml bridge, SDIM is the number of true answers; the flag (and the lock) is set iff any callback fired; the exception slot is the fold of first-wins captures; the trace gains an acquire if any invocation happened, then one evaluation per invocation |
| `Gees.SelectRegistry.NativeGees` | lib/impl_CZ_c.c:512-524 | SDIM counts the selected invocations when SORT = 'S' (0 otherwise) and INFO passes through; the custom path is SelectCustom, and any other path changes no state |
| `Gees.CustomCallTrace` | lib/impl_CZ_c.c:512-528 | release, native call and exit of a custom call add up to one release, one acquire, then the evaluations, whether or not a callback fired |
| `Gees.SelectRegistry.ExitPath` | lib/impl_CZ_c.c:526-543 | on the custom path: takes the lock back only if no callback did, clears the flag, empties the callback slot unconditionally, then clears and re-raises a captured exception; otherwise takes the lock back; ends idle; the result is (SDIM, INFO) unless an exception is re-raised |
| `Gees.SelectRegistry.GeesStub` | lib/impl_CZ_c.c:446-544 | from idle to idle on every exit (lock held, both slots empty, flag false); the result is `GeesOutcome` (failure, first exception re-raised, or (SDIM, INFO)); the lock trace is `StubTrace` |
| `Stubs.BlockingCall` | lib/impl_CZ_c.c:66-72 | a non-GEES stub releases the lock once, calls the native routine on its arguments, takes the lock once, and returns the routine's result with the lock state as on entry |
| `Stubs.FixLeadingDimension` | lib/impl_CZ_c.c:667-671 | JOB = 'N' gives a leading dimension that LAPACK accepts for any N; any other JOB keeps the marshalled row count |
| `Stubs.GeevStub` | lib/impl_CZ_c.c:642-687 | GEEV is called, inside one release/acquire bracket, with the JOB flags, N and the fixed-up leading dimensions, and its INFO is returned |

## Left out

- The 1 ms polling wait for the callback slot (`lib/impl_CZ_c.c:498-503`) and
  everything about other threads. `GeesStub` requires the idle state and
  restores it on every exit, so the slot is empty when it installs, and the
  wait loop would not run. The mutual exclusion between threads is not
  modelled.
- Re-entry from the closure. The model treats an evaluation of the closure as
  atomic: it calls no stub. In the code, a closure that calls `gees_stub` on
  the same thread while the outer call holds the callback slot would, with
  SELECT = 4, spin forever in the wait loop (`lib/impl_CZ_c.c:498-503`),
  because only the outer call empties the slot (`lib/impl_CZ_c.c:529`). With a
  fixed SELECT the nested call would run in a non-idle state, which
  `GeesStub` does not admit.
- GeesOutcome: assumes that GEES always writes SDIM. The stub never
  initialises its local `SDIM` (`lib/impl_CZ_c.c:468`) and returns it on every
  normal exit (`lib/impl_CZ_c.c:540`). GEES leaves it unwritten on a
  workspace query (LWORK = -1) and on an argument error, so the real result
  then carries an unset SDIM, whereas the model gives the count (0 when
  nothing was selected). The uninitialised local is not modelled.
- The numerical routines `dotu`, `dotc`, `lansy`, `gecon`, `sycon`, `pocon`,
  `gees`, `gesvd` and `geev`. They are opaque LAPACK/BLAS code.
  - GEES is reduced to its SELECT invocations, given as input, and an input INFO.
  - The other routines are a function parameter of `BlockingCall`. The seven
    plain stubs (`dotu_stub` … `gesvd_stub`) differ only in their arguments,
    so they are not written out one by one.
- LAPACK compares SORT case-insensitively. The model's native routine sorts iff
  SORT is exactly `'S'`, as `gees_stub` tests it. So with SORT = `'s'` the
  stub passes a null select function (`lib/impl_CZ_c.c:478`,
  `lib/impl_CZ_c.c:516`) to a routine that treats `'s'` as sorting and would
  call SELECT. The model does not capture that call.
- Marshalling: `GET_INT`, `GET_DOUBLE`, `VEC_PARAMS`, `MAT_PARAMS`,
  `RVEC_PARAMS1`, `INT_VEC_PARAMS`. `lacaml_macros.h` is not part of this model.
- OCaml runtime and GC machinery:
  - `init_gees` and its global-root registration;
  - `caml_alloc_small`, `Store_double_field`, `caml_copy_double`, `copy_two_doubles`;
  - `CAMLparam`/`CAMLreturn`.
- Floating point. The predicates and the `REAL` to `double` conversion
  (`lib/impl_CZ_c.c:414-415`) use exact reals.
- `Bool_val` yields an integer in C. It is modelled as a boolean.
- The `*_stub_bc` bytecode wrappers. They only forward `argv` entries.
