/**
 * The pure part of gees_stub: which select function a (SORT, SELECT) pair
 * chooses, what the chosen function answers, how the exception slot evolves
 * over the invocations of one native call, and the overall outcome of a call.
 */
module Selection {
  import opened Values
  import opened Regions

  /** The `select_function` handed to the native routine: NULL, a fixed predicate, or the OCaml bridge. */
  datatype Selector = NoSelect | Fixed(region: Region) | Custom

  /** The message of the Failure raised for a SELECT code outside 0..4. */
  const UnknownSelectMessage: string := "internal error: unknown SELECT value in gees_stub"

  /** The SELECT code of each predicate: 0..3 for the fixed regions, 4 for the OCaml callback. */
  function SelectCode(sel: Selector): (code: int)
    requires sel != NoSelect
    ensures 0 <= code <= 4
  {
    match sel
    case Fixed(LeftPlane) => 0
    case Fixed(RightPlane) => 1
    case Fixed(DiskInterior) => 2
    case Fixed(DiskExterior) => 3
    case Custom => 4
  }

  /**
   * The switch of gees_stub.  None stands for `caml_failwith`: SORT = 'S'
   * with a SELECT code that names no predicate.
   */
  function Dispatch(sort: char, select: int): (r: Option<Selector>)
    ensures sort != 'S' ==> r == Some(NoSelect)
    ensures sort == 'S' ==> (r.None? <==> !(0 <= select <= 4))
    ensures sort == 'S' && r.Some? ==> r.value != NoSelect && SelectCode(r.value) == select
    ensures r == Some(Custom) <==> sort == 'S' && select == 4
  {
    if sort != 'S' then Some(NoSelect)
    else if select == 0 then Some(Fixed(LeftPlane))
    else if select == 1 then Some(Fixed(RightPlane))
    else if select == 2 then Some(Fixed(DiskInterior))
    else if select == 3 then Some(Fixed(DiskExterior))
    else if select == 4 then Some(Custom)
    else None
  }

  /** Every predicate is reached by exactly its own code: dispatch inverts SelectCode. */
  lemma DispatchInvertsSelectCode(sel: Selector)
    requires sel != NoSelect
    ensures Dispatch('S', SelectCode(sel)) == Some(sel)
  {
  }

  /** What the chosen select function answers for one invocation. */
  predicate Verdict(sel: Selector, inv: Invocation)
  {
    match sel
    case NoSelect => false
    case Fixed(region) => InRegion(region, inv.z)
    case Custom => inv.answer == Answered(true)
  }

  /** SDIM: how many invocations the select function answered with true. */
  function CountSelected(sel: Selector, cs: seq<Invocation>): (n: nat)
    ensures n <= |cs|
    decreases |cs|
  {
    if cs == [] then 0
    else CountSelected(sel, cs[..|cs| - 1]) + if Verdict(sel, cs[|cs| - 1]) then 1 else 0
  }

  /** SDIM is 0 exactly when nothing was selected, and |cs| exactly when everything was. */
  lemma {:induction false} CountSelectedExtremes(sel: Selector, cs: seq<Invocation>)
    ensures CountSelected(sel, cs) == 0 <==> forall k :: 0 <= k < |cs| ==> !Verdict(sel, cs[k])
    ensures CountSelected(sel, cs) == |cs| <==> forall k :: 0 <= k < |cs| ==> Verdict(sel, cs[k])
    decreases |cs|
  {
    if cs != [] {
      var init := cs[..|cs| - 1];
      CountSelectedExtremes(sel, init);
      assert forall k :: 0 <= k < |init| ==> init[k] == cs[k];
    }
  }

  /** The exception slot after one invocation: an exception is stored only into an empty slot. */
  function Capture(slot: Option<Exn>, answer: CallbackResult): (s: Option<Exn>)
    ensures slot.Some? ==> s == slot
    ensures slot.None? && answer.Answered? ==> s.None?
    ensures slot.None? && answer.Raised? ==> s == Some(answer.exn)
  {
    if answer.Raised? && slot.None? then Some(answer.exn) else slot
  }

  /** The exception slot after a run of invocations, one Capture per invocation in order. */
  function CaptureAll(slot: Option<Exn>, cs: seq<Invocation>): Option<Exn>
    decreases |cs|
  {
    if cs == [] then slot
    else Capture(CaptureAll(slot, cs[..|cs| - 1]), cs[|cs| - 1].answer)
  }

  /** Reference definition: the exception of the earliest invocation that raised one. */
  function FirstRaised(cs: seq<Invocation>): Option<Exn>
    decreases |cs|
  {
    if cs == [] then None
    else if cs[0].answer.Raised? then Some(cs[0].answer.exn)
    else FirstRaised(cs[1..])
  }

  /** Once an exception is held, no later invocation replaces it. */
  lemma {:induction false} CaptureAllKeepsFirst(e: Exn, cs: seq<Invocation>)
    ensures CaptureAll(Some(e), cs) == Some(e)
    decreases |cs|
  {
    if cs != [] {
      CaptureAllKeepsFirst(e, cs[..|cs| - 1]);
    }
  }

  /** FirstRaised looks at a trailing invocation only when no earlier one raised. */
  lemma {:induction false} FirstRaisedSnoc(cs: seq<Invocation>, inv: Invocation)
    ensures FirstRaised(cs + [inv]) == if FirstRaised(cs).Some? then FirstRaised(cs) else FirstRaised([inv])
    decreases |cs|
  {
    if cs != [] {
      assert (cs + [inv])[1..] == cs[1..] + [inv];
      FirstRaisedSnoc(cs[1..], inv);
    }
  }

  /** Folding Capture over the invocations from an empty slot keeps exactly the first exception. */
  lemma {:induction false} CaptureAllIsFirstRaised(cs: seq<Invocation>)
    ensures CaptureAll(None, cs) == FirstRaised(cs)
    decreases |cs|
  {
    if cs != [] {
      var init, last := cs[..|cs| - 1], cs[|cs| - 1];
      CaptureAllIsFirstRaised(init);
      assert cs == init + [last];
      FirstRaisedSnoc(init, last);
    }
  }

  /** FirstRaised names the exception of invocation k exactly when every earlier invocation answered normally. */
  lemma {:induction false} FirstRaisedAt(cs: seq<Invocation>, k: nat)
    requires k < |cs| && cs[k].answer.Raised?
    ensures FirstRaised(cs) == Some(cs[k].answer.exn) || exists j :: 0 <= j < k && cs[j].answer.Raised?
    ensures (forall j :: 0 <= j < k ==> cs[j].answer.Answered?) ==> FirstRaised(cs) == Some(cs[k].answer.exn)
    decreases k
  {
    if k > 0 && cs[0].answer.Answered? {
      FirstRaisedAt(cs[1..], k - 1);
      if exists j :: 0 <= j < k - 1 && cs[1..][j].answer.Raised? {
        var j :| 0 <= j < k - 1 && cs[1..][j].answer.Raised?;
        assert cs[j + 1].answer.Raised?;
      }
    }
  }

  /** FirstRaised is None exactly when no invocation raised. */
  lemma {:induction false} FirstRaisedNone(cs: seq<Invocation>)
    ensures FirstRaised(cs).None? <==> forall k :: 0 <= k < |cs| ==> cs[k].answer.Answered?
    decreases |cs|
  {
    if cs != [] {
      FirstRaisedNone(cs[1..]);
      assert forall k :: 1 <= k < |cs| ==> cs[k] == cs[1..][k - 1];
    }
  }

  /** What gees_stub delivers to OCaml. */
  datatype StubResult =
    | Done(sdim: int, info: int)      // the pair (SDIM, INFO)
    | RaisedExn(exn: Exn)             // the exception captured from the callback, re-raised
    | Failed(message: string)         // caml_failwith

  /**
   * The outcome of one gees_stub call: SORT and SELECT choose the predicate,
   * `cs` are the invocations of SELECT made by the native routine, `info` is
   * the routine's status code.
   */
  function GeesOutcome(sort: char, select: int, cs: seq<Invocation>, info: int): StubResult
  {
    match Dispatch(sort, select)
    case None => Failed(UnknownSelectMessage)
    case Some(sel) =>
      if sel == Custom && FirstRaised(cs).Some? then RaisedExn(FirstRaised(cs).value)
      else Done(if sort == 'S' then CountSelected(sel, cs) else 0, info)
  }

  /** Only an unknown SELECT code under SORT = 'S' fails; every other call runs the native routine. */
  lemma GeesOutcomeFailure(sort: char, select: int, cs: seq<Invocation>, info: int)
    ensures GeesOutcome(sort, select, cs, info).Failed? <==> sort == 'S' && !(0 <= select <= 4)
    ensures GeesOutcome(sort, select, cs, info).Failed? ==> GeesOutcome(sort, select, cs, info).message == UnknownSelectMessage
  {
  }

  /** Without sorting no predicate runs: the result is (0, INFO) whatever SELECT and the invocations are. */
  lemma GeesOutcomeUnsorted(sort: char, select: int, cs: seq<Invocation>, info: int)
    requires sort != 'S'
    ensures GeesOutcome(sort, select, cs, info) == Done(0, info)
  {
  }

  /** A normal result reports the native status unchanged and at most one selection per invocation. */
  lemma GeesOutcomeDone(sort: char, select: int, cs: seq<Invocation>, info: int)
    requires GeesOutcome(sort, select, cs, info).Done?
    ensures GeesOutcome(sort, select, cs, info).info == info
    ensures 0 <= GeesOutcome(sort, select, cs, info).sdim <= |cs|
  {
  }

  /**
   * With the custom predicate, the exception re-raised is the one of the
   * first invocation that raised, whatever later invocations raise.
   */
  lemma {:induction false} GeesOutcomeFirstExceptionWins(cs: seq<Invocation>, info: int, k: nat)
    requires k < |cs| && cs[k].answer.Raised?
    requires forall j :: 0 <= j < k ==> cs[j].answer.Answered?
    ensures GeesOutcome('S', 4, cs, info) == RaisedExn(cs[k].answer.exn)
  {
    FirstRaisedAt(cs, k);
  }

  /** With the custom predicate and no exception, the result is the number of true answers. */
  lemma {:induction false} GeesOutcomeCustomAnswers(cs: seq<Invocation>, info: int)
    requires forall k :: 0 <= k < |cs| ==> cs[k].answer.Answered?
    ensures GeesOutcome('S', 4, cs, info) == Done(CountSelected(Custom, cs), info)
  {
    FirstRaisedNone(cs);
  }

  /** Two select functions that agree on every invocation select the same number of eigenvalues. */
  lemma {:induction false} CountSelectedAgree(s1: Selector, s2: Selector, cs: seq<Invocation>)
    requires forall k :: 0 <= k < |cs| ==> (Verdict(s1, cs[k]) <==> Verdict(s2, cs[k]))
    ensures CountSelected(s1, cs) == CountSelected(s2, cs)
    decreases |cs|
  {
    if cs != [] {
      var init := cs[..|cs| - 1];
      assert forall k :: 0 <= k < |init| ==> init[k] == cs[k];
      CountSelectedAgree(s1, s2, init);
    }
  }

  /**
   * A custom predicate that answers as a fixed region does gives the same
   * (SDIM, INFO) as selecting that region by its code.
   */
  lemma {:induction false} CustomMatchesFixed(region: Region, cs: seq<Invocation>, info: int)
    requires forall k :: 0 <= k < |cs| ==> cs[k].answer == Answered(InRegion(region, cs[k].z))
    ensures GeesOutcome('S', 4, cs, info) == GeesOutcome('S', SelectCode(Fixed(region)), cs, info)
  {
    FirstRaisedNone(cs);
    CountSelectedAgree(Custom, Fixed(region), cs);
    DispatchInvertsSelectCode(Fixed(region));
  }
}
