/**
 * The stubs other than gees_stub: each marshals its arguments, releases the
 * runtime lock around one opaque LAPACK/BLAS call, and takes it back.
 */
module Stubs {
  import opened RuntimeLock

  /**
   * The bracket shared by dotu, dotc, lansy, gecon, sycon, pocon, gesvd and
   * geev: `native` is the foreign routine and `args` what it is called with.
   * The lock is released exactly once and taken back exactly once.
   */
  method BlockingCall<A, R>(rt: Runtime, native: A -> R, args: A) returns (r: R)
    requires rt.Valid() && rt.held
    modifies rt
    ensures rt.Valid() && rt.held
    ensures rt.trace == old(rt.trace) + [Release, Acquire]
    ensures r == native(args)
  {
    rt.EnterBlockingSection();
    r := native(args);
    rt.LeaveBlockingSection();
  }

  /** What GEEV receives besides the matrices: the two JOB flags, N and the two eigenvector leading dimensions. */
  datatype GeevArgs = GeevArgs(jobvl: char, jobvr: char, n: int, ldvl: int, ldvr: int)

  /** LAPACK's demand on an eigenvector leading dimension of GEEV: at least 1, and at least N when vectors are computed. */
  predicate LeadingDimensionOk(job: char, ld: int, n: int)
  {
    ld >= 1 && (job == 'V' ==> ld >= n)
  }

  /**
   * The fix-up of geev_stub: an eigenvector matrix that is not referenced
   * (JOB = 'N') gets leading dimension 1; otherwise the marshalled row count
   * is passed unchanged.
   */
  function FixLeadingDimension(job: char, rows: int): (ld: int)
    ensures job != 'N' ==> ld == rows
    ensures job == 'N' ==> forall n: int :: LeadingDimensionOk(job, ld, n)
  {
    if job == 'N' then 1 else rows
  }

  /** geev_stub: fix the leading dimensions, then call GEEV inside the lock bracket and return INFO. */
  method GeevStub(rt: Runtime, native: GeevArgs -> int, jobvl: char, jobvr: char, n: int, rowsVL: int, rowsVR: int)
    returns (info: int)
    requires rt.Valid() && rt.held
    modifies rt
    ensures rt.Valid() && rt.held
    ensures rt.trace == old(rt.trace) + [Release, Acquire]
    ensures info == native(GeevArgs(jobvl, jobvr, n, FixLeadingDimension(jobvl, rowsVL), FixLeadingDimension(jobvr, rowsVR)))
  {
    var ldvl := FixLeadingDimension(jobvl, rowsVL);
    var ldvr := FixLeadingDimension(jobvr, rowsVR);
    info := BlockingCall(rt, native, GeevArgs(jobvl, jobvr, n, ldvl, ldvr));
  }
}
