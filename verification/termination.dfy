/**
 * The termination taxonomy of streamline tracking and the pure decisions the
 * tracker takes on it: the anatomical priors applied to a raw termination, the
 * rejection reason booked for an excluded direction of growth, the ordered
 * acceptance test of a finished track, and the choice of the exit point when a
 * track leaves sub-cortical grey matter.
 */
module Termination {
  import opened Wrappers

  /** The outcome of one tracking step (`term_t`); `Continue` is the only non-terminal one. */
  datatype Term =
    | Continue
    | EnterCgm
    | CalibrateFail
    | ExitImage
    | EnterCsf
    | BadSignal
    | HighCurvature
    | LengthExceed
    | TermInSgm
    | ExitSgm
    | ExitMask
    | EnterExclude
    | TraverseAllInclude

  /** Why a track is thrown away; each is a counter of the shared statistics. */
  datatype Reject =
    | EnterExcludeRegion
    | MissedIncludeRegion
    | TrackTooShort
    | TrackTooLong
    | ActPoorTermination
    | ActFailedWmRequirement

  /** The exceptions (and the failed debug assertion) of the tracker. */
  datatype Fault =
    | UndefinedTermination   // apply_priors() was handed CONTINUE
    | ActTermWithoutAct      // an ACT-only termination arrived in non-ACT tracking
    | SgmDepthOutOfRange     // the sub-cortical segment does not fit inside the track

  /** Terminations that only anatomically-constrained tracking (ACT) can produce. */
  predicate IsActOnly(t: Term) {
    t == EnterCgm || t == EnterCsf || t == ExitSgm || t == TermInSgm
  }

  /** Local numerical or model failures of the step estimator. */
  predicate IsNumericalFailure(t: Term) {
    t == CalibrateFail || t == BadSignal || t == HighCurvature
  }

  /** Terminations that always reject the track under ACT. */
  predicate AlwaysExcludedUnderAct(t: Term) {
    t == EnterCsf || t == LengthExceed || t == EnterExclude
  }

  /** The termination after the priors, and whether the track becomes excluded. */
  datatype Priors = Priors(term: Term, exclude: bool)

  /**
   * `apply_priors`: reinterpret a raw termination. `sgmDepth` and `inPathology`
   * are the ACT state of the tracker at that moment.
   */
  function ApplyPriors(act: bool, t: Term, sgmDepth: nat, inPathology: bool): (r: Result<Priors, Fault>)
    // errors: CONTINUE always, ACT-only codes without ACT
    ensures r == Failure(UndefinedTermination) <==> t == Continue
    ensures r.Failure? <==> t == Continue || (!act && IsActOnly(t))
    ensures r.Success? ==> r.value.term != Continue
    // the code is only ever rewritten to TERM_IN_SGM, from a numerical failure inside sub-cortical grey matter
    ensures r.Success? ==> (r.value.term != t <==> act && IsNumericalFailure(t) && sgmDepth > 0)
    ensures r.Success? && r.value.term != t ==> r.value.term == TermInSgm && !r.value.exclude
    // which terminations exclude the track
    ensures r.Success? && !act ==> (r.value.exclude <==> t == EnterExclude)
    ensures r.Success? && act ==>
      (r.value.exclude <==> AlwaysExcludedUnderAct(t) || (IsNumericalFailure(t) && sgmDepth == 0 && !inPathology))
    ensures t == EnterExclude ==> r == Success(Priors(EnterExclude, true))
  {
    if act then
      match t
      case Continue => Failure(UndefinedTermination)
      case EnterCgm | ExitImage | ExitMask | ExitSgm | TermInSgm | TraverseAllInclude => Success(Priors(t, false))
      case EnterCsf | LengthExceed | EnterExclude => Success(Priors(t, true))
      case CalibrateFail | BadSignal | HighCurvature =>
        if sgmDepth > 0 then Success(Priors(TermInSgm, false))
        else Success(Priors(t, !inPathology))
    else
      match t
      case Continue => Failure(UndefinedTermination)
      case EnterCgm | EnterCsf | ExitSgm | TermInSgm => Failure(ActTermWithoutAct)
      case ExitImage | ExitMask | LengthExceed | CalibrateFail | BadSignal | HighCurvature | TraverseAllInclude =>
        Success(Priors(t, false))
      case EnterExclude => Success(Priors(t, true))
  }

  /**
   * Applying the priors to their own result changes nothing (the tracker applies
   * them twice in backtracking mode: inside the growth loop and after it).
   */
  lemma PriorsSettle(act: bool, t: Term, sgmDepth: nat, inPathology: bool)
    requires ApplyPriors(act, t, sgmDepth, inPathology).Success?
    ensures var p := ApplyPriors(act, t, sgmDepth, inPathology).value;
      ApplyPriors(act, p.term, sgmDepth, inPathology) == Success(p)
  {
  }

  /**
   * The rejection booked when one direction of growth ends excluded, or None
   * for the terminations where the source reports an internal error instead.
   */
  function RejectionFor(t: Term): (r: Option<Reject>)
    ensures r == Some(ActPoorTermination) <==> IsNumericalFailure(t) || t == EnterCsf
    ensures r == Some(TrackTooLong) <==> t == LengthExceed
    ensures r == Some(EnterExcludeRegion) <==> t == EnterExclude
    ensures r.None? <==> !(IsNumericalFailure(t) || AlwaysExcludedUnderAct(t))
  {
    match t
    case CalibrateFail | EnterCsf | BadSignal | HighCurvature => Some(ActPoorTermination)
    case LengthExceed => Some(TrackTooLong)
    case EnterExclude => Some(EnterExcludeRegion)
    case _ => None
  }

  /**
   * Every termination the priors exclude has a rejection reason, so the
   * "excluded but termination is good" error can only come from an exclusion
   * that did not come from the priors.
   */
  lemma ExclusionIsClassified(act: bool, t: Term, sgmDepth: nat, inPathology: bool)
    requires ApplyPriors(act, t, sgmDepth, inPathology).Success?
    requires ApplyPriors(act, t, sgmDepth, inPathology).value.exclude
    ensures RejectionFor(ApplyPriors(act, t, sgmDepth, inPathology).value.term).Some?
  {
  }

  /** What the acceptance test decides about a finished track. */
  datatype Verdict =
    | Accepted
    | AlreadyExcluded             // rejected during growth; already counted there
    | Rejected(reason: Reject)    // rejected now, and counted under `reason`

  /**
   * `track_rejected`, as a decision: excluded first, then too short, then (ACT
   * only) the white-matter requirement, then a missed include region.
   */
  function AcceptanceTest(excluded: bool, size: nat, minNumPoints: nat, act: bool,
                          wmOk: bool, allIncluded: bool): (v: Verdict)
    ensures v == Accepted <==> !excluded && size >= minNumPoints && (act ==> wmOk) && allIncluded
    ensures v == AlreadyExcluded <==> excluded
    ensures v == Rejected(TrackTooShort) <==> !excluded && size < minNumPoints
    ensures v == Rejected(ActFailedWmRequirement) <==> !excluded && size >= minNumPoints && act && !wmOk
    ensures v == Rejected(MissedIncludeRegion) <==>
      !excluded && size >= minNumPoints && (act ==> wmOk) && !allIncluded
    ensures v.Rejected? ==> v.reason in {TrackTooShort, ActFailedWmRequirement, MissedIncludeRegion}
  {
    if excluded then AlreadyExcluded
    else if size < minNumPoints then Rejected(TrackTooShort)
    else if act && !wmOk then Rejected(ActFailedWmRequirement)
    else if !allIncluded then Rejected(MissedIncludeRegion)
    else Accepted
  }

  /**
   * The index the exit-point scan of `truncate_exit_sgm` ends on: it starts from
   * an infinite minimum and moves only on a strictly smaller value.
   */
  function FirstArgMin(v: seq<real>): (k: nat)
    requires |v| > 0
    ensures k < |v|
  {
    if |v| == 1 then 0
    else
      var k := FirstArgMin(v[..|v| - 1]);
      if v[|v| - 1] < v[k] then |v| - 1 else k
  }

  /** The scan finds the first position of the minimum. */
  lemma {:induction false} FirstArgMinIsFirstMinimum(v: seq<real>)
    requires |v| > 0
    ensures forall j :: 0 <= j < |v| ==> v[FirstArgMin(v)] <= v[j]
    ensures forall j :: 0 <= j < FirstArgMin(v) ==> v[FirstArgMin(v)] < v[j]
  {
    if |v| > 1 {
      var w := v[..|v| - 1];
      FirstArgMinIsFirstMinimum(w);
      assert forall j :: 0 <= j < |w| ==> w[j] == v[j];
    }
  }

  /** The first position of the minimum is the only position that is both. */
  lemma FirstArgMinIsUnique(v: seq<real>, b: nat)
    requires b < |v|
    requires forall j :: 0 <= j < |v| ==> v[b] <= v[j]
    requires forall j :: 0 <= j < b ==> v[b] < v[j]
    ensures b == FirstArgMin(v)
  {
    FirstArgMinIsFirstMinimum(v);
  }
}
