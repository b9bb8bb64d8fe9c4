/**
 * The per-streamline tracker of `Exec`: seed acquisition, growth in one
 * direction with the ACT backtracking retry, bidirectional assembly, the
 * acceptance test and the crop at the sub-cortical grey matter exit.
 *
 * The step estimator and everything else the tracker asks of the tracking
 * method, the regions of interest and the seed source is an `Oracle`: a value
 * of functions, so that the tracker's own control flow is what is verified.
 * The shared rejection and termination counters are ghost multisets.
 */
module Tracking {
  import opened Wrappers
  import opened Termination

  /** A position in scanner space; its coordinates play no part in the control flow. */
  type Point(==)

  /** One answer of the step estimator: the termination code and the new position. */
  datatype Step = Step(term: Term, pos: Point)

  /** One answer of the ACT structural check: its code and the new ACT state. */
  datatype Tissue = Tissue(term: Term, sgmDepth: nat, inPathology: bool)

  /** The read-only configuration every tracker shares. */
  datatype Shared = Shared(
    act: bool,                // anatomically-constrained tracking
    backtrack: bool,          // ACT backtracking enabled
    unidirectional: bool,
    stopOnAllInclude: bool,
    hasMask: bool,            // a tracking mask was given
    numInclude: nat,          // number of include regions
    minNumPoints: nat,
    maxNumPoints: nat,
    seedsFinite: bool)        // the seed source produces a bounded number of seeds

  /** Everything the tracker asks of collaborators it does not own. */
  datatype Oracle = Oracle(
    next: nat -> Step,                         // the k-th call of the step estimator
    checkStructural: (Point, nat) -> Tissue,   // ACT tissue check at a position, given the sgm depth
    inMask: Point -> bool,
    inExclude: Point -> bool,
    includeHits: Point -> set<nat>,            // the include regions containing a position
    addToTck: Term -> bool,                    // the table `term_add_to_tck`
    truncate: (nat, nat, nat) -> nat,          // `truncate_track`: (length, revert step, seed index) to new length
    metric: (Point, Point) -> real,            // `get_metric` at a point, heading from its predecessor
    seeds: nat -> Option<Point>,               // the k-th call of the seed source
    seedOk: Point -> bool,                     // `check_seed() && init()`
    seedIsUnidirectional: Point -> bool,
    wmRequirement: seq<Point> -> bool)         // the ACT white-matter integral test
  {
    /**
     * What the tracker relies on: a continuing step is recorded, and
     * backtracking shortens the track by at least the revert step, or down to
     * the seed, and never below the seed.
     */
    ghost predicate Sound() {
      && addToTck(Continue)
      && forall len: nat, k: nat, s: nat {:trigger truncate(len, k, s)} :: s < len ==>
           s + 1 <= truncate(len, k, s) <= len && (truncate(len, k, s) == s + 1 || truncate(len, k, s) + k <= len)
    }
  }

  /** The number of attempts at finding a valid seed from an unbounded seed source. */
  const MaxNumSeedAttempts: nat := 100000

  /** Set the bits of the include regions that `hits` names. */
  function Mark(bits: seq<bool>, hits: set<nat>): seq<bool> {
    seq(|bits|, i requires 0 <= i < |bits| => bits[i] || i in hits)
  }

  /** Every include region has been traversed. */
  ghost predicate AllSet(bits: seq<bool>) {
    forall i :: 0 <= i < |bits| ==> bits[i]
  }

  /** The sequence read back to front. */
  function Reversed<T>(s: seq<T>): (r: seq<T>)
    ensures |r| == |s| && forall i :: 0 <= i < |s| ==> r[i] == s[|s| - 1 - i]
  {
    seq(|s|, i requires 0 <= i < |s| => s[|s| - 1 - i])
  }

  /** The bits of the include regions after every point of `tck` has been tested, in order. */
  function MarkAlong(bits: seq<bool>, tck: seq<Point>, hits: Point -> set<nat>): (r: seq<bool>)
    ensures |r| == |bits|
    decreases |tck|
  {
    if tck == [] then bits else Mark(MarkAlong(bits, tck[..|tck| - 1], hits), hits(tck[|tck| - 1]))
  }

  /** An include region is marked after a track exactly when it was before, or some point of the track lies in it. */
  lemma {:induction false} MarkAlongMarksVisited(bits: seq<bool>, tck: seq<Point>, hits: Point -> set<nat>)
    ensures forall i :: 0 <= i < |bits| ==>
      (MarkAlong(bits, tck, hits)[i] <==> bits[i] || exists k :: 0 <= k < |tck| && i in hits(tck[k]))
    decreases |tck|
  {
    if tck != [] {
      var init := tck[..|tck| - 1];
      MarkAlongMarksVisited(bits, init, hits);
      forall i | 0 <= i < |bits|
        ensures MarkAlong(bits, tck, hits)[i] <==> bits[i] || exists k :: 0 <= k < |tck| && i in hits(tck[k])
      {
        if i in hits(tck[|tck| - 1]) {
          assert 0 <= |tck| - 1 < |tck| && i in hits(tck[|tck| - 1]);
        } else if exists k :: 0 <= k < |tck| && i in hits(tck[k]) {
          var k :| 0 <= k < |tck| && i in hits(tck[k]);
          assert k < |tck| - 1 && tck[k] == init[k];
        }
        if exists k :: 0 <= k < |init| && i in hits(init[k]) {
          var k :| 0 <= k < |init| && i in hits(init[k]);
          assert tck[k] == init[k];
        }
      }
    }
  }

  /** The metric along the trailing segment of `tck` that starts at `start`. */
  function Metrics(tck: seq<Point>, start: nat, metric: (Point, Point) -> real): (v: seq<real>)
    requires 1 <= start <= |tck|
    ensures |v| == |tck| - start
  {
    seq(|tck| - start, j requires 0 <= j < |tck| - start => metric(tck[start + j - 1], tck[start + j]))
  }

  /**
   * The track cropped at its sub-cortical exit: after the point among its
   * last `depth` points where the metric is smallest, the first on a tie.
   */
  function SgmExitCrop(tck: seq<Point>, depth: nat, metric: (Point, Point) -> real): (c: seq<Point>)
    requires 1 <= depth < |tck|
    ensures |tck| - depth < |c| <= |tck| && c == tck[..|c|]
  {
    var start := |tck| - depth;
    tck[..start + FirstArgMin(Metrics(tck, start, metric)) + 1]
  }

  /**
   * The crop keeps the exit point of least metric: no point of the trailing
   * segment has a smaller metric, and every earlier point of it a larger one.
   */
  lemma SgmExitCropIsBestExit(tck: seq<Point>, depth: nat, metric: (Point, Point) -> real)
    requires 1 <= depth < |tck|
    ensures var k := |SgmExitCrop(tck, depth, metric)| - 1;
      && (forall j :: |tck| - depth <= j < |tck| ==> metric(tck[k - 1], tck[k]) <= metric(tck[j - 1], tck[j]))
      && (forall j :: |tck| - depth <= j < k ==> metric(tck[k - 1], tck[k]) < metric(tck[j - 1], tck[j]))
  {
    var start := |tck| - depth;
    var v := Metrics(tck, start, metric);
    var k := start + FirstArgMin(v);
    assert |SgmExitCrop(tck, depth, metric)| - 1 == k;
    FirstArgMinIsFirstMinimum(v);
    assert v[k - start] == metric(tck[k - 1], tck[k]);
    forall j | start <= j < |tck|
      ensures metric(tck[k - 1], tck[k]) <= metric(tck[j - 1], tck[j])
      ensures j < k ==> metric(tck[k - 1], tck[k]) < metric(tck[j - 1], tck[j])
    {
      assert v[j - start] == metric(tck[j - 1], tck[j]);
    }
  }

  /**
   * The scan of `truncate_exit_sgm` over the last `depth` points: the
   * position of the first least metric, and the last point visited, which is
   * where the tracking method is left.
   */
  method ExitScan(track: seq<Point>, depth: nat, metric: (Point, Point) -> real) returns (best: nat, last: Point)
    requires 1 <= depth < |track|
    ensures best < |track| && track[..best + 1] == SgmExitCrop(track, depth, metric)
    ensures last == track[|track| - 1]
  {
    var start := |track| - depth;
    var n := |track|;
    ghost var values := Metrics(track, start, metric);
    best := n - 1;
    var minValue: Option<real> := None;   // an infinite minimum
    var i := start;
    last := track[i];
    while i != n
      invariant start <= i <= n
      invariant i == start ==> minValue == None && best == n - 1
      invariant i > start ==> start <= best < i && minValue == Some(values[best - start]) && last == track[i - 1]
      invariant forall j :: 0 <= j < i - start ==> values[best - start] <= values[j]
      invariant i > start ==> forall j :: 0 <= j < best - start ==> values[best - start] < values[j]
    {
      last := track[i];
      var value := metric(track[i - 1], track[i]);
      assert value == values[i - start];
      if minValue.None? || value < minValue.value {
        minValue, best := Some(value), i;
      }
      i := i + 1;
    }
    FirstArgMinIsUnique(values, best - start);
    assert best == start + FirstArgMin(values);
  }

  /** The seed `gen_track` starts from: none left, one that failed the seed checks, or a usable one. */
  datatype SeedDraw = Exhausted | Refused | Drawn(p: Point)

  function Max(a: nat, b: nat): nat {
    if a < b then b else a
  }

  /** What the bounded seed search of an unbounded seed source ends with. */
  datatype Search = Search(pos: Option<Point>, passed: bool, calls: nat)

  /**
   * The seed search: up to `attempts` draws from the seed source, starting
   * with its `from`-th call. A drawn seed becomes the tracker's position; the
   * search stops at the first one that passes the seed checks.
   */
  function SeedSearch(seeds: nat -> Option<Point>, seedOk: Point -> bool, from: nat, attempts: nat,
                      pos: Option<Point>): (s: Search)
    ensures s.passed ==> s.pos.Some? && seedOk(s.pos.value)
    ensures pos.Some? ==> s.pos.Some?
    decreases attempts
  {
    if attempts == 0 then Search(pos, false, from)
    else
      match seeds(from)
      case None => SeedSearch(seeds, seedOk, from + 1, attempts - 1, pos)
      case Some(p) =>
        if seedOk(p) then Search(Some(p), true, from + 1)
        else SeedSearch(seeds, seedOk, from + 1, attempts - 1, Some(p))
  }

  /**
   * The search stops on the first draw of its window that passes the seed
   * checks, and uses up every attempt when none does; its position is the old
   * one or a seed it drew.
   */
  lemma {:induction false} SearchStopsOnFirstPass(seeds: nat -> Option<Point>, seedOk: Point -> bool, from: nat,
                                                  attempts: nat, pos: Option<Point>)
    ensures var s := SeedSearch(seeds, seedOk, from, attempts, pos);
      && from <= s.calls <= from + attempts
      && (s.passed ==> from < s.calls && s.pos == seeds(s.calls - 1))
      && (forall k :: from <= k < s.calls && !(s.passed && k == s.calls - 1) ==>
            seeds(k).None? || !seedOk(seeds(k).value))
      && (!s.passed ==> s.calls == from + attempts)
      && (s.passed <==> exists k :: from <= k < from + attempts && seeds(k).Some? && seedOk(seeds(k).value))
      && (s.pos == pos || exists k :: from <= k < s.calls && seeds(k) == s.pos)
    decreases attempts
  {
    if attempts > 0 {
      match seeds(from)
      case None =>
        SearchStopsOnFirstPass(seeds, seedOk, from + 1, attempts - 1, pos);
      case Some(p) =>
        if !seedOk(p) {
          SearchStopsOnFirstPass(seeds, seedOk, from + 1, attempts - 1, Some(p));
        }
    }
  }

  /**
   * A source that always draws a seed the checks refuse ends the search on
   * that seed, with a valid position although no seed passed. The model keeps
   * a refused seed as the position; the seed checks cannot move it.
   */
  lemma {:induction false} SearchEndsOnRefusedSeed(p: Point, seeds: nat -> Option<Point>, seedOk: Point -> bool,
                                                   from: nat, attempts: nat, pos: Option<Point>)
    requires attempts > 0
    requires forall k :: from <= k < from + attempts ==> seeds(k) == Some(p)
    requires !seedOk(p)
    ensures SeedSearch(seeds, seedOk, from, attempts, pos) == Search(Some(p), false, from + attempts)
    decreases attempts
  {
    if attempts > 1 {
      SearchEndsOnRefusedSeed(p, seeds, seedOk, from + 1, attempts - 1, Some(p));
    }
  }

  /** A track under construction, with the position of its seed point. */
  class GeneratedTrack {
    var points: seq<Point>
    var seedIndex: nat

    constructor ()
      ensures points == [] && seedIndex == 0
    {
      points, seedIndex := [], 0;
    }

    /** Empty the track; the seed index returns to the start. */
    method Clear()
      modifies this
      ensures points == [] && seedIndex == 0
    {
      points, seedIndex := [], 0;
    }

    /** Reverse the track; the seed index follows its point. */
    method Reverse()
      requires seedIndex < |points|
      modifies this
      ensures points == Reversed(old(points)) && seedIndex == |points| - 1 - old(seedIndex)
      ensures seedIndex < |points| && points[seedIndex] == old(points)[old(seedIndex)]
    {
      points, seedIndex := Reversed(points), |points| - 1 - seedIndex;
    }
  }

  class Exec {
    const S: Shared
    const M: Oracle

    var trackExcluded: bool
    var trackIncluded: seq<bool>
    var pos: Option<Point>        // the tracking method's position; None until one is valid
    var sgmDepth: nat             // ACT: steps spent in sub-cortical grey matter
    var inPathology: bool         // ACT: the current position is in declared pathology
    var calls: nat                // calls of the step estimator so far
    var seedCalls: nat            // calls of the seed source so far

    ghost var rejections: multiset<Reject>
    ghost var terminations: multiset<Term>
    ghost var log: seq<Term>      // every value `iterate` returned, in order

    ghost predicate Valid()
      reads this
    {
      |trackIncluded| == S.numInclude && M.Sound()
    }

    constructor (shared: Shared, oracle: Oracle)
      requires oracle.Sound()
      ensures Valid() && S == shared && M == oracle
      ensures !trackExcluded && trackIncluded == seq(shared.numInclude, _ => false)
      ensures pos == None && calls == 0 && seedCalls == 0
      ensures rejections == multiset{} && terminations == multiset{} && log == []
    {
      S, M := shared, oracle;
      trackExcluded := false;
      trackIncluded := seq(shared.numInclude, _ => false);
      pos, sgmDepth, inPathology := None, 0, false;
      calls, seedCalls := 0, 0;
      rejections, terminations, log := multiset{}, multiset{}, [];
    }

    /** `traversed_all_include_regions`. */
    method TraversedAllIncludeRegions() returns (all: bool)
      ensures all <==> AllSet(trackIncluded)
    {
      var n := 0;
      while n < |trackIncluded|
        invariant 0 <= n <= |trackIncluded|
        invariant forall i :: 0 <= i < n ==> trackIncluded[i]
      {
        if !trackIncluded[n] {
          return false;
        }
        n := n + 1;
      }
      return true;
    }

    /** `satisfy_wm_requirement`: skipped for the seed test (two points at most). */
    predicate SatisfyWmRequirement(tck: seq<Point>): (ok: bool)
      ensures S.maxNumPoints == 2 ==> ok
      ensures S.maxNumPoints != 2 ==> (ok <==> M.wmRequirement(tck))
    {
      S.maxNumPoints == 2 || M.wmRequirement(tck)
    }

    /**
     * The checks `iterate` makes at the new position `p` of a continuing step:
     * the ACT structural check, the mask, the exclude regions, and then the
     * include regions, in that order.
     */
    method Inspect(p: Point) returns (t: Term)
      requires Valid()
      modifies this`sgmDepth, this`inPathology, this`trackIncluded
      ensures Valid()
      ensures t == Continue ==>
        && (S.act ==> M.checkStructural(p, old(sgmDepth)).term == Continue)
        && (S.hasMask ==> M.inMask(p))
        && !M.inExclude(p)
        && !(S.stopOnAllInclude && AllSet(trackIncluded))
      ensures (S.act ==> M.checkStructural(p, old(sgmDepth)).term == Continue) ==>
        (t == ExitMask <==> S.hasMask && !M.inMask(p)) &&
        (t == EnterExclude <==> (S.hasMask ==> M.inMask(p)) && M.inExclude(p))
      ensures
        if && (S.act ==> M.checkStructural(p, old(sgmDepth)).term == Continue)
           && (S.hasMask ==> M.inMask(p)) && !M.inExclude(p)
        then
          && trackIncluded == (if S.act && S.backtrack then old(trackIncluded) else Mark(old(trackIncluded), M.includeHits(p)))
          && (t == TraverseAllInclude <==> S.stopOnAllInclude && AllSet(trackIncluded))
          && (t == Continue <==> !(S.stopOnAllInclude && AllSet(trackIncluded)))
        else
          trackIncluded == old(trackIncluded)
      ensures !S.act ==> sgmDepth == old(sgmDepth)
    {
      var structural := Continue;
      if S.act {
        var tissue := M.checkStructural(p, sgmDepth);
        sgmDepth, inPathology := tissue.sgmDepth, tissue.inPathology;
        structural := tissue.term;
      }
      if structural != Continue {
        t := structural;
      } else if S.hasMask && !M.inMask(p) {
        t := ExitMask;
      } else if M.inExclude(p) {
        t := EnterExclude;
      } else {
        if !(S.act && S.backtrack) {
          trackIncluded := Mark(trackIncluded, M.includeHits(p));
        }
        var all := TraversedAllIncludeRegions();
        t := if S.stopOnAllInclude && all then TraverseAllInclude else Continue;
      }
    }

    /** `iterate`: one step, then the structural, mask, exclude and include checks in that order. */
    method Iterate() returns (t: Term)
      requires Valid()
      modifies this`pos, this`sgmDepth, this`inPathology, this`calls, this`trackIncluded, this`log
      ensures Valid()
      ensures calls == old(calls) + 1 && pos == Some(M.next(old(calls)).pos)
      ensures log == old(log) + [t]
      // a failing step estimator ends the step, inside sub-cortical grey matter as TERM_IN_SGM
      ensures var step := M.next(old(calls));
        step.term != Continue ==>
          t == (if S.act && old(sgmDepth) > 0 then TermInSgm else step.term) &&
          trackIncluded == old(trackIncluded) && sgmDepth == old(sgmDepth)
      // a step is continued only when every check passes
      ensures var p := M.next(old(calls)).pos;
        t == Continue ==>
          && M.next(old(calls)).term == Continue
          && (S.act ==> M.checkStructural(p, old(sgmDepth)).term == Continue)
          && (S.hasMask ==> M.inMask(p))
          && !M.inExclude(p)
          && !(S.stopOnAllInclude && AllSet(trackIncluded))
      // past the structural check, the mask, then the exclude regions, then the include regions
      ensures var p := M.next(old(calls)).pos;
        M.next(old(calls)).term == Continue && (S.act ==> M.checkStructural(p, old(sgmDepth)).term == Continue) ==>
          (t == ExitMask <==> S.hasMask && !M.inMask(p)) &&
          (t == EnterExclude <==> (S.hasMask ==> M.inMask(p)) && M.inExclude(p))
      // include regions are recorded as the track grows, unless backtracking defers it
      ensures var p := M.next(old(calls)).pos;
        if && M.next(old(calls)).term == Continue
           && (S.act ==> M.checkStructural(p, old(sgmDepth)).term == Continue)
           && (S.hasMask ==> M.inMask(p)) && !M.inExclude(p)
        then
          && trackIncluded == (if S.act && S.backtrack then old(trackIncluded) else Mark(old(trackIncluded), M.includeHits(p)))
          && (t == TraverseAllInclude <==> S.stopOnAllInclude && AllSet(trackIncluded))
          && (t == Continue <==> !(S.stopOnAllInclude && AllSet(trackIncluded)))
        else
          trackIncluded == old(trackIncluded)
      ensures !S.act ==> sgmDepth == old(sgmDepth)
    {
      var step := M.next(calls);
      calls := calls + 1;
      pos := Some(step.pos);
      if step.term != Continue {
        t := if S.act && sgmDepth > 0 then TermInSgm else step.term;
      } else {
        t := Inspect(step.pos);
      }
      log := log + [t];
    }

    /**
     * `truncate_exit_sgm`: crop the track after the point of the trailing
     * sub-cortical segment (its last `sgmDepth` points) where the metric is
     * smallest, the first such point on a tie.
     */
    method TruncateExitSgm(tck: GeneratedTrack)
      requires 1 <= sgmDepth < |tck.points|
      modifies tck`points, this`pos
      ensures tck.points == SgmExitCrop(old(tck.points), sgmDepth, M.metric)
      ensures pos.Some?
    {
      var track := tck.points;
      var best, last := ExitScan(track, sgmDepth, M.metric);
      pos := Some(last);
      tck.points := track[..best + 1];
    }

    /**
     * One step of a growth loop: `iterate`, then the new position is appended
     * when the table `term_add_to_tck` says the step's code keeps it.
     */
    method Advance(tck: GeneratedTrack) returns (t: Term)
      requires Valid()
      modifies tck`points, this`pos, this`sgmDepth, this`inPathology, this`calls, this`trackIncluded, this`log
      ensures Valid() && pos.Some?
      ensures S.act && S.backtrack ==> trackIncluded == old(trackIncluded)
      ensures calls == old(calls) + 1 && log == old(log) + [t]
      ensures tck.points == old(tck.points) + (if M.addToTck(t) then [pos.value] else [])
    {
      t := Iterate();
      if M.addToTck(t) {
        tck.points := tck.points + [pos.value];
      }
    }

    /**
     * The growth loop of `gen_track_unidir` without backtracking: step until a
     * terminal step or until the track holds `maxNumPoints` points.
     */
    method Grow(tck: GeneratedTrack) returns (termination: Term)
      requires Valid() && pos.Some? && !(S.act && S.backtrack)
      modifies tck`points, this`pos, this`sgmDepth, this`inPathology, this`calls, this`trackIncluded, this`log
      ensures Valid() && pos.Some?
      ensures old(tck.points) <= tck.points && |tck.points| - |old(tck.points)| <= calls - old(calls)
      ensures |tck.points| <= if |old(tck.points)| < S.maxNumPoints then S.maxNumPoints else |old(tck.points)| + 1
      ensures calls > old(calls) && |log| == |old(log)| + (calls - old(calls)) && old(log) <= log
      ensures forall i :: |old(log)| <= i < |log| - 1 ==> log[i] == Continue
      ensures termination == (if log[|log| - 1] != Continue then log[|log| - 1] else LengthExceed)
      ensures log[|log| - 1] == Continue ==> |tck.points| >= S.maxNumPoints
    {
      while true
        invariant Valid() && pos.Some?
        invariant old(tck.points) <= tck.points && |tck.points| - |old(tck.points)| <= calls - old(calls)
        invariant calls > old(calls) ==> |tck.points| < S.maxNumPoints
        invariant calls >= old(calls) && |log| == |old(log)| + (calls - old(calls)) && old(log) <= log
        invariant forall i :: |old(log)| <= i < |log| ==> log[i] == Continue
        decreases S.maxNumPoints - |tck.points|
      {
        termination := Advance(tck);
        if termination == Continue && |tck.points| >= S.maxNumPoints {
          termination := LengthExceed;
        }
        if termination != Continue {
          return;
        }
      }
    }

    /**
     * `truncate_track` by `revertStep`, and whether growth resumes from the new
     * end of the track: only when more than the seed is left.
     */
    method Backtrack(tck: GeneratedTrack, revertStep: nat) returns (resumed: bool)
      requires M.Sound() && tck.seedIndex < |tck.points|
      modifies tck`points, this`pos
      ensures tck.seedIndex < |tck.points| <= |old(tck.points)|
      ensures tck.points == old(tck.points)[..|tck.points|]
      ensures |tck.points| == tck.seedIndex + 1 || |tck.points| + revertStep <= |old(tck.points)|
      ensures resumed <==> |tck.points| > tck.seedIndex + 1
      ensures resumed ==> pos == Some(tck.points[|tck.points| - 1])
      ensures !resumed ==> pos == old(pos)
    {
      var len := M.truncate(|tck.points|, revertStep, tck.seedIndex);
      tck.points := tck.points[..len];
      resumed := |tck.points| > tck.seedIndex + 1;
      if resumed {
        pos := Some(tck.points[|tck.points| - 1]);
      }
    }

    /**
     * The end of a step of the backtracking growth loop: the priors are applied
     * to the raw termination and, when they exclude the track for any reason
     * but an exclude region, the track is cut back by the next revert step.
     * Growth resumes (`Continue`) when more than the seed is left.
     */
    method Retreat(tck: GeneratedTrack, raw: Term, revertStep: nat) returns (t: Term, revert: nat)
      requires Valid() && !trackExcluded && S.act && raw != Continue
      requires tck.seedIndex < |tck.points|
      modifies tck`points, this`pos, this`trackExcluded
      ensures tck.seedIndex < |tck.points| <= |old(tck.points)| && tck.points == old(tck.points)[..|tck.points|]
      ensures t == Continue ==>
        !trackExcluded && revert == revertStep + 1 && |tck.points| + revert <= |old(tck.points)| && pos.Some?
      ensures t != Continue ==> var p := ApplyPriors(S.act, t, sgmDepth, inPathology);
        p.Success? && p.value.term == t && (trackExcluded ==> p.value.exclude) && (p.value.exclude ==> trackExcluded || t == LengthExceed)
      ensures t != Continue && trackExcluded ==> t == EnterExclude || |tck.points| == tck.seedIndex + 1
      ensures t != Continue && !trackExcluded ==> tck.points == old(tck.points) && t != LengthExceed
      ensures t != Continue ==> pos == old(pos)
      // entering an exclude region never backtracks
      ensures t == EnterExclude <==> raw == EnterExclude
      ensures t == EnterExclude ==> trackExcluded && tck.points == old(tck.points) && revert == revertStep
    {
      var priors := ApplyPriors(S.act, raw, sgmDepth, inPathology);
      PriorsSettle(S.act, raw, sgmDepth, inPathology);
      t, revert := priors.value.term, revertStep;
      trackExcluded := priors.value.exclude;
      if trackExcluded && t != EnterExclude {
        revert := revertStep + 1;
        var resumed := Backtrack(tck, revert);
        if resumed {
          trackExcluded := false;
          t := Continue;
        }
      }
    }

    /**
     * One step of the backtracking growth loop: advance, then either retreat
     * from a terminal step or stop at the length limit. Growth goes on
     * (`Continue`) either one point further or after a cut that is longer
     * than the previous one.
     */
    method BacktrackStep(tck: GeneratedTrack, revertStep: nat) returns (t: Term, revert: nat)
      requires Valid() && pos.Some? && !trackExcluded && S.act && S.backtrack
      requires tck.seedIndex < |tck.points|
      modifies tck`points, this`pos, this`sgmDepth, this`inPathology, this`calls, this`trackIncluded, this`log,
        this`trackExcluded
      ensures Valid() && pos.Some? && trackIncluded == old(trackIncluded)
      ensures tck.seedIndex < |tck.points| <= |old(tck.points)| + 1
      ensures tck.points[..tck.seedIndex + 1] == old(tck.points)[..tck.seedIndex + 1]
      ensures calls == old(calls) + 1 && |log| == |old(log)| + 1 && old(log) <= log
      // growth goes on one point further, or after a longer cut
      ensures t == Continue ==> !trackExcluded
      ensures t == Continue ==>
        (revert == revertStep && |tck.points| == |old(tck.points)| + 1 && |tck.points| < S.maxNumPoints) ||
        (revert == revertStep + 1 && |tck.points| + revert <= |old(tck.points)| + 1)
      // or it ends, with the priors applied
      ensures t != Continue ==> var p := ApplyPriors(S.act, t, sgmDepth, inPathology);
        p.Success? && p.value.term == t && (trackExcluded ==> p.value.exclude) && (p.value.exclude ==> trackExcluded || t == LengthExceed)
      ensures t != Continue && trackExcluded ==> t == EnterExclude || |tck.points| == tck.seedIndex + 1
      ensures t != Continue && !trackExcluded && t == LengthExceed ==> |tck.points| >= S.maxNumPoints
      ensures t != Continue && ApplyPriors(S.act, t, sgmDepth, inPathology).value.exclude && t != EnterExclude ==>
        |tck.points| == tck.seedIndex + 1 || (t == LengthExceed && |tck.points| >= S.maxNumPoints)
      // entering an exclude region ends the step uncut
      ensures t == EnterExclude ==>
        trackExcluded && revert == revertStep &&
        tck.points == old(tck.points) + (if M.addToTck(EnterExclude) then [pos.value] else [])
    {
      t := Advance(tck);
      revert := revertStep;
      if t != Continue {
        t, revert := Retreat(tck, t, revertStep);
      } else if |tck.points| >= S.maxNumPoints {
        t := LengthExceed;
      }
    }

    /**
     * The growth loop of `gen_track_unidir` with ACT backtracking: a step that
     * excludes the track (other than entering an exclude region) cuts the track
     * back by a strictly growing revert step and resumes growth from its new
     * end, as long as more than the seed is left.
     */
    method GrowWithBacktracking(tck: GeneratedTrack) returns (termination: Term, ghost last: seq<Point>)
      requires Valid() && pos.Some? && !trackExcluded && S.act && S.backtrack
      requires tck.seedIndex < |tck.points|
      modifies tck`points, this`pos, this`sgmDepth, this`inPathology, this`calls, this`trackIncluded, this`log,
        this`trackExcluded
      ensures Valid() && pos.Some?
      ensures trackIncluded == old(trackIncluded)
      ensures tck.seedIndex < |tck.points|
      ensures tck.points[..tck.seedIndex + 1] == old(tck.points)[..tck.seedIndex + 1]
      ensures |tck.points| <= if |old(tck.points)| < S.maxNumPoints then S.maxNumPoints else |old(tck.points)| + 1
      ensures calls > old(calls) && |log| == |old(log)| + (calls - old(calls)) && old(log) <= log
      // the priors were applied on the way out
      ensures termination != Continue
      ensures var p := ApplyPriors(S.act, termination, sgmDepth, inPathology);
        p.Success? && p.value.term == termination &&
        (trackExcluded ==> p.value.exclude) && (p.value.exclude ==> trackExcluded || termination == LengthExceed)
      ensures trackExcluded ==> termination == EnterExclude || |tck.points| == tck.seedIndex + 1
      ensures !trackExcluded && termination == LengthExceed ==> |tck.points| >= S.maxNumPoints
      ensures ApplyPriors(S.act, termination, sgmDepth, inPathology).value.exclude && termination != EnterExclude ==>
        |tck.points| == tck.seedIndex + 1 || (termination == LengthExceed && |tck.points| >= S.maxNumPoints)
      // `last` is the track before the final step, which entering an exclude region does not cut
      ensures tck.seedIndex < |last| && last[..tck.seedIndex + 1] == old(tck.points)[..tck.seedIndex + 1]
      ensures termination == EnterExclude ==>
        trackExcluded && tck.points == last + (if M.addToTck(EnterExclude) then [pos.value] else [])
    {
      ghost var cap := if |tck.points| < S.maxNumPoints then S.maxNumPoints - 1 else |tck.points|;
      ghost var seed := tck.points[..tck.seedIndex + 1];
      var revertStep := 0;
      while true
        invariant Valid() && pos.Some? && !trackExcluded && trackIncluded == old(trackIncluded)
        invariant tck.seedIndex < |tck.points| <= cap
        invariant seed == old(tck.points)[..tck.seedIndex + 1] && tck.points[..tck.seedIndex + 1] == seed
        invariant revertStep <= cap + 1
        invariant calls >= old(calls) && |log| == |old(log)| + (calls - old(calls)) && old(log) <= log
        decreases cap + 1 - revertStep, cap + 1 - |tck.points|
      {
        last := tck.points;
        termination, revertStep := BacktrackStep(tck, revertStep);
        if termination != Continue {
          return;
        }
      }
    }

    /**
     * The crop of `gen_track_unidir` at a sub-cortical exit: `truncate_exit_sgm`,
     * failing when the sub-cortical segment does not leave a point before it,
     * then the tracker moves to the new end of the track.
     */
    method CropAtSgmExit(tck: GeneratedTrack) returns (r: Outcome<Fault>)
      modifies tck`points, this`pos
      ensures r.Fail? <==> sgmDepth == 0 || sgmDepth >= |old(tck.points)|
      ensures r.Fail? ==> r.error == SgmDepthOutOfRange && tck.points == old(tck.points) && pos == old(pos)
      ensures r.Pass? ==>
        tck.points == SgmExitCrop(old(tck.points), sgmDepth, M.metric) && pos == Some(tck.points[|tck.points| - 1])
    {
      if sgmDepth == 0 || sgmDepth >= |tck.points| {
        return Fail(SgmDepthOutOfRange);
      }
      TruncateExitSgm(tck);
      pos := Some(tck.points[|tck.points| - 1]);
      r := Pass;
    }

    /** The shared counters at the end of one direction: its termination, and its rejection if excluded. */
    method Book(termination: Term)
      requires trackExcluded ==> RejectionFor(termination).Some?
      modifies this`rejections, this`terminations
      ensures terminations == old(terminations) + multiset{termination}
      ensures rejections == old(rejections) + (if trackExcluded then multiset{RejectionFor(termination).value} else multiset{})
    {
      if trackExcluded {
        rejections := rejections + multiset{RejectionFor(termination).value};
      }
      terminations := terminations + multiset{termination};
    }

    /**
     * The end of `gen_track_unidir`: apply the priors to the termination the
     * growth ended on, crop at a sub-cortical exit, and book one termination,
     * and one rejection if the direction ended excluded.
     */
    method Conclude(tck: GeneratedTrack, raw: Term) returns (r: Result<Term, Fault>)
      requires Valid() && pos.Some? && raw != Continue
      requires trackExcluded ==> ApplyPriors(S.act, raw, sgmDepth, inPathology) == Success(Priors(raw, true))
      modifies tck`points, this`pos, this`trackExcluded, this`rejections, this`terminations
      ensures Valid() && pos.Some?
      ensures r.Success? ==> ApplyPriors(S.act, raw, sgmDepth, inPathology) == Success(Priors(r.value, trackExcluded))
      ensures r.Failure? ==>
        ApplyPriors(S.act, raw, sgmDepth, inPathology) == Failure(r.error) ||
        (r.error == SgmDepthOutOfRange && (sgmDepth == 0 || sgmDepth >= |old(tck.points)|))
      ensures r.Success? && r.value != ExitSgm ==> tck.points == old(tck.points)
      ensures r.Success? && r.value == ExitSgm ==>
        1 <= sgmDepth < |old(tck.points)| && tck.points == SgmExitCrop(old(tck.points), sgmDepth, M.metric)
      ensures r.Success? && trackExcluded ==> RejectionFor(r.value).Some?
      ensures r.Success? ==> terminations == old(terminations) + multiset{r.value}
      ensures r.Success? ==>
        rejections == old(rejections) + (if trackExcluded then multiset{RejectionFor(r.value).value} else multiset{})
    {
      var priors := ApplyPriors(S.act, raw, sgmDepth, inPathology);
      if priors.Failure? {
        return Failure(priors.error);
      }
      var termination := priors.value.term;
      trackExcluded := trackExcluded || priors.value.exclude;
      if trackExcluded {
        ExclusionIsClassified(S.act, raw, sgmDepth, inPathology);
      }
      var recorded := Record(tck, termination);
      r := if recorded.Fail? then Failure(recorded.error) else Success(termination);
    }

    /**
     * The crop at a sub-cortical exit and the booking of one direction that
     * ended on `termination` (after the priors).
     */
    method Record(tck: GeneratedTrack, termination: Term) returns (r: Outcome<Fault>)
      requires pos.Some?
      requires trackExcluded ==> RejectionFor(termination).Some?
      modifies tck`points, this`pos, this`rejections, this`terminations
      ensures pos.Some?
      ensures r.Fail? <==> termination == ExitSgm && (sgmDepth == 0 || sgmDepth >= |old(tck.points)|)
      ensures r.Fail? ==> r.error == SgmDepthOutOfRange
      ensures r.Pass? && termination != ExitSgm ==> tck.points == old(tck.points)
      ensures r.Pass? && termination == ExitSgm ==>
        1 <= sgmDepth < |old(tck.points)| && tck.points == SgmExitCrop(old(tck.points), sgmDepth, M.metric)
      ensures r.Pass? ==> terminations == old(terminations) + multiset{termination}
      ensures r.Pass? ==>
        rejections == old(rejections) + (if trackExcluded then multiset{RejectionFor(termination).value} else multiset{})
    {
      if termination == ExitSgm {
        r := CropAtSgmExit(tck);
        if r.Fail? {
          return;
        }
      }
      Book(termination);
      r := Pass;
    }

    /**
     * `gen_track_unidir`: grow the track in one direction and conclude on the
     * termination the growth ended on (`raw`). `grown` is the track before any
     * crop.
     */
    method GenTrackUnidir(tck: GeneratedTrack) returns (r: Result<Term, Fault>, ghost raw: Term, ghost grown: seq<Point>)
      requires Valid() && !trackExcluded && pos.Some?
      requires tck.seedIndex < |tck.points|
      modifies this, tck`points
      ensures Valid() && pos.Some?
      ensures S.act && S.backtrack ==> trackIncluded == old(trackIncluded)
      ensures tck.seedIndex < |grown|
      ensures grown[..tck.seedIndex + 1] == old(tck.points)[..tck.seedIndex + 1]
      ensures |grown| <= if |old(tck.points)| < S.maxNumPoints then S.maxNumPoints else |old(tck.points)| + 1
      ensures calls > old(calls)
      // without backtracking: points are only appended
      ensures !(S.act && S.backtrack) ==> old(tck.points) <= grown
      // the outcome is the raw termination after the priors
      ensures raw != Continue
      ensures r.Success? ==> ApplyPriors(S.act, raw, sgmDepth, inPathology) == Success(Priors(r.value, trackExcluded))
      ensures r.Failure? ==>
        ApplyPriors(S.act, raw, sgmDepth, inPathology) == Failure(r.error) || r.error == SgmDepthOutOfRange
      ensures r != Failure(UndefinedTermination)
      // with backtracking, a track stays excluded only after shrinking to its seed (or by its length)
      ensures S.act && S.backtrack && r.Success? && trackExcluded && r.value != EnterExclude ==>
        |grown| == tck.seedIndex + 1 || (r.value == LengthExceed && |grown| >= S.maxNumPoints)
      // the crop at a sub-cortical exit, and no change otherwise
      ensures r.Success? && r.value != ExitSgm ==> tck.points == grown
      ensures r.Success? && r.value == ExitSgm ==>
        1 <= sgmDepth < |grown| && tck.points == SgmExitCrop(grown, sgmDepth, M.metric)
      // the shared counters: one termination, and one rejection when excluded
      ensures r.Success? && trackExcluded ==> RejectionFor(r.value).Some?
      ensures r.Success? ==> terminations == old(terminations) + multiset{r.value}
      ensures r.Success? ==>
        rejections == old(rejections) + (if trackExcluded then multiset{RejectionFor(r.value).value} else multiset{})
    {
      var termination := GrowOneWay(tck);
      raw, grown := termination, tck.points;
      r := Conclude(tck, termination);
    }

    /**
     * The growth of `gen_track_unidir`, before its conclusion: with ACT the
     * sub-cortical depth is reset, and the track grows with backtracking when
     * that is enabled.
     */
    method GrowOneWay(tck: GeneratedTrack) returns (termination: Term)
      requires Valid() && !trackExcluded && pos.Some?
      requires tck.seedIndex < |tck.points|
      modifies tck`points, this`pos, this`sgmDepth, this`inPathology, this`calls, this`trackIncluded, this`log,
        this`trackExcluded
      ensures Valid() && pos.Some?
      ensures S.act && S.backtrack ==> trackIncluded == old(trackIncluded)
      ensures tck.seedIndex < |tck.points|
      ensures tck.points[..tck.seedIndex + 1] == old(tck.points)[..tck.seedIndex + 1]
      ensures |tck.points| <= if |old(tck.points)| < S.maxNumPoints then S.maxNumPoints else |old(tck.points)| + 1
      ensures calls > old(calls)
      ensures !(S.act && S.backtrack) ==> old(tck.points) <= tck.points && !trackExcluded
      ensures termination != Continue
      ensures trackExcluded ==> ApplyPriors(S.act, termination, sgmDepth, inPathology) == Success(Priors(termination, true))
      ensures (S.act && S.backtrack && termination != EnterExclude &&
               ApplyPriors(S.act, termination, sgmDepth, inPathology) == Success(Priors(termination, true))) ==>
        |tck.points| == tck.seedIndex + 1 || (termination == LengthExceed && |tck.points| >= S.maxNumPoints)
    {
      if S.act {
        sgmDepth := 0;
      }
      if S.act && S.backtrack {
        ghost var last;
        termination, last := GrowWithBacktracking(tck);
      } else {
        termination := Grow(tck);
      }
    }

    /** The seed loop of `gen_track` for an unbounded seed source. */
    method SearchSeed() returns (passed: bool)
      modifies this`pos, this`seedCalls
      ensures var s := SeedSearch(M.seeds, M.seedOk, old(seedCalls), MaxNumSeedAttempts, old(pos));
        pos == s.pos && seedCalls == s.calls && passed == s.passed
    {
      ghost var search := SeedSearch(M.seeds, M.seedOk, seedCalls, MaxNumSeedAttempts, pos);
      var n := 0;
      while n != MaxNumSeedAttempts
        invariant n <= MaxNumSeedAttempts
        invariant SeedSearch(M.seeds, M.seedOk, seedCalls, MaxNumSeedAttempts - n, pos) == search
      {
        var seed := M.seeds(seedCalls);
        seedCalls := seedCalls + 1;
        if seed.Some? {
          pos := seed;
          if M.seedOk(seed.value) {
            return true;
          }
        }
        n := n + 1;
      }
      return false;
    }

    /**
     * The start of `gen_track`: reset the track and its flags, then draw a
     * seed. A bounded source is asked once, and a seed it gives that fails the
     * checks yields an excluded empty track; an unbounded source is searched,
     * and the search aborts only if it ends without a valid position.
     */
    method AcquireSeed(tck: GeneratedTrack) returns (seed: SeedDraw)
      requires Valid()
      modifies tck, this`trackExcluded, this`trackIncluded, this`pos, this`seedCalls
      ensures Valid()
      ensures tck.points == [] && tck.seedIndex == 0
      ensures trackIncluded == seq(S.numInclude, _ => false)
      ensures trackExcluded <==> seed == Refused
      ensures S.seedsFinite ==> seed == (match M.seeds(old(seedCalls))
                                         case None => Exhausted
                                         case Some(p) => if M.seedOk(p) then Drawn(p) else Refused)
      ensures !S.seedsFinite ==>
        var s := SeedSearch(M.seeds, M.seedOk, old(seedCalls), MaxNumSeedAttempts, old(pos));
        seed == (if s.pos.None? then Exhausted else Drawn(s.pos.value))
      ensures seed.Drawn? ==> pos == Some(seed.p)
    {
      tck.Clear();
      trackExcluded := false;
      trackIncluded := seq(S.numInclude, _ => false);
      if S.seedsFinite {
        var s := M.seeds(seedCalls);
        seedCalls := seedCalls + 1;
        if s.None? {
          return Exhausted;
        }
        pos := s;
        if !M.seedOk(s.value) {
          trackExcluded := true;
          return Refused;
        }
      } else {
        var _ := SearchSeed();
        if pos.None? {
          return Exhausted;
        }
      }
      seed := Drawn(pos.value);
    }

    /** The first direction of `gen_track`: the track starts as the seed alone and grows from it. */
    method FirstDirection(tck: GeneratedTrack, seed: Point) returns (r: Result<Term, Fault>)
      requires Valid() && !trackExcluded && pos.Some? && tck.seedIndex == 0
      modifies this, tck`points
      ensures Valid()
      ensures r != Failure(UndefinedTermination)
      ensures r.Success? ==> 1 <= |tck.points| <= Max(S.maxNumPoints, 2) && tck.points[0] == seed
      ensures S.act && S.backtrack ==> trackIncluded == old(trackIncluded)
    {
      tck.points := [seed];
      ghost var raw, grown;
      r, raw, grown := GenTrackUnidir(tck);
    }

    /**
     * The second direction of `gen_track`: reverse the track, move the tracker
     * to its new end (the seed, when the first direction was cropped to it) and
     * grow again. `grown` is the track before any crop.
     */
    method SecondDirection(tck: GeneratedTrack) returns (r: Result<Term, Fault>, ghost grown: seq<Point>)
      requires Valid() && !trackExcluded && tck.seedIndex == 0 < |tck.points|
      modifies this, tck
      ensures Valid()
      ensures r != Failure(UndefinedTermination)
      ensures Reversed(old(tck.points)) <= grown && tck.seedIndex == |old(tck.points)| - 1
      ensures |grown| <= if |old(tck.points)| < S.maxNumPoints then S.maxNumPoints else |old(tck.points)| + 1
      ensures r.Success? ==> |tck.points| <= |grown| && tck.points == grown[..|tck.points|]
      ensures S.act && S.backtrack ==> trackIncluded == old(trackIncluded)
    {
      tck.Reverse();
      ghost var reversed := tck.points;
      assert reversed[..tck.seedIndex + 1] == reversed;
      pos := Some(tck.points[|tck.points| - 1]);
      ghost var raw;
      r, raw, grown := GenTrackUnidir(tck);
      assert grown[..tck.seedIndex + 1] == reversed;
    }

    /**
     * `gen_track`: seed, then grow in one direction and, unless the track is
     * already excluded or unidirectional, reverse it and grow from the other
     * end of the seed. False when the seed source has nothing more to give.
     * `forward` is the track after the first direction, `grown` before the
     * second direction's crop.
     */
    method GenTrack(tck: GeneratedTrack) returns (r: Result<bool, Fault>, ghost seed: SeedDraw,
                                                  ghost forward: seq<Point>, ghost grown: seq<Point>)
      requires Valid()
      modifies this, tck
      ensures Valid()
      ensures r == Success(false) <==> seed == Exhausted
      ensures r != Failure(UndefinedTermination)
      ensures S.seedsFinite ==> seed == (match M.seeds(old(seedCalls))
                                         case None => Exhausted
                                         case Some(p) => if M.seedOk(p) then Drawn(p) else Refused)
      ensures !S.seedsFinite ==>
        var s := SeedSearch(M.seeds, M.seedOk, old(seedCalls), MaxNumSeedAttempts, old(pos));
        seed == (if s.pos.None? then Exhausted else Drawn(s.pos.value))
      ensures seed == Refused ==> r == Success(true) && trackExcluded && tck.points == []
      // the first direction starts at the seed
      ensures seed.Drawn? && r.Success? ==> 1 <= |forward| <= Max(S.maxNumPoints, 2) && forward[0] == seed.p
      // one direction only: unidirectional tracking, a unidirectional ACT seed, or a track excluded on the way out
      ensures seed.Drawn? && r.Success? && (S.unidirectional || (S.act && M.seedIsUnidirectional(seed.p))) ==>
        tck.points == forward && tck.seedIndex == 0
      // otherwise the second direction extends the reversed first one, keeping the seed
      ensures seed.Drawn? && r.Success? && !S.unidirectional && !(S.act && M.seedIsUnidirectional(seed.p)) ==>
        (tck.points == forward && tck.seedIndex == 0 && trackExcluded) ||
        (Reversed(forward) <= grown && tck.seedIndex == |forward| - 1 &&
         |tck.points| <= |grown| && tck.points == grown[..|tck.points|])
      // the length of the finished track
      ensures r.Success? ==> |tck.points| <= Max(S.maxNumPoints, 2) + 1
      // with backtracking, only the seed has been tested against the include regions
      ensures seed.Drawn? && r.Success? && S.act && S.backtrack ==>
        trackIncluded == Mark(seq(S.numInclude, _ => false), M.includeHits(seed.p))
    {
      var drawn := AcquireSeed(tck);
      seed := drawn;
      if !drawn.Drawn? {
        return Success(drawn == Refused), seed, [], [];
      }
      var unidirectional := S.unidirectional;
      if S.act && !unidirectional {
        unidirectional := M.seedIsUnidirectional(drawn.p);
      }
      trackIncluded := Mark(trackIncluded, M.includeHits(drawn.p));
      var first := FirstDirection(tck, drawn.p);
      if first.Failure? {
        return Failure(first.error), seed, [], [];
      }
      forward, grown := tck.points, tck.points;
      if !trackExcluded && !unidirectional {
        var second, g := SecondDirection(tck);
        if second.Failure? {
          return Failure(second.error), seed, forward, g;
        }
        grown := g;
      }
      r := Success(true);
    }

    /** Test every point of the track against the include regions. */
    method MarkIncludeAlong(tck: seq<Point>)
      modifies this`trackIncluded
      ensures trackIncluded == MarkAlong(old(trackIncluded), tck, M.includeHits)
    {
      var i := 0;
      while i != |tck|
        invariant i <= |tck|
        invariant trackIncluded == MarkAlong(old(trackIncluded), tck[..i], M.includeHits)
      {
        assert tck[..i + 1][..i] == tck[..i];
        trackIncluded := Mark(trackIncluded, M.includeHits(tck[i]));
        i := i + 1;
      }
      assert tck[..i] == tck;
    }

    /**
     * `track_rejected`: the acceptance test on a finished track, with the
     * rejection it books; under ACT backtracking the include regions are
     * tested along the whole track once it has passed the other tests.
     */
    method TrackRejected(tck: seq<Point>) returns (rejected: bool)
      requires Valid()
      modifies this`trackIncluded, this`rejections
      ensures Valid()
      ensures trackIncluded ==
        if !trackExcluded && |tck| >= S.minNumPoints && S.act && S.backtrack && SatisfyWmRequirement(tck)
        then MarkAlong(old(trackIncluded), tck, M.includeHits)
        else old(trackIncluded)
      ensures var v := AcceptanceTest(trackExcluded, |tck|, S.minNumPoints, S.act,
                                      SatisfyWmRequirement(tck), AllSet(trackIncluded));
        (rejected <==> v != Accepted) &&
        rejections == old(rejections) + if v.Rejected? then multiset{v.reason} else multiset{}
    {
      if trackExcluded {
        return true;
      }
      if |tck| < S.minNumPoints {
        rejections := rejections + multiset{TrackTooShort};
        return true;
      }
      if S.act {
        if !SatisfyWmRequirement(tck) {
          rejections := rejections + multiset{ActFailedWmRequirement};
          return true;
        }
        if S.backtrack {
          MarkIncludeAlong(tck);
        }
      }
      var all := TraversedAllIncludeRegions();
      if !all {
        rejections := rejections + multiset{MissedIncludeRegion};
        return true;
      }
      return false;
    }

    /**
     * `operator()`: generate a track and clear it if the acceptance test
     * rejects it. False when the seed source has nothing more to give.
     * `seed` is the seed drawn, `generated` the track as `gen_track` left it
     * and `verdict` the acceptance test's verdict on it.
     */
    method Track(tck: GeneratedTrack) returns (r: Result<bool, Fault>, ghost seed: SeedDraw,
                                               ghost generated: seq<Point>, ghost verdict: Verdict)
      requires Valid()
      modifies this, tck
      ensures Valid()
      ensures r != Failure(UndefinedTermination)
      ensures r == Success(false) <==> seed == Exhausted
      ensures seed == Refused ==> r == Success(true) && tck.points == [] && verdict == AlreadyExcluded
      ensures r == Success(true) ==>
        verdict == AcceptanceTest(trackExcluded, |generated|, S.minNumPoints, S.act,
                                  SatisfyWmRequirement(generated), AllSet(trackIncluded))
      // an accepted track is handed out as generated; a rejected one is cleared
      ensures r == Success(true) && verdict == Accepted ==> tck.points == generated
      ensures r == Success(true) && verdict != Accepted ==> tck.points == [] && tck.seedIndex == 0
      ensures r == Success(true) && verdict == Accepted ==>
        && !trackExcluded && |tck.points| >= S.minNumPoints
        && (S.act ==> SatisfyWmRequirement(tck.points)) && AllSet(trackIncluded)
    {
      var generatedOutcome, drawn, _, _ := GenTrack(tck);
      seed := drawn;
      generated := tck.points;
      if generatedOutcome != Success(true) {
        return generatedOutcome, seed, generated, AlreadyExcluded;
      }
      var rejected := TrackRejected(tck.points);
      verdict := AcceptanceTest(trackExcluded, |generated|, S.minNumPoints, S.act,
                                SatisfyWmRequirement(generated), AllSet(trackIncluded));
      if rejected {
        tck.Clear();
      }
      r := Success(true);
    }
  }
}
