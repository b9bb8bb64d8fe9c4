/**
 * The `threshold` command: turn an image into a binary mask, either by
 * marking its N largest or N smallest voxels, or by comparing every voxel
 * with an intensity (given, or found by a histogram analysis).
 *
 * The image is flattened: a voxel is an index into `values`, in the order of
 * the command's scan.
 */
module Threshold {
  import opened Wrappers

  /** The command-line options; a `Some` option was given, with its argument. */
  datatype Options = Options(
    abs: Option<real>,          // -abs value
    percentile: Option<real>,   // -percentile value, in [0, 100]
    top: Option<nat>,           // -top N
    bottom: Option<nat>,        // -bottom N
    invert: bool,               // -invert
    useNaN: bool)               // -nan

  datatype ThresholdError =
    | ConflictingOptions        // more than one of -abs, -percentile, -top and -bottom
    | TooManyVoxels             // N exceeds the number of voxels in the image

  /** How the mask is made. */
  datatype Mode =
    | SelectTop(n: nat)         // mark the n largest voxels
    | SelectBottom(n: nat)      // mark the n smallest voxels
    | Level(val: real)          // mark the voxels not below val
    | Histogram                 // mark the voxels not below the histogram's first minimum

  datatype Config = Config(mode: Mode, invert: bool)

  /** The percentile option's argument range, which the argument parser enforces. */
  predicate WellFormed(opts: Options) {
    opts.percentile.Some? ==> 0.0 <= opts.percentile.value <= 100.0
  }

  /** How many of the four mutually exclusive options were given. */
  function Given(opts: Options): nat {
    (if opts.abs.Some? then 1 else 0) + (if opts.percentile.Some? then 1 else 0) +
    (if opts.top.Some? then 1 else 0) + (if opts.bottom.Some? then 1 else 0)
  }

  /** Rounding to the nearest integer, halves upwards. */
  function Round(x: real): (n: int)
    ensures x - 0.5 < n as real <= x + 0.5
  {
    (x + 0.5).Floor
  }

  /** The voxel count of a fraction `f` in [0, 1] of an image of `count` voxels. */
  function CountOf(count: nat, f: real): (n: nat)
    requires 0.0 <= f <= 1.0
    ensures n <= count
  {
    var r := Round(count as real * f);
    assert r as real <= count as real * f + 0.5 <= count as real + 0.5;
    r
  }

  /** The option checks shared by both versions of the set-up. */
  function CheckOptions(opts: Options, count: nat): (r: Outcome<ThresholdError>)
    ensures r == Fail(ConflictingOptions) <==> Given(opts) > 1
    ensures r == Fail(TooManyVoxels) <==>
      Given(opts) <= 1 && ((opts.top.Some? && count < opts.top.value) || (opts.bottom.Some? && count < opts.bottom.value))
  {
    if Given(opts) > 1 then Fail(ConflictingOptions)
    else if count < opts.top.GetOr(0) || count < opts.bottom.GetOr(0) then Fail(TooManyVoxels)
    else Pass
  }

  /**
   * The command's set-up as written: the percentile becomes a bottom-N count
   * (flipping the mask) below one half and a top-N count otherwise, and the
   * selection modes are entered only when one of the counts is non-zero.
   */
  function ConfigureAsWritten(opts: Options, count: nat): (r: Result<Config, ThresholdError>)
    requires WellFormed(opts)
    ensures CheckOptions(opts, count).Fail? <==> r.Failure?
    ensures r.Failure? ==> r.error == CheckOptions(opts, count).error
    ensures r.Success? && opts.abs.Some? ==> r.value == Config(Level(opts.abs.value), opts.invert)
    ensures r.Success? && opts.top.Some? ==>
      r.value == Config(if opts.top.value > 0 then SelectTop(opts.top.value) else Histogram, opts.invert)
    ensures r.Success? && opts.bottom.Some? ==>
      r.value == Config(if opts.bottom.value > 0 then SelectBottom(opts.bottom.value) else Histogram, opts.invert)
    ensures r.Success? && Given(opts) == 0 ==> r.value == Config(Histogram, opts.invert)
    // a selection is entered only with a non-zero count, which never exceeds the image
    ensures r.Success? && (r.value.mode.SelectTop? || r.value.mode.SelectBottom?) ==> 0 < r.value.mode.n <= count
  {
    var check := CheckOptions(opts, count);
    if check.Fail? then Failure(check.error)
    else
      var topN := opts.top.GetOr(0);
      var bottomN := opts.bottom.GetOr(0);
      var (topN, bottomN, invert) :=
        match opts.percentile
        case Some(p) =>
          var f := p / 100.0;
          if f < 0.5 then (topN, CountOf(count, f), !opts.invert) else (CountOf(count, 1.0 - f), bottomN, opts.invert)
        case None => (topN, bottomN, opts.invert);
      if topN != 0 || bottomN != 0 then
        Success(Config(if topN != 0 then SelectTop(topN) else SelectBottom(bottomN), invert))
      else
        Success(Config(if opts.abs.Some? then Level(opts.abs.value) else Histogram, invert))
  }

  /**
   * The command's set-up as intended: a requested selection always selects,
   * also when its count is zero.
   */
  function Configure(opts: Options, count: nat): (r: Result<Config, ThresholdError>)
    requires WellFormed(opts)
    ensures CheckOptions(opts, count).Fail? <==> r.Failure?
    ensures r.Failure? ==> r.error == CheckOptions(opts, count).error
    ensures r.Success? && opts.abs.Some? ==> r.value == Config(Level(opts.abs.value), opts.invert)
    ensures r.Success? && opts.top.Some? ==> r.value == Config(SelectTop(opts.top.value), opts.invert)
    ensures r.Success? && opts.bottom.Some? ==> r.value == Config(SelectBottom(opts.bottom.value), opts.invert)
    ensures r.Success? && opts.percentile.Some? && opts.percentile.value / 100.0 < 0.5 ==>
      r.value == Config(SelectBottom(CountOf(count, opts.percentile.value / 100.0)), !opts.invert)
    ensures r.Success? && opts.percentile.Some? && opts.percentile.value / 100.0 >= 0.5 ==>
      r.value == Config(SelectTop(CountOf(count, 1.0 - opts.percentile.value / 100.0)), opts.invert)
    ensures r.Success? && Given(opts) == 0 ==> r.value == Config(Histogram, opts.invert)
    // a selection count never exceeds the image
    ensures r.Success? && (r.value.mode.SelectTop? || r.value.mode.SelectBottom?) ==> r.value.mode.n <= count
  {
    var check := CheckOptions(opts, count);
    if check.Fail? then Failure(check.error)
    else
      match opts.percentile
      case Some(p) =>
        var f := p / 100.0;
        if f < 0.5 then Success(Config(SelectBottom(CountOf(count, f)), !opts.invert))
        else Success(Config(SelectTop(CountOf(count, 1.0 - f)), opts.invert))
      case None =>
        if opts.top.Some? then Success(Config(SelectTop(opts.top.value), opts.invert))
        else if opts.bottom.Some? then Success(Config(SelectBottom(opts.bottom.value), opts.invert))
        else if opts.abs.Some? then Success(Config(Level(opts.abs.value), opts.invert))
        else Success(Config(Histogram, opts.invert))
  }

  /** The set-up the command runs with: as written, or as intended. */
  function SetUp(opts: Options, count: nat, asWritten: bool): Result<Config, ThresholdError>
    requires WellFormed(opts)
  {
    if asWritten then ConfigureAsWritten(opts, count) else Configure(opts, count)
  }

  /** Both versions agree whenever the requested count is not zero. */
  lemma ConfigureAgreesOnNonZeroCounts(opts: Options, count: nat)
    requires WellFormed(opts)
    requires ConfigureAsWritten(opts, count).Success?
    requires Configure(opts, count).value.mode.SelectTop? || Configure(opts, count).value.mode.SelectBottom? ==>
      Configure(opts, count).value.mode.n > 0
    ensures ConfigureAsWritten(opts, count) == Configure(opts, count)
  {
  }

  /** As written, `-top 0` does not select zero voxels: it thresholds at the histogram's first minimum. */
  lemma TopZeroFallsBackToHistogram(count: nat)
    ensures ConfigureAsWritten(Options(None, None, Some(0), None, false, false), count) == Success(Config(Histogram, false))
    ensures Configure(Options(None, None, Some(0), None, false, false), count) == Success(Config(SelectTop(0), false))
  {
  }

  /**
   * As written, `-percentile 0` yields the inverted histogram mask rather than
   * the all-ones mask of "every voxel is at or above the 0th percentile".
   */
  lemma PercentileZeroInvertsHistogram(count: nat)
    ensures ConfigureAsWritten(Options(None, Some(0.0), None, None, false, false), count) == Success(Config(Histogram, true))
    ensures Configure(Options(None, Some(0.0), None, None, false, false), count) == Success(Config(SelectBottom(0), true))
  {
    assert CountOf(count, 0.0) == 0;
  }

  // ---------------------------------------------------------------------------
  // The selection list: a multimap from voxel value to voxel position
  // ---------------------------------------------------------------------------

  /** One entry of the selection list: a voxel's value and its position. */
  datatype Entry = Entry(value: real, pos: nat)

  /**
   * The multimap's order: by value, and equal values in insertion order, which
   * is scan order.
   */
  predicate Before(a: Entry, b: Entry) {
    a.value < b.value || (a.value == b.value && a.pos < b.pos)
  }

  predicate Ordered(list: seq<Entry>) {
    forall i, j :: 0 <= i < j < |list| ==> Before(list[i], list[j])
  }

  function Positions(list: seq<Entry>): set<nat> {
    set e | e in list :: e.pos
  }

  /** Every entry is a voxel scanned before `k`, with its value. */
  predicate Faithful(values: seq<real>, list: seq<Entry>, k: nat) {
    forall e :: e in list ==> e.pos < k && e.pos < |values| && values[e.pos] == e.value
  }

  /**
   * The multimap's insertion of an entry scanned after every entry already
   * held: it goes after all entries of smaller or equal value.
   */
  function Insert(list: seq<Entry>, e: Entry): (r: seq<Entry>)
    requires Ordered(list)
    requires forall x :: x in list ==> x.pos < e.pos
    ensures Ordered(r) && |r| == |list| + 1
    ensures forall x :: x in r <==> x in list || x == e
  {
    if |list| == 0 then [e]
    else if e.value < list[0].value then
      FirstIsLeast(list);
      [e] + list
    else
      var rest := Insert(list[1..], e);
      assert forall x :: x in rest ==> Before(list[0], x) by {
        forall x | x in rest ensures Before(list[0], x) {
          if x != e {
            var j :| 0 <= j < |list[1..]| && list[1..][j] == x;
            assert list[j + 1] == x;
          }
        }
      }
      assert list == [list[0]] + list[1..];
      [list[0]] + rest
  }

  /** The first entry of an ordered list comes before every other. */
  lemma FirstIsLeast(list: seq<Entry>)
    requires |list| > 0 && Ordered(list)
    ensures forall e :: e in list ==> list[0].value <= e.value
    ensures forall e :: e in list && e != list[0] ==> Before(list[0], e)
  {
  }

  function Min(a: nat, b: nat): nat {
    if a < b then a else b
  }

  lemma PositionsOfInsert(list: seq<Entry>, e: Entry, r: seq<Entry>)
    requires forall x :: x in r <==> x in list || x == e
    ensures Positions(r) == Positions(list) + {e.pos}
  {
  }

  /**
   * What the top-N scan knows after the first `k` voxels: the list is
   * ordered, faithful, as long as it can be, holds every voxel while it is
   * short, and every voxel left out comes before every kept one. The body is
   * bound to a name so that the loop carries it as one fact.
   */
  ghost predicate TopKept(values: seq<real>, list: seq<Entry>, n: nat, k: nat) {
    var known :=
      && k <= |values| && Ordered(list) && Faithful(values, list, k)
      && |list| == Min(n, k)
      && (|list| < n ==> forall i :: 0 <= i < k ==> i in Positions(list))
      && (forall e, i :: e in list && 0 <= i < k && i !in Positions(list) ==> Before(Entry(values[i], i), e));
    known
  }

  /**
   * The top-N scan: keep the `n` largest voxels seen so far; a voxel that is
   * not smaller than the least one kept replaces it, so of equal values the
   * later one is kept.
   */
  method SelectTopN(values: seq<real>, n: nat) returns (list: seq<Entry>)
    requires n >= 1
    ensures Ordered(list) && Faithful(values, list, |values|)
    ensures |list| == Min(n, |values|)
    // the kept voxels are the largest by value, then by position
    ensures forall e, i :: e in list && 0 <= i < |values| && i !in Positions(list) ==> Before(Entry(values[i], i), e)
  {
    list := [];
    var k := 0;
    while k < |values|
      invariant TopKept(values, list, n, k)
    {
      var val := values[k];
      ghost var before := list;
      if |list| == n {
        if val < list[0].value {
          TopSkips(values, list, n, k);
          k := k + 1;
          continue;
        }
        DropFirst(values, list, k);
        list := list[1..];
      }
      var r := Insert(list, Entry(val, k));
      TopInserts(values, before, list, r, n, k);
      list := r;
      k := k + 1;
    }
  }

  /** A voxel smaller than every kept one is left out of a full list. */
  lemma TopSkips(values: seq<real>, list: seq<Entry>, n: nat, k: nat)
    requires TopKept(values, list, n, k) && k < |values| && n >= 1
    requires |list| == n && values[k] < list[0].value
    ensures TopKept(values, list, n, k + 1)
  {
    FirstIsLeast(list);
  }

  /** A voxel inserted into the list, after the least one is dropped from a full list. */
  lemma TopInserts(values: seq<real>, before: seq<Entry>, kept: seq<Entry>, r: seq<Entry>, n: nat, k: nat)
    requires TopKept(values, before, n, k) && k < |values| && n >= 1
    requires |before| == n ==> before[0].value <= values[k] && kept == before[1..]
    requires |before| < n ==> kept == before
    requires Ordered(kept) && Faithful(values, kept, k)
    requires forall e, i :: e in kept && 0 <= i < k && i !in Positions(kept) ==> Before(Entry(values[i], i), e)
    requires |before| == n ==>
      forall i :: 0 <= i < k && i !in Positions(kept) ==> Before(Entry(values[i], i), Entry(values[k], k))
    requires Ordered(r) && |r| == |kept| + 1
    requires forall x :: x in r <==> x in kept || x == Entry(values[k], k)
    ensures TopKept(values, r, n, k + 1)
  {
    PositionsOfInsert(kept, Entry(values[k], k), r);
  }

  /** Dropping the least entry keeps the top-N invariant, the dropped voxel now among the unkept ones. */
  lemma DropFirst(values: seq<real>, list: seq<Entry>, k: nat)
    requires |list| > 0 && Ordered(list) && Faithful(values, list, k) && k <= |values|
    requires forall e, i :: e in list && 0 <= i < k && i !in Positions(list) ==> Before(Entry(values[i], i), e)
    ensures Ordered(list[1..]) && Faithful(values, list[1..], k)
    ensures forall e, i :: e in list[1..] && 0 <= i < k && i !in Positions(list[1..]) ==> Before(Entry(values[i], i), e)
    ensures k < |values| && list[0].value <= values[k] ==>
      forall i :: 0 <= i < k && i !in Positions(list[1..]) ==> Before(Entry(values[i], i), Entry(values[k], k))
  {
    var m := list[0];
    forall e, i | e in list[1..] && 0 <= i < k && i !in Positions(list[1..])
      ensures Before(Entry(values[i], i), e)
    {
      if i == m.pos {
        var j :| 0 <= j < |list[1..]| && list[1..][j] == e;
        assert list[j + 1] == e;
        assert Entry(values[i], i) == m;
      } else {
        assert i !in Positions(list);
      }
    }
    if k < |values| && m.value <= values[k] {
      forall i | 0 <= i < k && i !in Positions(list[1..])
        ensures Before(Entry(values[i], i), Entry(values[k], k))
      {
        if i != m.pos {
          assert i !in Positions(list);
          assert Before(Entry(values[i], i), m);
        }
      }
    }
  }

  /** The last entry of an ordered list has the greatest value. */
  lemma LastIsGreatest(list: seq<Entry>)
    requires |list| > 0 && Ordered(list)
    ensures forall e :: e in list ==> e.value <= list[|list| - 1].value
  {
  }

  /**
   * What the bottom-N scan knows after the first `k` voxels: the list is
   * ordered, faithful, as long as it can be, holds every voxel while it is
   * short, and none of the voxels left out is smaller than a kept one. The
   * body is bound to a name so that the loop carries it as one fact.
   */
  ghost predicate BottomKept(values: seq<real>, list: seq<Entry>, n: nat, k: nat) {
    var known :=
      && k <= |values| && Ordered(list) && Faithful(values, list, k)
      && |list| == Min(n, k)
      && (|list| < n ==> forall i :: 0 <= i < k ==> i in Positions(list))
      && (forall e, i :: e in list && 0 <= i < k && i !in Positions(list) ==> e.value <= values[i]);
    known
  }

  /**
   * The bottom-N scan: keep the `n` smallest voxels seen so far; a voxel that
   * is not larger than the greatest one kept replaces it.
   */
  method SelectBottomN(values: seq<real>, n: nat) returns (list: seq<Entry>)
    requires n >= 1
    ensures Ordered(list) && Faithful(values, list, |values|)
    ensures |list| == Min(n, |values|)
    // the kept voxels are the smallest by value
    ensures forall e, i :: e in list && 0 <= i < |values| && i !in Positions(list) ==> e.value <= values[i]
  {
    list := [];
    var k := 0;
    while k < |values|
      invariant BottomKept(values, list, n, k)
    {
      var val := values[k];
      ghost var before := list;
      if |list| == n {
        if val > list[|list| - 1].value {
          BottomSkips(values, list, n, k);
          k := k + 1;
          continue;
        }
        DropLast(values, list, k);
        list := list[..|list| - 1];
      }
      var r := Insert(list, Entry(val, k));
      BottomInserts(values, before, list, r, n, k);
      list := r;
      k := k + 1;
    }
  }

  /** A voxel larger than every kept one is left out of a full list. */
  lemma BottomSkips(values: seq<real>, list: seq<Entry>, n: nat, k: nat)
    requires BottomKept(values, list, n, k) && k < |values| && n >= 1
    requires |list| == n && values[k] > list[|list| - 1].value
    ensures BottomKept(values, list, n, k + 1)
  {
    LastIsGreatest(list);
  }

  /** A voxel inserted into the list, after the greatest one is dropped from a full list. */
  lemma BottomInserts(values: seq<real>, before: seq<Entry>, kept: seq<Entry>, r: seq<Entry>, n: nat, k: nat)
    requires BottomKept(values, before, n, k) && k < |values| && n >= 1
    requires |before| == n ==> values[k] <= before[|before| - 1].value && kept == before[..|before| - 1]
    requires |before| < n ==> kept == before
    requires Ordered(kept) && Faithful(values, kept, k)
    requires forall e, i :: e in kept && 0 <= i < k && i !in Positions(kept) ==> e.value <= values[i]
    requires |before| == n ==>
      forall i :: 0 <= i < k && i !in Positions(kept) ==> values[k] <= values[i]
    requires Ordered(r) && |r| == |kept| + 1
    requires forall x :: x in r <==> x in kept || x == Entry(values[k], k)
    ensures BottomKept(values, r, n, k + 1)
  {
    PositionsOfInsert(kept, Entry(values[k], k), r);
  }

  /** Dropping the greatest entry keeps the bottom-N invariant, the dropped voxel now among the unkept ones. */
  lemma DropLast(values: seq<real>, list: seq<Entry>, k: nat)
    requires |list| > 0 && Ordered(list) && Faithful(values, list, k) && k <= |values|
    requires forall e, i :: e in list && 0 <= i < k && i !in Positions(list) ==> e.value <= values[i]
    ensures Ordered(list[..|list| - 1]) && Faithful(values, list[..|list| - 1], k)
    ensures forall e, i :: e in list[..|list| - 1] && 0 <= i < k && i !in Positions(list[..|list| - 1]) ==>
      e.value <= values[i]
    ensures k < |values| && values[k] <= list[|list| - 1].value ==>
      forall i :: 0 <= i < k && i !in Positions(list[..|list| - 1]) ==> values[k] <= values[i]
  {
    var m := list[|list| - 1];
    var init := list[..|list| - 1];
    LastIsGreatest(list);
    forall e, i | e in init && 0 <= i < k && i !in Positions(init)
      ensures e.value <= values[i]
    {
      if i == m.pos {
        assert values[i] == m.value;
      } else {
        assert i !in Positions(list);
      }
    }
    if k < |values| && values[k] <= m.value {
      forall i | 0 <= i < k && i !in Positions(init)
        ensures values[k] <= values[i]
      {
        if i != m.pos {
          assert i !in Positions(list);
        }
      }
    }
  }

  // ---------------------------------------------------------------------------
  // The output image
  // ---------------------------------------------------------------------------

  /** An output voxel: a number, or NaN with the -nan option. */
  datatype Sample = NaN | Num(r: real)

  /** The value of an unmarked voxel: 0 (NaN with -nan), swapped with 1 by -invert. */
  function ZeroLevel(useNaN: bool, invert: bool): (s: Sample)
    ensures s != OneLevel(useNaN, invert)
    ensures invert <==> s == Num(1.0)
  {
    if invert then Num(1.0) else if useNaN then NaN else Num(0.0)
  }

  /** The value of a marked voxel: 1, swapped with 0 (NaN with -nan) by -invert. */
  function OneLevel(useNaN: bool, invert: bool): Sample {
    if invert then (if useNaN then NaN else Num(0.0)) else Num(1.0)
  }

  /** The selection pass: clear every voxel, then mark every listed position. */
  method MarkSelection(out: array<Sample>, list: seq<Entry>, zero: Sample, one: Sample)
    requires forall e :: e in list ==> e.pos < out.Length
    modifies out
    ensures forall i :: 0 <= i < out.Length ==> out[i] == (if i in Positions(list) then one else zero)
  {
    for j := 0 to out.Length
      invariant forall i :: 0 <= i < j ==> out[i] == zero
    {
      out[j] := zero;
    }
    for t := 0 to |list|
      invariant forall i :: 0 <= i < out.Length ==> out[i] == (if i in Positions(list[..t]) then one else zero)
    {
      assert Positions(list[..t + 1]) == Positions(list[..t]) + {list[t].pos} by {
        assert list[..t + 1] == list[..t] + [list[t]];
      }
      out[list[t].pos] := one;
    }
    assert list[..|list|] == list;
  }

  /** The plain threshold pass: a voxel is `zero` when strictly below `val`, `one` otherwise. */
  method Binarise(values: seq<real>, out: array<Sample>, val: real, zero: Sample, one: Sample)
    requires |values| == out.Length
    modifies out
    ensures forall i :: 0 <= i < out.Length ==> out[i] == (if values[i] < val then zero else one)
  {
    for j := 0 to out.Length
      invariant forall i :: 0 <= i < j ==> out[i] == (if values[i] < val then zero else one)
    {
      out[j] := if values[j] < val then zero else one;
    }
  }

  /**
   * The command: check the options, then make the mask by selection or by
   * thresholding. `firstMin` stands for the histogram's first minimum; `list`
   * is the selection, when there is one. `asWritten` runs the set-up as
   * written rather than as intended.
   */
  method Execute(opts: Options, values: seq<real>, firstMin: real, out: array<Sample>, asWritten: bool)
    returns (r: Outcome<ThresholdError>, list: seq<Entry>)
    requires WellFormed(opts) && out.Length == |values|
    modifies out
    ensures r.Fail? <==> SetUp(opts, |values|, asWritten).Failure?
    ensures r.Fail? ==> r.error == SetUp(opts, |values|, asWritten).error && unchanged(out)
    ensures r.Pass? ==>
      var c := SetUp(opts, |values|, asWritten).value;
      var zero, one := ZeroLevel(opts.useNaN, c.invert), OneLevel(opts.useNaN, c.invert);
      && (c.mode.Level? ==> forall i :: 0 <= i < out.Length ==> out[i] == (if values[i] < c.mode.val then zero else one))
      && (c.mode.Histogram? ==> forall i :: 0 <= i < out.Length ==> out[i] == (if values[i] < firstMin then zero else one))
      && ((c.mode.SelectTop? || c.mode.SelectBottom?) ==>
            && Ordered(list) && Faithful(values, list, |values|) && |list| == c.mode.n
            && forall i :: 0 <= i < out.Length ==> out[i] == (if i in Positions(list) then one else zero))
      && (c.mode.SelectTop? ==>
            forall e, i :: e in list && 0 <= i < |values| && i !in Positions(list) ==> Before(Entry(values[i], i), e))
      && (c.mode.SelectBottom? ==>
            forall e, i :: e in list && 0 <= i < |values| && i !in Positions(list) ==> e.value <= values[i])
  {
    list := [];
    var config := SetUp(opts, |values|, asWritten);
    if config.Failure? {
      return Fail(config.error), list;
    }
    var c := config.value;
    var zero, one := ZeroLevel(opts.useNaN, c.invert), OneLevel(opts.useNaN, c.invert);
    match c.mode {
      case SelectTop(n) =>
        if n > 0 {
          list := SelectTopN(values, n);
        }
        MarkSelection(out, list, zero, one);
      case SelectBottom(n) =>
        if n > 0 {
          list := SelectBottomN(values, n);
        }
        MarkSelection(out, list, zero, one);
      case Level(val) =>
        Binarise(values, out, val, zero, one);
      case Histogram =>
        Binarise(values, out, firstMin, zero, one);
    }
    r := Pass;
  }
}
