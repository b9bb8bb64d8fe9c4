/**
 * The header of a track file: a dictionary of string properties with a
 * creation timestamp, the regions of interest and the seeds the tracks were
 * made with, and free-text comments; and the checks that two such headers
 * belong together.
 */
module TrackProperties {
  import opened Wrappers

  /** A region of interest and a seed definition; only their presence matters here. */
  type Roi(==)
  type Seed(==)

  const TimestampKey: string := "timestamp"
  const CountKey: string := "count"

  class Properties {
    var dict: map<string, string>
    var includeRois: seq<Roi>
    var excludeRois: seq<Roi>
    var maskRois: seq<Roi>
    var seeds: seq<Seed>
    var comments: seq<string>
    var roi: seq<(string, string)>

    /** Nothing but the empty containers. */
    predicate Empty()
      reads this
    {
      dict == map[] && includeRois == [] && excludeRois == [] && maskRois == [] && seeds == [] && comments == [] && roi == []
    }

    /** A new header holds only its timestamp; `now` is the formatted current time. */
    constructor (now: string)
      ensures dict == map[TimestampKey := now]
      ensures includeRois == [] && excludeRois == [] && maskRois == [] && seeds == [] && comments == [] && roi == []
    {
      dict := map[];
      includeRois, excludeRois, maskRois := [], [], [];
      seeds, comments, roi := [], [], [];
      new;
      SetTimestamp(now);
    }

    /** Stamp the header with `now`, replacing any earlier stamp. */
    method SetTimestamp(now: string)
      modifies this`dict
      ensures dict == old(dict)[TimestampKey := now]
    {
      dict := dict[TimestampKey := now];
    }

    /** Empty the dictionary and every other container. */
    method Clear()
      modifies this
      ensures Empty()
    {
      dict := map[];
      seeds := [];
      includeRois, excludeRois, maskRois := [], [], [];
      comments := [];
      roi := [];
    }

    /**
     * Record `variable` under `name` unless a non-empty value is already
     * recorded there, in which case the variable takes that value instead.
     * `str` and `to` are the formatting and parsing of values of type `T`.
     */
    method Set<T>(variable: T, name: string, str: T -> string, to: string -> T) returns (value: T)
      modifies this`dict
      ensures (dict, value) == Settle(old(dict), name, variable, str, to)
    {
      if name !in dict || dict[name] == "" {
        dict := dict[name := str(variable)];
        value := variable;
      } else {
        value := to(dict[name]);
      }
    }
  }

  /** What `set` does to the dictionary and to the variable. */
  function Settle<T>(d: map<string, string>, name: string, variable: T, str: T -> string, to: string -> T)
    : (r: (map<string, string>, T))
    // the entry exists afterwards, and no other entry changes
    ensures name in r.0
    ensures forall k :: k != name ==> (k in r.0 <==> k in d)
    ensures forall k :: k != name && k in d ==> r.0[k] == d[k]
    // an absent or empty entry is written, and the variable is kept
    ensures name !in d || d[name] == "" ==> r.0[name] == str(variable) && r.1 == variable
    // a filled entry is kept, and the variable is read from it
    ensures name in d && d[name] != "" ==> r.0 == d && r.1 == to(d[name])
  {
    if name !in d || d[name] == "" then (d[name := str(variable)], variable)
    else (d, to(d[name]))
  }

  /**
   * The first non-empty value recorded under a name wins: every later `set`
   * of that name leaves the dictionary alone and reads the value back, and
   * when parsing undoes formatting the variable ends where the first `set`
   * left it.
   */
  lemma {:induction false} FirstSetWins<T>(d: map<string, string>, name: string, x: T, y: T,
                                           str: T -> string, to: string -> T)
    requires str(x) != ""
    requires forall v :: to(str(v)) == v
    ensures var (d1, v1) := Settle(d, name, x, str, to);
      var (d2, v2) := Settle(d1, name, y, str, to);
      d2 == d1 && v2 == to(d1[name]) && (name !in d || d[name] == "" ==> v2 == v1)
  {
    var (d1, v1) := Settle(d, name, x, str, to);
    if name !in d || d[name] == "" {
      assert d1[name] == str(x) && v1 == x;
      assert to(str(x)) == x;
    }
  }

  // ---------------------------------------------------------------------------
  // Pair checks
  // ---------------------------------------------------------------------------

  datatype PairError =
    | MissingTimestamp    // either header has no timestamp
    | TimestampMismatch   // the two timestamps differ
    | MissingCount        // either header has no count
    | CountMismatch       // the two counts differ

  /**
   * `check_timestamps`: two headers belong together when both carry a
   * timestamp and the two are equal.
   */
  function CheckTimestamps(a: map<string, string>, b: map<string, string>): (r: Outcome<PairError>)
    ensures r == Fail(MissingTimestamp) <==> TimestampKey !in a || TimestampKey !in b
    ensures r == Fail(TimestampMismatch) <==> TimestampKey in a && TimestampKey in b && a[TimestampKey] != b[TimestampKey]
    ensures r == Pass <==> TimestampKey in a && TimestampKey in b && a[TimestampKey] == b[TimestampKey]
  {
    if TimestampKey !in a || TimestampKey !in b then Fail(MissingTimestamp)
    else if a[TimestampKey] != b[TimestampKey] then Fail(TimestampMismatch)
    else Pass
  }

  /** The timestamp check does not depend on the order of the pair. */
  lemma CheckTimestampsIsSymmetric(a: map<string, string>, b: map<string, string>)
    ensures CheckTimestamps(a, b) == CheckTimestamps(b, a)
  {
  }

  /** Two headers made at the same moment pass the timestamp check; a cleared header never does. */
  lemma FreshHeadersMatch(now: string, b: map<string, string>)
    ensures CheckTimestamps(map[TimestampKey := now], map[TimestampKey := now]) == Pass
    ensures CheckTimestamps(map[], b) == Fail(MissingTimestamp)
  {
  }

  /** How a count check ends: with warnings only, with an exception, or in undefined behaviour. */
  datatype CountCheck =
    | Passed(warnings: seq<PairError>)
    | Thrown(error: PairError)
    | Undefined

  /**
   * `check_counts` as written: a missing count without `abortOnFail` is
   * warned about, and the counts are then parsed anyway, which dereferences
   * the map's end. `parse` is the conversion of a count to a number.
   */
  function CheckCountsAsWritten(a: map<string, string>, b: map<string, string>, abortOnFail: bool,
                                parse: string -> nat): (r: CountCheck)
    ensures r == Undefined <==> !abortOnFail && (CountKey !in a || CountKey !in b)
    ensures r == Thrown(MissingCount) <==> abortOnFail && (CountKey !in a || CountKey !in b)
  {
    if CountKey !in a || CountKey !in b then
      if abortOnFail then Thrown(MissingCount) else Undefined
    else if parse(a[CountKey]) != parse(b[CountKey]) then
      if abortOnFail then Thrown(CountMismatch) else Passed([CountMismatch])
    else Passed([])
  }

  /**
   * `check_counts` as intended: a missing count is an exception with
   * `abortOnFail` and a warning without it, and only counts that are both
   * present are compared.
   */
  function CheckCounts(a: map<string, string>, b: map<string, string>, abortOnFail: bool,
                       parse: string -> nat): (r: CountCheck)
    ensures r != Undefined
    // exceptions only with abortOnFail, for the first problem found
    ensures r.Thrown? ==> abortOnFail
    ensures r == Thrown(MissingCount) <==> abortOnFail && (CountKey !in a || CountKey !in b)
    ensures r == Thrown(CountMismatch) <==>
      abortOnFail && CountKey in a && CountKey in b && parse(a[CountKey]) != parse(b[CountKey])
    // without abortOnFail, the same problem as a warning
    ensures !abortOnFail ==> r.Passed? && |r.warnings| <= 1
    ensures r == Passed([MissingCount]) <==> !abortOnFail && (CountKey !in a || CountKey !in b)
    ensures r == Passed([CountMismatch]) <==>
      !abortOnFail && CountKey in a && CountKey in b && parse(a[CountKey]) != parse(b[CountKey])
    // no problem: no warning
    ensures r == Passed([]) <==> CountKey in a && CountKey in b && parse(a[CountKey]) == parse(b[CountKey])
  {
    if CountKey !in a || CountKey !in b then
      if abortOnFail then Thrown(MissingCount) else Passed([MissingCount])
    else if parse(a[CountKey]) != parse(b[CountKey]) then
      if abortOnFail then Thrown(CountMismatch) else Passed([CountMismatch])
    else Passed([])
  }

  /** The two versions differ exactly where the code as written is undefined. */
  lemma CheckCountsDiffersOnlyWhenUndefined(a: map<string, string>, b: map<string, string>, abortOnFail: bool,
                                            parse: string -> nat)
    ensures CheckCountsAsWritten(a, b, abortOnFail, parse) != Undefined ==>
      CheckCountsAsWritten(a, b, abortOnFail, parse) == CheckCounts(a, b, abortOnFail, parse)
    ensures CheckCountsAsWritten(a, b, abortOnFail, parse) == Undefined ==>
      CheckCounts(a, b, abortOnFail, parse) == Passed([MissingCount])
  {
  }

  /** Without `abortOnFail`, the exception the check would throw becomes its one warning. */
  lemma WarningsMirrorExceptions(a: map<string, string>, b: map<string, string>, parse: string -> nat)
    ensures CheckCounts(a, b, true, parse).Thrown? <==> CheckCounts(a, b, false, parse) != Passed([])
    ensures CheckCounts(a, b, true, parse).Thrown? ==>
      CheckCounts(a, b, false, parse) == Passed([CheckCounts(a, b, true, parse).error])
  {
  }

  /** The count check does not depend on the order of the pair. */
  lemma CheckCountsIsSymmetric(a: map<string, string>, b: map<string, string>, abortOnFail: bool,
                               parse: string -> nat)
    ensures CheckCounts(a, b, abortOnFail, parse) == CheckCounts(b, a, abortOnFail, parse)
  {
  }

  /** Two freshly made headers, which carry no count, hit the undefined path when only warning. */
  lemma MissingCountWithoutAbortIsUndefined(parse: string -> nat)
    ensures CheckCountsAsWritten(map[TimestampKey := "0"], map[TimestampKey := "0"], false, parse) == Undefined
    ensures CheckCounts(map[TimestampKey := "0"], map[TimestampKey := "0"], false, parse) == Passed([MissingCount])
  {
  }
}
