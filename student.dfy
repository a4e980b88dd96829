/** compare_student (scripts/map-compare/compare.py): every compared field
    of one NWEA record against the matching app record. */
module StudentCompare {
  import opened TextOps
  import opened PyValues
  import opened Normalize
  import opened Comparators

  /** Which comparator a field goes through. */
  datatype Kind = Range | ExactInt | Decimal(tolerance: real) | Text | Date | MetGrowth

  const RIT_RANGE_FIELDS: seq<string> := ["startRIT", "endRIT"]
  const PERCENTILE_RANGE_FIELDS: seq<string> := ["startPercentile", "endPercentile"]
  const EXACT_INT_FIELDS: seq<string> :=
    ["projectedRIT", "projectedGrowth", "observedGrowth", "growthIndex", "conditionalGrowthPercentile"]
  /** The decimal fields with their tolerances, in the dict's insertion order. */
  const DECIMAL_FIELDS: seq<(string, real)> := [("observedGrowthSE", 0.1), ("conditionalGrowthIndex", 0.01)]

  /** The fields of fs, each with kind k. */
  function Tagged(fs: seq<string>, k: Kind): (cs: seq<(string, Kind)>)
    ensures |cs| == |fs|
    ensures forall i :: 0 <= i < |fs| ==> cs[i] == (fs[i], k)
  {
    seq(|fs|, i requires 0 <= i < |fs| => (fs[i], k))
  }

  /** The decimal fields, each with its tolerance as its kind. */
  function DecimalTagged(ds: seq<(string, real)>): (cs: seq<(string, Kind)>)
    ensures |cs| == |ds|
    ensures forall i :: 0 <= i < |ds| ==> cs[i] == (ds[i].0, Decimal(ds[i].1))
  {
    seq(|ds|, i requires 0 <= i < |ds| => (ds[i].0, Decimal(ds[i].1)))
  }

  /** Every comparison compare_student makes, in the order it makes them. */
  const COMPARISONS: seq<(string, Kind)> :=
    Tagged(RIT_RANGE_FIELDS, Range) + Tagged(PERCENTILE_RANGE_FIELDS, Range)
    + Tagged(EXACT_INT_FIELDS, ExactInt) + DecimalTagged(DECIMAL_FIELDS)
    + TAIL

  /** The names of the compared fields. */
  function Fields(cs: seq<(string, Kind)>): set<string> {
    set k | 0 <= k < |cs| :: cs[k].0
  }

  predicate DistinctFields(cs: seq<(string, Kind)>) {
    forall i, j :: 0 <= i < j < |cs| ==> cs[i].0 != cs[j].0
  }

  /** One field's comparison: the comparator its kind selects, applied to
      the two records' entries (a missing range field counts as {}). */
  function FieldDiff(parse: FloatParser, n: Record, a: Record, field: string, kind: Kind): Option<Diff> {
    match kind
    case Range => CompareRange(parse, GetOr(n, field, EMPTY_DICT), GetOr(a, field, EMPTY_DICT))
    case ExactInt => CompareExactInt(parse, Get(n, field), Get(a, field))
    case Decimal(t) => CompareDecimal(parse, Get(n, field), Get(a, field), t)
    case Text => CompareText(Get(n, field), Get(a, field))
    case Date => CompareText(NormalizeDate(Get(n, field)), NormalizeDate(Get(a, field)))
    case MetGrowth => CompareText(NormalizeMetGrowth(Get(n, field)), NormalizeMetGrowth(Get(a, field)))
  }

  /** `if diff: diffs[field] = diff`: a reported diff is stored under its field. */
  function Store(m: map<string, Diff>, field: string, diff: Option<Diff>): (r: map<string, Diff>)
    ensures diff.Some? ==> r == m[field := diff.value]
    ensures diff.None? ==> r == m
  {
    if diff.Some? then m[field := diff.value] else m
  }

  // The dict compare_student builds, one loop at a time.

  /** The range loop over fields, starting from m. */
  function RangeDiffs(parse: FloatParser, n: Record, a: Record, m: map<string, Diff>, fields: seq<string>): map<string, Diff>
    decreases |fields|
  {
    if fields == [] then m
    else
      var f := fields[|fields| - 1];
      Store(RangeDiffs(parse, n, a, m, fields[..|fields| - 1]), f,
        CompareRange(parse, GetOr(n, f, EMPTY_DICT), GetOr(a, f, EMPTY_DICT)))
  }

  /** The exact-integer loop over fields, starting from m. */
  function ExactIntDiffs(parse: FloatParser, n: Record, a: Record, m: map<string, Diff>, fields: seq<string>): map<string, Diff>
    decreases |fields|
  {
    if fields == [] then m
    else
      var f := fields[|fields| - 1];
      Store(ExactIntDiffs(parse, n, a, m, fields[..|fields| - 1]), f, CompareExactInt(parse, Get(n, f), Get(a, f)))
  }

  /** The decimal loop over the fields and tolerances ds, starting from m. */
  function DecimalDiffs(parse: FloatParser, n: Record, a: Record, m: map<string, Diff>, ds: seq<(string, real)>): map<string, Diff>
    decreases |ds|
  {
    if ds == [] then m
    else
      var (f, t) := ds[|ds| - 1];
      Store(DecimalDiffs(parse, n, a, m, ds[..|ds| - 1]), f, CompareDecimal(parse, Get(n, f), Get(a, f), t))
  }

  /** The dict after the four loops over the given field lists. */
  function LoopDiffs(parse: FloatParser, n: Record, a: Record,
                     rit: seq<string>, pct: seq<string>, ints: seq<string>, decs: seq<(string, real)>): map<string, Diff>
  {
    var m1 := RangeDiffs(parse, n, a, map[], rit);
    var m2 := RangeDiffs(parse, n, a, m1, pct);
    var m3 := ExactIntDiffs(parse, n, a, m2, ints);
    DecimalDiffs(parse, n, a, m3, decs)
  }

  /** The grade, date and Met Projected Growth steps after the loops. */
  function TailDiffs(parse: FloatParser, n: Record, a: Record, m4: map<string, Diff>): map<string, Diff> {
    var m5 := Store(m4, "grade", CompareText(Get(n, "grade"), Get(a, "grade")));
    var m6 := Store(m5, "date", CompareText(NormalizeDate(Get(n, "date")), NormalizeDate(Get(a, "date"))));
    Store(m6, "metProjectedGrowth",
      CompareText(NormalizeMetGrowth(Get(n, "metProjectedGrowth")), NormalizeMetGrowth(Get(a, "metProjectedGrowth"))))
  }

  /** The dict compare_student builds, step by step as its code does. */
  function StepwiseDiffs(parse: FloatParser, n: Record, a: Record): map<string, Diff> {
    TailDiffs(parse, n, a,
      LoopDiffs(parse, n, a, RIT_RANGE_FIELDS, PERCENTILE_RANGE_FIELDS, EXACT_INT_FIELDS, DECIMAL_FIELDS))
  }

  // The same dict as one fold over COMPARISONS, and what follows from that.

  /** The dict after the comparisons cs, made in order, starting from m. */
  function DiffsFrom(parse: FloatParser, n: Record, a: Record, m: map<string, Diff>, cs: seq<(string, Kind)>): map<string, Diff>
    decreases |cs|
  {
    if cs == [] then m
    else
      var c := cs[|cs| - 1];
      Store(DiffsFrom(parse, n, a, m, cs[..|cs| - 1]), c.0, FieldDiff(parse, n, a, c.0, c.1))
  }

  /** What compare_student returns: the diffs of every comparison in COMPARISONS. */
  function StudentDiffs(parse: FloatParser, n: Record, a: Record): map<string, Diff> {
    DiffsFrom(parse, n, a, map[], COMPARISONS)
  }

  lemma {:induction false} DiffsFromAppend(parse: FloatParser, n: Record, a: Record, m: map<string, Diff>,
                                           cs: seq<(string, Kind)>, ds: seq<(string, Kind)>)
    ensures DiffsFrom(parse, n, a, m, cs + ds) == DiffsFrom(parse, n, a, DiffsFrom(parse, n, a, m, cs), ds)
    decreases |ds|
  {
    if ds == [] {
      assert cs + ds == cs;
    } else {
      DiffsFromAppend(parse, n, a, m, cs, ds[..|ds| - 1]);
      assert (cs + ds)[..|cs + ds| - 1] == cs + ds[..|ds| - 1];
    }
  }

  lemma {:induction false} RangeDiffsIsFold(parse: FloatParser, n: Record, a: Record, m: map<string, Diff>, fs: seq<string>)
    ensures RangeDiffs(parse, n, a, m, fs) == DiffsFrom(parse, n, a, m, Tagged(fs, Range))
    decreases |fs|
  {
    if fs != [] {
      RangeDiffsIsFold(parse, n, a, m, fs[..|fs| - 1]);
      assert Tagged(fs, Range)[..|fs| - 1] == Tagged(fs[..|fs| - 1], Range);
    }
  }

  lemma {:induction false} ExactIntDiffsIsFold(parse: FloatParser, n: Record, a: Record, m: map<string, Diff>, fs: seq<string>)
    ensures ExactIntDiffs(parse, n, a, m, fs) == DiffsFrom(parse, n, a, m, Tagged(fs, ExactInt))
    decreases |fs|
  {
    if fs != [] {
      ExactIntDiffsIsFold(parse, n, a, m, fs[..|fs| - 1]);
      assert Tagged(fs, ExactInt)[..|fs| - 1] == Tagged(fs[..|fs| - 1], ExactInt);
    }
  }

  lemma {:induction false} DecimalDiffsIsFold(parse: FloatParser, n: Record, a: Record, m: map<string, Diff>, ds: seq<(string, real)>)
    ensures DecimalDiffs(parse, n, a, m, ds) == DiffsFrom(parse, n, a, m, DecimalTagged(ds))
    decreases |ds|
  {
    if ds != [] {
      DecimalDiffsIsFold(parse, n, a, m, ds[..|ds| - 1]);
      assert DecimalTagged(ds)[..|ds| - 1] == DecimalTagged(ds[..|ds| - 1]);
    }
  }

  /** The comparisons after the loops. */
  const TAIL: seq<(string, Kind)> := [("grade", Text), ("date", Date), ("metProjectedGrowth", MetGrowth)]

  /** One more comparison at the end is one more Store. */
  lemma DiffsFromSnoc(parse: FloatParser, n: Record, a: Record, m: map<string, Diff>,
                      cs: seq<(string, Kind)>, c: (string, Kind))
    ensures DiffsFrom(parse, n, a, m, cs + [c]) == Store(DiffsFrom(parse, n, a, m, cs), c.0, FieldDiff(parse, n, a, c.0, c.1))
  {
    assert (cs + [c])[..|cs|] == cs;
  }

  /** The last three comparisons, as a fold. */
  lemma TailIsFold(parse: FloatParser, n: Record, a: Record, m: map<string, Diff>)
    ensures DiffsFrom(parse, n, a, m, TAIL) == TailDiffs(parse, n, a, m)
  {
    var g, d, mg := ("grade", Text), ("date", Date), ("metProjectedGrowth", MetGrowth);
    assert [] + [g] == [g] && [g] + [d] == [g, d] && [g, d] + [mg] == TAIL;
    DiffsFromSnoc(parse, n, a, m, [], g);
    var m5 := Store(m, "grade", CompareText(Get(n, "grade"), Get(a, "grade")));
    assert DiffsFrom(parse, n, a, m, [g]) == m5;
    DiffsFromSnoc(parse, n, a, m, [g], d);
    var m6 := Store(m5, "date", CompareText(NormalizeDate(Get(n, "date")), NormalizeDate(Get(a, "date"))));
    assert DiffsFrom(parse, n, a, m, [g, d]) == m6;
    DiffsFromSnoc(parse, n, a, m, [g, d], mg);
    var last := CompareText(NormalizeMetGrowth(Get(n, "metProjectedGrowth")), NormalizeMetGrowth(Get(a, "metProjectedGrowth")));
    assert FieldDiff(parse, n, a, "metProjectedGrowth", MetGrowth) == last;
    assert TailDiffs(parse, n, a, m) == Store(m6, "metProjectedGrowth", last);
  }

  /** The four loops make the comparisons of their tagged lists in order. */
  lemma LoopsAreFold(parse: FloatParser, n: Record, a: Record,
                     rit: seq<string>, pct: seq<string>, ints: seq<string>, decs: seq<(string, real)>)
    ensures LoopDiffs(parse, n, a, rit, pct, ints, decs) ==
      DiffsFrom(parse, n, a, map[], Tagged(rit, Range) + Tagged(pct, Range) + Tagged(ints, ExactInt) + DecimalTagged(decs))
  {
    var t1, t2, t3, t4 := Tagged(rit, Range), Tagged(pct, Range), Tagged(ints, ExactInt), DecimalTagged(decs);
    var m1 := RangeDiffs(parse, n, a, map[], rit);
    var m2 := RangeDiffs(parse, n, a, m1, pct);
    var m3 := ExactIntDiffs(parse, n, a, m2, ints);
    RangeDiffsIsFold(parse, n, a, map[], rit);
    RangeDiffsIsFold(parse, n, a, m1, pct);
    ExactIntDiffsIsFold(parse, n, a, m2, ints);
    DecimalDiffsIsFold(parse, n, a, m3, decs);
    DiffsFromAppend(parse, n, a, map[], t1, t2);
    DiffsFromAppend(parse, n, a, map[], t1 + t2, t3);
    DiffsFromAppend(parse, n, a, map[], t1 + t2 + t3, t4);
  }

  /** compare_student's loops and steps make the comparisons of COMPARISONS in order. */
  lemma StudentDiffsIsFold(parse: FloatParser, n: Record, a: Record)
    ensures StepwiseDiffs(parse, n, a) == StudentDiffs(parse, n, a)
  {
    var loops := Tagged(RIT_RANGE_FIELDS, Range) + Tagged(PERCENTILE_RANGE_FIELDS, Range)
      + Tagged(EXACT_INT_FIELDS, ExactInt) + DecimalTagged(DECIMAL_FIELDS);
    assert COMPARISONS == loops + TAIL;
    LoopsAreFold(parse, n, a, RIT_RANGE_FIELDS, PERCENTILE_RANGE_FIELDS, EXACT_INT_FIELDS, DECIMAL_FIELDS);
    DiffsFromAppend(parse, n, a, map[], loops, TAIL);
    TailIsFold(parse, n, a, DiffsFrom(parse, n, a, map[], loops));
  }

  lemma ComparisonsDistinct()
    ensures DistinctFields(COMPARISONS)
  {
    var names := ["startRIT", "endRIT", "startPercentile", "endPercentile", "projectedRIT", "projectedGrowth",
                  "observedGrowth", "growthIndex", "conditionalGrowthPercentile", "observedGrowthSE",
                  "conditionalGrowthIndex", "grade", "date", "metProjectedGrowth"];
    assert |COMPARISONS| == |names|;
    forall i | 0 <= i < |names|
      ensures COMPARISONS[i].0 == names[i]
    {
    }
    ComparedNamesDistinct(names);
  }

  lemma ComparedNamesDistinct(names: seq<string>)
    requires names == ["startRIT", "endRIT", "startPercentile", "endPercentile", "projectedRIT", "projectedGrowth",
                       "observedGrowth", "growthIndex", "conditionalGrowthPercentile", "observedGrowthSE",
                       "conditionalGrowthIndex", "grade", "date", "metProjectedGrowth"]
    ensures forall i, j :: 0 <= i < j < |names| ==> names[i] != names[j]
  {
  }

  /** Starting from an empty dict, only compared fields become keys. */
  lemma {:induction false} DiffsFromKeys(parse: FloatParser, n: Record, a: Record, cs: seq<(string, Kind)>)
    ensures DiffsFrom(parse, n, a, map[], cs).Keys <= Fields(cs)
    decreases |cs|
  {
    if cs != [] {
      var init := cs[..|cs| - 1];
      DiffsFromKeys(parse, n, a, init);
      forall x | x in Fields(init)
        ensures x in Fields(cs)
      {
        var k :| 0 <= k < |init| && init[k].0 == x;
        assert cs[k] == init[k];
      }
    }
  }

  /** With distinct field names, the k-th comparison's field is in the dict
      exactly when that comparison reported a diff, and then holds that diff. */
  lemma {:induction false} DiffsFromEntry(parse: FloatParser, n: Record, a: Record, cs: seq<(string, Kind)>, k: nat)
    requires DistinctFields(cs) && k < |cs|
    ensures cs[k].0 in DiffsFrom(parse, n, a, map[], cs) <==> FieldDiff(parse, n, a, cs[k].0, cs[k].1).Some?
    ensures cs[k].0 in DiffsFrom(parse, n, a, map[], cs) ==>
      DiffsFrom(parse, n, a, map[], cs)[cs[k].0] == FieldDiff(parse, n, a, cs[k].0, cs[k].1).value
    decreases |cs|
  {
    var init, last := cs[..|cs| - 1], cs[|cs| - 1];
    if k < |cs| - 1 {
      assert cs[k] == init[k] && cs[k].0 != last.0;
      assert DistinctFields(init) by {
        forall i, j | 0 <= i < j < |init|
          ensures init[i].0 != init[j].0
        {
          assert init[i] == cs[i] && init[j] == cs[j];
        }
      }
      DiffsFromEntry(parse, n, a, init, k);
    } else {
      DiffsFromKeys(parse, n, a, init);
      forall i | 0 <= i < |init|
        ensures init[i].0 != last.0
      {
        assert init[i] == cs[i];
      }
    }
  }

  /** Starting from an empty dict with distinct field names, a field is in
      the dict exactly when its comparison reported a diff, and then it holds
      that diff. */
  lemma DiffsFromAt(parse: FloatParser, n: Record, a: Record, cs: seq<(string, Kind)>)
    requires DistinctFields(cs)
    ensures DiffsFrom(parse, n, a, map[], cs).Keys <= Fields(cs)
    ensures forall k :: 0 <= k < |cs| ==>
      (cs[k].0 in DiffsFrom(parse, n, a, map[], cs) <==> FieldDiff(parse, n, a, cs[k].0, cs[k].1).Some?)
    ensures forall k :: 0 <= k < |cs| && cs[k].0 in DiffsFrom(parse, n, a, map[], cs) ==>
      DiffsFrom(parse, n, a, map[], cs)[cs[k].0] == FieldDiff(parse, n, a, cs[k].0, cs[k].1).value
  {
    DiffsFromKeys(parse, n, a, cs);
    forall k | 0 <= k < |cs|
      ensures cs[k].0 in DiffsFrom(parse, n, a, map[], cs) <==> FieldDiff(parse, n, a, cs[k].0, cs[k].1).Some?
      ensures cs[k].0 in DiffsFrom(parse, n, a, map[], cs) ==>
        DiffsFrom(parse, n, a, map[], cs)[cs[k].0] == FieldDiff(parse, n, a, cs[k].0, cs[k].1).value
    {
      DiffsFromEntry(parse, n, a, cs, k);
    }
  }

  /** compare_student's dict: its keys are compared field names, a field is
      present exactly when its comparator reports a diff, and it holds that diff. */
  lemma StudentDiffsAt(parse: FloatParser, n: Record, a: Record)
    ensures StudentDiffs(parse, n, a).Keys <= Fields(COMPARISONS)
    ensures forall k :: 0 <= k < |COMPARISONS| ==>
      (COMPARISONS[k].0 in StudentDiffs(parse, n, a) <==> FieldDiff(parse, n, a, COMPARISONS[k].0, COMPARISONS[k].1).Some?)
    ensures forall k :: 0 <= k < |COMPARISONS| && COMPARISONS[k].0 in StudentDiffs(parse, n, a) ==>
      StudentDiffs(parse, n, a)[COMPARISONS[k].0] == FieldDiff(parse, n, a, COMPARISONS[k].0, COMPARISONS[k].1).value
  {
    StudentDiffsIsFold(parse, n, a);
    ComparisonsDistinct();
    DiffsFromAt(parse, n, a, COMPARISONS);
  }

  /** Comparing a field of a record with itself reports nothing. */
  lemma FieldDiffReflexive(parse: FloatParser, r: Record, field: string, kind: Kind)
    requires kind.Decimal? ==> kind.tolerance >= 0.0
    ensures FieldDiff(parse, r, r, field, kind) == None
  {
    match kind
    case Range => ComparatorsReflexive(parse, GetOr(r, field, EMPTY_DICT), 0.0);
    case ExactInt => ComparatorsReflexive(parse, Get(r, field), 0.0);
    case Decimal(t) => ComparatorsReflexive(parse, Get(r, field), t);
    case _ =>
  }

  lemma {:induction false} DiffsFromReflexive(parse: FloatParser, r: Record, m: map<string, Diff>, cs: seq<(string, Kind)>)
    requires forall k :: 0 <= k < |cs| && cs[k].1.Decimal? ==> cs[k].1.tolerance >= 0.0
    ensures DiffsFrom(parse, r, r, m, cs) == m
    decreases |cs|
  {
    if cs != [] {
      DiffsFromReflexive(parse, r, m, cs[..|cs| - 1]);
      FieldDiffReflexive(parse, r, cs[|cs| - 1].0, cs[|cs| - 1].1);
    }
  }

  /** A record compared with itself has no diffs. */
  lemma StudentDiffsReflexive(parse: FloatParser, r: Record)
    ensures StudentDiffs(parse, r, r) == map[]
  {
    StudentDiffsIsFold(parse, r, r);
    DiffsFromReflexive(parse, r, map[], COMPARISONS);
  }

  /** Whether a field's comparison reports a diff does not depend on which
      record is the NWEA one. */
  lemma FieldDiffSymmetric(parse: FloatParser, n: Record, a: Record, field: string, kind: Kind)
    ensures FieldDiff(parse, n, a, field, kind).None? == FieldDiff(parse, a, n, field, kind).None?
  {
    match kind
    case Range => CompareRangeSymmetric(parse, GetOr(n, field, EMPTY_DICT), GetOr(a, field, EMPTY_DICT));
    case ExactInt => CompareExactIntSymmetric(parse, Get(n, field), Get(a, field));
    case Decimal(t) => DecimalDiffSymmetric(parse, NormalizeValue(Get(n, field)), NormalizeValue(Get(a, field)), t);
    case Text => CompareTextSymmetric(Get(n, field), Get(a, field));
    case Date => CompareTextSymmetric(NormalizeDate(Get(n, field)), NormalizeDate(Get(a, field)));
    case MetGrowth => CompareTextSymmetric(NormalizeMetGrowth(Get(n, field)), NormalizeMetGrowth(Get(a, field)));
  }

  lemma {:induction false} DiffsFromSymmetric(parse: FloatParser, n: Record, a: Record,
                                              m1: map<string, Diff>, m2: map<string, Diff>, cs: seq<(string, Kind)>)
    requires m1.Keys == m2.Keys
    ensures DiffsFrom(parse, n, a, m1, cs).Keys == DiffsFrom(parse, a, n, m2, cs).Keys
    decreases |cs|
  {
    if cs != [] {
      DiffsFromSymmetric(parse, n, a, m1, m2, cs[..|cs| - 1]);
      FieldDiffSymmetric(parse, n, a, cs[|cs| - 1].0, cs[|cs| - 1].1);
    }
  }

  /** Swapping the two records gives diffs on the same fields. */
  lemma StudentDiffsSymmetric(parse: FloatParser, n: Record, a: Record)
    ensures StudentDiffs(parse, n, a).Keys == StudentDiffs(parse, a, n).Keys
  {
    StudentDiffsIsFold(parse, n, a);
    StudentDiffsIsFold(parse, a, n);
    DiffsFromSymmetric(parse, n, a, map[], map[], COMPARISONS);
  }

  /** One range loop of compare_student: compare_range on each field, a
      missing field counting as {}. */
  method AddRangeDiffs(parse: FloatParser, nweaStudent: Record, appStudent: Record,
                       diffs0: map<string, Diff>, fields: seq<string>)
    returns (diffs: map<string, Diff>)
    ensures diffs == RangeDiffs(parse, nweaStudent, appStudent, diffs0, fields)
  {
    diffs := diffs0;
    for i := 0 to |fields|
      invariant diffs == RangeDiffs(parse, nweaStudent, appStudent, diffs0, fields[..i])
    {
      var field := fields[i];
      var diff := CompareRange(parse, GetOr(nweaStudent, field, EMPTY_DICT), GetOr(appStudent, field, EMPTY_DICT));
      diffs := Store(diffs, field, diff);
      assert fields[..i + 1][..i] == fields[..i];
    }
    assert fields[..|fields|] == fields;
  }

  /** The exact-integer loop of compare_student. */
  method AddExactIntDiffs(parse: FloatParser, nweaStudent: Record, appStudent: Record,
                          diffs0: map<string, Diff>, fields: seq<string>)
    returns (diffs: map<string, Diff>)
    ensures diffs == ExactIntDiffs(parse, nweaStudent, appStudent, diffs0, fields)
  {
    diffs := diffs0;
    for i := 0 to |fields|
      invariant diffs == ExactIntDiffs(parse, nweaStudent, appStudent, diffs0, fields[..i])
    {
      var field := fields[i];
      assert fields[..i + 1][..i] == fields[..i];
      var diff := CompareExactInt(parse, Get(nweaStudent, field), Get(appStudent, field));
      diffs := Store(diffs, field, diff);
    }
    assert fields[..|fields|] == fields;
  }

  /** The decimal loop of compare_student, each field with its tolerance. */
  method AddDecimalDiffs(parse: FloatParser, nweaStudent: Record, appStudent: Record,
                         diffs0: map<string, Diff>, fields: seq<(string, real)>)
    returns (diffs: map<string, Diff>)
    ensures diffs == DecimalDiffs(parse, nweaStudent, appStudent, diffs0, fields)
  {
    diffs := diffs0;
    for i := 0 to |fields|
      invariant diffs == DecimalDiffs(parse, nweaStudent, appStudent, diffs0, fields[..i])
    {
      assert fields[..i + 1][..i] == fields[..i] && fields[..i + 1][i] == fields[i];
      var (field, tolerance) := fields[i];
      var diff := CompareDecimal(parse, Get(nweaStudent, field), Get(appStudent, field), tolerance);
      assert DecimalDiffs(parse, nweaStudent, appStudent, diffs0, fields[..i + 1]) == Store(diffs, field, diff);
      diffs := Store(diffs, field, diff);
    }
    assert fields[..|fields|] == fields;
  }

  /** compare_student: runs the range, exact-integer and decimal loops, then
      grade, date and Met Projected Growth, storing each reported diff. */
  method CompareStudent(parse: FloatParser, nweaStudent: Record, appStudent: Record)
    returns (diffs: map<string, Diff>)
    ensures diffs == StudentDiffs(parse, nweaStudent, appStudent)
  {
    StudentDiffsIsFold(parse, nweaStudent, appStudent);
    diffs := AddRangeDiffs(parse, nweaStudent, appStudent, map[], RIT_RANGE_FIELDS);
    diffs := AddRangeDiffs(parse, nweaStudent, appStudent, diffs, PERCENTILE_RANGE_FIELDS);
    diffs := AddExactIntDiffs(parse, nweaStudent, appStudent, diffs, EXACT_INT_FIELDS);
    diffs := AddDecimalDiffs(parse, nweaStudent, appStudent, diffs, DECIMAL_FIELDS);

    var diff := CompareText(Get(nweaStudent, "grade"), Get(appStudent, "grade"));
    diffs := Store(diffs, "grade", diff);
    diff := CompareText(NormalizeDate(Get(nweaStudent, "date")), NormalizeDate(Get(appStudent, "date")));
    diffs := Store(diffs, "date", diff);
    diff := CompareText(NormalizeMetGrowth(Get(nweaStudent, "metProjectedGrowth")),
                        NormalizeMetGrowth(Get(appStudent, "metProjectedGrowth")));
    diffs := Store(diffs, "metProjectedGrowth", diff);
  }
}
