/** The per-field comparators of the comparison engine
    (scripts/map-compare/compare.py): each returns either no diff (None)
    or a diff record. */
module Comparators {
  import opened TextOps
  import opened PyValues
  import opened Normalize

  /** A value a diff record reports: an integer made by int(round(float(v))),
      or a normalised value kept as it was. */
  datatype Cell = Rounded(n: int) | Kept(v: Val)

  /** A diff record as generate_report reads it: for range fields nwea and
      app are the 'nwea_mid' and 'app_mid' entries, for the other fields the
      'nwea' and 'app' entries; delta is absent or None when not given. */
  datatype Diff = Diff(nwea: Cell, app: Cell, delta: Option<real>)

  /** int(round(float(v))), or None when float() raises. */
  function RoundedInt(parse: FloatParser, v: Val): Option<int> {
    match ToFloat(parse, v)
    case Some(x) => Some(RoundHalfEven(x))
    case None => None
  }

  /** The normalised mid value of a range object. */
  function Mid(range: Val): Val {
    NormalizeValue(GetMidValue(range))
  }

  /** Python's == on two reported values: integers against numbers by value. */
  predicate CellEq(a: Cell, b: Cell) {
    match (a, b)
    case (Rounded(i), Rounded(j)) => i == j
    case (Rounded(i), Kept(v)) => v.Num? && v.x == i as real
    case (Kept(v), Rounded(j)) => v.Num? && v.x == j as real
    case (Kept(v), Kept(w)) => PyEq(v, w)
  }

  /** isinstance(c, (int, float)). */
  predicate IsNumber(c: Cell) {
    c.Rounded? || (c.Kept? && c.v.Num?)
  }

  function NumberOf(c: Cell): real
    requires IsNumber(c)
  {
    if c.Rounded? then c.n as real else c.v.x
  }

  function Abs(x: real): real {
    if x < 0.0 then -x else x
  }

  /** compare_range: two dicts are compared by their normalised mid values
      (MidDiff); anything else gives no diff. */
  function CompareRange(parse: FloatParser, nweaRange: Val, appRange: Val): (r: Option<Diff>)
    ensures !(nweaRange.Obj? && appRange.Obj?) ==> r == None
    ensures nweaRange.Obj? && appRange.Obj? ==> r == MidDiff(parse, Mid(nweaRange), Mid(appRange))
    ensures Mid(nweaRange).Null? && Mid(appRange).Null? ==> r == None
  {
    if nweaRange.Obj? && appRange.Obj? then MidDiff(parse, Mid(nweaRange), Mid(appRange)) else None
  }

  /** The try block of compare_exact_int: the NWEA side is converted first,
      and when that raises the app side is left as it is. */
  function ConvertPair(parse: FloatParser, nv: Val, av: Val): (Cell, Cell) {
    if !nv.Null? && RoundedInt(parse, nv).None? then (Kept(nv), Kept(av))
    else
      var nc := if nv.Null? then Kept(Null) else Rounded(RoundedInt(parse, nv).value);
      var ac := if !av.Null? && RoundedInt(parse, av).Some? then Rounded(RoundedInt(parse, av).value) else Kept(av);
      (nc, ac)
  }

  /** compare_exact_int on the two values after normalize_value: both sides
      rounded to integers before comparing. */
  function ExactIntDiff(parse: FloatParser, nv: Val, av: Val): (r: Option<Diff>)
    ensures nv.Null? && av.Null? ==> r == None
    ensures RoundedInt(parse, nv).Some? && RoundedInt(parse, av).Some? ==>
      var ni, ai := RoundedInt(parse, nv).value, RoundedInt(parse, av).value;
      r == if ni == ai then None else Some(Diff(Rounded(ni), Rounded(ai), Some((ai - ni) as real)))
    ensures nv.Null? && RoundedInt(parse, av).Some? ==>
      r == Some(Diff(Kept(Null), Rounded(RoundedInt(parse, av).value), None))
    ensures av.Null? && RoundedInt(parse, nv).Some? ==>
      r == Some(Diff(Rounded(RoundedInt(parse, nv).value), Kept(Null), None))
    ensures r.Some? && r.value.delta.Some? ==> RoundedInt(parse, nv).Some? && RoundedInt(parse, av).Some?
    ensures !nv.Null? && RoundedInt(parse, nv).None? ==>
      r == if PyEq(nv, av) then None else Some(Diff(Kept(nv), Kept(av), None))
    ensures (nv.Null? || RoundedInt(parse, nv).Some?) && !av.Null? && RoundedInt(parse, av).None? ==>
      r == Some(Diff(if nv.Null? then Kept(Null) else Rounded(RoundedInt(parse, nv).value), Kept(av), None))
  {
    if nv.Null? && av.Null? then None
    else
      var (nc, ac) := ConvertPair(parse, nv, av);
      if !CellEq(nc, ac) then
        var delta := if IsNumber(nc) && IsNumber(ac) then Some(NumberOf(ac) - NumberOf(nc)) else None;
        Some(Diff(nc, ac, delta))
      else None
  }

  /** compare_exact_int: two absent or placeholder values match, a value
      matches itself, and otherwise the normalised values are compared. */
  function CompareExactInt(parse: FloatParser, nweaVal: Val, appVal: Val): (r: Option<Diff>)
    ensures NormalizeValue(nweaVal) == Null && NormalizeValue(appVal) == Null ==> r == None
    ensures nweaVal == appVal ==> r == None
  {
    PyEqReflexive(NormalizeValue(nweaVal));
    ExactIntDiff(parse, NormalizeValue(nweaVal), NormalizeValue(appVal))
  }

  /** compare_decimal on the two values after normalize_value: numbers
      within the tolerance match. */
  function DecimalDiff(parse: FloatParser, nv: Val, av: Val, tolerance: real): (r: Option<Diff>)
    ensures nv.Null? && av.Null? ==> r == None
    ensures ToFloat(parse, nv).Some? && ToFloat(parse, av).Some? ==>
      var x, y := ToFloat(parse, nv).value, ToFloat(parse, av).value;
      r == if Abs(x - y) > tolerance then Some(Diff(Kept(nv), Kept(av), Some(RoundTo4(y - x)))) else None
    ensures (nv.Null? != av.Null?
             && (nv.Null? || ToFloat(parse, nv).Some?) && (av.Null? || ToFloat(parse, av).Some?)) ==>
      r == Some(Diff(Kept(nv), Kept(av), None))
    ensures (!nv.Null? && ToFloat(parse, nv).None?) || (!av.Null? && ToFloat(parse, av).None?) ==>
      r == if PyStr(nv) == PyStr(av) then None else Some(Diff(Kept(nv), Kept(av), None))
  {
    if nv.Null? && av.Null? then None
    else if (!nv.Null? && ToFloat(parse, nv).None?) || (!av.Null? && ToFloat(parse, av).None?) then
      // float() raised: the except branch compares the str() texts
      if PyStr(nv) != PyStr(av) then Some(Diff(Kept(nv), Kept(av), None)) else None
    else if nv.Null? || av.Null? then Some(Diff(Kept(nv), Kept(av), None))
    else
      var x, y := ToFloat(parse, nv).value, ToFloat(parse, av).value;
      if Abs(x - y) > tolerance then Some(Diff(Kept(nv), Kept(av), Some(RoundTo4(y - x)))) else None
  }

  /** compare_decimal: two absent or placeholder values match, and with a
      non-negative tolerance a value matches itself. */
  function CompareDecimal(parse: FloatParser, nweaVal: Val, appVal: Val, tolerance: real): (r: Option<Diff>)
    ensures NormalizeValue(nweaVal) == Null && NormalizeValue(appVal) == Null ==> r == None
    ensures nweaVal == appVal && tolerance >= 0.0 ==> r == None
  {
    DecimalDiff(parse, NormalizeValue(nweaVal), NormalizeValue(appVal), tolerance)
  }

  /** compare_text on the two values after normalize_value: equal when
      both are None or both fold to the same text. */
  function TextDiff(nv: Val, av: Val): (r: Option<Diff>)
    ensures r.None? <==> (nv.Null? && av.Null?) || (!nv.Null? && !av.Null? && Folded(nv) == Folded(av))
    ensures r.Some? ==> r.value == Diff(Kept(nv), Kept(av), None)
  {
    if nv.Null? && av.Null? then None
    else
      var nText := if nv.Null? then None else Some(Folded(nv));
      var aText := if av.Null? then None else Some(Folded(av));
      if nText != aText then Some(Diff(Kept(nv), Kept(av), None)) else None
  }

  /** compare_text: case-insensitive comparison of the str() texts, where
      absent and placeholder values count as None. */
  function CompareText(nweaVal: Val, appVal: Val): (r: Option<Diff>)
    ensures r.None? <==>
      var nv, av := NormalizeValue(nweaVal), NormalizeValue(appVal);
      (nv == Null && av == Null) || (nv != Null && av != Null && Folded(nv) == Folded(av))
  {
    TextDiff(NormalizeValue(nweaVal), NormalizeValue(appVal))
  }

  /** Whether compare_text reports a diff does not depend on argument order. */
  lemma CompareTextSymmetric(x: Val, y: Val)
    ensures CompareText(x, y).None? == CompareText(y, x).None?
  {
    assert TextDiff(NormalizeValue(x), NormalizeValue(y)).None? == TextDiff(NormalizeValue(y), NormalizeValue(x)).None?;
  }

  /** compare_range once both arguments are dicts, on the two normalised
      mids: no diff when both are None; a diff without delta when exactly one
      is; when both convert, a diff exactly when their rounded integers
      differ, carrying those integers and delta = app - nwea; when float()
      raises, a diff exactly when their str() texts differ. */
  function MidDiff(parse: FloatParser, nm: Val, am: Val): (r: Option<Diff>)
    ensures nm.Null? && am.Null? ==> r == None
    ensures nm.Null? != am.Null? ==> r == Some(Diff(Kept(nm), Kept(am), None))
    ensures (!nm.Null? && !am.Null? && RoundedInt(parse, nm).Some? && RoundedInt(parse, am).Some?) ==>
      var ni, ai := RoundedInt(parse, nm).value, RoundedInt(parse, am).value;
      r == if ni == ai then None else Some(Diff(Rounded(ni), Rounded(ai), Some((ai - ni) as real)))
    ensures (!nm.Null? && !am.Null? && (RoundedInt(parse, nm).None? || RoundedInt(parse, am).None?)) ==>
      r == if PyStr(nm) == PyStr(am) then None else Some(Diff(Kept(nm), Kept(am), None))
  {
    if nm.Null? && am.Null? then None
    else if !nm.Null? && !am.Null? then
      match (RoundedInt(parse, nm), RoundedInt(parse, am))
      case (Some(ni), Some(ai)) =>
        if ni != ai then Some(Diff(Rounded(ni), Rounded(ai), Some((ai - ni) as real))) else None
      case _ =>
        if PyStr(nm) != PyStr(am) then Some(Diff(Kept(nm), Kept(am), None)) else None
    else
      Some(Diff(Kept(nm), Kept(am), None))
  }

  lemma MidDiffSymmetric(parse: FloatParser, nm: Val, am: Val)
    ensures MidDiff(parse, nm, am).None? == MidDiff(parse, am, nm).None?
    ensures MidDiff(parse, nm, am).Some? && MidDiff(parse, nm, am).value.delta.Some? ==>
      MidDiff(parse, am, nm).value.delta == Some(-MidDiff(parse, nm, am).value.delta.value)
  {
    var ni, ai := RoundedInt(parse, nm), RoundedInt(parse, am);
    if ni.Some? && ai.Some? {
      assert (ni.value - ai.value) as real == -((ai.value - ni.value) as real);
    }
  }

  /** Swapping the two ranges keeps the verdict and negates the delta. */
  lemma CompareRangeSymmetric(parse: FloatParser, x: Val, y: Val)
    ensures CompareRange(parse, x, y).None? == CompareRange(parse, y, x).None?
    ensures CompareRange(parse, x, y).Some? && CompareRange(parse, x, y).value.delta.Some? ==>
      CompareRange(parse, y, x).value.delta == Some(-CompareRange(parse, x, y).value.delta.value)
  {
    if x.Obj? && y.Obj? {
      MidDiffSymmetric(parse, Mid(x), Mid(y));
    }
  }

  /** Swapping the two normalised values keeps the verdict of
      compare_exact_int and negates its delta, although only the NWEA side
      is converted first. */
  lemma ExactIntDiffSymmetric(parse: FloatParser, nv: Val, av: Val)
    ensures ExactIntDiff(parse, nv, av).None? == ExactIntDiff(parse, av, nv).None?
    ensures ExactIntDiff(parse, nv, av).Some? && ExactIntDiff(parse, nv, av).value.delta.Some? ==>
      ExactIntDiff(parse, av, nv).value.delta == Some(-ExactIntDiff(parse, nv, av).value.delta.value)
  {
    var ni, ai := RoundedInt(parse, nv), RoundedInt(parse, av);
    if ni.Some? && ai.Some? {
      assert (ni.value - ai.value) as real == -((ai.value - ni.value) as real);
    }
    if PyEq(nv, av) {
      PyEqSymmetric(nv, av);
    }
    if PyEq(av, nv) {
      PyEqSymmetric(av, nv);
    }
  }

  /** compare_exact_int does not depend on the order of its arguments,
      except that the delta changes sign. */
  lemma CompareExactIntSymmetric(parse: FloatParser, x: Val, y: Val)
    ensures CompareExactInt(parse, x, y).None? == CompareExactInt(parse, y, x).None?
    ensures CompareExactInt(parse, x, y).Some? && CompareExactInt(parse, x, y).value.delta.Some? ==>
      CompareExactInt(parse, y, x).value.delta == Some(-CompareExactInt(parse, x, y).value.delta.value)
  {
    ExactIntDiffSymmetric(parse, NormalizeValue(x), NormalizeValue(y));
  }

  /** Whether compare_decimal reports a diff does not depend on argument order. */
  lemma DecimalDiffSymmetric(parse: FloatParser, nv: Val, av: Val, tolerance: real)
    ensures DecimalDiff(parse, nv, av, tolerance).None? == DecimalDiff(parse, av, nv, tolerance).None?
  {
    if ToFloat(parse, nv).Some? && ToFloat(parse, av).Some? {
      assert Abs(ToFloat(parse, nv).value - ToFloat(parse, av).value)
          == Abs(ToFloat(parse, av).value - ToFloat(parse, nv).value);
    }
  }

  /** A value compared with itself never gives a diff. */
  lemma ComparatorsReflexive(parse: FloatParser, x: Val, tolerance: real)
    requires tolerance >= 0.0
    ensures CompareRange(parse, x, x) == None
    ensures CompareExactInt(parse, x, x) == None
    ensures CompareDecimal(parse, x, x, tolerance) == None
    ensures CompareText(x, x) == None
  {
    PyEqReflexive(NormalizeValue(x));
  }
}
