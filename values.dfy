/** The JSON values the comparison engine reads, and the few Python
    built-ins it applies to them: str(), ==, float() and round(). */
module PyValues {
  import opened TextOps

  /** A value as json.load produces it. Every value that is not a string
      carries the text Python's str() prints for it, since that text (for
      instance "5" for the int 5 and "5.0" for the float 5.0) is what the
      text comparisons see. Other stands for JSON arrays. */
  datatype Val =
    | Null
    | Str(s: string)
    | Num(x: real, text: string)
    | Obj(fields: map<string, Val>, text: string)
    | Other(text: string)

  /** A student record: one JSON object of the extractor's output. */
  type Record = map<string, Val>

  /** Python's float() on a string: partial, and left abstract. */
  type FloatParser = string -> Option<real>

  /** Python's str(). */
  function PyStr(v: Val): string {
    match v
    case Null => "None"
    case Str(s) => s
    case Num(_, t) => t
    case Obj(_, t) => t
    case Other(t) => t
  }

  /** Python's == on two values: numbers by value (5 == 5.0), dicts key by
      key with == again on the values, lists (Other) by their printed text. */
  predicate PyEq(a: Val, b: Val)
    decreases a
  {
    match (a, b)
    case (Null, Null) => true
    case (Str(s), Str(t)) => s == t
    case (Num(x, _), Num(y, _)) => x == y
    case (Obj(f, _), Obj(g, _)) =>
      f.Keys == g.Keys && forall k :: k in f ==> PyEq(f[k], g[k])
    case (Other(t), Other(u)) => t == u
    case _ => false
  }

  /** Python's == is reflexive on every JSON value, nested dicts included. */
  lemma {:induction false} PyEqReflexive(a: Val)
    ensures PyEq(a, a)
    decreases a
  {
    if a.Obj? {
      forall k | k in a.fields
        ensures PyEq(a.fields[k], a.fields[k])
      {
        PyEqReflexive(a.fields[k]);
      }
    }
  }

  /** Python's == is symmetric on every JSON value, nested dicts included. */
  lemma {:induction false} PyEqSymmetric(a: Val, b: Val)
    requires PyEq(a, b)
    ensures PyEq(b, a)
    decreases a
  {
    if a.Obj? && b.Obj? {
      forall k | k in b.fields
        ensures PyEq(b.fields[k], a.fields[k])
      {
        PyEqSymmetric(a.fields[k], b.fields[k]);
      }
    }
  }

  /** Python's float(v): a number converts to itself, a string goes through
      the parser, anything else (None, a dict, a list) raises TypeError. */
  function ToFloat(parse: FloatParser, v: Val): (r: Option<real>)
    ensures v.Num? ==> r == Some(v.x)
    ensures v.Str? ==> r == parse(v.s)
    ensures v.Null? || v.Obj? || v.Other? ==> r == None
  {
    match v
    case Num(x, _) => Some(x)
    case Str(s) => parse(s)
    case _ => None
  }

  /** Python's round(x) with one argument: the nearest integer, ties to even. */
  function RoundHalfEven(x: real): (n: int)
    ensures n as real - 0.5 <= x <= n as real + 0.5
    ensures x == n as real - 0.5 || x == n as real + 0.5 ==> n % 2 == 0
  {
    var f := x.Floor;
    var d := x - f as real;
    if d < 0.5 then f
    else if d > 0.5 then f + 1
    else if f % 2 == 0 then f
    else f + 1
  }

  /** The two properties of RoundHalfEven pin its result down. */
  lemma RoundHalfEvenUnique(x: real, m: int)
    requires m as real - 0.5 <= x <= m as real + 0.5
    requires x == m as real - 0.5 || x == m as real + 0.5 ==> m % 2 == 0
    ensures m == RoundHalfEven(x)
  {
    var n := RoundHalfEven(x);
    assert n - 1 <= m <= n + 1;
  }

  /** Python's round(x, 4), on exact reals. */
  function RoundTo4(x: real): (r: real)
    ensures x - 0.00005 <= r <= x + 0.00005
    ensures r * 10000.0 == (r * 10000.0).Floor as real
  {
    RoundHalfEven(x * 10000.0) as real / 10000.0
  }

  /** dict.get(key): None when the key is missing. */
  function Get(fields: map<string, Val>, key: string): (v: Val)
    ensures key !in fields ==> v == Null
    ensures key in fields ==> v == fields[key]
  {
    if key in fields then fields[key] else Null
  }

  /** dict.get(key, default). */
  function GetOr(fields: map<string, Val>, key: string, default: Val): (v: Val)
    ensures key !in fields ==> v == default
    ensures key in fields ==> v == fields[key]
  {
    if key in fields then fields[key] else default
  }

  /** The value {} that compare_student passes for a missing range field. */
  const EMPTY_DICT: Val := Obj(map[], "{}")
}
