/** The counting part of generate_report (scripts/map-compare/compare.py):
    the NWEA and app lookups are split into matched, NWEA-only and
    app-only keys, every matched pair is compared, and each summary field
    gets a diff count and a list of detail rows, shown at most 30 at a time. */
module Report {
  import opened TextOps
  import opened PyValues
  import opened Comparators
  import opened StudentLookup
  import opened StudentCompare

  /** The fields of the summary table, with their labels, in table order. */
  const SUMMARY_FIELDS: seq<(string, string)> := [
    ("startRIT", "Start RIT (mid)"),
    ("startPercentile", "Start Percentile (mid)"),
    ("endRIT", "End RIT (mid)"),
    ("endPercentile", "End Percentile (mid)"),
    ("projectedRIT", "Projected RIT"),
    ("projectedGrowth", "Projected Growth"),
    ("observedGrowth", "Observed Growth"),
    ("growthIndex", "Growth Index"),
    ("conditionalGrowthPercentile", "Cond Growth Percentile")
  ]

  /** The field names of a list of (field, label) pairs, in order. */
  function Names(summary: seq<(string, string)>): (r: seq<string>)
    ensures |r| == |summary| && forall i :: 0 <= i < |r| ==> r[i] == summary[i].0
  {
    seq(|summary|, i requires 0 <= i < |summary| => summary[i].0)
  }

  /** The names of the summary fields. */
  function SummaryFieldNames(): set<string> {
    Elems(Names(SUMMARY_FIELDS))
  }

  /** The most detail rows listed for one field. */
  const DETAIL_LIMIT: nat := 30

  /** The three key sets of the report. */
  datatype Partition = Partition(matched: set<string>, nweaOnly: set<string>, appOnly: set<string>)

  /** Keys in both lookups, in the NWEA one only, and in the app one only:
      three disjoint sets that together cover both lookups. */
  function PartitionKeys(nweaKeys: set<string>, appKeys: set<string>): (p: Partition)
    ensures p.matched !! p.nweaOnly && p.matched !! p.appOnly && p.nweaOnly !! p.appOnly
    ensures p.matched + p.nweaOnly + p.appOnly == nweaKeys + appKeys
    ensures p.matched + p.nweaOnly == nweaKeys && p.matched + p.appOnly == appKeys
  {
    Partition(nweaKeys * appKeys, nweaKeys - appKeys, appKeys - nweaKeys)
  }

  /** The counts in the report's header add up: each lookup's size is the
      matched count plus its own-only count. */
  lemma PartitionSizes(nweaKeys: set<string>, appKeys: set<string>)
    ensures var p := PartitionKeys(nweaKeys, appKeys);
      |p.matched| + |p.nweaOnly| == |nweaKeys| && |p.matched| + |p.appOnly| == |appKeys|
  {
    var p := PartitionKeys(nweaKeys, appKeys);
    assert p.matched !! p.nweaOnly && p.matched + p.nweaOnly == nweaKeys;
    assert p.matched !! p.appOnly && p.matched + p.appOnly == appKeys;
  }

  /** One entry of a field's detail list: the NWEA record's studentName
      (or "?"), the two parts of the key, the two reported values and the delta. */
  datatype Detail = Detail(studentName: Val, studentId: string, subject: string,
                           nwea: Cell, app: Cell, delta: Option<real>)

  /** The two parts of a lookup key, student id and subject, as
      key.split('|') gives them. */
  function KeyParts(key: string): (r: (string, string))
    requires '|' in key
    ensures '|' !in r.0 && '|' !in r.1
  {
    var parts := Split(key, '|');
    (parts[0], parts[1])
  }

  /** A field's detail list after one more compared pair: the diff's
      values are appended, with the student's name, id and subject, when
      the pair reports a diff on the field. */
  function AddDetail(prev: seq<Detail>, name: Val, id: string, subject: string,
                     diffs: map<string, Diff>, field: string): seq<Detail>
  {
    if field in diffs then prev + [Detail(name, id, subject, diffs[field].nwea, diffs[field].app, diffs[field].delta)]
    else prev
  }

  /** The studentName of a record, or "?". */
  function NameOf(student: Record): Val {
    GetOr(student, "studentName", Str("?"))
  }

  /** compare_student's dict for every key found in both lookups. */
  function PairDiffs(parse: FloatParser, nl: map<string, Record>, al: map<string, Record>): (pairs: map<string, map<string, Diff>>)
    ensures pairs.Keys == nl.Keys * al.Keys
    ensures forall k :: k in pairs ==> pairs[k] == StudentDiffs(parse, nl[k], al[k])
  {
    map k | k in nl.Keys * al.Keys :: StudentDiffs(parse, nl[k], al[k])
  }

  /** Every key has a compared pair and holds a bar. */
  predicate Comparable(pairs: map<string, map<string, Diff>>, nl: map<string, Record>, keys: seq<string>) {
    forall k :: k in keys ==> k in pairs && k in nl && '|' in k
  }

  /** The detail list of field after walking the pairs under keys, in order. */
  function DetailsFor(pairs: map<string, map<string, Diff>>, nl: map<string, Record>,
                      keys: seq<string>, field: string): seq<Detail>
    requires Comparable(pairs, nl, keys)
    decreases |keys|
  {
    if keys == [] then []
    else
      var prev := DetailsFor(pairs, nl, keys[..|keys| - 1], field);
      var k := keys[|keys| - 1];
      AddDetail(prev, NameOf(nl[k]), KeyParts(k).0, KeyParts(k).1, pairs[k], field)
  }

  /** The keys whose pair reports a diff on field. */
  function DiffKeys(pairs: map<string, map<string, Diff>>, keys: set<string>, field: string): (r: set<string>)
    ensures r <= keys
  {
    set k | k in keys && k in pairs && field in pairs[k]
  }

  /** The elements of a sequence of keys. */
  function Elems(keys: seq<string>): set<string> {
    set x | x in keys
  }

  predicate Distinct(keys: seq<string>) {
    forall i, j :: 0 <= i < j < |keys| ==> keys[i] != keys[j]
  }

  lemma DistinctSnoc(keys: seq<string>)
    requires keys != [] && Distinct(keys)
    ensures Distinct(keys[..|keys| - 1]) && keys[|keys| - 1] !in keys[..|keys| - 1]
    ensures Elems(keys) == Elems(keys[..|keys| - 1]) + {keys[|keys| - 1]}
  {
    assert keys == keys[..|keys| - 1] + [keys[|keys| - 1]];
  }

  /** Adding one key adds it to the diff keys exactly when its pair reports the field. */
  lemma DiffKeysAdd(pairs: map<string, map<string, Diff>>, keys: set<string>, k: string, field: string)
    requires k in pairs && k !in keys
    ensures DiffKeys(pairs, keys + {k}, field) == DiffKeys(pairs, keys, field) + (if field in pairs[k] then {k} else {})
    ensures k !in DiffKeys(pairs, keys, field)
  {
  }

  /** Over distinct keys, the detail list of a field has one entry per key
      whose pair reports a diff on it, so no more entries than keys. */
  lemma {:induction false} DetailsForCount(pairs: map<string, map<string, Diff>>, nl: map<string, Record>,
                                           keys: seq<string>, field: string)
    requires Comparable(pairs, nl, keys) && Distinct(keys)
    ensures |DetailsFor(pairs, nl, keys, field)| == |DiffKeys(pairs, Elems(keys), field)|
    ensures |DetailsFor(pairs, nl, keys, field)| <= |keys|
    decreases |keys|
  {
    if keys != [] {
      var init, k := keys[..|keys| - 1], keys[|keys| - 1];
      DistinctSnoc(keys);
      assert Comparable(pairs, nl, init);
      DetailsForCount(pairs, nl, init, field);
      DiffKeysAdd(pairs, Elems(init), k, field);
    }
  }

  /** One row of a field's detail table: a listed entry or the "(n more)" line. */
  datatype DetailRow = Shown(d: Detail) | More(n: nat)

  /** The detail table of one field: the first 30 entries, then one
      "(n more)" row counting the rest when there are more than 30. */
  function DetailTable(details: seq<Detail>): (rows: seq<DetailRow>)
    ensures |details| <= DETAIL_LIMIT ==> |rows| == |details|
    ensures |details| > DETAIL_LIMIT ==> |rows| == DETAIL_LIMIT + 1 && rows[DETAIL_LIMIT] == More(|details| - DETAIL_LIMIT)
    ensures forall i :: 0 <= i < |rows| && i < DETAIL_LIMIT ==> rows[i] == Shown(details[i])
    ensures |rows| <= DETAIL_LIMIT + 1
  {
    var shown := if |details| <= DETAIL_LIMIT then details else details[..DETAIL_LIMIT];
    var listed := seq(|shown|, i requires 0 <= i < |shown| => Shown(shown[i]));
    if |details| > DETAIL_LIMIT then listed + [More(|details| - DETAIL_LIMIT)] else listed
  }

  /** A table row counts one entry, the "(n more)" row counts n: the rows
      account for every entry of the list. */
  function RowsWeight(rows: seq<DetailRow>): nat
    decreases |rows|
  {
    if rows == [] then 0
    else RowsWeight(rows[..|rows| - 1]) + (match rows[|rows| - 1] case Shown(_) => 1 case More(n) => n)
  }

  lemma {:induction false} ShownWeight(rows: seq<DetailRow>)
    requires forall i :: 0 <= i < |rows| ==> rows[i].Shown?
    ensures RowsWeight(rows) == |rows|
    decreases |rows|
  {
    if rows != [] {
      ShownWeight(rows[..|rows| - 1]);
    }
  }

  /** The detail table accounts for every entry, listing or counting it. */
  lemma DetailTableWeight(details: seq<Detail>)
    ensures RowsWeight(DetailTable(details)) == |details|
  {
    var rows := DetailTable(details);
    if |details| > DETAIL_LIMIT {
      ShownWeight(rows[..DETAIL_LIMIT]);
      assert rows[..|rows| - 1] == rows[..DETAIL_LIMIT];
    } else {
      ShownWeight(rows);
    }
  }

  /** collections.Counter.get(field, 0). */
  function CounterGet(counter: map<string, nat>, field: string): nat {
    if field in counter then counter[field] else 0
  }

  /** What generate_report computes before it formats text: the two
      lookups, the key partition, the per-field diff counter and detail
      lists, and the detail table of every field that has diffs. */
  datatype Report = Report(
    nweaStudents: map<string, Record>,
    appStudents: map<string, Record>,
    partition: Partition,
    counter: map<string, nat>,
    details: map<string, seq<Detail>>,
    tables: map<string, seq<DetailRow>>)

  lemma SummaryFieldsDistinct()
    ensures Distinct(Names(SUMMARY_FIELDS))
  {
  }

  /** Walking one more key extends every detail list by that key's entry. */
  lemma DetailsForSnoc(pairs: map<string, map<string, Diff>>, nl: map<string, Record>,
                       done: seq<string>, key: string, field: string)
    requires Comparable(pairs, nl, done + [key])
    ensures Comparable(pairs, nl, done)
    ensures DetailsFor(pairs, nl, done + [key], field)
         == AddDetail(DetailsFor(pairs, nl, done, field), NameOf(nl[key]), KeyParts(key).0, KeyParts(key).1, pairs[key], field)
  {
    var keys := done + [key];
    assert keys[..|keys| - 1] == done;
  }

  /** The diff counter and the per-field detail lists. */
  datatype Tally = Tally(counter: map<string, nat>, details: map<string, seq<Detail>>)

  /** The body of the inner loop of generate_report for one field: when the
      pair reports a diff on it, its count goes up by one and its detail
      list gets the entry. */
  function CountField(t: Tally, name: Val, id: string, subject: string, diffs: map<string, Diff>, field: string): (r: Tally)
    requires field in t.details
    ensures r.details.Keys == t.details.Keys
  {
    if field in diffs then
      Tally(t.counter[field := CounterGet(t.counter, field) + 1],
            t.details[field := AddDetail(t.details[field], name, id, subject, diffs, field)])
    else t
  }

  /** The inner loop of generate_report over fields, in order. */
  function CountFields(t: Tally, name: Val, id: string, subject: string, diffs: map<string, Diff>, fields: seq<string>): (r: Tally)
    requires forall f :: f in fields ==> f in t.details
    ensures r.details.Keys == t.details.Keys
    decreases |fields|
  {
    if fields == [] then t
    else
      var init := fields[..|fields| - 1];
      CountField(CountFields(t, name, id, subject, diffs, init), name, id, subject, diffs, fields[|fields| - 1])
  }

  /** Over distinct fields, each listed field's detail list gets its
      entry when the pair reports a diff on it; every other field keeps its list. */
  lemma {:induction false} CountFieldsDetails(t: Tally, name: Val, id: string, subject: string,
                                              diffs: map<string, Diff>, fields: seq<string>, f: string)
    requires (forall g :: g in fields ==> g in t.details) && Distinct(fields) && f in t.details
    ensures CountFields(t, name, id, subject, diffs, fields).details[f]
         == if f in fields then AddDetail(t.details[f], name, id, subject, diffs, f) else t.details[f]
    decreases |fields|
  {
    if fields != [] {
      var init := fields[..|fields| - 1];
      DistinctSnoc(fields);
      assert fields == init + [fields[|fields| - 1]];
      CountFieldsDetails(t, name, id, subject, diffs, init, f);
    }
  }

  /** Over distinct fields, a listed field's count goes up by one exactly
      when the pair reports a diff on it; every other count stays. */
  lemma {:induction false} CountFieldsCounter(t: Tally, name: Val, id: string, subject: string,
                                              diffs: map<string, Diff>, fields: seq<string>, f: string)
    requires (forall g :: g in fields ==> g in t.details) && Distinct(fields)
    ensures var r := CountFields(t, name, id, subject, diffs, fields);
      && CounterGet(r.counter, f) == CounterGet(t.counter, f) + (if f in fields && f in diffs then 1 else 0)
      && (f in r.counter ==> f in t.counter || (f in fields && f in diffs))
    decreases |fields|
  {
    if fields != [] {
      var init := fields[..|fields| - 1];
      DistinctSnoc(fields);
      assert fields == init + [fields[|fields| - 1]];
      CountFieldsCounter(t, name, id, subject, diffs, init, f);
    }
  }

  /** The inner loop of generate_report: adds the diffs compare_student
      found for one pair on the given fields to the counter and the
      detail lists. */
  method CountDiffs(fields: seq<string>, name: Val, id: string, subject: string, diffs: map<string, Diff>,
                    counter0: map<string, nat>, details0: map<string, seq<Detail>>)
    returns (counter: map<string, nat>, details: map<string, seq<Detail>>)
    requires forall f :: f in fields ==> f in details0
    ensures Tally(counter, details) == CountFields(Tally(counter0, details0), name, id, subject, diffs, fields)
  {
    counter, details := counter0, details0;
    for j := 0 to |fields|
      invariant Tally(counter, details) == CountFields(Tally(counter0, details0), name, id, subject, diffs, fields[..j])
    {
      var field := fields[j];
      ghost var t := Tally(counter, details);
      assert fields[..j + 1][..j] == fields[..j] && fields[..j + 1][j] == field;
      if field in diffs {
        counter := counter[field := CounterGet(counter, field) + 1];
        details := details[field := details[field] + [Detail(name, id, subject, diffs[field].nwea, diffs[field].app, diffs[field].delta)]];
      }
      assert Tally(counter, details) == CountField(t, name, id, subject, diffs, field);
    }
    assert fields[..|fields|] == fields;
  }

  /** After walking keys: every summary field has a detail list, which is
      what DetailsFor gives, the counter holds its length, and the counter
      holds no zero and no other field. */
  predicate Counted(t: Tally, fields: set<string>, pairs: map<string, map<string, Diff>>, nl: map<string, Record>, keys: seq<string>)
    requires Comparable(pairs, nl, keys)
  {
    && t.details.Keys == fields
    && (forall f :: f in t.details ==> t.details[f] == DetailsFor(pairs, nl, keys, f))
    && (forall f :: f in t.details ==> CounterGet(t.counter, f) == |t.details[f]|)
    && (forall f :: f in t.counter ==> f in t.details && t.counter[f] > 0)
  }

  /** The empty counter and one empty list per field count no key. */
  lemma CountedStart(fields: set<string>, pairs: map<string, map<string, Diff>>, nl: map<string, Record>)
    ensures Comparable(pairs, nl, [])
    ensures Counted(Tally(map[], map f | f in fields :: []), fields, pairs, nl, [])
  {
  }

  /** Running the inner loop on the next key's diffs counts that key too. */
  lemma CountedStep(t: Tally, fields: seq<string>, pairs: map<string, map<string, Diff>>, nl: map<string, Record>,
                    done: seq<string>, key: string)
    requires Comparable(pairs, nl, done + [key])
    ensures Comparable(pairs, nl, done)
    requires Distinct(fields) && Counted(t, Elems(fields), pairs, nl, done)
    ensures Counted(CountFields(t, NameOf(nl[key]), KeyParts(key).0, KeyParts(key).1, pairs[key], fields),
                    Elems(fields), pairs, nl, done + [key])
  {
    var (name, id, subject, diffs) := (NameOf(nl[key]), KeyParts(key).0, KeyParts(key).1, pairs[key]);
    var r := CountFields(t, name, id, subject, diffs, fields);
    forall f | f in r.details
      ensures r.details[f] == DetailsFor(pairs, nl, done + [key], f)
      ensures CounterGet(r.counter, f) == |r.details[f]|
    {
      DetailsForSnoc(pairs, nl, done, key, f);
      CountFieldsDetails(t, name, id, subject, diffs, fields, f);
      CountFieldsCounter(t, name, id, subject, diffs, fields, f);
    }
    forall f | f in r.counter
      ensures f in r.details && r.counter[f] > 0
    {
      CountFieldsCounter(t, name, id, subject, diffs, fields, f);
    }
  }

  /** When the keys are the sorted members of a set, each field's count is
      the number of members whose pair reports a diff on it, at most the
      size of the set. */
  lemma CountedTotals(t: Tally, fields: set<string>, pairs: map<string, map<string, Diff>>, nl: map<string, Record>,
                      keys: seq<string>, members: set<string>)
    requires Comparable(pairs, nl, keys) && Counted(t, fields, pairs, nl, keys)
    requires Sorted(keys) && |keys| == |members| && forall k :: k in keys <==> k in members
    ensures forall f :: f in t.details ==>
      CounterGet(t.counter, f) == |t.details[f]| == |DiffKeys(pairs, members, f)| <= |members|
  {
    StrLtIrreflexiveAll(keys);
    assert Elems(keys) == members;
    forall f | f in t.details
      ensures |t.details[f]| == |DiffKeys(pairs, members, f)| <= |members|
    {
      DetailsForCount(pairs, nl, keys, f);
      assert |DiffKeys(pairs, members, f)| <= |keys|;
    }
  }

  /** The outer loop of generate_report: compares the pair under every key
      of order, in order, and counts the diffs on the given fields. */
  method CountMatched(fields: seq<string>, parse: FloatParser, nl: map<string, Record>, al: map<string, Record>,
                      order: seq<string>)
    returns (t: Tally)
    requires Distinct(fields)
    requires forall k :: k in order ==> k in nl && k in al && '|' in k
    ensures Comparable(PairDiffs(parse, nl, al), nl, order)
    ensures Counted(t, Elems(fields), PairDiffs(parse, nl, al), nl, order)
  {
    ghost var pairs := PairDiffs(parse, nl, al);
    CountedStart(Elems(fields), pairs, nl);
    var counter: map<string, nat> := map[];
    var details: map<string, seq<Detail>> := map f | f in fields :: [];
    for i := 0 to |order|
      invariant Comparable(pairs, nl, order[..i])
      invariant Counted(Tally(counter, details), Elems(fields), pairs, nl, order[..i])
    {
      var key := order[i];
      assert order[..i + 1] == order[..i] + [key];
      var diffs := CompareStudent(parse, nl[key], al[key]);
      var (id, subject) := KeyParts(key);
      CountedStep(Tally(counter, details), fields, pairs, nl, order[..i], key);
      counter, details := CountDiffs(fields, NameOf(nl[key]), id, subject, diffs, counter, details);
    }
    assert order[..|order|] == order;
    t := Tally(counter, details);
  }

  /** What generate_report computes for the summary field names, before it formats
      text: the lookups of both student lists; the partition of their
      keys; for every summary field, the detail list DetailsFor gives
      when the matched keys are walked in sorted order, whose length the
      counter holds and which has one entry per matched key whose pair
      reports a diff on the field; the counter holds no zero and no other
      field; and a detail table for exactly the fields with diffs. */
  ghost predicate ReportOf(fields: seq<string>, parse: FloatParser, nweaData: seq<Record>, appData: seq<Record>, rep: Report)
    requires AllKeyable(nweaData) && AllKeyable(appData)
  {
    && rep.nweaStudents == Lookup(nweaData) && rep.appStudents == Lookup(appData)
    && rep.partition == PartitionKeys(Lookup(nweaData).Keys, Lookup(appData).Keys)
    && rep.details.Keys == Elems(fields)
    && (forall f :: f in rep.counter ==> f in rep.details && rep.counter[f] > 0)
    && Comparable(PairDiffs(parse, rep.nweaStudents, rep.appStudents), rep.nweaStudents, SortedOf(rep.partition.matched))
    && (forall f :: f in rep.details ==>
          rep.details[f] == DetailsFor(PairDiffs(parse, rep.nweaStudents, rep.appStudents), rep.nweaStudents,
                                       SortedOf(rep.partition.matched), f))
    && (forall f :: f in rep.details ==>
          CounterGet(rep.counter, f) == |rep.details[f]|
          == |DiffKeys(PairDiffs(parse, rep.nweaStudents, rep.appStudents), rep.partition.matched, f)|
          <= |rep.partition.matched|)
    && (forall f :: f in rep.tables <==> f in rep.details && rep.details[f] != [])
    && (forall f :: f in rep.tables ==> rep.tables[f] == DetailTable(rep.details[f]))
  }

  /** generate_report without its text, for distinct summary field
      names: builds both lookups, partitions the keys, walks the matched
      keys in sorted order comparing each pair, then keeps a detail table
      for every field with diffs. */
  method GenerateReportWith(fields: seq<string>, parse: FloatParser, nweaData: seq<Record>, appData: seq<Record>)
    returns (rep: Report)
    requires Distinct(fields)
    requires AllKeyable(nweaData) && AllKeyable(appData)
    ensures ReportOf(fields, parse, nweaData, appData, rep)
    ensures forall k :: k in rep.nweaStudents ==> '|' in k
  {
    var nweaStudents := BuildStudentLookup(nweaData);
    var appStudents := BuildStudentLookup(appData);
    LookupKeysHaveBar(nweaData);
    var partition := PartitionKeys(nweaStudents.Keys, appStudents.Keys);
    var order := SortedList(partition.matched);
    var t := CountMatched(fields, parse, nweaStudents, appStudents, order);
    CountedTotals(t, Elems(fields), PairDiffs(parse, nweaStudents, appStudents), nweaStudents, order, partition.matched);
    var tables := map f | f in t.details && t.details[f] != [] :: DetailTable(t.details[f]);
    rep := Report(nweaStudents, appStudents, partition, t.counter, t.details, tables);
  }

  /** generate_report on SUMMARY_FIELDS, without its text. */
  method GenerateReport(parse: FloatParser, nweaData: seq<Record>, appData: seq<Record>) returns (rep: Report)
    requires AllKeyable(nweaData) && AllKeyable(appData)
    ensures ReportOf(Names(SUMMARY_FIELDS), parse, nweaData, appData, rep)
  {
    SummaryFieldsDistinct();
    rep := GenerateReportWith(Names(SUMMARY_FIELDS), parse, nweaData, appData);
  }

  /** A strictly sorted sequence has no repeats. */
  lemma StrLtIrreflexiveAll(s: seq<string>)
    requires Sorted(s)
    ensures Distinct(s)
  {
    forall i, j | 0 <= i < j < |s|
      ensures s[i] != s[j]
    {
      StrLtIrreflexive(s[i]);
    }
  }
}
