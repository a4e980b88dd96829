/** analyze_duplicates (analyze_duplicates.py) without its output: the CSV
    data rows are grouped by (studentid, subject, teststartdate) and by
    (studentid, subject, termname); each group of same-date duplicates is
    classified by the compared columns on which a later row differs from
    its first row, and each term group with several test dates is bucketed
    by how many distinct dates it holds. */
module Duplicates {
  import opened TextOps

  // ---------------------------------------------------------------------
  // Rows

  /** The columns the analysis reads, by position in a CSV row. */
  const TERMNAME_COL: nat := 0
  const STUDENTID_COL: nat := 5
  const SUBJECT_COL: nat := 7
  const TESTSTARTDATE_COL: nat := 20
  const TESTSTARTTIME_COL: nat := 21
  const TESTRITSCORE_COL: nat := 23
  const CLASSNAME_COL: nat := 143
  const TEACHERNAME_COL: nat := 144
  const GRADE_COL: nat := 154

  /** Rows with fewer cells than this are skipped. */
  const MIN_CELLS: nat := 155

  /** The row_data dict of one kept CSV row. */
  datatype Row = Row(rowNum: nat, termname: string, studentid: string, subject: string,
                     teststartdate: string, teststarttime: string, testritscore: string,
                     classname: string, teachername: string, grade: string, fullRow: seq<string>)

  /** The row_data dict built from the cells of CSV record rowNum. */
  function RowOf(cells: seq<string>, rowNum: nat): (r: Row)
    requires |cells| >= MIN_CELLS
    ensures r.rowNum == rowNum && r.fullRow == cells
  {
    Row(rowNum, cells[TERMNAME_COL], cells[STUDENTID_COL], cells[SUBJECT_COL],
        cells[TESTSTARTDATE_COL], cells[TESTSTARTTIME_COL], cells[TESTRITSCORE_COL],
        cells[CLASSNAME_COL], cells[TEACHERNAME_COL], cells[GRADE_COL], cells)
  }

  /** all_rows after reading the data records (the records after the
      header, numbered from 2): every record with enough cells, in order. */
  function KeptRows(records: seq<seq<string>>): seq<Row>
    decreases |records|
  {
    if records == [] then []
    else
      var last := records[|records| - 1];
      KeptRows(records[..|records| - 1]) + (if |last| >= MIN_CELLS then [RowOf(last, |records| + 1)] else [])
  }

  /** A record is kept exactly when it has enough cells: every kept row is
      built from the record it numbers, every long enough record is kept
      under its record number, and the kept rows keep the file's order. */
  lemma {:induction false} KeptRowsAre(records: seq<seq<string>>)
    ensures |KeptRows(records)| <= |records|
    ensures forall i :: 0 <= i < |KeptRows(records)| ==>
      var r := KeptRows(records)[i];
      2 <= r.rowNum <= |records| + 1 && |records[r.rowNum - 2]| >= MIN_CELLS && r == RowOf(records[r.rowNum - 2], r.rowNum)
    ensures forall j :: 0 <= j < |records| && |records[j]| >= MIN_CELLS ==> RowOf(records[j], j + 2) in KeptRows(records)
    ensures forall i, j :: 0 <= i < j < |KeptRows(records)| ==> KeptRows(records)[i].rowNum < KeptRows(records)[j].rowNum
    decreases |records|
  {
    if records != [] {
      var init := records[..|records| - 1];
      KeptRowsAre(init);
      forall j | 0 <= j < |init|
        ensures records[j] == init[j]
      {
      }
    }
    KeptRowsOrdered(records);
  }

  /** Kept rows are numbered within the file and in increasing order. */
  lemma {:induction false} KeptRowsOrdered(records: seq<seq<string>>)
    ensures forall i :: 0 <= i < |KeptRows(records)| ==> KeptRows(records)[i].rowNum <= |records| + 1
    ensures forall i, j :: 0 <= i < j < |KeptRows(records)| ==> KeptRows(records)[i].rowNum < KeptRows(records)[j].rowNum
    decreases |records|
  {
    if records != [] {
      var init := records[..|records| - 1];
      KeptRowsOrdered(init);
      assert KeptRows(records) == KeptRows(init) + (if |records[|records| - 1]| >= MIN_CELLS then [RowOf(records[|records| - 1], |records| + 1)] else []);
    }
  }

  // ---------------------------------------------------------------------
  // Grouping

  /** A group key: (studentid, subject, teststartdate) or (studentid, subject, termname). */
  type Key = (string, string, string)

  /** Which of the two groupings. */
  datatype Grouping = ByDate | ByTerm

  function KeyOf(r: Row, g: Grouping): Key {
    match g
    case ByDate => (r.studentid, r.subject, r.teststartdate)
    case ByTerm => (r.studentid, r.subject, r.termname)
  }

  /** A defaultdict(list) of rows: its keys in insertion order and the lists. */
  datatype Groups = Groups(order: seq<Key>, lists: map<Key, seq<Row>>)

  /** `groups[k].append(r)` on a defaultdict(list). */
  function Append(groups: Groups, k: Key, r: Row): Groups {
    if k in groups.lists then Groups(groups.order, groups.lists[k := groups.lists[k] + [r]])
    else Groups(groups.order + [k], groups.lists[k := [r]])
  }

  /** The defaultdict after appending every row under its key, in order. */
  function GroupBy(rows: seq<Row>, g: Grouping): Groups
    decreases |rows|
  {
    if rows == [] then Groups([], map[])
    else
      var last := rows[|rows| - 1];
      Append(GroupBy(rows[..|rows| - 1], g), KeyOf(last, g), last)
  }

  /** The rows with key k, in read order. */
  function RowsWithKey(rows: seq<Row>, g: Grouping, k: Key): (r: seq<Row>)
    ensures |r| <= |rows|
    ensures forall x :: x in r ==> x in rows && KeyOf(x, g) == k
    decreases |rows|
  {
    if rows == [] then []
    else
      var last := rows[|rows| - 1];
      RowsWithKey(rows[..|rows| - 1], g, k) + (if KeyOf(last, g) == k then [last] else [])
  }

  predicate Distinct<T(==)>(s: seq<T>) {
    forall i, j :: 0 <= i < j < |s| ==> s[i] != s[j]
  }

  /** The rows in the groups listed by order, counted group by group. */
  function Total(order: seq<Key>, lists: map<Key, seq<Row>>): nat
    requires forall k :: k in order ==> k in lists
    decreases |order|
  {
    if order == [] then 0 else Total(order[..|order| - 1], lists) + |lists[order[|order| - 1]]|
  }

  /** The keys are listed once each, every list is non-empty. */
  ghost predicate WellFormed(groups: Groups) {
    && Distinct(groups.order)
    && (forall k :: k in groups.order <==> k in groups.lists)
    && (forall k :: k in groups.lists ==> groups.lists[k] != [])
  }

  /** Changing a list the order does not name leaves the total alone. */
  lemma {:induction false} TotalFrame(order: seq<Key>, lists: map<Key, seq<Row>>, k: Key, v: seq<Row>)
    requires forall x :: x in order ==> x in lists
    requires k !in order
    ensures Total(order, lists[k := v]) == Total(order, lists)
    decreases |order|
  {
    if order != [] {
      TotalFrame(order[..|order| - 1], lists, k, v);
    }
  }

  /** Appending to a listed group adds one to the total. */
  lemma {:induction false} TotalGrow(order: seq<Key>, lists: map<Key, seq<Row>>, k: Key, r: Row)
    requires forall x :: x in order ==> x in lists
    requires Distinct(order) && k in order
    ensures Total(order, lists[k := lists[k] + [r]]) == Total(order, lists) + 1
    decreases |order|
  {
    var init, last := order[..|order| - 1], order[|order| - 1];
    assert forall i :: 0 <= i < |init| ==> init[i] == order[i];
    if last == k {
      assert k !in init;
      TotalFrame(init, lists, k, lists[k] + [r]);
    } else {
      assert k in init && Distinct(init);
      TotalGrow(init, lists, k, r);
    }
  }

  /** One append keeps the defaultdict well formed and adds one row to its total. */
  lemma AppendShape(groups: Groups, k: Key, r: Row)
    requires WellFormed(groups)
    ensures WellFormed(Append(groups, k, r))
    ensures Total(Append(groups, k, r).order, Append(groups, k, r).lists) == Total(groups.order, groups.lists) + 1
    ensures |Append(groups, k, r).order| <= |groups.order| + 1
  {
    if k in groups.lists {
      AppendListed(groups, k, r);
    } else {
      AppendUnlisted(groups, k, r);
    }
  }

  /** Appending under a listed key grows that group only. */
  lemma AppendListed(groups: Groups, k: Key, r: Row)
    requires WellFormed(groups) && k in groups.lists
    ensures Append(groups, k, r) == Groups(groups.order, groups.lists[k := groups.lists[k] + [r]])
    ensures WellFormed(Append(groups, k, r))
    ensures Total(Append(groups, k, r).order, Append(groups, k, r).lists) == Total(groups.order, groups.lists) + 1
  {
    TotalGrow(groups.order, groups.lists, k, r);
  }

  /** Appending under a new key lists it last with a one-row group. */
  lemma AppendUnlisted(groups: Groups, k: Key, r: Row)
    requires WellFormed(groups) && k !in groups.lists
    ensures Append(groups, k, r) == Groups(groups.order + [k], groups.lists[k := [r]])
    ensures WellFormed(Append(groups, k, r))
    ensures Total(Append(groups, k, r).order, Append(groups, k, r).lists) == Total(groups.order, groups.lists) + 1
  {
    var order := groups.order + [k];
    DistinctSnoc(groups.order, k);
    assert order[..|order| - 1] == groups.order;
    TotalFrame(groups.order, groups.lists, k, [r]);
  }

  /** A key not yet listed can be added at the end without a repeat. */
  lemma DistinctSnoc(order: seq<Key>, k: Key)
    requires Distinct(order) && k !in order
    ensures Distinct(order + [k])
  {
    var o := order + [k];
    forall i, j | 0 <= i < j < |o|
      ensures o[i] != o[j]
    {
      assert o[i] == order[i];
    }
  }

  /** Grouping keeps every key once with a non-empty list, the group sizes
      add up to the number of rows, and there are no more keys than rows. */
  lemma {:induction false} GroupByShape(rows: seq<Row>, g: Grouping)
    ensures WellFormed(GroupBy(rows, g))
    ensures Total(GroupBy(rows, g).order, GroupBy(rows, g).lists) == |rows|
    ensures |GroupBy(rows, g).order| <= |rows|
    decreases |rows|
  {
    if rows != [] {
      var init, last := rows[..|rows| - 1], rows[|rows| - 1];
      GroupByShape(init, g);
      AppendShape(GroupBy(init, g), KeyOf(last, g), last);
    }
  }

  /** A key has a group exactly when some row has that key, and its group
      holds the rows with that key in read order. */
  lemma {:induction false} GroupByAt(rows: seq<Row>, g: Grouping, k: Key)
    ensures k in GroupBy(rows, g).lists <==> RowsWithKey(rows, g, k) != []
    ensures k in GroupBy(rows, g).lists ==> GroupBy(rows, g).lists[k] == RowsWithKey(rows, g, k)
    decreases |rows|
  {
    if rows != [] {
      GroupByAt(rows[..|rows| - 1], g, k);
    }
  }

  /** Every row lies in the group of its own key (and, by RowsWithKey's
      contract, in no other). */
  lemma {:induction false} RowInOwnGroup(rows: seq<Row>, g: Grouping, i: nat)
    requires i < |rows|
    ensures rows[i] in RowsWithKey(rows, g, KeyOf(rows[i], g))
    decreases |rows|
  {
    if i < |rows| - 1 {
      RowInOwnGroup(rows[..|rows| - 1], g, i);
    }
  }

  /** The first row of a group is the first row read with that key, which
      is the base the pattern compares against. */
  lemma {:induction false} GroupStartsAtFirstRow(rows: seq<Row>, g: Grouping, k: Key)
    requires RowsWithKey(rows, g, k) != []
    ensures exists i :: 0 <= i < |rows| && rows[i] == RowsWithKey(rows, g, k)[0] && KeyOf(rows[i], g) == k
                        && (forall j :: 0 <= j < i ==> KeyOf(rows[j], g) != k)
    decreases |rows|
  {
    var init, last := rows[..|rows| - 1], rows[|rows| - 1];
    assert RowsWithKey(rows, g, k) == RowsWithKey(init, g, k) + (if KeyOf(last, g) == k then [last] else []);
    if RowsWithKey(init, g, k) != [] {
      GroupStartsAtFirstRow(init, g, k);
      var i :| 0 <= i < |init| && init[i] == RowsWithKey(init, g, k)[0] && KeyOf(init[i], g) == k
               && (forall j :: 0 <= j < i ==> KeyOf(init[j], g) != k);
      assert rows[i] == init[i];
      assert forall j :: 0 <= j < i ==> rows[j] == init[j];
    } else {
      forall j | 0 <= j < |init|
        ensures KeyOf(rows[j], g) != k
      {
        assert rows[j] == init[j];
        if KeyOf(init[j], g) == k {
          RowInOwnGroup(init, g, j);
        }
      }
    }
  }

  /** The read loop of analyze_duplicates: keeps every record with enough
      cells and appends its row to both groupings and to all_rows. */
  method ReadRows(records: seq<seq<string>>) returns (byDate: Groups, byTerm: Groups, allRows: seq<Row>)
    ensures allRows == KeptRows(records)
    ensures byDate == GroupBy(allRows, ByDate) && byTerm == GroupBy(allRows, ByTerm)
  {
    byDate, byTerm, allRows := Groups([], map[]), Groups([], map[]), [];
    for i := 0 to |records|
      invariant allRows == KeptRows(records[..i])
      invariant byDate == GroupBy(allRows, ByDate) && byTerm == GroupBy(allRows, ByTerm)
    {
      var row := records[i];
      assert records[..i + 1][..i] == records[..i];
      if |row| < MIN_CELLS {
        continue;
      }
      var rowData := RowOf(row, i + 2);
      byDate := Append(byDate, KeyOf(rowData, ByDate), rowData);
      byTerm := Append(byTerm, KeyOf(rowData, ByTerm), rowData);
      assert (allRows + [rowData])[..|allRows|] == allRows;
      allRows := allRows + [rowData];
    }
    assert records[..|records|] == records;
  }

  // ---------------------------------------------------------------------
  // Selecting groups

  /** The two tests that pick groups: more than one row (dup_groups and
      multi_date_groups) and more than one distinct test date
      (different_dates_groups). */
  datatype Test = SeveralRows | SeveralDates

  /** set(r['teststartdate'] for r in rows). */
  function Dates(rows: seq<Row>): set<string> {
    set r | r in rows :: r.teststartdate
  }

  predicate Passes(rows: seq<Row>, t: Test) {
    match t
    case SeveralRows => |rows| > 1
    case SeveralDates => |Dates(rows)| > 1
  }

  /** The groups under keys, in that order, that pass t. */
  function SelectFrom(groups: Groups, keys: seq<Key>, t: Test): Groups
    requires forall k :: k in keys ==> k in groups.lists
    decreases |keys|
  {
    if keys == [] then Groups([], map[])
    else
      var prev := SelectFrom(groups, keys[..|keys| - 1], t);
      var k := keys[|keys| - 1];
      if Passes(groups.lists[k], t) then Groups(prev.order + [k], prev.lists[k := groups.lists[k]]) else prev
  }

  /** A dict comprehension keeping the groups that pass t, in insertion order. */
  function Select(groups: Groups, t: Test): Groups
    requires WellFormed(groups)
  {
    SelectFrom(groups, groups.order, t)
  }

  /** A selection holds exactly the listed groups that pass the test,
      unchanged, each listed once in the original order. */
  lemma {:induction false} SelectFromAt(groups: Groups, keys: seq<Key>, t: Test, k: Key)
    requires forall x :: x in keys ==> x in groups.lists
    ensures var sel := SelectFrom(groups, keys, t);
      && (k in sel.lists <==> k in keys && Passes(groups.lists[k], t))
      && (k in sel.lists ==> sel.lists[k] == groups.lists[k])
      && (k in sel.order <==> k in sel.lists)
    decreases |keys|
  {
    if keys != [] {
      var init := keys[..|keys| - 1];
      assert forall x :: x in init ==> x in keys;
      SelectFromAt(groups, init, t, k);
    }
  }

  /** Selecting from distinct keys lists each kept key once. */
  lemma {:induction false} SelectFromDistinct(groups: Groups, keys: seq<Key>, t: Test)
    requires forall x :: x in keys ==> x in groups.lists
    requires Distinct(keys)
    ensures Distinct(SelectFrom(groups, keys, t).order)
    decreases |keys|
  {
    if keys != [] {
      var init, last := keys[..|keys| - 1], keys[|keys| - 1];
      assert forall i :: 0 <= i < |init| ==> init[i] == keys[i];
      assert forall x :: x in init ==> x in keys;
      SelectFromDistinct(groups, init, t);
      SelectFromAt(groups, init, t, last);
    }
  }

  /** A group never has more distinct dates than rows. */
  lemma {:induction false} DatesBound(rows: seq<Row>)
    ensures |Dates(rows)| <= |rows|
    decreases |rows|
  {
    if rows != [] {
      var init := rows[..|rows| - 1];
      DatesBound(init);
      assert rows == init + [rows[|rows| - 1]];
      assert Dates(rows) == Dates(init) + {rows[|rows| - 1].teststartdate};
    }
  }

  /** A selection is well formed: its keys are listed once each and every
      kept group is non-empty. */
  lemma SelectWellFormed(groups: Groups, t: Test)
    requires WellFormed(groups)
    ensures WellFormed(Select(groups, t))
  {
    var sel := Select(groups, t);
    forall x
      ensures x in sel.lists <==> x in groups.order && Passes(groups.lists[x], t)
      ensures x in sel.lists ==> sel.lists[x] == groups.lists[x]
      ensures x in sel.order <==> x in sel.lists
    {
      SelectFromAt(groups, groups.order, t, x);
    }
    SelectFromDistinct(groups, groups.order, t);
  }

  /** The same-date duplicate groups (dup_groups): a date key is kept exactly
      when more than one kept row has it, and its group is those rows. */
  lemma DupGroupsExact(rows: seq<Row>, k: Key)
    ensures WellFormed(GroupBy(rows, ByDate))
    ensures var dup := Select(GroupBy(rows, ByDate), SeveralRows);
      && (k in dup.lists <==> |RowsWithKey(rows, ByDate, k)| > 1)
      && (k in dup.lists ==> dup.lists[k] == RowsWithKey(rows, ByDate, k))
  {
    var groups := GroupBy(rows, ByDate);
    GroupByShape(rows, ByDate);
    GroupByAt(rows, ByDate, k);
    SelectFromAt(groups, groups.order, SeveralRows, k);
  }

  /** The different-dates groups: a term group is kept exactly when its rows
      hold at least two distinct test dates (the more-than-one-row filter
      before it never drops such a group), and it is kept unchanged. */
  lemma DifferentDatesExact(byTerm: Groups, k: Key)
    requires WellFormed(byTerm)
    ensures WellFormed(Select(byTerm, SeveralRows))
    ensures var dd := Select(Select(byTerm, SeveralRows), SeveralDates);
      && (k in dd.lists <==> k in byTerm.lists && |Dates(byTerm.lists[k])| >= 2)
      && (k in dd.lists ==> dd.lists[k] == byTerm.lists[k])
  {
    var multi := Select(byTerm, SeveralRows);
    SelectWellFormed(byTerm, SeveralRows);
    SelectFromAt(byTerm, byTerm.order, SeveralRows, k);
    SelectFromAt(multi, multi.order, SeveralDates, k);
    if k in byTerm.lists {
      DatesBound(byTerm.lists[k]);
    }
  }

  // ---------------------------------------------------------------------
  // Diff patterns

  /** The columns compared within a same-date group. */
  datatype Column = TestRitScore | ClassName | TeacherName | TestStartTime | Grade

  function ColumnName(c: Column): string {
    match c
    case TestRitScore => "testritscore"
    case ClassName => "classname"
    case TeacherName => "teachername"
    case TestStartTime => "teststarttime"
    case Grade => "grade"
  }

  function Value(r: Row, c: Column): string {
    match c
    case TestRitScore => r.testritscore
    case ClassName => r.classname
    case TeacherName => r.teachername
    case TestStartTime => r.teststarttime
    case Grade => r.grade
  }

  /** The pattern of a group whose rows all agree on the compared columns. */
  const IDENTICAL: string := "IDENTICAL"

  /** Different columns have different names, none of them IDENTICAL. */
  lemma ColumnNamesDistinct(c: Column, d: Column)
    ensures ColumnName(c) == ColumnName(d) <==> c == d
    ensures ColumnName(c) != IDENTICAL
  {
  }

  /** The names of the columns on which r differs from base, added in the
      order the source tests them. */
  function RowDiffs(base: Row, r: Row): set<string> {
    OnlyIf(r.testritscore != base.testritscore, "testritscore")
    + OnlyIf(r.classname != base.classname, "classname")
    + OnlyIf(r.teachername != base.teachername, "teachername")
    + OnlyIf(r.teststarttime != base.teststarttime, "teststarttime")
    + OnlyIf(r.grade != base.grade, "grade")
  }

  /** {name} when b holds, and {} otherwise. */
  function OnlyIf(b: bool, name: string): set<string> {
    if b then {name} else {}
  }

  /** A column's name is in RowDiffs exactly when r differs from base on it,
      and every name in RowDiffs is a column's. */
  lemma RowDiffsAt(base: Row, r: Row, c: Column)
    ensures ColumnName(c) in RowDiffs(base, r) <==> Value(r, c) != Value(base, c)
    ensures forall x :: x in RowDiffs(base, r) ==> x in ColumnNames()
  {
    match c
    case TestRitScore =>
    case ClassName =>
    case TeacherName =>
    case TestStartTime =>
    case Grade =>
  }

  /** The names of all compared columns. */
  function ColumnNames(): set<string> {
    {"testritscore", "classname", "teachername", "teststarttime", "grade"}
  }

  /** differing_cols after comparing the rows rs with base. */
  function Differing(base: Row, rs: seq<Row>): set<string>
    decreases |rs|
  {
    if rs == [] then {} else Differing(base, rs[..|rs| - 1]) + RowDiffs(base, rs[|rs| - 1])
  }

  lemma DifferingSnoc(base: Row, rs: seq<Row>, r: Row)
    ensures Differing(base, rs + [r]) == Differing(base, rs) + RowDiffs(base, r)
  {
    assert (rs + [r])[..|rs|] == rs;
  }

  /** A column's name is among the differing columns exactly when some row
      differs from base on it, and nothing else is. */
  lemma {:induction false} DifferingAt(base: Row, rs: seq<Row>, c: Column)
    ensures ColumnName(c) in Differing(base, rs) <==> exists j :: 0 <= j < |rs| && Value(rs[j], c) != Value(base, c)
    ensures Differing(base, rs) <= ColumnNames()
    decreases |rs|
  {
    if rs != [] {
      var init := rs[..|rs| - 1];
      DifferingAt(base, init, c);
      RowDiffsAt(base, rs[|rs| - 1], c);
      assert forall j :: 0 <= j < |init| ==> init[j] == rs[j];
    }
  }

  /** `tuple(sorted(differing_cols)) if differing_cols else ('IDENTICAL',)`
      for the rows of one group, compared with its first row. */
  ghost function Pattern(rows: seq<Row>): seq<string>
    requires rows != []
  {
    var d := Differing(rows[0], rows[1..]);
    if d == {} then [IDENTICAL] else SortedOf(d)
  }

  /** Whether some later row of the group differs from its first row on c. */
  predicate DiffersOn(rows: seq<Row>, c: Column)
    requires rows != []
  {
    exists j :: 1 <= j < |rows| && Value(rows[j], c) != Value(rows[0], c)
  }

  /** The pattern is sorted, and a column's name is in it exactly when some
      later row differs from the first row on that column. */
  lemma PatternMembers(rows: seq<Row>, c: Column)
    requires rows != []
    ensures Sorted(Pattern(rows))
    ensures ColumnName(c) in Pattern(rows) <==> DiffersOn(rows, c)
  {
    var rs := rows[1..];
    var d := Differing(rows[0], rs);
    DifferingAt(rows[0], rs, c);
    if DiffersOn(rows, c) {
      var j :| 1 <= j < |rows| && Value(rows[j], c) != Value(rows[0], c);
      assert rs[j - 1] == rows[j];
    }
    if ColumnName(c) in d {
      var j :| 0 <= j < |rs| && Value(rs[j], c) != Value(rows[0], c);
      assert rs[j] == rows[j + 1];
    }
    if d == {} {
      ColumnNamesDistinct(c, c);
      assert Pattern(rows) == [IDENTICAL];
    } else {
      assert Pattern(rows) == SortedOf(d);
    }
  }

  /** The pattern is ('IDENTICAL',) exactly when every later row agrees with
      the first row on every compared column. */
  lemma PatternIdentical(rows: seq<Row>)
    requires rows != []
    ensures Pattern(rows) == [IDENTICAL] <==> forall c :: !DiffersOn(rows, c)
  {
    if Pattern(rows) == [IDENTICAL] {
      forall c
        ensures !DiffersOn(rows, c)
      {
        PatternMembers(rows, c);
        ColumnNamesDistinct(c, c);
      }
    } else {
      SomeColumnDiffers(rows);
    }
  }

  /** When the pattern is not ('IDENTICAL',), some column differs. */
  lemma SomeColumnDiffers(rows: seq<Row>)
    requires rows != [] && Pattern(rows) != [IDENTICAL]
    ensures exists c :: DiffersOn(rows, c)
  {
    var rs := rows[1..];
    var d := Differing(rows[0], rs);
    assert d != {};
    var x :| x in d;
    DifferingAt(rows[0], rs, TestRitScore);
    ColumnOfName(x);
    var c :| x == ColumnName(c);
    DifferingAt(rows[0], rs, c);
    var j :| 0 <= j < |rs| && Value(rs[j], c) != Value(rows[0], c);
    assert rs[j] == rows[j + 1];
    assert 1 <= j + 1 < |rows| && Value(rows[j + 1], c) != Value(rows[0], c);
    assert DiffersOn(rows, c);
  }

  /** Every compared column's name names a column. */
  lemma ColumnOfName(x: string)
    requires x in ColumnNames()
    ensures exists c :: x == ColumnName(c)
  {
    if x == "testritscore" {
      assert x == ColumnName(TestRitScore);
    } else if x == "classname" {
      assert x == ColumnName(ClassName);
    } else if x == "teachername" {
      assert x == ColumnName(TeacherName);
    } else if x == "teststarttime" {
      assert x == ColumnName(TestStartTime);
    } else {
      assert x == ColumnName(Grade);
    }
  }

  /** One pass of the inner comparison: adds to differing the name of each
      compared column on which r differs from base. */
  method CompareRow(base: Row, r: Row, differing: set<string>) returns (d: set<string>)
    ensures d == differing + RowDiffs(base, r)
  {
    d := differing;
    if r.testritscore != base.testritscore {
      d := d + {"testritscore"};
    }
    if r.classname != base.classname {
      d := d + {"classname"};
    }
    if r.teachername != base.teachername {
      d := d + {"teachername"};
    }
    if r.teststarttime != base.teststarttime {
      d := d + {"teststarttime"};
    }
    if r.grade != base.grade {
      d := d + {"grade"};
    }
  }

  /** The pattern loop of analyze_duplicates for one group: collects the
      compared columns on which a later row differs from the first row. */
  method DiffPattern(rows: seq<Row>) returns (pattern: seq<string>)
    requires rows != []
    ensures pattern == Pattern(rows)
  {
    var differing: set<string> := {};
    var base := rows[0];
    for i := 1 to |rows|
      invariant differing == Differing(base, rows[1..i])
    {
      var r := rows[i];
      assert rows[1..i] + [r] == rows[1..i + 1];
      DifferingSnoc(base, rows[1..i], r);
      differing := CompareRow(base, r, differing);
    }
    assert rows[1..|rows|] == rows[1..];
    assert differing == Differing(rows[0], rows[1..]);
    if differing == {} {
      pattern := [IDENTICAL];
    } else {
      pattern := SortedList(differing);
    }
  }

  // ---------------------------------------------------------------------
  // Classifying same-date duplicate groups by pattern

  /** A group as diff_patterns lists it: its key and its rows. */
  type Entry = (Key, seq<Row>)

  /** diff_patterns after the groups under keys, in that order. */
  ghost function PatternsOf(dup: Groups, keys: seq<Key>): map<seq<string>, seq<Entry>>
    requires forall k :: k in keys ==> k in dup.lists && dup.lists[k] != []
    decreases |keys|
  {
    if keys == [] then map[]
    else
      var prev := PatternsOf(dup, keys[..|keys| - 1]);
      var k := keys[|keys| - 1];
      var p := Pattern(dup.lists[k]);
      prev[p := (if p in prev then prev[p] else []) + [(k, dup.lists[k])]]
  }

  /** Every pattern lists at least one group, and each listed entry is one
      of the groups, filed under its own pattern. */
  lemma {:induction false} PatternsOfEntries(dup: Groups, keys: seq<Key>, p: seq<string>)
    requires forall k :: k in keys ==> k in dup.lists && dup.lists[k] != []
    requires p in PatternsOf(dup, keys)
    ensures PatternsOf(dup, keys)[p] != []
    ensures forall e :: e in PatternsOf(dup, keys)[p] ==> e.0 in keys && e.1 == dup.lists[e.0] && Pattern(e.1) == p
    decreases |keys|
  {
    var init, k := keys[..|keys| - 1], keys[|keys| - 1];
    assert forall x :: x in init ==> x in keys;
    var prev := PatternsOf(dup, init);
    if p in prev {
      PatternsOfEntries(dup, init, p);
    }
  }

  /** Every group is listed under its own pattern. */
  lemma {:induction false} PatternsOfListed(dup: Groups, keys: seq<Key>, k: Key)
    requires forall x :: x in keys ==> x in dup.lists && dup.lists[x] != []
    requires k in keys
    ensures Pattern(dup.lists[k]) in PatternsOf(dup, keys)
    ensures (k, dup.lists[k]) in PatternsOf(dup, keys)[Pattern(dup.lists[k])]
    decreases |keys|
  {
    var init, last := keys[..|keys| - 1], keys[|keys| - 1];
    if k != last {
      assert k in init;
      assert forall x :: x in init ==> x in keys;
      PatternsOfListed(dup, init, k);
    }
  }

  /** The grouping loop of analyze_duplicates: files each same-date
      duplicate group, in order, under its diff pattern. */
  method ClassifyDuplicates(dup: Groups) returns (patterns: map<seq<string>, seq<Entry>>)
    requires WellFormed(dup)
    ensures patterns == PatternsOf(dup, dup.order)
  {
    patterns := map[];
    for i := 0 to |dup.order|
      invariant patterns == PatternsOf(dup, dup.order[..i])
    {
      var key := dup.order[i];
      var rows := dup.lists[key];
      assert dup.order[..i + 1][..i] == dup.order[..i];
      var pattern := DiffPattern(rows);
      var prev := if pattern in patterns then patterns[pattern] else [];
      patterns := patterns[pattern := prev + [(key, rows)]];
    }
    assert dup.order[..|dup.order|] == dup.order;
  }

  // ---------------------------------------------------------------------
  // Different dates in the same term

  /** The loop that builds different_dates_groups: keeps, in order, the
      groups whose rows hold more than one distinct test date. */
  method DifferentDates(multi: Groups) returns (dd: Groups)
    requires WellFormed(multi)
    ensures dd == Select(multi, SeveralDates)
  {
    dd := Groups([], map[]);
    for i := 0 to |multi.order|
      invariant dd == SelectFrom(multi, multi.order[..i], SeveralDates)
    {
      var key := multi.order[i];
      var rows := multi.lists[key];
      assert multi.order[..i + 1][..i] == multi.order[..i];
      var dates := Dates(rows);
      if |dates| > 1 {
        dd := Groups(dd.order + [key], dd.lists[key := rows]);
      }
    }
    assert multi.order[..|multi.order|] == multi.order;
  }

  /** A retake group as retake_patterns lists it: its key, its rows and its
      sorted distinct test dates. */
  type Retake = (Key, seq<Row>, seq<string>)

  /** retake_patterns after the groups under keys, in that order. */
  ghost function BucketsOf(dd: Groups, keys: seq<Key>): map<nat, seq<Retake>>
    requires forall k :: k in keys ==> k in dd.lists
    decreases |keys|
  {
    if keys == [] then map[]
    else
      var prev := BucketsOf(dd, keys[..|keys| - 1]);
      var k := keys[|keys| - 1];
      var dates := SortedOf(Dates(dd.lists[k]));
      var n := |dates|;
      prev[n := (if n in prev then prev[n] else []) + [(k, dd.lists[k], dates)]]
  }

  /** Every bucket is non-empty, and each listed retake is one of the
      groups with its distinct dates in ascending order, filed under the
      number of those dates. */
  lemma {:induction false} BucketsOfEntries(dd: Groups, keys: seq<Key>, n: nat)
    requires forall k :: k in keys ==> k in dd.lists
    requires n in BucketsOf(dd, keys)
    ensures BucketsOf(dd, keys)[n] != []
    ensures forall e :: e in BucketsOf(dd, keys)[n] ==>
      && e.0 in keys && e.1 == dd.lists[e.0]
      && Sorted(e.2) && (forall x :: x in e.2 <==> x in Dates(e.1))
      && |e.2| == |Dates(e.1)| == n
    decreases |keys|
  {
    var init := keys[..|keys| - 1];
    assert forall x :: x in init ==> x in keys;
    var prev := BucketsOf(dd, init);
    if n in prev {
      BucketsOfEntries(dd, init, n);
    }
  }

  /** Every group is listed under its number of distinct dates. */
  lemma {:induction false} BucketsOfListed(dd: Groups, keys: seq<Key>, k: Key)
    requires forall x :: x in keys ==> x in dd.lists
    requires k in keys
    ensures |Dates(dd.lists[k])| in BucketsOf(dd, keys)
    ensures (k, dd.lists[k], SortedOf(Dates(dd.lists[k]))) in BucketsOf(dd, keys)[|Dates(dd.lists[k])|]
    decreases |keys|
  {
    var init, last := keys[..|keys| - 1], keys[|keys| - 1];
    if k != last {
      assert k in init;
      assert forall x :: x in init ==> x in keys;
      BucketsOfListed(dd, init, k);
    }
  }

  /** The retake loop of analyze_duplicates: files each different-dates
      group under its number of distinct test dates, with those dates sorted. */
  method BucketRetakes(dd: Groups) returns (retakes: map<nat, seq<Retake>>)
    requires WellFormed(dd)
    ensures retakes == BucketsOf(dd, dd.order)
  {
    retakes := map[];
    for i := 0 to |dd.order|
      invariant retakes == BucketsOf(dd, dd.order[..i])
    {
      var key := dd.order[i];
      var rows := dd.lists[key];
      assert dd.order[..i + 1][..i] == dd.order[..i];
      var dates := SortedList(Dates(rows));
      var numDates := |dates|;
      var prev := if numDates in retakes then retakes[numDates] else [];
      retakes := retakes[numDates := prev + [(key, rows, dates)]];
    }
    assert dd.order[..|dd.order|] == dd.order;
  }

  // ---------------------------------------------------------------------
  // Recommendations

  datatype Recommendation = TrueDuplicates | RosterDuplicates | DifferentScores | CaseByCase

  /** The pattern of a student listed under two classes or teachers. */
  const ROSTER: seq<string> := ["classname", "teachername"]

  /** The recommendation printed for a same-date pattern: the first of the
      source's tests that matches. */
  function Recommend(pattern: seq<string>): Recommendation {
    if pattern == [IDENTICAL] then TrueDuplicates
    else if pattern == ROSTER then RosterDuplicates
    else if "testritscore" in pattern then DifferentScores
    else CaseByCase
  }

  /** Whether the later rows differ from the first only in class and teacher. */
  predicate RosterOnly(rows: seq<Row>)
    requires rows != []
  {
    && DiffersOn(rows, ClassName) && DiffersOn(rows, TeacherName)
    && !DiffersOn(rows, TestRitScore) && !DiffersOn(rows, TestStartTime) && !DiffersOn(rows, Grade)
  }

  /** A group is called a true duplicate exactly when all its rows agree on
      every compared column. */
  lemma RecommendTrue(rows: seq<Row>)
    requires rows != []
    ensures Recommend(Pattern(rows)) == TrueDuplicates <==> forall c :: !DiffersOn(rows, c)
  {
    PatternIdentical(rows);
  }

  /** Rows that differ only in class and teacher have the pattern
      ('classname', 'teachername'). */
  lemma RosterOnlyPattern(rows: seq<Row>)
    requires rows != [] && RosterOnly(rows)
    ensures Pattern(rows) == ROSTER
  {
    var p := Pattern(rows);
    var d := Differing(rows[0], rows[1..]);
    PatternMembers(rows, ClassName);
    PatternMembers(rows, TeacherName);
    ColumnNamesDistinct(ClassName, ClassName);
    assert p != [IDENTICAL];
    DifferingAt(rows[0], rows[1..], ClassName);
    forall y | y in p
      ensures y == "classname" || y == "teachername"
    {
      assert y in d;
      PatternMembers(rows, TestRitScore);
      PatternMembers(rows, TestStartTime);
      PatternMembers(rows, Grade);
    }
    SortedPair(p, "classname", "teachername");
  }

  /** A sorted sequence holding a and b and nothing else, with a before b,
      is [a, b]. */
  lemma SortedPair(p: seq<string>, a: string, b: string)
    requires Sorted(p) && StrLt(a, b)
    requires a in p && b in p
    requires forall y :: y in p ==> y == a || y == b
    ensures p == [a, b]
  {
    StrLtIrreflexive(a);
    StrLtAsymmetric(a, b);
    SortedUnique(p, [a, b]);
  }

  /** The pattern is ('classname', 'teachername') exactly when the rows
      differ in class and teacher and in nothing else. */
  lemma PatternRoster(rows: seq<Row>)
    requires rows != []
    ensures Pattern(rows) == ROSTER <==> RosterOnly(rows)
  {
    if RosterOnly(rows) {
      RosterOnlyPattern(rows);
    }
    if Pattern(rows) == ROSTER {
      PatternRosterOnly(rows);
    }
  }

  /** Rows with the pattern ('classname', 'teachername') differ only in
      class and teacher. */
  lemma PatternRosterOnly(rows: seq<Row>)
    requires rows != [] && Pattern(rows) == ROSTER
    ensures RosterOnly(rows)
  {
    var p := Pattern(rows);
    assert p[0] == "classname" && p[1] == "teachername";
    PatternMembers(rows, ClassName);
    PatternMembers(rows, TeacherName);
    assert "testritscore" !in p && "teststarttime" !in p && "grade" !in p;
    PatternMembers(rows, TestRitScore);
    PatternMembers(rows, TestStartTime);
    PatternMembers(rows, Grade);
  }

  /** A group is called a roster duplicate exactly when its rows differ in
      class and teacher and in nothing else. */
  lemma RecommendRoster(rows: seq<Row>)
    requires rows != []
    ensures Recommend(Pattern(rows)) == RosterDuplicates <==> RosterOnly(rows)
  {
    PatternRoster(rows);
  }

  /** A group is flagged for different scores exactly when some row's score
      differs from the first row's. */
  lemma RecommendScores(rows: seq<Row>)
    requires rows != []
    ensures Recommend(Pattern(rows)) == DifferentScores <==> DiffersOn(rows, TestRitScore)
  {
    PatternMembers(rows, TestRitScore);
    assert "testritscore" !in [IDENTICAL];
    assert "testritscore" !in ROSTER;
  }

  /** Everything else is left for review: the score agrees, something else
      differs, and the difference is not just class and teacher. */
  lemma RecommendCaseByCase(rows: seq<Row>)
    requires rows != []
    ensures Recommend(Pattern(rows)) == CaseByCase <==>
      && !DiffersOn(rows, TestRitScore)
      && (exists c :: DiffersOn(rows, c))
      && !RosterOnly(rows)
  {
    RecommendTrue(rows);
    RecommendRoster(rows);
    RecommendScores(rows);
  }

  /** Every bucket of retake_patterns counts at least two dates: each group
      in it was kept for having more than one distinct test date. */
  lemma RetakesAtLeastTwoDates(byTerm: Groups, n: nat)
    requires WellFormed(byTerm)
    ensures WellFormed(Select(byTerm, SeveralRows))
    ensures WellFormed(Select(Select(byTerm, SeveralRows), SeveralDates))
    ensures var dd := Select(Select(byTerm, SeveralRows), SeveralDates);
      n in BucketsOf(dd, dd.order) ==> n >= 2
  {
    SelectWellFormed(byTerm, SeveralRows);
    var multi := Select(byTerm, SeveralRows);
    SelectWellFormed(multi, SeveralDates);
    var dd := Select(multi, SeveralDates);
    var r := BucketsOf(dd, dd.order);
    if n in r {
      BucketsOfEntries(dd, dd.order, n);
      var e: Retake := r[n][0];
      assert e in r[n];
      SelectFromAt(multi, multi.order, SeveralDates, e.0);
    }
  }

  // ---------------------------------------------------------------------
  // The whole analysis

  /** What analyze_duplicates reports: the kept rows, the same-date
      duplicate groups and their diff patterns, and the different-dates
      groups bucketed by their number of dates. */
  datatype Analysis = Analysis(
    allRows: seq<Row>,
    uniqueKeys: nat,
    dupGroups: Groups,
    diffPatterns: map<seq<string>, seq<Entry>>,
    differentDates: Groups,
    retakes: map<nat, seq<Retake>>)

  /** analyze_duplicates on the data records after the header row. */
  method AnalyzeDuplicates(records: seq<seq<string>>) returns (a: Analysis)
    ensures a.allRows == KeptRows(records)
    ensures a.uniqueKeys == |GroupBy(a.allRows, ByDate).order| <= |a.allRows|
    ensures WellFormed(GroupBy(a.allRows, ByDate)) && WellFormed(GroupBy(a.allRows, ByTerm))
    ensures a.dupGroups == Select(GroupBy(a.allRows, ByDate), SeveralRows)
    ensures WellFormed(a.dupGroups) && a.diffPatterns == PatternsOf(a.dupGroups, a.dupGroups.order)
    ensures WellFormed(Select(GroupBy(a.allRows, ByTerm), SeveralRows))
    ensures a.differentDates == Select(Select(GroupBy(a.allRows, ByTerm), SeveralRows), SeveralDates)
    ensures WellFormed(a.differentDates) && a.retakes == BucketsOf(a.differentDates, a.differentDates.order)
  {
    var byDate, byTerm, allRows := ReadRows(records);
    GroupByShape(allRows, ByDate);
    GroupByShape(allRows, ByTerm);
    SelectWellFormed(byDate, SeveralRows);
    var dup := Select(byDate, SeveralRows);
    var patterns := ClassifyDuplicates(dup);
    SelectWellFormed(byTerm, SeveralRows);
    var multi := Select(byTerm, SeveralRows);
    var dd := DifferentDates(multi);
    SelectWellFormed(multi, SeveralDates);
    var retakes := BucketRetakes(dd);
    a := Analysis(allRows, |byDate.order|, dup, patterns, dd, retakes);
  }
}
