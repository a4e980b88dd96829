# NWEA MAP comparison engine and duplicate analysis, modelled in Dafny

This project models two tools that check NWEA MAP Growth exports.

- `scripts/map-compare/compare.py` compares two extractions of one class's
  MAP results, the NWEA one and the app one. It does this in four steps:
  - It normalises subject names and cell values.
  - It matches students by `studentId|normalizedSubject`.
  - It compares every matched student field by field: range mid values,
    exact integers, decimals within a tolerance, and case-insensitive text.
  - It counts the differences per summary field and lists up to 30 detail
    rows per field.
- `analyze_duplicates.py` reads a MAP CSV export and groups its rows in two
  ways:
  - by student, subject and test date, giving same-day duplicates;
  - by student, subject and term.

  It classifies each same-day duplicate group by the set of compared columns
  that differ from the group's first row, buckets same-term groups with
  several test dates by their number of dates, and prints a recommendation
  per pattern.

Modules, one per file:

| file | module | what |
|---|---|---|
| values.dfy | `PyValues` | JSON values, `str()`, `round()`, `dict.get` |
| text.dfy | `TextOps` | `str.strip`, `lower`, `split`, string order, `sorted` of a set |
| normalize.dfy | `Normalize` | `normalize_subject`, `normalize_value`, `normalize_met_growth`, `normalize_date`, `get_mid_value` |
| comparators.dfy | `Comparators` | `compare_range`, `compare_exact_int`, `compare_decimal`, `compare_text` |
| student.dfy | `StudentCompare` | `compare_student`: its loops as methods, proved against a fold |
| lookup.dfy | `StudentLookup` | `build_student_lookup` |
| report.dfy | `Report` | `generate_report`: the key partition, the diff counter and detail lists, the 30-row tables |
| duplicates.dfy | `Duplicates` | `analyze_duplicates`: reading and grouping, the pattern loop, the date filter, the retake buckets, the recommendations |

Some source code works by updating variables in loops:
- the comparison loops of `compare_student`;
- the lookup loop;
- the counting loops of `generate_report`;
- the reading, pattern, filter and bucketing loops of `analyze_duplicates`.

That code is modelled as methods. Each method is proved equal to a
specification function, a fold over the same sequence in the same order.
Lemmas then state what that function means. Code built from expressions is
modelled as functions with lemmas.

## Model

| member | source | states |
|---|---|---|
| PyValues.PyStr | scripts/map-compare/compare.py:217 | defines `str()` of a value: a string is its own text, None prints as `None`, any other value prints as the text it carries |
| PyValues.PyEq | scripts/map-compare/compare.py:197 | defines `==` between values: numbers by value, dicts key by key with `==` again on their entries; `PyEqReflexive` and `PyEqSymmetric` state its laws |
| PyValues.PyEqReflexive | scripts/map-compare/compare.py:197 | every value, nested dicts included, equals itself |
| PyValues.PyEqSymmetric | scripts/map-compare/compare.py:197 | `a == b` implies `b == a`, nested dicts included |
| PyValues.ToFloat | scripts/map-compare/compare.py:214-215 | `float()` of a number is that number; None, a dict or a list make it raise; a string goes through the parser |
| PyValues.RoundHalfEven | scripts/map-compare/compare.py:152-153 | `round()` gives an integer within one half of its argument, and an exact tie goes to the even one |
| PyValues.RoundHalfEvenUnique | scripts/map-compare/compare.py:191-193 | any integer within one half, with ties resolved to even, is `round(x)`: the result is unique |
| PyValues.RoundTo4 | scripts/map-compare/compare.py:226 | `round(d, 4)` lies within 0.00005 of d and has at most four decimals |
| PyValues.Get | scripts/map-compare/compare.py:264 | `d.get(k)` is the stored value, or None when the key is absent |
| PyValues.GetOr | scripts/map-compare/compare.py:252 | `d.get(k, default)` is the stored value, or the default when the key is absent |
| TextOps.Strip | scripts/map-compare/compare.py:104 | `str.strip()` returns a text with no whitespace at either end, no longer than its input |
| TextOps.StripRemovesOnlyWhitespace | scripts/map-compare/compare.py:104 | the stripped text is a contiguous slice of the input, and everything cut off before or after it is whitespace |
| TextOps.StripTrimmed | scripts/map-compare/compare.py:129 | stripping a text with no whitespace at its ends returns it unchanged |
| TextOps.StripIdempotent | scripts/map-compare/compare.py:116 | stripping twice gives the same text as stripping once |
| TextOps.Lower | scripts/map-compare/compare.py:116 | `lower()` keeps the length and maps every character through the letter case map |
| TextOps.LowerChar | scripts/map-compare/compare.py:238 | an upper-case ASCII letter becomes its lower-case letter, and every other character is kept |
| TextOps.IndexOf | scripts/map-compare/compare.py:334 | the position found holds the separator, and no earlier position does |
| TextOps.Split | scripts/map-compare/compare.py:334 | `split` at the bar gives at least one part, at least two when the text holds the separator, exactly the text itself when it does not, and no part contains the separator |
| TextOps.SplitJoin | scripts/map-compare/compare.py:334 | joining the parts of a split with the separator gives back the text |
| TextOps.JoinSplit | scripts/map-compare/compare.py:303 | splitting a join of separator-free parts gives back the parts, so the key built with a bar splits into its id and subject |
| TextOps.SplitFirst | scripts/map-compare/compare.py:362-363 | splitting `a`, a bar and `b`, with no bar in `a`, gives `a` followed by the parts of `b` |
| TextOps.StrLtTransitive | scripts/map-compare/compare.py:349 | Python's string order is transitive |
| TextOps.StrLtTotal | scripts/map-compare/compare.py:349 | any two different strings are ordered one way or the other |
| TextOps.Insert | analyze_duplicates.py:107 | inserting a new string into a sorted sequence keeps it sorted and adds exactly that string |
| TextOps.SortedList | analyze_duplicates.py:140 | `sorted(set)` is strictly ascending and holds exactly the set's elements |
| TextOps.SortedUnique | analyze_duplicates.py:107 | two strictly ascending sequences with the same elements are equal, so `sorted` of a set has one result |
| Normalize.SubjectTableTargetsFixed | scripts/map-compare/compare.py:24-36 | every value of the subject table is a canonical name, and each canonical name maps to itself |
| Normalize.CleanSubject | scripts/map-compare/compare.py:47-49 | after `strip` and removing the leading bullets, the name starts with no bullet or space and ends with no space |
| Normalize.CleanSubjectFixed | scripts/map-compare/compare.py:47-49 | a name that is already clean is left unchanged |
| Normalize.NormalizeSubject | scripts/map-compare/compare.py:39-50 | the name returned is one the table leaves as it is, either a canonical name or a cleaned name the table does not list |
| Normalize.NormalizeSubjectCases | scripts/map-compare/compare.py:39-50 | the result is None exactly for None and ""; a cleaned name found in the table gives its target, any other cleaned name is returned as it is |
| Normalize.SubjectNameFixed | scripts/map-compare/compare.py:50 | each canonical subject name normalises to itself |
| Normalize.UnlistedSubjectFixed | scripts/map-compare/compare.py:50 | a clean name missing from the table normalises to itself |
| Normalize.NormalizeSubjectIdempotent | scripts/map-compare/compare.py:39-50 | when the first result is a non-empty name, normalising it again changes nothing |
| Normalize.NormalizeValue | scripts/map-compare/compare.py:99-108 | strings are stripped, and placeholders (em dash, `-`, `***`, empty, `null`, `None`) become None; other values pass through unchanged; a surviving string is trimmed and no placeholder |
| Normalize.NormalizeValueIdempotent | scripts/map-compare/compare.py:99-108 | normalising a value twice equals normalising it once |
| Normalize.NormalizeMetGrowth | scripts/map-compare/compare.py:111-121 | the result is None exactly when the normalised value is; otherwise it is "Yes", "No", or the normalised value itself |
| Normalize.NormalizeMetGrowthCases | scripts/map-compare/compare.py:111-121 | None stays None; a value whose folded text starts with "yes" becomes "Yes", else one starting with "no" becomes "No", else the normalised value is kept |
| Normalize.MetGrowthYesFixed | scripts/map-compare/compare.py:117-118 | "Yes" normalises to itself |
| Normalize.MetGrowthNoFixed | scripts/map-compare/compare.py:119-120 | "No" normalises to itself |
| Normalize.NormalizeMetGrowthIdempotent | scripts/map-compare/compare.py:111-121 | normalising Met Projected Growth twice equals normalising it once |
| Normalize.NormalizeDate | scripts/map-compare/compare.py:124-129 | the result is None exactly when the normalised value is; otherwise it is the stripped `str()` of that value |
| Normalize.NormalizeDateOfString | scripts/map-compare/compare.py:124-129 | on a string, `normalize_date` equals `normalize_value` |
| Normalize.GetMidValue | scripts/map-compare/compare.py:132-136 | a dict gives its `mid` entry or None; any other value is returned as it is |
| Comparators.CompareRange | scripts/map-compare/compare.py:139-178 | anything but two dicts gives no diff; two dicts are compared by their normalised mids; two missing mids give no diff |
| Comparators.MidDiff | scripts/map-compare/compare.py:143-176 | no diff when both mids are None; a diff without delta when one side is None; both numeric: a diff with delta `app - nwea` exactly when the rounded integers differ; otherwise a diff exactly when the `str()` texts differ |
| Comparators.ExactIntDiff | scripts/map-compare/compare.py:181-202 | None/None match; two numeric values differ exactly when their rounded integers differ, with delta `app - nwea`; None against a number is a diff without delta; when the NWEA value does not convert, both raw values are compared with `==` and a difference is a diff without delta; when only the app value does not convert, the diff pairs the rounded NWEA value (or None) with the raw app value, without delta; a delta appears only when both sides converted |
| Comparators.CompareExactInt | scripts/map-compare/compare.py:181-202 | two missing or placeholder values give no diff, and neither does a value compared with itself; the cases of `ExactIntDiff` apply to the normalised values |
| Comparators.DecimalDiff | scripts/map-compare/compare.py:205-227 | None/None match; two numbers differ exactly when they are more than the tolerance apart, with the delta rounded to 4 places; one None is a diff; a value that does not convert makes the `str()` texts decide |
| Comparators.CompareDecimal | scripts/map-compare/compare.py:205-227 | two missing or placeholder values give no diff, and with a non-negative tolerance neither does a value compared with itself |
| Comparators.TextDiff | scripts/map-compare/compare.py:230-243 | no diff exactly when both are None or both fold (str, lower, strip) to the same text; the diff carries the two normalised values |
| Comparators.CompareText | scripts/map-compare/compare.py:230-243 | no diff exactly when both values normalise to None, or neither does and both fold to the same text |
| Comparators.CompareTextSymmetric | scripts/map-compare/compare.py:230-243 | whether `compare_text` reports a diff does not depend on the argument order |
| Comparators.MidDiffSymmetric | scripts/map-compare/compare.py:143-176 | swapping the sides keeps the diff or no-diff verdict and negates the delta |
| Comparators.CompareRangeSymmetric | scripts/map-compare/compare.py:139-178 | swapping the two ranges keeps the verdict and negates the delta |
| Comparators.ExactIntDiffSymmetric | scripts/map-compare/compare.py:181-202 | swapping the sides keeps the verdict and negates the delta |
| Comparators.CompareExactIntSymmetric | scripts/map-compare/compare.py:181-202 | the same for `compare_exact_int` on raw values |
| Comparators.DecimalDiffSymmetric | scripts/map-compare/compare.py:205-227 | swapping the sides keeps the verdict of `compare_decimal` |
| Comparators.ComparatorsReflexive | scripts/map-compare/compare.py:139-243 | every comparator reports no diff for a value compared with itself (for a non-negative tolerance) |
| StudentCompare.FieldDiff | scripts/map-compare/compare.py:252-290 | defines the comparison of one field under its rule: range fields default to an empty dict, dates and Met Projected Growth are normalised first; `FieldDiffReflexive` and `FieldDiffSymmetric` state its laws |
| StudentCompare.StudentDiffs | scripts/map-compare/compare.py:246-292 | defines the dict `compare_student` returns, as the fold over its fourteen comparisons; `StudentDiffsAt` states what it holds |
| StudentCompare.StudentDiffsAt | scripts/map-compare/compare.py:246-292 | the diff dict holds only compared fields; each compared field is present exactly when its comparator reports a diff, and then holds that diff |
| StudentCompare.DiffsFromAt | scripts/map-compare/compare.py:248-290 | the same for any list of distinct (field, rule) pairs walked in order |
| StudentCompare.ComparisonsDistinct | scripts/map-compare/compare.py:56-74 | the 14 compared fields are pairwise distinct, so no later loop overwrites an earlier field's diff |
| StudentCompare.StudentDiffsIsFold | scripts/map-compare/compare.py:246-292 | the four loops followed by grade, date and Met Projected Growth equal one fold over the compared (field, rule) list |
| StudentCompare.LoopsAreFold | scripts/map-compare/compare.py:251-272 | the range, range, exact-integer and decimal loops run in sequence equal the fold over their concatenated field lists |
| StudentCompare.FieldDiffReflexive | scripts/map-compare/compare.py:252-290 | any field compared with itself under any rule gives no diff |
| StudentCompare.StudentDiffsReflexive | scripts/map-compare/compare.py:246-292 | a student compared with itself has no diffs |
| StudentCompare.FieldDiffSymmetric | scripts/map-compare/compare.py:252-290 | whether a field differs does not depend on which side is NWEA |
| StudentCompare.StudentDiffsSymmetric | scripts/map-compare/compare.py:246-292 | swapping the two students gives the same set of differing fields |
| StudentCompare.AddRangeDiffs | scripts/map-compare/compare.py:251-260 | the range loop stores exactly what the range fold computes |
| StudentCompare.AddExactIntDiffs | scripts/map-compare/compare.py:263-266 | the exact-integer loop stores exactly what its fold computes |
| StudentCompare.AddDecimalDiffs | scripts/map-compare/compare.py:269-272 | the decimal loop, each field with its own tolerance, stores exactly what its fold computes |
| StudentCompare.CompareStudent | scripts/map-compare/compare.py:246-292 | `compare_student` returns the diff dict characterised by `StudentDiffsAt` |
| StudentLookup.StudentId | scripts/map-compare/compare.py:300 | a missing id counts as "", and a present one is stripped |
| StudentLookup.JoinKeySplit | scripts/map-compare/compare.py:303 | a key always holds a bar, and splitting a key whose parts hold no bar gives the id and the subject back |
| StudentLookup.KeyOf | scripts/map-compare/compare.py:299-303 | defines the key of one student, or a skip; `KeyOfCases` states its cases |
| StudentLookup.KeyOfCases | scripts/map-compare/compare.py:299-303 | a student is skipped exactly when its subject normalises to nothing or its stripped id is empty; otherwise its key is the id, a bar and the subject |
| StudentLookup.KeyOfStrings | scripts/map-compare/compare.py:299-304 | a trimmed non-empty id and a subject normalising to a name give the key made of the id, a bar and the name |
| StudentLookup.SubjectKeysHaveNoBar | scripts/map-compare/compare.py:24-36 | no subject table entry contains a bar |
| StudentLookup.KeyCollision | scripts/map-compare/compare.py:303 | the id `a` + bar + `b` with a canonical subject, and the id `a` with the subject `b` + bar + that subject, get the same key, so one overwrites the other |
| StudentLookup.BarredSubjectFixed | scripts/map-compare/compare.py:50 | a clean subject with a bar in it is not in the table and normalises to itself |
| StudentLookup.StoreAllKeys | scripts/map-compare/compare.py:297-305 | the keys stored are exactly the keys computed, and each holds one of the records with that key |
| StudentLookup.StoreAllLastWins | scripts/map-compare/compare.py:304 | a key holds the last record computed with that key |
| StudentLookup.StoreAllSize | scripts/map-compare/compare.py:297-305 | the dict has no more entries than there were records |
| StudentLookup.KeysOf | scripts/map-compare/compare.py:298-303 | one key (or skip) per record, in order |
| StudentLookup.Lookup | scripts/map-compare/compare.py:295-305 | defines the dict `build_student_lookup` returns, each key storing its record in order; `LookupKeys` and `LookupLastWins` state what it holds |
| StudentLookup.LookupKeys | scripts/map-compare/compare.py:295-305 | a key is in the lookup exactly when some student has it, and the student stored under it is one with that key |
| StudentLookup.LookupLastWins | scripts/map-compare/compare.py:304 | when several students share a key, the last one wins |
| StudentLookup.LookupKeysHaveBar | scripts/map-compare/compare.py:303 | every lookup key contains a bar |
| StudentLookup.LookupSize | scripts/map-compare/compare.py:295-305 | the lookup has at most as many entries as the students array |
| StudentLookup.BuildStudentLookup | scripts/map-compare/compare.py:295-305 | the loop builds exactly the lookup characterised above |
| Report.Names | scripts/map-compare/compare.py:354 | the field names of the summary list, one per entry, in order |
| Report.PartitionKeys | scripts/map-compare/compare.py:316-318 | matched, NWEA-only and app-only are pairwise disjoint; matched plus NWEA-only is the NWEA key set; matched plus app-only is the app key set |
| Report.PartitionSizes | scripts/map-compare/compare.py:322-326 | the matched and one-sided counts add up to the size of each lookup |
| Report.KeyParts | scripts/map-compare/compare.py:334 | the two parts the report takes from a key with a bar (the first two pieces of its split) hold no bar |
| Report.PairDiffs | scripts/map-compare/compare.py:349-352 | `compare_student` is run for exactly the keys in both lookups |
| Report.DetailsForCount | scripts/map-compare/compare.py:349-367 | a field's detail list has one entry per matched key whose diffs mention that field, so it is no longer than the key list |
| Report.DetailsForSnoc | scripts/map-compare/compare.py:361-367 | one more key appends at most one detail: that student's, when the field differs |
| Report.DetailTable | scripts/map-compare/compare.py:396-400 | at most 30 details are shown, in order, and a "more" row counting the rest follows when there are over 30 |
| Report.DetailTableWeight | scripts/map-compare/compare.py:396-400 | the shown rows plus the "more" count account for every detail |
| Report.CountFieldsDetails | scripts/map-compare/compare.py:354-367 | after one student, each summary field's detail list has gained that student's detail exactly when the field differs |
| Report.CountFieldsCounter | scripts/map-compare/compare.py:354-356 | after one student, each field's counter has grown by one exactly when it is a summary field that differs |
| Report.CountDiffs | scripts/map-compare/compare.py:354-367 | the inner loop over the summary fields updates counter and details as the fold does |
| Report.CountedStep | scripts/map-compare/compare.py:349-367 | one outer iteration keeps the loop invariant: the detail lists are the details of the keys done so far, and each count equals its list's length |
| Report.CountedTotals | scripts/map-compare/compare.py:346-375 | after all matched keys, each field's count equals its detail count, which equals the number of matched students differing in it, at most the matched count |
| Report.CountMatched | scripts/map-compare/compare.py:349-367 | the outer loop over the sorted matched keys establishes that invariant |
| Report.GenerateReportWith | scripts/map-compare/compare.py:308-400 | the report holds both lookups, the exact key partition, and one detail list per summary field; each list holds the matched students that differ, in key order; each count equals its list's length; the tables are capped at 30 rows |
| Report.GenerateReport | scripts/map-compare/compare.py:308-400 | the same for the nine summary fields of the source |
| Report.StrLtIrreflexiveAll | scripts/map-compare/compare.py:349 | a sorted key list has no repeats |
| Duplicates.RowOf | analyze_duplicates.py:44-64 | a row keeps its record number and its full list of cells (its other fields are the cells at the source's column indexes) |
| Duplicates.KeptRows | analyze_duplicates.py:40-68 | defines `all_rows`: the rows of the records with enough cells, in file order; `KeptRowsAre` states what it holds |
| Duplicates.KeptRowsAre | analyze_duplicates.py:40-42 | the kept rows are exactly the records with at least 155 cells, each numbered from 2 as `enumerate(reader, start=2)` does, and in increasing record order |
| Duplicates.KeptRowsOrdered | analyze_duplicates.py:40 | kept rows are numbered within the file, in increasing order |
| Duplicates.ReadRows | analyze_duplicates.py:40-68 | the reading loop yields the kept rows and the two groupings of them |
| Duplicates.GroupBy | analyze_duplicates.py:66-67 | defines a defaultdict(list) after appending every row under its key, in order; `GroupByShape` and `GroupByAt` state what it holds |
| Duplicates.RowsWithKey | analyze_duplicates.py:66-67 | the rows with one key are rows read, all with that key |
| Duplicates.GroupByShape | analyze_duplicates.py:66-71 | each key is listed once, every group is non-empty, the group sizes add up to the number of rows, and there are no more keys than rows |
| Duplicates.GroupByAt | analyze_duplicates.py:32-33 | a key has a group exactly when some row has that key, and the group holds those rows in read order |
| Duplicates.RowInOwnGroup | analyze_duplicates.py:66-67 | every row lies in the group of its own key |
| Duplicates.GroupStartsAtFirstRow | analyze_duplicates.py:93 | a group's first row, the pattern's base, is the first row read with that key |
| Duplicates.AppendShape | analyze_duplicates.py:66 | appending to a defaultdict list keeps the keys distinct and the groups non-empty, and adds one row to the total |
| Duplicates.Select | analyze_duplicates.py:83 | defines a dict comprehension over the groups in insertion order that keeps those passing a test; `SelectFromAt` and `SelectWellFormed` state what it keeps |
| Duplicates.SelectFromAt | analyze_duplicates.py:83 | the dict comprehension keeps exactly the groups that pass its test, unchanged |
| Duplicates.SelectWellFormed | analyze_duplicates.py:126 | a filtered grouping still lists each key once with a non-empty group |
| Duplicates.DupGroupsExact | analyze_duplicates.py:83 | a date key is a duplicate group exactly when more than one kept row has it, and the group is those rows |
| Duplicates.DatesBound | analyze_duplicates.py:131 | a group has no more distinct dates than rows |
| Duplicates.DifferentDatesExact | analyze_duplicates.py:126-133 | a term group has different dates exactly when its rows hold two or more distinct dates; the more-than-one-row filter before it never drops such a group |
| Duplicates.DifferentDates | analyze_duplicates.py:129-133 | the filtering loop keeps, in order, the groups with more than one distinct date |
| Duplicates.ColumnNamesDistinct | analyze_duplicates.py:96-105 | the five compared column names are distinct and none is IDENTICAL |
| Duplicates.RowDiffsAt | analyze_duplicates.py:96-105 | a column name is added for a row exactly when that row differs from the base in that column |
| Duplicates.CompareRow | analyze_duplicates.py:96-105 | one pass of the inner body adds to the set the names of the columns on which the row differs from the base |
| Duplicates.DifferingAt | analyze_duplicates.py:94-105 | after the later rows, a column name is in the set exactly when one of them differs from the base in that column, and nothing else is |
| Duplicates.DiffPattern | analyze_duplicates.py:90-107 | the pattern loop computes the group's pattern |
| Duplicates.Pattern | analyze_duplicates.py:107 | defines the pattern of a group: `IDENTICAL` when no later row differs from the first, otherwise the sorted differing column names; `PatternMembers` and `PatternIdentical` state what it holds |
| Duplicates.PatternMembers | analyze_duplicates.py:107 | a pattern is sorted, and a column name is in it exactly when a later row differs from the first in that column |
| Duplicates.PatternIdentical | analyze_duplicates.py:107 | the pattern is `('IDENTICAL',)` exactly when every later row agrees with the first on every compared column |
| Duplicates.PatternsOf | analyze_duplicates.py:88-108 | defines `diff_patterns` after filing the duplicate groups in order; `PatternsOfEntries` and `PatternsOfListed` state what it holds |
| Duplicates.PatternsOfEntries | analyze_duplicates.py:108 | every pattern lists at least one group, and every listed group is a duplicate group filed under its own pattern |
| Duplicates.PatternsOfListed | analyze_duplicates.py:108 | every duplicate group is listed under its pattern |
| Duplicates.ClassifyDuplicates | analyze_duplicates.py:89-108 | the classification loop files every duplicate group, in order, under its pattern |
| Duplicates.BucketsOf | analyze_duplicates.py:138-142 | defines `retake_patterns` after filing the different-dates groups in order; `BucketsOfEntries` and `BucketsOfListed` state what it holds |
| Duplicates.BucketsOfEntries | analyze_duplicates.py:138-142 | every bucket is non-empty; each entry is a group with its distinct dates in ascending order, filed under the number of those dates |
| Duplicates.BucketsOfListed | analyze_duplicates.py:142 | every different-dates group is listed under its number of distinct dates |
| Duplicates.BucketRetakes | analyze_duplicates.py:138-142 | the retake loop files each group, with its sorted dates, under its number of dates |
| Duplicates.RetakesAtLeastTwoDates | analyze_duplicates.py:126-142 | every retake bucket counts at least two dates |
| Duplicates.Recommend | analyze_duplicates.py:166-178 | defines the recommendation for a pattern, the first test that matches; the four `Recommend…` lemmas below state which groups get each one |
| Duplicates.RecommendTrue | analyze_duplicates.py:166-167 | a group is called a true duplicate exactly when all its rows agree on every compared column |
| Duplicates.PatternRoster | analyze_duplicates.py:168 | the pattern is `('classname', 'teachername')` exactly when the rows differ in class and teacher and in nothing else |
| Duplicates.RecommendRoster | analyze_duplicates.py:168-172 | a group is called a roster duplicate exactly when its rows differ in class and teacher only |
| Duplicates.RecommendScores | analyze_duplicates.py:173-176 | a group is flagged for different scores exactly when some row's score differs from the first row's |
| Duplicates.RecommendCaseByCase | analyze_duplicates.py:177-178 | case-by-case review is left for exactly the groups with equal scores that differ somewhere, but not only in class and teacher |
| Duplicates.AnalyzeDuplicates | analyze_duplicates.py:26-142 | the whole analysis: the kept rows, at most as many unique date keys as rows, the duplicate groups with their patterns, and the different-dates groups with their retake buckets |

## Left out

- File and process I/O are not modelled:
  - reading the two JSON files, argument parsing, and writing the report in `compare.py`;
  - opening the CSV file in `analyze_duplicates.py`.

  The models start from values: the `students` arrays, and the CSV records after the header row. `next(reader)` consumes that header, and `enumerate(reader, start=2)` numbers the records that follow from 2, so record `i` gets number `i + 2`. That is a record number, not a line number: a quoted cell holding a newline spans several lines.
- All printed and formatted text is left out: the markdown lines, the percentages and the `!!!` marker, the overall match rate, the `:+.0f` delta format, and the examples shown per pattern. The model stops at the values those lines print (counts, lists, tables).
- `nwea_data.get('students', [])` is not modelled: the two student arrays are the inputs.
- Python `float()` on a string is a parameter (`FloatParser`), not a parser. Floating point is modelled by reals:
  - `round()` is exact round-half-to-even;
  - the tolerance test of `compare_decimal` has no binary rounding error;
  - the 0.1 and 0.01 tolerances are exact.
- Non-finite floats are not modelled: the parser yields finite reals only. In Python `float("inf")` and `float("nan")` succeed, and `round()` then raises. For infinity it raises OverflowError, which the `except (ValueError, TypeError)` clauses of `compare_range` and `compare_exact_int` (compare.py:169 and 194) do not catch, so the report stops. For nan it raises ValueError, and the two functions then differ: `compare_range` falls back to comparing the `str()` texts of the mids (compare.py:169-176), while `compare_exact_int` swallows the error (compare.py:194-195) and compares the raw normalised values with `!=` (compare.py:197), so a NaN number read from the JSON differs even from itself. Infinity and nan also change the tolerance test of `compare_decimal`. None of this is captured.
- PyValues.PyEq: JSON arrays (`Other`) are compared by their printed text, not element by element, so `[5] == [5.0]`, which Python finds true, is false in the model. Dicts are compared key by key with `==` on their entries.
- Comparators: the `raw` entries of a range diff are not modelled. The report reads only `nwea_mid`/`app_mid`, or `nwea`/`app` when those are absent, so each diff carries just the value the report shows.
- `lower()` is modelled for ASCII letters only. `isspace()` is the exact set of Python whitespace characters.
- StudentLookup.BuildStudentLookup: requires `subject` and `studentId` to be strings or missing. The source treats a falsy non-string (0, an empty list) as missing and raises on a truthy non-string. Neither case is modelled.
- Report.GenerateReportWith: takes the summary field names as a parameter so that the proof does not unroll the literal list. `GenerateReport` passes the nine names of the source.
- The order in which `diff_patterns` and `retake_patterns` are printed is not modelled: sorted by descending group count, and by number of dates. The dicts themselves are modelled, with each list in insertion order.
- Duplicates.AnalyzeDuplicates: the `print` of the total row count and of "duplicate rows" (`total_rows - unique_keys`) is left out. Its contract does state `unique_keys <= total_rows`, so that difference is never negative.
- The teststartdate-ordered score list printed per retake example is left out (printing only).
