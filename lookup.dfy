/** build_student_lookup (scripts/map-compare/compare.py): the records of
    one extraction keyed by `studentId|normalizedSubject`. */
module StudentLookup {
  import opened TextOps
  import opened PyValues
  import opened Normalize

  /** The two fields the lookup reads hold a string or are absent. */
  predicate Keyable(s: Record) {
    var subj, id := Get(s, "subject"), Get(s, "studentId");
    (subj.Null? || subj.Str?) && (id.Null? || id.Str?)
  }

  predicate AllKeyable(ss: seq<Record>) {
    forall i :: 0 <= i < |ss| ==> Keyable(ss[i])
  }

  /** `(s.get('studentId') or '').strip()`. */
  function StudentId(s: Record): (id: string)
    requires Keyable(s)
    ensures Get(s, "studentId").Null? ==> id == ""
    ensures Get(s, "studentId").Str? ==> id == Strip(Get(s, "studentId").s)
    ensures Trimmed(id)
  {
    var v := Get(s, "studentId");
    if v.Str? then Strip(v.s) else ""
  }

  /** `f"{student_id}|{subj}"`. */
  function JoinKey(id: string, subj: string): string {
    id + "|" + subj
  }

  /** A joined key holds a bar, and when neither part does, splitting the
      key at '|' gives the two parts back. */
  lemma JoinKeySplit(id: string, subj: string)
    ensures '|' in JoinKey(id, subj)
    ensures '|' !in id && '|' !in subj ==> Split(JoinKey(id, subj), '|') == [id, subj]
  {
    assert JoinKey(id, subj)[|id|] == '|';
    if '|' !in id && '|' !in subj {
      SplitFirst(id, '|', subj);
      assert JoinKey(id, subj) == id + ['|'] + subj;
    }
  }

  /** The key a record is stored under, or None when the lookup skips it. */
  function KeyOf(s: Record): Option<string>
    requires Keyable(s)
  {
    var subj := NormalizeSubject(Get(s, "subject"));
    var id := StudentId(s);
    if subj.None? || subj.value == "" || id == "" then None
    else Some(JoinKey(id, subj.value))
  }

  /** A record is skipped exactly when its subject normalises to nothing or
      to "", or its stripped id is empty; otherwise its key is the id, a bar
      and the subject. */
  lemma KeyOfCases(s: Record)
    requires Keyable(s)
    ensures KeyOf(s).None? <==>
      NormalizeSubject(Get(s, "subject")).None? || NormalizeSubject(Get(s, "subject")).value == "" || StudentId(s) == ""
    ensures KeyOf(s).Some? ==> KeyOf(s).value == JoinKey(StudentId(s), NormalizeSubject(Get(s, "subject")).value)
  {
  }

  /** A record with a trimmed, non-empty id and a subject that normalises
      to a non-empty name is keyed by the two joined with a bar. */
  lemma KeyOfStrings(r: Record, id: string, subj: string, name: string)
    requires Get(r, "studentId") == Str(id) && Get(r, "subject") == Str(subj)
    requires id != [] && Trimmed(id)
    requires NormalizeSubject(Str(subj)) == Some(name) && name != ""
    ensures Keyable(r) && KeyOf(r) == Some(JoinKey(id, name))
  {
    StripTrimmed(id);
    assert StudentId(r) == id;
    assert NormalizeSubject(Get(r, "subject")) == Some(name);
  }

  /** No spelling in the subject table holds a bar. */
  lemma SubjectKeysHaveNoBar()
    ensures forall k :: k in SUBJECT_NORMALIZATIONS ==> '|' !in k
  {
    var keys := ["Math K-12", "Math K-", "Math 6+", "Mathematics", "Reading", "Language Usage",
                 "Language Arts", "Science K-12", "Science K-", "Science", "General Science"];
    assert SUBJECT_NORMALIZATIONS.Keys == set k | k in keys;
    forall i | 0 <= i < |keys| ensures '|' !in keys[i] { }
  }

  /** The key does not tell an id holding a bar from a subject holding one:
      id "a|b" in a canonical subject and id "a" in the unlisted subject
      "b|subject" share a key (for instance "1|2" in Reading and "1" in
      "2|Reading"). */
  lemma KeyCollision(a: string, b: string, subj: string)
    requires a != [] && !IsSpace(a[0]) && !IsSpace(a[|a| - 1])
    requires b != [] && !IsSubjectLead(b[0]) && !IsSpace(b[|b| - 1])
    requires subj in SUBJECT_NAMES
    ensures var r1 := map["studentId" := Str(a + "|" + b), "subject" := Str(subj)];
            var r2 := map["studentId" := Str(a), "subject" := Str(b + "|" + subj)];
            Keyable(r1) && Keyable(r2) && KeyOf(r1).Some? && KeyOf(r1) == KeyOf(r2)
  {
    var id1, s2 := a + "|" + b, b + "|" + subj;
    var r1 := map["studentId" := Str(id1), "subject" := Str(subj)];
    var r2 := map["studentId" := Str(a), "subject" := Str(s2)];
    SubjectNameFixed(subj);
    BarredSubjectFixed(b, subj);
    assert id1[0] == a[0] && id1[|id1| - 1] == b[|b| - 1];
    assert Get(r1, "studentId") == Str(id1) && Get(r1, "subject") == Str(subj);
    assert Get(r2, "studentId") == Str(a) && Get(r2, "subject") == Str(s2);
    KeyOfStrings(r1, id1, subj, subj);
    KeyOfStrings(r2, a, s2, s2);
    JoinAssociative(a, b, subj);
  }

  /** "b|subject" is no table spelling, so it normalises to itself. */
  lemma BarredSubjectFixed(b: string, subj: string)
    requires b != [] && !IsSubjectLead(b[0]) && !IsSpace(b[|b| - 1])
    requires subj in SUBJECT_NAMES
    ensures NormalizeSubject(Str(b + "|" + subj)) == Some(b + "|" + subj)
  {
    var s2 := b + "|" + subj;
    SubjectNamesClean(subj);
    assert s2[|b|] == '|';
    assert s2 !in SUBJECT_NORMALIZATIONS by { SubjectKeysHaveNoBar(); }
    assert s2[0] == b[0] && s2[|s2| - 1] == subj[|subj| - 1];
    UnlistedSubjectFixed(s2);
  }

  lemma JoinAssociative(a: string, b: string, c: string)
    ensures JoinKey(a + "|" + b, c) == JoinKey(a, b + "|" + c)
  {
  }

  /** The dict after storing each ss[i] under ks[i], in order, skipping the
      records whose key is None: a later record replaces an earlier one. */
  function StoreAll(ks: seq<Option<string>>, ss: seq<Record>): map<string, Record>
    requires |ks| == |ss|
    decreases |ss|
  {
    if ss == [] then map[]
    else
      var m := StoreAll(ks[..|ks| - 1], ss[..|ss| - 1]);
      var k := ks[|ks| - 1];
      if k.Some? then m[k.value := ss[|ss| - 1]] else m
  }

  /** The stored keys are exactly the keys given, and each holds a record
      given with that key. */
  lemma {:induction false} StoreAllKeys(ks: seq<Option<string>>, ss: seq<Record>)
    requires |ks| == |ss|
    ensures forall key :: key in StoreAll(ks, ss) <==> Some(key) in ks
    ensures forall key :: key in StoreAll(ks, ss) ==>
      exists i :: 0 <= i < |ss| && ks[i] == Some(key) && StoreAll(ks, ss)[key] == ss[i]
    decreases |ss|
  {
    if ss != [] {
      var ki, si := ks[..|ks| - 1], ss[..|ss| - 1];
      var last := |ss| - 1;
      StoreAllKeys(ki, si);
      assert ks == ki + [ks[last]];
      forall key
        ensures key in StoreAll(ks, ss) <==> Some(key) in ks
        ensures key in StoreAll(ks, ss) ==>
          exists i :: 0 <= i < |ss| && ks[i] == Some(key) && StoreAll(ks, ss)[key] == ss[i]
      {
        if ks[last] == Some(key) {
          assert StoreAll(ks, ss)[key] == ss[last];
        } else {
          assert StoreAll(ks, ss) == StoreAll(ki, si) || StoreAll(ks, ss) == StoreAll(ki, si)[ks[last].value := ss[last]];
          assert (key in StoreAll(ks, ss)) == (key in StoreAll(ki, si));
          if key in StoreAll(ki, si) {
            var i :| 0 <= i < |si| && ki[i] == Some(key) && StoreAll(ki, si)[key] == si[i];
            assert ks[i] == ki[i] && ss[i] == si[i];
            assert StoreAll(ks, ss)[key] == StoreAll(ki, si)[key];
          }
        }
      }
    }
  }

  /** Under a key, the dict holds the last record given with that key. */
  lemma {:induction false} StoreAllLastWins(ks: seq<Option<string>>, ss: seq<Record>, i: nat)
    requires |ks| == |ss|
    requires i < |ss| && ks[i].Some?
    requires forall j :: i < j < |ss| ==> ks[j] != ks[i]
    ensures ks[i].value in StoreAll(ks, ss) && StoreAll(ks, ss)[ks[i].value] == ss[i]
    decreases |ss|
  {
    if i < |ss| - 1 {
      var ki, si := ks[..|ks| - 1], ss[..|ss| - 1];
      assert ki[i] == ks[i] && si[i] == ss[i];
      forall j | i < j < |ki|
        ensures ki[j] != ki[i]
      {
        assert ki[j] == ks[j];
      }
      StoreAllLastWins(ki, si, i);
    }
  }

  /** The dict has at most one entry per record. */
  lemma {:induction false} StoreAllSize(ks: seq<Option<string>>, ss: seq<Record>)
    requires |ks| == |ss|
    ensures |StoreAll(ks, ss)| <= |ss|
    decreases |ss|
  {
    if ss != [] {
      StoreAllSize(ks[..|ks| - 1], ss[..|ss| - 1]);
    }
  }

  /** The key of every record. */
  function KeysOf(ss: seq<Record>): (ks: seq<Option<string>>)
    requires AllKeyable(ss)
    ensures |ks| == |ss|
    ensures forall i :: 0 <= i < |ss| ==> ks[i] == KeyOf(ss[i])
  {
    seq(|ss|, i requires 0 <= i < |ss| => KeyOf(ss[i]))
  }

  /** The lookup build_student_lookup returns for the records ss. */
  function Lookup(ss: seq<Record>): map<string, Record>
    requires AllKeyable(ss)
  {
    StoreAll(KeysOf(ss), ss)
  }

  /** The keys of the lookup are exactly the keys of the kept records, and
      every record in it is one of them, stored under its own key. */
  lemma LookupKeys(ss: seq<Record>)
    requires AllKeyable(ss)
    ensures forall key :: key in Lookup(ss) <==> exists i :: 0 <= i < |ss| && KeyOf(ss[i]) == Some(key)
    ensures forall key :: key in Lookup(ss) ==> Lookup(ss)[key] in ss && KeyOf(Lookup(ss)[key]) == Some(key)
  {
    var ks := KeysOf(ss);
    StoreAllKeys(ks, ss);
    forall key
      ensures key in Lookup(ss) <==> exists i :: 0 <= i < |ss| && KeyOf(ss[i]) == Some(key)
    {
      if Some(key) in ks {
        var i :| 0 <= i < |ks| && ks[i] == Some(key);
        assert KeyOf(ss[i]) == Some(key);
      }
      if exists i :: 0 <= i < |ss| && KeyOf(ss[i]) == Some(key) {
        var i :| 0 <= i < |ss| && KeyOf(ss[i]) == Some(key);
        assert ks[i] == Some(key);
      }
    }
  }

  /** The lookup holds, under a key, the last record with that key. */
  lemma LookupLastWins(ss: seq<Record>, i: nat)
    requires AllKeyable(ss)
    requires i < |ss| && KeyOf(ss[i]).Some?
    requires forall j :: i < j < |ss| ==> KeyOf(ss[j]) != KeyOf(ss[i])
    ensures KeyOf(ss[i]).value in Lookup(ss) && Lookup(ss)[KeyOf(ss[i]).value] == ss[i]
  {
    var ks := KeysOf(ss);
    forall j | i < j < |ss|
      ensures ks[j] != ks[i]
    {
    }
    StoreAllLastWins(ks, ss, i);
  }

  /** Every key of the lookup holds a bar. */
  lemma LookupKeysHaveBar(ss: seq<Record>)
    requires AllKeyable(ss)
    ensures forall key :: key in Lookup(ss) ==> '|' in key
  {
    LookupKeys(ss);
    forall key | key in Lookup(ss)
      ensures '|' in key
    {
      var s := Lookup(ss)[key];
      assert Keyable(s);
      KeyOfCases(s);
      JoinKeySplit(StudentId(s), NormalizeSubject(Get(s, "subject")).value);
    }
  }

  /** The lookup has at most one entry per record. */
  lemma LookupSize(ss: seq<Record>)
    requires AllKeyable(ss)
    ensures |Lookup(ss)| <= |ss|
  {
    StoreAllSize(KeysOf(ss), ss);
  }

  /** build_student_lookup. */
  method BuildStudentLookup(students: seq<Record>) returns (lookup: map<string, Record>)
    requires AllKeyable(students)
    ensures lookup == Lookup(students)
  {
    lookup := map[];
    for i := 0 to |students|
      invariant lookup == Lookup(students[..i])
    {
      assert students[..i + 1][..i] == students[..i];
      assert KeysOf(students[..i + 1])[..i] == KeysOf(students[..i]);
      var s := students[i];
      var key := KeyOf(s);
      if key.None? {
        continue;
      }
      lookup := lookup[key.value := s];
    }
    assert students[..|students|] == students;
  }
}
