/** The value normalisers of the NWEA-vs-app comparison engine
    (scripts/map-compare/compare.py): subject names, placeholder values,
    Met Projected Growth labels, dates and range mid values. */
module Normalize {
  import opened TextOps
  import opened PyValues

  /** The fixed subject table: extractor spellings to canonical names. */
  const SUBJECT_NORMALIZATIONS: map<string, string> := map[
    "Math K-12" := "Mathematics",
    "Math K-" := "Mathematics",
    "Math 6+" := "Mathematics",
    "Mathematics" := "Mathematics",
    "Reading" := "Reading",
    "Language Usage" := "Language Usage",
    "Language Arts" := "Language Usage",
    "Science K-12" := "Science",
    "Science K-" := "Science",
    "Science" := "Science",
    "General Science" := "Science"
  ]

  /** The canonical subject names the table maps to. */
  const SUBJECT_NAMES: set<string> := {"Mathematics", "Reading", "Language Usage", "Science"}

  /** Leading glyphs cut from a subject: the two triangles, the bullets and whitespace. */
  predicate IsSubjectLead(c: char) {
    IsSpace(c) || c == '\U{25BE}' || c == '\U{25B8}' || c == '\U{2022}' || c == '\U{00B7}'
  }

  /** Placeholder texts that stand for "no value". */
  const PLACEHOLDERS: set<string> := {"\U{2014}", "-", "***", "", "null", "None"}

  /** Every table target is a canonical name, and canonical names map to themselves. */
  lemma SubjectTableTargetsFixed()
    ensures SUBJECT_NORMALIZATIONS.Values == SUBJECT_NAMES
    ensures forall n :: n in SUBJECT_NAMES ==> n in SUBJECT_NORMALIZATIONS && SUBJECT_NORMALIZATIONS[n] == n
  {
    assert SUBJECT_NORMALIZATIONS["Mathematics"] == "Mathematics";
    assert SUBJECT_NORMALIZATIONS["Reading"] == "Reading";
    assert SUBJECT_NORMALIZATIONS["Language Usage"] == "Language Usage";
    assert SUBJECT_NORMALIZATIONS["Science"] == "Science";
  }

  /** A subject with surrounding whitespace and leading glyphs removed. */
  function CleanSubject(s: string): (r: string)
    ensures r == [] || (!IsSubjectLead(r[0]) && !IsSpace(r[|r| - 1]))
  {
    LStrip(Strip(s), IsSubjectLead)
  }

  /** A name already free of leading glyphs and trailing whitespace is its own clean form. */
  lemma CleanSubjectFixed(s: string)
    requires s == [] || (!IsSubjectLead(s[0]) && !IsSpace(s[|s| - 1]))
    ensures CleanSubject(s) == s
  {
    StripTrimmed(s);
  }

  /** normalize_subject: a name the table leaves as it is (a canonical
      name, or a cleaned name the table does not list); its cases are
      NormalizeSubjectCases. */
  function NormalizeSubject(subj: Val): (r: Option<string>)
    requires subj.Null? || subj.Str?
    ensures r.Some? ==> r.value !in SUBJECT_NORMALIZATIONS || SUBJECT_NORMALIZATIONS[r.value] == r.value
  {
    if subj.Null? || subj.s == "" then None
    else
      var s := CleanSubject(subj.s);
      if s in SUBJECT_NORMALIZATIONS then
        SubjectTableTargetsFixed();
        assert SUBJECT_NORMALIZATIONS[s] in SUBJECT_NAMES;
        Some(SUBJECT_NORMALIZATIONS[s])
      else Some(s)
  }

  /** normalize_subject gives None for a missing or empty subject; otherwise
      the cleaned name, mapped through the table when it is one of its keys
      and passed through unchanged when it is not. */
  lemma NormalizeSubjectCases(subj: Val)
    requires subj.Null? || subj.Str?
    ensures NormalizeSubject(subj).None? <==> subj == Null || subj == Str("")
    ensures NormalizeSubject(subj).Some? && CleanSubject(subj.s) in SUBJECT_NORMALIZATIONS ==>
      NormalizeSubject(subj).value == SUBJECT_NORMALIZATIONS[CleanSubject(subj.s)]
    ensures NormalizeSubject(subj).Some? && CleanSubject(subj.s) !in SUBJECT_NORMALIZATIONS ==>
      NormalizeSubject(subj).value == CleanSubject(subj.s)
  {
  }

  /** The canonical names have no leading glyph and no trailing whitespace. */
  lemma SubjectNamesClean(n: string)
    requires n in SUBJECT_NAMES
    ensures n != [] && !IsSubjectLead(n[0]) && !IsSpace(n[|n| - 1])
  {
    assert n[0] in {'M', 'R', 'L', 'S'} && n[|n| - 1] in {'s', 'g', 'e'};
  }

  /** A canonical name normalises to itself. */
  lemma SubjectNameFixed(n: string)
    requires n in SUBJECT_NAMES
    ensures NormalizeSubject(Str(n)) == Some(n)
  {
    SubjectNamesClean(n);
    CleanSubjectFixed(n);
    assert n in SUBJECT_NORMALIZATIONS && SUBJECT_NORMALIZATIONS[n] == n by {
      SubjectTableTargetsFixed();
    }
  }

  /** A clean name outside the table normalises to itself. */
  lemma UnlistedSubjectFixed(n: string)
    requires n != [] && !IsSubjectLead(n[0]) && !IsSpace(n[|n| - 1])
    requires n !in SUBJECT_NORMALIZATIONS
    ensures NormalizeSubject(Str(n)) == Some(n)
  {
    CleanSubjectFixed(n);
  }

  /** Normalising a normalised subject again changes nothing. */
  lemma NormalizeSubjectIdempotent(subj: Val)
    requires subj.Null? || subj.Str?
    requires NormalizeSubject(subj).Some? && NormalizeSubject(subj).value != ""
    ensures NormalizeSubject(Str(NormalizeSubject(subj).value)) == NormalizeSubject(subj)
  {
    var r := NormalizeSubject(subj).value;
    var s := CleanSubject(subj.s);
    if s in SUBJECT_NORMALIZATIONS {
      assert r == SUBJECT_NORMALIZATIONS[s];
      assert r in SUBJECT_NAMES by { SubjectTableTargetsFixed(); }
      SubjectNameFixed(r);
    } else {
      assert r == s;
      UnlistedSubjectFixed(s);
    }
  }

  /** normalize_value: strings are stripped and placeholders become None;
      every other value comes back unchanged. */
  function NormalizeValue(v: Val): (r: Val)
    ensures v.Str? && Strip(v.s) in PLACEHOLDERS ==> r == Null
    ensures v.Str? && Strip(v.s) !in PLACEHOLDERS ==> r == Str(Strip(v.s))
    ensures !v.Str? ==> r == v
    ensures r.Str? ==> Trimmed(r.s) && r.s !in PLACEHOLDERS
  {
    match v
    case Str(s) =>
      var t := Strip(s);
      if t in PLACEHOLDERS then Null else Str(t)
    case _ => v
  }

  lemma NormalizeValueIdempotent(v: Val)
    ensures NormalizeValue(NormalizeValue(v)) == NormalizeValue(v)
  {
    if NormalizeValue(v).Str? {
      StripTrimmed(NormalizeValue(v).s);
    }
  }

  /** str(v).lower().strip(): the text the case-insensitive comparisons see. */
  function Folded(v: Val): string {
    Strip(Lower(PyStr(v)))
  }

  /** normalize_met_growth: None exactly when the normalised value is None;
      otherwise one of the labels "Yes" and "No", or the normalised value. */
  function NormalizeMetGrowth(v: Val): (r: Val)
    ensures r == Null <==> NormalizeValue(v) == Null
    ensures r == Str("Yes") || r == Str("No") || r == NormalizeValue(v)
  {
    var n := NormalizeValue(v);
    if n.Null? then Null
    else
      var low := Folded(n);
      if StartsWith(low, "yes") then Str("Yes")
      else if StartsWith(low, "no") then Str("No")
      else n
  }

  /** normalize_met_growth gives None when the value is absent; "Yes" or
      "No" when the folded text starts with "yes" (checked first) or "no";
      otherwise the normalised value itself. */
  lemma NormalizeMetGrowthCases(v: Val)
    ensures NormalizeValue(v) == Null ==> NormalizeMetGrowth(v) == Null
    ensures NormalizeValue(v) != Null && StartsWith(Folded(NormalizeValue(v)), "yes") ==>
      NormalizeMetGrowth(v) == Str("Yes")
    ensures (NormalizeValue(v) != Null && !StartsWith(Folded(NormalizeValue(v)), "yes")
             && StartsWith(Folded(NormalizeValue(v)), "no")) ==> NormalizeMetGrowth(v) == Str("No")
    ensures (NormalizeValue(v) != Null && !StartsWith(Folded(NormalizeValue(v)), "yes")
             && !StartsWith(Folded(NormalizeValue(v)), "no")) ==> NormalizeMetGrowth(v) == NormalizeValue(v)
  {
  }

  /** A trimmed text that is no placeholder is kept by normalize_value. */
  lemma PlainKept(w: string)
    requires Trimmed(w) && w !in PLACEHOLDERS
    ensures NormalizeValue(Str(w)) == Str(w)
  {
    StripTrimmed(w);
  }

  /** A text whose lower-case form is trimmed folds to that form. */
  lemma PlainFolded(w: string)
    requires Trimmed(Lower(w))
    ensures Folded(Str(w)) == Lower(w)
  {
    StripTrimmed(Lower(w));
  }

  /** A label that folds to a word starting with prefix. */
  lemma LabelFolds(w: string, low: string, prefix: string)
    requires Lower(w) == low && StartsWith(low, prefix)
    requires Trimmed(w) && w !in PLACEHOLDERS && Trimmed(low)
    ensures NormalizeValue(Str(w)) == Str(w)
    ensures StartsWith(Folded(NormalizeValue(Str(w))), prefix)
  {
    PlainKept(w);
    PlainFolded(w);
  }

  /** "Yes" is a fixed point of normalize_met_growth. */
  lemma MetGrowthYesFixed()
    ensures NormalizeMetGrowth(Str("Yes")) == Str("Yes")
  {
    assert Lower("Yes") == "yes";
    LabelFolds("Yes", "yes", "yes");
  }

  /** "No" is a fixed point of normalize_met_growth. */
  lemma MetGrowthNoFixed()
    ensures NormalizeMetGrowth(Str("No")) == Str("No")
  {
    assert Lower("No") == "no";
    LabelFolds("No", "no", "no");
    assert !StartsWith(Folded(NormalizeValue(Str("No"))), "yes");
  }

  /** Applying normalize_met_growth twice is the same as applying it once. */
  lemma NormalizeMetGrowthIdempotent(v: Val)
    ensures NormalizeMetGrowth(NormalizeMetGrowth(v)) == NormalizeMetGrowth(v)
  {
    var r := NormalizeMetGrowth(v);
    if r == Str("Yes") || r == Str("No") {
      if r.s == "Yes" { MetGrowthYesFixed(); } else { MetGrowthNoFixed(); }
    } else {
      NormalizeValueIdempotent(v);
    }
  }

  /** normalize_date: None when absent, otherwise the stripped str() text. */
  function NormalizeDate(v: Val): (r: Val)
    ensures NormalizeValue(v) == Null <==> r == Null
    ensures r != Null ==> r == Str(Strip(PyStr(NormalizeValue(v))))
    ensures r.Str? ==> Trimmed(r.s)
  {
    var n := NormalizeValue(v);
    if n.Null? then Null else Str(Strip(PyStr(n)))
  }

  /** For a string date, normalize_date and normalize_value agree. */
  lemma NormalizeDateOfString(s: string)
    ensures NormalizeDate(Str(s)) == NormalizeValue(Str(s))
  {
    StripIdempotent(s);
  }

  /** get_mid_value: a dict gives its "mid" entry (None when missing);
      any other value is returned as it is. */
  function GetMidValue(obj: Val): (r: Val)
    ensures obj.Obj? && "mid" in obj.fields ==> r == obj.fields["mid"]
    ensures obj.Obj? && "mid" !in obj.fields ==> r == Null
    ensures !obj.Obj? ==> r == obj
  {
    if obj.Obj? then Get(obj.fields, "mid") else obj
  }
}
