/**
 * The grouping part of `send_patient_report_whatsapp`: the same dictionary
 * of lists as the report views, but keyed by subclass first and with
 * reference ranges chosen by the patient's sex.
 */
module ReportUtils {
  import opened Optional
  import opened Text
  import opened Decimals
  import opened Catalog
  import opened Ranges
  import opened Grouping
  import opened Views

  /**
   * The key of an individual result: the stripped subclass when the subclass
   * is non-empty, else the stripped description when that is non-empty, else
   * the test name.
   */
  function TestKey(t: IndividualTest): (key: string)
    ensures t.subclass == "" && (t.description == "" || Strip(t.description) != "") ==> key == IndividualKey(t)
  {
    if t.subclass != "" then Strip(t.subclass) else if t.description != "" then Strip(t.description) else t.name
  }

  /** The key of a group result: the stripped description when it is non-empty (and not NULL), else the name. */
  function GroupDescriptionKey(g: TestGroup): (key: string)
    ensures g.description.None? || g.description.value == "" || Strip(g.description.value) != "" ==> key == GroupKey(g)
  {
    if g.description.Some? && g.description.value != "" then Strip(g.description.value) else g.name
  }

  /** A subclass made only of whitespace is non-empty, so it is chosen, and strips to the empty key. */
  lemma BlankSubclassGivesEmptyKey(t: IndividualTest)
    requires t.subclass != ""
    requires forall i :: 0 <= i < |t.subclass| ==> IsSpace(t.subclass[i])
    ensures TestKey(t) == ""
  {
    AllDroppedStripsToEmpty(t.subclass, IsSpace);
  }

  lemma {:induction false} AllDroppedStripsToEmpty(s: string, drop: char -> bool)
    requires forall i :: 0 <= i < |s| ==> drop(s[i])
    ensures StripLeftBy(s, drop) == ""
  {
    if s != [] {
      AllDroppedStripsToEmpty(s[1..], drop);
    }
  }

  /** `x or ''` for an optional free-text field: NULL prints as nothing. */
  function TextOrEmpty(x: Option<string>): (s: string)
    ensures x.None? ==> s == ""
  {
    if x.Some? then x.value else ""
  }

  /** `a or b` on two strings: `a` unless it is empty. */
  function Or(a: string, b: string): string {
    if a != "" then a else b
  }

  /**
   * The two ends of the range: for a male patient the `_m` lower bound, else
   * `normal_value_m`, and the `_m` upper bound; for anyone else the `_f`
   * lower bound, and the `_f` upper bound, else `normal_value_f`.
   */
  function RangeEnds(gender: string, t: IndividualTest): (ends: (string, string))
    ensures gender == "M" ==> && (ends.0 == "" <==> !Truthy(t.minM) && TextOrEmpty(t.normalM) == "")
                              && (ends.1 == "" <==> !Truthy(t.maxM))
    ensures gender != "M" ==> && (ends.0 == "" <==> !Truthy(t.minF))
                              && (ends.1 == "" <==> !Truthy(t.maxF) && TextOrEmpty(t.normalF) == "")
  {
    if gender == "M" then (Or(BoundText(t.minM), TextOrEmpty(t.normalM)), BoundText(t.maxM))
    else (BoundText(t.minF), Or(BoundText(t.maxF), TextOrEmpty(t.normalF)))
  }

  /** The range string of one test for a patient of the given sex. */
  function SexRange(gender: string, t: IndividualTest): (r: string)
    ensures Tight(r, IsSpaceOrDash)
  {
    RangeText(RangeEnds(gender, t).0, RangeEnds(gender, t).1)
  }

  /** No bound and no free text for the patient's sex: the range is empty. */
  lemma {:induction false} SexRangeEmpty(gender: string, t: IndividualTest)
    requires RangeEnds(gender, t) == ("", "")
    ensures SexRange(gender, t) == ""
  {
    assert TightRangeEnd("");
    RangeOfTightEnds("", "");
  }

  /**
   * With a stored lower `_m` bound, a male patient's range is the generic
   * report's range of the `_m` bounds; with a stored upper `_f` bound, anyone
   * else's is that of the `_f` bounds. A zero bound counts as absent.
   */
  lemma SexRangeAsNormalRange(gender: string, t: IndividualTest)
    ensures gender == "M" && Truthy(t.minM) ==> SexRange(gender, t) == NormalRange(t.minM, t.maxM)
    ensures gender != "M" && Truthy(t.maxF) ==> SexRange(gender, t) == NormalRange(t.minF, t.maxF)
  {
  }

  /** Only the selected sex's fields matter: changing the other sex's bounds leaves the range alone. */
  lemma SexRangeIgnoresOtherSex(gender: string, t: IndividualTest, u: IndividualTest)
    requires gender == "M" ==> t.minM == u.minM && t.maxM == u.maxM && t.normalM == u.normalM
    requires gender != "M" ==> t.minF == u.minF && t.maxF == u.maxF && t.normalF == u.normalF
    ensures SexRange(gender, t) == SexRange(gender, u)
  {
  }

  /** The entry the utility appends for an individual result. */
  function SexEntry(gender: string, r: ResultRow): ReportEntry {
    ReportEntry(r.test.name, r.result.value, r.test.unit, SexRange(gender, r.test),
                IndividualStatus(r.result.status), r.result.resultDate, r.request)
  }

  function SexPairs(gender: string, rows: seq<ResultRow>): (pairs: seq<(string, ReportEntry)>)
    ensures |pairs| == |rows|
  {
    seq(|rows|, i requires 0 <= i < |rows| => (TestKey(rows[i].test), SexEntry(gender, rows[i])))
  }

  function DescriptionPairs(rows: seq<GroupRow>): (pairs: seq<(string, ReportEntry)>)
    ensures |pairs| == |rows|
  {
    seq(|rows|, i requires 0 <= i < |rows| => (GroupDescriptionKey(rows[i].group), GroupResultEntry(rows[i])))
  }

  /** The first loop: each individual result under its key, with `normal_min`/`normal_max` picked by sex. */
  method FileSexResults(gender: string, rows: seq<ResultRow>) returns (keys: seq<string>, lists: map<string, seq<ReportEntry>>)
    ensures Grouped(keys, lists) == GroupAll(SexPairs(gender, rows))
  {
    ghost var pairs := SexPairs(gender, rows);
    keys, lists := [], map[];
    var i := 0;
    while i < |rows|
      invariant 0 <= i <= |rows|
      invariant Grouped(keys, lists) == GroupAll(pairs[..i])
    {
      var row := rows[i];
      var test := row.test;
      var normalMin, normalMax := "", "";
      if gender == "M" {
        normalMin := Or(BoundText(test.minM), TextOrEmpty(test.normalM));
        normalMax := BoundText(test.maxM);
      } else {
        normalMin := BoundText(test.minF);
        normalMax := Or(BoundText(test.maxF), TextOrEmpty(test.normalF));
      }
      var entry := ReportEntry(test.name, row.result.value, test.unit, RangeText(normalMin, normalMax),
                               IndividualStatus(row.result.status), row.result.resultDate, row.request);
      assert entry == SexEntry(gender, row);
      keys, lists := Append(keys, lists, TestKey(test), entry);
      GroupAllStep(pairs, i);
      i := i + 1;
    }
    assert pairs[..i] == pairs;
  }

  /** The second loop: each group result under its description key, after `done`. */
  method FileDescriptionResults(keys0: seq<string>, lists0: map<string, seq<ReportEntry>>, groupRows: seq<GroupRow>,
                                ghost done: seq<(string, ReportEntry)>)
    returns (keys: seq<string>, lists: map<string, seq<ReportEntry>>)
    requires Grouped(keys0, lists0) == GroupAll(done)
    ensures Grouped(keys, lists) == GroupAll(done + DescriptionPairs(groupRows))
  {
    ghost var pairs := done + DescriptionPairs(groupRows);
    keys, lists := keys0, lists0;
    assert pairs[..|done|] == done;
    var j := 0;
    while j < |groupRows|
      invariant 0 <= j <= |groupRows|
      invariant Grouped(keys, lists) == GroupAll(pairs[..|done| + j])
    {
      var row := groupRows[j];
      keys, lists := Append(keys, lists, GroupDescriptionKey(row.group), GroupResultEntry(row));
      GroupAllStep(pairs, |done| + j);
      j := j + 1;
    }
    assert pairs[..|done| + j] == pairs;
  }

  /** `results_by_description` of `send_patient_report_whatsapp`, for a patient of the given sex. */
  method WhatsAppGrouping(gender: string, rows: seq<ResultRow>, groupRows: seq<GroupRow>)
    returns (report: Grouped<ReportEntry>)
    ensures report == GroupAll(SexPairs(gender, rows) + DescriptionPairs(groupRows))
  {
    var keys, lists := FileSexResults(gender, rows);
    keys, lists := FileDescriptionResults(keys, lists, groupRows, SexPairs(gender, rows));
    report := Grouped(keys, lists);
  }

  /**
   * Each key once; under each key its individual results in input order,
   * then its group results; every result contributes exactly one entry.
   */
  lemma WhatsAppLists(gender: string, rows: seq<ResultRow>, groupRows: seq<GroupRow>)
    ensures var a, b := SexPairs(gender, rows), DescriptionPairs(groupRows);
            var report := GroupAll(a + b);
            && WellFormed(report)
            && (forall k :: k in report.lists ==> report.lists[k] == FilterKey(a, k) + FilterKey(b, k))
            && (forall i :: 0 <= i < |rows| ==> TestKey(rows[i].test) in report.lists)
            && (forall j :: 0 <= j < |groupRows| ==> GroupDescriptionKey(groupRows[j].group) in report.lists)
            && SumLengths(report.keys, report.lists) == |rows| + |groupRows|
  {
    var a, b := SexPairs(gender, rows), DescriptionPairs(groupRows);
    TwoPartLists(a, b);
    forall i | 0 <= i < |rows|
      ensures TestKey(rows[i].test) in GroupAll(a + b).lists
    {
      assert a[i].0 == TestKey(rows[i].test);
    }
    forall j | 0 <= j < |groupRows|
      ensures GroupDescriptionKey(groupRows[j].group) in GroupAll(a + b).lists
    {
      assert b[j].0 == GroupDescriptionKey(groupRows[j].group);
    }
  }
}
