/**
 * The result-handling parts of the lab views: the grouping of a patient's
 * results in `patient_report` and `patient_report_print`, the single-result
 * upsert of `add_test_result`, and the result map of `test_request_detail`.
 */
module Views {
  import opened Optional
  import opened Text
  import opened Decimals
  import opened Catalog
  import opened Classify
  import opened Requests
  import opened Ranges
  import opened Grouping
  import opened Upsert

  /** One row of the patient's individual-result query, with its test joined in. */
  datatype ResultRow = ResultRow(test: IndividualTest, result: IndividualResult, request: nat)

  /** One row of the patient's group-result query, with its group joined in. */
  datatype GroupRow = GroupRow(group: TestGroup, result: GroupResult, request: nat)

  /** The `status` shown for an entry: an individual result's or a group result's. */
  datatype EntryStatus = IndividualStatus(result: ResultStatus) | GroupStatus(group: GroupResultStatus)

  /** One dictionary appended to a list of `results_by_description`. */
  datatype ReportEntry = ReportEntry(
    testName: string,
    value: string,
    unit: string,
    normalRange: string,
    status: EntryStatus,
    resultDate: int,
    request: nat)

  /** The value shown for a group result ("test group"). */
  const GroupPlaceholder: string := "مجموعة تحاليل"

  /** `text.strip() if text.strip() else fallback`. */
  function StrippedOr(text: string, fallback: string): string {
    var s := Strip(text);
    if s != "" then s else fallback
  }

  /** The report key of an individual result: the stripped description, or the test name when that is blank. */
  function IndividualKey(t: IndividualTest): (key: string)
    ensures key == Strip(t.description) || key == t.name
    ensures key == "" <==> Strip(t.description) == "" && t.name == ""
  {
    StrippedOr(t.description, t.name)
  }

  /** The views never file a result under the empty key while the test has a name. */
  lemma IndividualKeyNonEmpty(t: IndividualTest)
    requires t.name != ""
    ensures IndividualKey(t) != ""
    ensures IndividualKey(t) == t.name || IndividualKey(t) == Strip(t.description)
  {
  }

  /**
   * The group key as the views compute it: `description.strip()` on a
   * description that may be NULL. `None` stands for the `AttributeError`
   * raised on a NULL description.
   */
  function GroupKeyAsWritten(g: TestGroup): (key: Option<string>)
    ensures key.None? <==> g.description.None?
    ensures key.Some? ==> key.value == Strip(g.description.value) || key.value == g.name
  {
    match g.description
    case None => None
    case Some(d) => Some(StrippedOr(d, g.name))
  }

  /** A group whose description is NULL makes both report views fail. */
  lemma GroupKeyAsWrittenFailsOnNull(g: TestGroup)
    ensures g.description.None? <==> GroupKeyAsWritten(g).None?
  {
  }

  /** The group key the views evidently intend: a NULL description falls back to the name like a blank one. */
  function GroupKey(g: TestGroup): (key: string)
    ensures GroupKeyAsWritten(g).Some? ==> key == GroupKeyAsWritten(g).value
    ensures g.description.None? ==> key == g.name
  {
    if g.description.Some? then StrippedOr(g.description.value, g.name) else g.name
  }

  /** The entry shown for an individual result. */
  function IndividualEntry(r: ResultRow): ReportEntry {
    ReportEntry(r.test.name, r.result.value, r.test.unit, NormalRange(r.test.normalMin, r.test.normalMax),
                IndividualStatus(r.result.status), r.result.resultDate, r.request)
  }

  /** The entry shown for a group result: the placeholder value, no unit, no range. */
  function GroupResultEntry(r: GroupRow): ReportEntry {
    ReportEntry(r.group.name, GroupPlaceholder, "", "", GroupStatus(r.result.status), r.result.resultDate, r.request)
  }

  function IndividualPairs(rows: seq<ResultRow>): (pairs: seq<(string, ReportEntry)>)
    ensures |pairs| == |rows|
  {
    seq(|rows|, i requires 0 <= i < |rows| => (IndividualKey(rows[i].test), IndividualEntry(rows[i])))
  }

  function GroupPairs(rows: seq<GroupRow>): (pairs: seq<(string, ReportEntry)>)
    ensures |pairs| == |rows|
  {
    seq(|rows|, i requires 0 <= i < |rows| => (GroupKey(rows[i].group), GroupResultEntry(rows[i])))
  }

  /** The pairs inserted by the two loops of the report views: individual results first, then group results. */
  function ReportPairs(rows: seq<ResultRow>, groupRows: seq<GroupRow>): seq<(string, ReportEntry)> {
    IndividualPairs(rows) + GroupPairs(groupRows)
  }

  /** `if key not in d: d[key] = []` then `d[key].append(entry)`, on the dictionary held as keys and lists. */
  method Append(keys: seq<string>, lists: map<string, seq<ReportEntry>>, key: string, entry: ReportEntry)
    returns (keys': seq<string>, lists': map<string, seq<ReportEntry>>)
    ensures Grouped(keys', lists') == Insert(Grouped(keys, lists), key, entry)
  {
    keys', lists' := keys, lists;
    if key !in lists' {
      keys' := keys' + [key];
      lists' := lists'[key := []];
      assert lists'[key] + [entry] == [entry];
    }
    lists' := lists'[key := lists'[key] + [entry]];
  }

  /** The first loop of the report views: files each individual result under its key. */
  method FileIndividualResults(rows: seq<ResultRow>) returns (keys: seq<string>, lists: map<string, seq<ReportEntry>>)
    ensures Grouped(keys, lists) == GroupAll(IndividualPairs(rows))
  {
    ghost var pairs := IndividualPairs(rows);
    keys, lists := [], map[];
    var i := 0;
    while i < |rows|
      invariant 0 <= i <= |rows|
      invariant Grouped(keys, lists) == GroupAll(pairs[..i])
    {
      var row := rows[i];
      keys, lists := Append(keys, lists, IndividualKey(row.test), IndividualEntry(row));
      GroupAllStep(pairs, i);
      i := i + 1;
    }
    assert pairs[..i] == pairs;
  }

  /** The second loop of the report views: files each group result under its key, after `done`. */
  method FileGroupResults(keys0: seq<string>, lists0: map<string, seq<ReportEntry>>, groupRows: seq<GroupRow>,
                          ghost done: seq<(string, ReportEntry)>)
    returns (keys: seq<string>, lists: map<string, seq<ReportEntry>>)
    requires Grouped(keys0, lists0) == GroupAll(done)
    ensures Grouped(keys, lists) == GroupAll(done + GroupPairs(groupRows))
  {
    ghost var pairs := done + GroupPairs(groupRows);
    keys, lists := keys0, lists0;
    assert pairs[..|done|] == done;
    var j := 0;
    while j < |groupRows|
      invariant 0 <= j <= |groupRows|
      invariant Grouped(keys, lists) == GroupAll(pairs[..|done| + j])
    {
      var row := groupRows[j];
      keys, lists := Append(keys, lists, GroupKey(row.group), GroupResultEntry(row));
      GroupAllStep(pairs, |done| + j);
      j := j + 1;
    }
    assert pairs[..|done| + j] == pairs;
  }

  /**
   * `patient_report`: fills `results_by_description` from the patient's
   * individual results, then from the group results, each in query order.
   */
  method PatientReport(rows: seq<ResultRow>, groupRows: seq<GroupRow>) returns (report: Grouped<ReportEntry>)
    ensures report == GroupAll(ReportPairs(rows, groupRows))
  {
    var keys, lists := FileIndividualResults(rows);
    keys, lists := FileGroupResults(keys, lists, groupRows, IndividualPairs(rows));
    report := Grouped(keys, lists);
  }

  /**
   * `patient_report_print`: records exactly one printed report, then builds
   * the same grouping as `patient_report`.
   */
  method PatientReportPrint(lab: Lab, patient: nat, user: nat, now: int, rows: seq<ResultRow>, groupRows: seq<GroupRow>)
    returns (report: Grouped<ReportEntry>)
    modifies lab`printed
    ensures lab.printed == old(lab.printed) + [PrintedReport(patient, Some(user), "patient_report", now)]
    ensures report == GroupAll(ReportPairs(rows, groupRows))
  {
    lab.printed := lab.printed + [PrintedReport(patient, Some(user), "patient_report", now)];
    report := PatientReport(rows, groupRows);
  }

  /**
   * What the report shows: each key once; under each key the individual
   * results filed there, in query order, followed by the group results filed
   * there; every result shown exactly once.
   */
  lemma ReportLists(rows: seq<ResultRow>, groupRows: seq<GroupRow>)
    ensures var report := GroupAll(ReportPairs(rows, groupRows));
            && WellFormed(report)
            && (forall k :: k in report.lists ==>
                  report.lists[k] == FilterKey(IndividualPairs(rows), k) + FilterKey(GroupPairs(groupRows), k))
            && (forall i :: 0 <= i < |rows| ==> IndividualKey(rows[i].test) in report.lists)
            && (forall j :: 0 <= j < |groupRows| ==> GroupKey(groupRows[j].group) in report.lists)
            && SumLengths(report.keys, report.lists) == |rows| + |groupRows|
  {
    var a, b := IndividualPairs(rows), GroupPairs(groupRows);
    TwoPartLists(a, b);
    forall i | 0 <= i < |rows|
      ensures IndividualKey(rows[i].test) in GroupAll(a + b).lists
    {
      assert a[i].0 == IndividualKey(rows[i].test);
    }
    forall j | 0 <= j < |groupRows|
      ensures GroupKey(groupRows[j].group) in GroupAll(a + b).lists
    {
      assert b[j].0 == GroupKey(groupRows[j].group);
    }
  }

  /** The outcome of `add_test_result` on a POST: the form was invalid, or the saved row. */
  datatype AddOutcome = Invalid | Saved(row: IndividualResult)

  /**
   * The row `add_test_result` saves, before the model hook: the existing row
   * (or a new one) with the submitted value and notes and `entered_by` set to
   * the current user; the full save refreshes `updated_at`.
   */
  function AddedRow(existing: Option<IndividualResult>, value: string, notes: string, user: nat, now: int)
    : (row: IndividualResult)
    ensures row.value == value && row.notes == notes && row.enteredBy == Some(user) && row.updatedAt == now
    ensures existing.Some? ==> && row.resultDate == existing.value.resultDate
                               && row.status == existing.value.status
                               && row.lastModifiedBy == existing.value.lastModifiedBy
    ensures existing.None? ==> row.resultDate == now && row.status == Unset && row.lastModifiedBy == None
  {
    match existing
    case Some(r) => r.(value := value, notes := notes, enteredBy := Some(user), updatedAt := now)
    case None => IndividualResult(value, notes, Unset, now, now, Some(user), None)
  }

  /**
   * `add_test_result` on a POST: an invalid value changes nothing; a valid one
   * edits the row stored for `(request, test)` (or creates it) with a full
   * save, so the hook and the completion check run.
   */
  method AddTestResult(lab: Lab, req: TestRequest, test: IndividualTest, value: string, notes: string,
                       user: nat, now: int)
    returns (outcome: AddOutcome)
    modifies lab`results, req`status
    ensures ParseDecimal(value).None? ==>
              outcome == Invalid && lab.results == old(lab.results) && req.status == old(req.status)
    ensures ParseDecimal(value).Some? ==>
              var key := ResultKey(req.id, test.id);
              var existing := if key in old(lab.results) then Some(old(lab.results)[key]) else None;
              var row := AddedRow(existing, value, notes, user, now);
              && outcome == Saved(row.(status := HookStatus(test, value, row.status)))
              && lab.results == old(lab.results)[key := outcome.row]
              && req.status == NextStatus(old(req.status), req.TotalTests(), lab.EnteredCount(req.id)).status
  {
    if ParseDecimal(value).None? {
      return Invalid;
    }
    var key := ResultKey(req.id, test.id);
    var existing := if key in lab.results then Some(lab.results[key]) else None;
    var r := lab.SaveResult(req, test, AddedRow(existing, value, notes, user, now));
    outcome := Saved(r.result);
  }

  /**
   * `add_test_result` keeps one row per `(request, test)`: the request's keys
   * after the save are those before plus the one edited.
   */
  lemma AddKeepsOneRowPerTest(results: map<ResultKey, IndividualResult>, req: nat, test: nat, row: IndividualResult)
    ensures KeysOfRequest(results[ResultKey(req, test) := row], req) == KeysOfRequest(results, req) + {ResultKey(req, test)}
    ensures |KeysOfRequest(results[ResultKey(req, test) := row], req)|
            == |KeysOfRequest(results, req)| + (if ResultKey(req, test) in results then 0 else 1)
  {
    var before, after := KeysOfRequest(results, req), KeysOfRequest(results[ResultKey(req, test) := row], req);
    assert after == before + {ResultKey(req, test)};
  }

  /**
   * Unlike the bulk forms, which keep the first writer in `entered_by`, the
   * single-result view hands `entered_by` to whoever saved last.
   */
  lemma AddOverwritesEnteredBy(results: map<ResultKey, IndividualResult>, req: nat, test: IndividualTest,
                               value: string, notes: string, first: nat, user: nat, now: int)
    requires ResultKey(req, test.id) in results && results[ResultKey(req, test.id)].enteredBy == Some(first)
    requires first != user
    ensures var key := ResultKey(req, test.id);
            var sub := Submission(test, value, notes);
            && Step(IndividualForm, results, req, sub, user, now).0[key].enteredBy == Some(first)
            && Step(GroupForm("M"), results, req, sub, user, now).0[key].enteredBy == Some(first)
            && AddedRow(Some(results[key]), value, notes, user, now).enteredBy == Some(user)
  {
  }

  /** `str(n)` never gives two test ids the same text. */
  lemma IdTextInjective()
    ensures forall a: nat, b: nat :: NatToStr(a) == NatToStr(b) ==> a == b
  {
    forall a: nat, b: nat | NatToStr(a) == NatToStr(b)
      ensures a == b
    {
      NatToStrInjective(a, b);
    }
  }

  /** `test_request_detail`'s `individual_results`: `str(test id)` to the request's row for that test. */
  function ResultsById(results: map<ResultKey, IndividualResult>, request: nat): (byId: map<string, IndividualResult>)
    ensures forall k :: k in KeysOfRequest(results, request) ==> NatToStr(k.test) in byId && byId[NatToStr(k.test)] == results[k]
  {
    IdTextInjective();
    map k | k in KeysOfRequest(results, request) :: NatToStr(k.test) := results[k]
  }

  /** The template finds a test's row under the text of its id exactly when the request has a row for that test. */
  lemma ResultsByIdLookup(results: map<ResultKey, IndividualResult>, request: nat, t: nat)
    ensures NatToStr(t) in ResultsById(results, request) <==> ResultKey(request, t) in results
    ensures ResultKey(request, t) in results ==> ResultsById(results, request)[NatToStr(t)] == results[ResultKey(request, t)]
  {
    var keys := KeysOfRequest(results, request);
    var m := ResultsById(results, request);
    if NatToStr(t) in m {
      assert m.Keys == set k | k in keys :: NatToStr(k.test);
      var k :| k in keys && NatToStr(k.test) == NatToStr(t);
      NatToStrInjective(k.test, t);
    }
    if ResultKey(request, t) in results {
      assert ResultKey(request, t) in keys;
    }
  }
}
