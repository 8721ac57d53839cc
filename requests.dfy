/**
 * Test requests, the result tables and the completion state machine of
 * `TestRequest.check_completion_status`, run after every save of an
 * individual result or a group result.
 */
module Requests {
  import opened Optional
  import opened Catalog
  import opened Classify
  import opened Patients

  datatype RequestStatus = Pending | InProgress | Completed | Cancelled

  datatype GroupResultStatus = GroupPending | GroupCompleted

  /** One row of `IndividualTestResult`; request and test are the table key. */
  datatype IndividualResult = IndividualResult(
    value: string,
    notes: string,
    status: ResultStatus,
    resultDate: int,                // auto_now_add
    updatedAt: int,                 // auto_now
    enteredBy: Option<nat>,
    lastModifiedBy: Option<nat>)

  /** One row of `TestGroupResult`. */
  datatype GroupResult = GroupResult(status: GroupResultStatus, notes: string, resultDate: int)

  /** `unique_together = ['test_request', 'individual_test']`: one row per pair. */
  datatype ResultKey = ResultKey(request: nat, test: nat)

  /** `unique_together = ['test_request', 'test_group']`. */
  datatype GroupResultKey = GroupResultKey(request: nat, group: nat)

  /** A `PrintedReport` row. */
  datatype PrintedReport = PrintedReport(patient: nat, printedBy: Option<nat>, reportType: string, printedAt: int)

  /** The new status and the return value of one `check_completion_status` call. */
  datatype Transition = Transition(status: RequestStatus, changed: bool)

  /**
   * The decision of `check_completion_status` for `total` required tests and
   * `entered` stored results.
   */
  function NextStatus(s: RequestStatus, total: nat, entered: nat): (t: Transition)
    ensures t.changed <==> t.status != s
    ensures total > 0 && entered >= total ==> t.status == Completed
    ensures t.status == Completed && s != Completed ==> total > 0 && entered >= total
    ensures !(total > 0 && entered >= total) && entered > 0 && s == Pending ==> t == Transition(InProgress, true)
    ensures !(total > 0 && entered >= total) && !(entered > 0 && s == Pending) ==> t == Transition(s, false)
    ensures t.status == InProgress ==> s == Pending || s == InProgress
  {
    if total > 0 && entered >= total then
      if s != Completed then Transition(Completed, true) else Transition(s, false)
    else if entered > 0 && s == Pending then
      Transition(InProgress, true)
    else
      Transition(s, false)
  }

  /** `completed` is never left by this routine. */
  lemma CompletedIsFinal(total: nat, entered: nat)
    ensures NextStatus(Completed, total, entered) == Transition(Completed, false)
  {
  }

  /** `in_progress` is entered only from `pending`, and only once some result exists but not all. */
  lemma InProgressOnlyFromPending(s: RequestStatus, total: nat, entered: nat)
    requires s != InProgress && NextStatus(s, total, entered).status == InProgress
    ensures s == Pending && entered > 0 && !(total > 0 && entered >= total)
  {
  }

  /** A cancelled request is never reopened as in progress, but does become completed once every result is in. */
  lemma CancelledOnlyCompletes(total: nat, entered: nat)
    ensures NextStatus(Cancelled, total, entered).status
            == (if total > 0 && entered >= total then Completed else Cancelled)
  {
  }

  /**
   * Results are only ever added, so running the routine at a smaller count
   * and then at a larger one ends where running it once at the larger count
   * would: repeated calls after successive saves collapse to one.
   */
  lemma {:induction false} NextStatusAbsorbs(s: RequestStatus, total: nat, e1: nat, e2: nat)
    requires e1 <= e2
    ensures NextStatus(NextStatus(s, total, e1).status, total, e2).status == NextStatus(s, total, e2).status
  {
    var mid := NextStatus(s, total, e1).status;
    if total > 0 && e2 >= total {
    } else if e1 > 0 && s == Pending {
      assert mid == InProgress;
    } else {
      assert mid == s;
    }
  }

  /** Running the routine twice with no new results changes nothing the second time. */
  lemma NextStatusIdempotent(s: RequestStatus, total: nat, entered: nat)
    ensures var t := NextStatus(s, total, entered);
            NextStatus(t.status, total, entered) == Transition(t.status, false)
  {
  }

  /**
   * `get_completion_percentage` as an exact ratio: 0 when nothing is
   * required (no division by zero), otherwise `entered / total * 100`.
   */
  function CompletionPercentage(total: nat, entered: nat): (p: real)
    ensures total == 0 ==> p == 0.0
    ensures p >= 0.0
    ensures total > 0 ==> p * (total as real) == 100.0 * (entered as real)
  {
    if total == 0 then 0.0 else (entered as real / total as real) * 100.0
  }

  lemma {:induction false} PercentageBounds(total: nat, entered: nat)
    requires total > 0
    ensures entered <= total ==> CompletionPercentage(total, entered) <= 100.0
    ensures entered >= total ==> CompletionPercentage(total, entered) >= 100.0
    ensures entered == total ==> CompletionPercentage(total, entered) == 100.0
  {
    var t, e := total as real, entered as real;
    var ratio := e / t;
    assert ratio * t == e;
    assert (ratio - 1.0) * t == e - t;
    if entered <= total {
      NonNegativeFactor(1.0 - ratio, t);
    }
    if entered >= total {
      NonNegativeFactor(ratio - 1.0, t);
    }
  }

  lemma NonNegativeFactor(x: real, t: real)
    requires t > 0.0 && x * t >= 0.0
    ensures x >= 0.0
  {
  }

  /** The database: the two result tables and the print log. */
  /** The result rows of one request. */
  function KeysOfRequest(results: map<ResultKey, IndividualResult>, request: nat): (keys: set<ResultKey>)
    ensures forall k :: k in keys <==> k in results && k.request == request
  {
    set k | k in results.Keys && k.request == request
  }

  /** Adding result rows never lowers a request's count of entered results. */
  lemma KeysOfRequestGrow(a: map<ResultKey, IndividualResult>, b: map<ResultKey, IndividualResult>, request: nat)
    requires a.Keys <= b.Keys
    ensures KeysOfRequest(a, request) <= KeysOfRequest(b, request)
    ensures |KeysOfRequest(a, request)| <= |KeysOfRequest(b, request)|
  {
    SubsetCardinality(KeysOfRequest(a, request), KeysOfRequest(b, request));
  }

  /** Overwriting a row that exists leaves the table's keys as they were. */
  lemma UpdateKeepsKeys(m: map<ResultKey, IndividualResult>, k: ResultKey, v: IndividualResult)
    requires k in m
    ensures m[k := v].Keys == m.Keys
  {
  }

  /** Overwriting rows that exist leaves a request's set of result rows as it was. */
  lemma KeysOfRequestSame(a: map<ResultKey, IndividualResult>, b: map<ResultKey, IndividualResult>, request: nat)
    requires a.Keys == b.Keys
    ensures KeysOfRequest(a, request) == KeysOfRequest(b, request)
  {
  }

  lemma {:induction false} SubsetCardinality<T>(a: set<T>, b: set<T>)
    requires a <= b
    ensures |a| <= |b|
  {
    if a != {} {
      var x :| x in a;
      SubsetCardinality(a - {x}, b - {x});
    }
  }

  class Lab {
    var results: map<ResultKey, IndividualResult>
    var groupResults: map<GroupResultKey, GroupResult>
    var printed: seq<PrintedReport>

    constructor ()
      ensures results == map[] && groupResults == map[] && printed == []
    {
      results := map[];
      groupResults := map[];
      printed := [];
    }

    /** `IndividualTestResult.objects.filter(test_request=...)` as a key set. */
    function ResultKeysOf(request: nat): set<ResultKey>
      reads this`results
    {
      KeysOfRequest(results, request)
    }

    function GroupResultKeysOf(request: nat): set<GroupResultKey>
      reads this`groupResults
    {
      set k | k in groupResults.Keys && k.request == request
    }

    /** Individual results plus group results stored for the request. */
    function EnteredCount(request: nat): nat
      reads this`results, this`groupResults
    {
      |ResultKeysOf(request)| + |GroupResultKeysOf(request)|
    }

    /**
     * `IndividualTestResult.save()` with every field written: the hook sets
     * the status from the generic bounds, the row is stored, and the owning
     * request's completion is rechecked. A value the decimal column rejects
     * raises before anything is written, and the check does not run.
     */
    method SaveResult(req: TestRequest, test: IndividualTest, row: IndividualResult)
      returns (r: Outcome<IndividualResult>)
      modifies this`results, req`status
      ensures ValueRejected(row.value) ==>
                r == Raised(InvalidDecimal) && results == old(results) && req.status == old(req.status)
      ensures !ValueRejected(row.value) ==>
                && r == Done(row.(status := HookStatus(test, row.value, row.status)))
                && results == old(results)[ResultKey(req.id, test.id) := r.result]
                && req.status == NextStatus(old(req.status), req.TotalTests(), EnteredCount(req.id)).status
      ensures groupResults == old(groupResults)
    {
      if ValueRejected(row.value) {
        return Raised(InvalidDecimal);
      }
      var saved := row.(status := HookStatus(test, row.value, row.status));
      results := results[ResultKey(req.id, test.id) := saved];
      var _ := req.CheckCompletionStatus(this);
      r := Done(saved);
    }

    /**
     * `IndividualTestResult.objects.get_or_create(test_request, individual_test,
     * defaults)`: the stored row when there is one, else the defaults saved
     * in full (hook, store, completion check).
     */
    method GetOrCreate(req: TestRequest, test: IndividualTest, defaults: IndividualResult)
      returns (r: Outcome<IndividualResult>, created: bool)
      modifies this`results, req`status
      ensures var key := ResultKey(req.id, test.id);
              && created == (key !in old(results))
              && (!created ==> r == Done(old(results)[key]) && results == old(results) && req.status == old(req.status))
              && (created && ValueRejected(defaults.value) ==>
                    r == Raised(InvalidDecimal) && results == old(results) && req.status == old(req.status))
              && (created && !ValueRejected(defaults.value) ==>
                    && r == Done(defaults.(status := HookStatus(test, defaults.value, defaults.status)))
                    && results == old(results)[key := r.result]
                    && req.status == NextStatus(old(req.status), req.TotalTests(), EnteredCount(req.id)).status)
    {
      var key := ResultKey(req.id, test.id);
      if key in results {
        r, created := Done(results[key]), false;
      } else {
        r := SaveResult(req, test, defaults);
        created := true;
      }
    }

    /**
     * `IndividualTestResult.save(update_fields=["value", "notes",
     * "last_modified_by", "updated_at"])`: the hook still runs and sets the
     * in-memory status, but only the four listed columns reach the row.
     */
    method SaveResultFields(req: TestRequest, test: IndividualTest, row: IndividualResult)
      returns (r: Outcome<IndividualResult>)
      requires ResultKey(req.id, test.id) in results
      modifies this`results, req`status
      ensures ValueRejected(row.value) ==>
                r == Raised(InvalidDecimal) && results == old(results) && req.status == old(req.status)
      ensures !ValueRejected(row.value) ==> r == Done(row.(status := HookStatus(test, row.value, row.status)))
      ensures !ValueRejected(row.value) ==>
                var key := ResultKey(req.id, test.id);
                results == old(results)[key := old(results)[key].(value := row.value, notes := row.notes,
                                           lastModifiedBy := row.lastModifiedBy, updatedAt := row.updatedAt)]
      ensures !ValueRejected(row.value) ==>
                req.status == NextStatus(old(req.status), req.TotalTests(), EnteredCount(req.id)).status
    {
      if ValueRejected(row.value) {
        return Raised(InvalidDecimal);
      }
      var key := ResultKey(req.id, test.id);
      var inMemory := row.(status := HookStatus(test, row.value, row.status));
      results := results[key := results[key].(value := row.value, notes := row.notes,
                                             lastModifiedBy := row.lastModifiedBy, updatedAt := row.updatedAt)];
      var _ := req.CheckCompletionStatus(this);
      r := Done(inMemory);
    }

    /** `TestGroupResult.save()`: store the row, then recheck the request's completion. */
    method SaveGroupResult(req: TestRequest, group: TestGroup, row: GroupResult)
      modifies this`groupResults, req`status
      ensures groupResults == old(groupResults)[GroupResultKey(req.id, group.id) := row]
      ensures req.status == NextStatus(old(req.status), req.TotalTests(), EnteredCount(req.id)).status
    {
      groupResults := groupResults[GroupResultKey(req.id, group.id) := row];
      var _ := req.CheckCompletionStatus(this);
    }
  }

  class TestRequest {
    const id: nat
    const patient: Patient
    const individualTests: seq<IndividualTest>
    const testGroups: seq<TestGroup>
    var status: RequestStatus

    constructor (id: nat, patient: Patient, individualTests: seq<IndividualTest>, testGroups: seq<TestGroup>)
      ensures this.id == id && this.patient == patient && status == Pending
      ensures this.individualTests == individualTests && this.testGroups == testGroups
    {
      this.id := id;
      this.patient := patient;
      this.individualTests := individualTests;
      this.testGroups := testGroups;
      status := Pending;
    }

    /** Individual tests plus the tests of every requested group. */
    function TotalTests(): nat {
      |individualTests| + GroupTestsCount(testGroups)
    }

    /**
     * `get_total_price`: individual prices plus each group's bundled
     * `total_price`. With the validators' non-negative prices the total is
     * non-negative and no requested individual test costs more.
     */
    function GetTotalPrice(): (p: int)
      ensures PricesValid(individualTests) && GroupPricesValid(testGroups) ==>
                p >= 0 && forall i :: 0 <= i < |individualTests| ==> individualTests[i].price <= p
    {
      SumPricesBounds(individualTests);
      SumGroupPricesNonNegative(testGroups);
      SumPrices(individualTests) + SumGroupPrices(testGroups)
    }

    /** Loop of `check_completion_status`/`get_completion_percentage` summing the group sizes. */
    method CountGroupTests() returns (count: nat)
      ensures count == GroupTestsCount(testGroups)
    {
      count := 0;
      var i := 0;
      while i < |testGroups|
        invariant 0 <= i <= |testGroups|
        invariant count == GroupTestsCount(testGroups[..i])
      {
        assert testGroups[..i + 1][..i] == testGroups[..i];
        count := count + |testGroups[i].tests|;
        i := i + 1;
      }
      assert testGroups[..i] == testGroups;
    }

    /**
     * `check_completion_status`: with T required tests and R stored results,
     * `completed` once T > 0 and R >= T (reporting a change only if it was not
     * already completed), else `in_progress` if R > 0 and still `pending`,
     * else nothing.
     */
    method CheckCompletionStatus(lab: Lab) returns (changed: bool)
      modifies this`status
      ensures var t := NextStatus(old(status), TotalTests(), lab.EnteredCount(id));
              status == t.status && changed == t.changed
      ensures TotalTests() > 0 && lab.EnteredCount(id) >= TotalTests() ==> status == Completed
    {
      var individualTestsCount := |individualTests|;
      var individualResultsCount := |lab.ResultKeysOf(id)|;
      var groupTestsCount := CountGroupTests();
      var groupResultsCount := |lab.GroupResultKeysOf(id)|;
      var totalTests := individualTestsCount + groupTestsCount;
      var totalResults := individualResultsCount + groupResultsCount;
      if totalTests > 0 && totalResults >= totalTests {
        if status != Completed {
          status := Completed;
          return true;
        }
      } else if totalResults > 0 && status == Pending {
        status := InProgress;
        return true;
      }
      return false;
    }

    /** `get_completion_percentage`, with the same counts as the completion check. */
    method GetCompletionPercentage(lab: Lab) returns (p: real)
      ensures p == CompletionPercentage(TotalTests(), lab.EnteredCount(id))
    {
      var groupTestsCount := CountGroupTests();
      var totalTests := |individualTests| + groupTestsCount;
      var totalResults := |lab.ResultKeysOf(id)| + |lab.GroupResultKeysOf(id)|;
      if totalTests == 0 {
        return 0.0;
      }
      p := (totalResults as real / totalTests as real) * 100.0;
    }
  }

  /** A request with one more individual test costs exactly that test's price more. */
  lemma TotalPriceAddsTest(a: TestRequest, b: TestRequest, t: IndividualTest)
    requires b.individualTests == a.individualTests + [t] && b.testGroups == a.testGroups
    ensures b.GetTotalPrice() == a.GetTotalPrice() + t.price
  {
    SumPricesAppend(a.individualTests, [t]);
    assert [t][..0] == [];
  }

  /** A request with one more group costs exactly that group's `total_price` more. */
  lemma TotalPriceAddsGroup(a: TestRequest, b: TestRequest, g: TestGroup)
    requires b.testGroups == a.testGroups + [g] && b.individualTests == a.individualTests
    ensures b.GetTotalPrice() == a.GetTotalPrice() + g.totalPrice
  {
    SumGroupPricesAppend(a.testGroups, [g]);
    assert [g][..0] == [];
  }
}
