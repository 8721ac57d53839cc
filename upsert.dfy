/**
 * What the two bulk result forms do to the result table, as functions of the
 * table before the save: the submissions they act on, one upsert step per
 * submission, and the fold over all of them. The form classes are proved to
 * follow these functions; the lemmas here state what the saves promise.
 */
module Upsert {
  import opened Optional
  import opened Catalog
  import opened Classify
  import opened Requests
  import opened Decimals

  datatype FieldKind = ValueField | NotesField

  /** A form field: `test_{t}_value` has no group, `group_{g}_test_{t}_value` has one. */
  datatype FieldKey = FieldKey(group: Option<nat>, test: nat, kind: FieldKind)

  /** One entry of the form: a test, inside a group for the group form. */
  datatype Slot = Slot(group: Option<nat>, test: IndividualTest)

  function ValueKey(s: Slot): FieldKey {
    FieldKey(s.group, s.test.id, ValueField)
  }

  function NotesKey(s: Slot): FieldKey {
    FieldKey(s.group, s.test.id, NotesField)
  }

  /** Entries for `tests` in order, all in the same group (or none). */
  function TestSlots(group: Option<nat>, tests: seq<IndividualTest>): (slots: seq<Slot>)
    ensures |slots| == |tests|
    ensures forall i :: 0 <= i < |tests| ==> slots[i] == Slot(group, tests[i])
  {
    if tests == [] then [] else TestSlots(group, tests[..|tests| - 1]) + [Slot(group, tests[|tests| - 1])]
  }

  /** The individual form's entries: the request's tests in order. */
  function IndividualSlots(tests: seq<IndividualTest>): (slots: seq<Slot>)
    ensures |slots| == |tests|
    ensures forall i :: 0 <= i < |tests| ==> slots[i] == Slot(None, tests[i])
  {
    TestSlots(None, tests)
  }

  /** One group's entries: its tests in display order. */
  function SlotsOf(g: TestGroup): (slots: seq<Slot>)
    ensures |slots| == |g.tests|
    ensures forall i :: 0 <= i < |g.tests| ==> slots[i] == Slot(Some(g.id), g.tests[i])
  {
    TestSlots(Some(g.id), g.tests)
  }

  /** The group form's entries: groups in order, each group's tests in display order. */
  function GroupSlots(groups: seq<TestGroup>): (slots: seq<Slot>)
    ensures |slots| == GroupTestsCount(groups)
  {
    if groups == [] then [] else GroupSlots(groups[..|groups| - 1]) + SlotsOf(groups[|groups| - 1])
  }

  /** A value the save acts on. */
  datatype Submission = Submission(test: IndividualTest, value: string, notes: string)

  /**
   * `cleaned_data.get(value)` / `.get(notes, '')` for one entry; `None` when
   * the value is missing or empty (`if not value: continue`).
   */
  function SubmissionOf(s: Slot, cleaned: map<FieldKey, string>): (r: Option<Submission>)
    ensures r.Some? <==> ValueKey(s) in cleaned && cleaned[ValueKey(s)] != ""
    ensures r.Some? ==>
              && r.value.test == s.test && r.value.value == cleaned[ValueKey(s)]
              && r.value.notes == (if NotesKey(s) in cleaned then cleaned[NotesKey(s)] else "")
  {
    if ValueKey(s) in cleaned && cleaned[ValueKey(s)] != "" then
      Some(Submission(s.test, cleaned[ValueKey(s)], if NotesKey(s) in cleaned then cleaned[NotesKey(s)] else ""))
    else
      None
  }

  /** The submissions of a save, in iteration order, empty values skipped. */
  function Submitted(slots: seq<Slot>, cleaned: map<FieldKey, string>): (subs: seq<Submission>)
    ensures |subs| <= |slots|
    ensures forall i :: 0 <= i < |subs| ==> subs[i].value != ""
  {
    if slots == [] then []
    else
      var last := slots[|slots| - 1];
      Submitted(slots[..|slots| - 1], cleaned)
      + (match SubmissionOf(last, cleaned) case Some(sub) => [sub] case None => [])
  }

  /** A submission whose save raises: the decimal column rejects its value. */
  predicate Raises(sub: Submission) {
    ValueRejected(sub.value)
  }

  /**
   * As written, the hook compares the submitted text with the bounds first,
   * so a test with both generic bounds truthy raises whatever its value.
   */
  predicate RaisesAsWritten(sub: Submission) {
    HookAsWritten(sub.test, sub.value, Unset).Raised? || ValueRejected(sub.value)
  }

  /**
   * The submissions a save gets through: those before the first one that
   * raises. The exception ends the save with the earlier rows already
   * written; no transaction undoes them.
   */
  function SavedPrefix(subs: seq<Submission>, raises: Submission -> bool): (done: seq<Submission>)
    ensures |done| <= |subs| && done == subs[..|done|]
    ensures forall i :: 0 <= i < |done| ==> !raises(done[i])
    ensures |done| < |subs| ==> raises(subs[|done|])
  {
    if subs == [] || raises(subs[0]) then []
    else [subs[0]] + SavedPrefix(subs[1..], raises)
  }

  /** Which form is saving: the group form also needs the patient's gender. */
  datatype FormKind = IndividualForm | GroupForm(gender: string)

  /** The row `get_or_create` inserts: first writer in `entered_by`, hook status from the empty default. */
  function NewRow(sub: Submission, user: nat, now: int): IndividualResult {
    IndividualResult(sub.value, sub.notes, HookStatus(sub.test, sub.value, Unset), now, now, Some(user), None)
  }

  /**
   * One upsert: the table after it, and the result object the form appends
   * to its list. An existing row keeps `entered_by` and `result_date` and
   * gets `last_modified_by`; a new row gets `entered_by`. The individual form
   * updates only value, notes, `last_modified_by` and `updated_at` (its
   * returned object carries the hook's status, which is not written); the
   * group form writes every field, with the status the form and then the hook decide.
   */
  function Step(kind: FormKind, results: map<ResultKey, IndividualResult>, request: nat,
                sub: Submission, user: nat, now: int): (r: (map<ResultKey, IndividualResult>, IndividualResult))
    ensures r.0.Keys == results.Keys + {ResultKey(request, sub.test.id)}
  {
    var key := ResultKey(request, sub.test.id);
    match kind
    case IndividualForm =>
      if key in results then
        var row := results[key].(value := sub.value, notes := sub.notes,
                                 lastModifiedBy := Some(user), updatedAt := now);
        (results[key := row], row.(status := HookStatus(sub.test, sub.value, row.status)))
      else
        var row := NewRow(sub, user, now);
        (results[key := row], row)
    case GroupForm(gender) =>
      var base := if key in results then results[key].(value := sub.value, notes := sub.notes,
                                                        lastModifiedBy := Some(user))
                  else NewRow(sub, user, now);
      var row := base.(status := GroupFormStoredStatus(sub.test, gender, sub.value), updatedAt := now);
      (results[key := row], row)
  }

  /** What one upsert writes, and what it leaves alone. */
  lemma StepWrites(kind: FormKind, results: map<ResultKey, IndividualResult>, request: nat,
                   sub: Submission, user: nat, now: int)
    ensures var key := ResultKey(request, sub.test.id);
            var after := Step(kind, results, request, sub, user, now).0;
            var obj := Step(kind, results, request, sub, user, now).1;
            && key in after && after == results[key := after[key]]
            && after[key].value == sub.value && after[key].notes == sub.notes && after[key].updatedAt == now
            && obj.value == sub.value && obj.notes == sub.notes
            && (key in results ==> && after[key].enteredBy == results[key].enteredBy
                                   && after[key].resultDate == results[key].resultDate
                                   && after[key].lastModifiedBy == Some(user))
            && (key !in results ==> after[key].enteredBy == Some(user) && after[key].resultDate == now)
            && (kind.IndividualForm? && key in results ==> after[key].status == results[key].status)
            && (kind.IndividualForm? && key !in results ==> after[key].status == HookStatus(sub.test, sub.value, Unset))
            && (kind.GroupForm? ==> after[key].status == GroupFormStoredStatus(sub.test, kind.gender, sub.value) && obj == after[key])
  {
  }

  /** The table after all submissions, applied in order. */
  function Applied(kind: FormKind, results: map<ResultKey, IndividualResult>, request: nat,
                   subs: seq<Submission>, user: nat, now: int): (after: map<ResultKey, IndividualResult>)
    ensures results.Keys <= after.Keys
  {
    if subs == [] then results
    else Step(kind, Applied(kind, results, request, subs[..|subs| - 1], user, now), request, subs[|subs| - 1], user, now).0
  }

  /** The list the save returns: one result object per submission. */
  function SavedRows(kind: FormKind, results: map<ResultKey, IndividualResult>, request: nat,
                     subs: seq<Submission>, user: nat, now: int): (rows: seq<IndividualResult>)
    ensures |rows| == |subs|
  {
    if subs == [] then []
    else
      var prefix := subs[..|subs| - 1];
      SavedRows(kind, results, request, prefix, user, now)
      + [Step(kind, Applied(kind, results, request, prefix, user, now), request, subs[|subs| - 1], user, now).1]
  }

  function TouchedKeys(request: nat, subs: seq<Submission>): set<ResultKey> {
    set i | 0 <= i < |subs| :: ResultKey(request, subs[i].test.id)
  }

  // ------------------------------------------------------------------ lemmas

  /** Exactly the submitted tests gain a row; no other row appears. */
  lemma {:induction false} AppliedKeys(kind: FormKind, results: map<ResultKey, IndividualResult>, request: nat,
                                       subs: seq<Submission>, user: nat, now: int)
    ensures Applied(kind, results, request, subs, user, now).Keys == results.Keys + TouchedKeys(request, subs)
  {
    if subs != [] {
      var n := |subs|;
      AppliedKeys(kind, results, request, subs[..n - 1], user, now);
      assert TouchedKeys(request, subs) == TouchedKeys(request, subs[..n - 1]) + {ResultKey(request, subs[n - 1].test.id)} by {
        forall k | k in TouchedKeys(request, subs)
          ensures k in TouchedKeys(request, subs[..n - 1]) + {ResultKey(request, subs[n - 1].test.id)}
        {
          var i :| 0 <= i < n && k == ResultKey(request, subs[i].test.id);
          if i < n - 1 {
            assert subs[..n - 1][i] == subs[i];
          }
        }
        forall k | k in TouchedKeys(request, subs[..n - 1])
          ensures k in TouchedKeys(request, subs)
        {
          var i :| 0 <= i < n - 1 && k == ResultKey(request, subs[..n - 1][i].test.id);
          assert subs[..n - 1][i] == subs[i];
        }
      }
    }
  }

  /** A row no submission names is left exactly as it was. */
  lemma {:induction false} AppliedLeavesOthers(kind: FormKind, results: map<ResultKey, IndividualResult>, request: nat,
                                              subs: seq<Submission>, user: nat, now: int, k: ResultKey)
    requires k in results && k !in TouchedKeys(request, subs)
    ensures k in Applied(kind, results, request, subs, user, now)
    ensures Applied(kind, results, request, subs, user, now)[k] == results[k]
  {
    if subs != [] {
      var n := |subs|;
      assert k != ResultKey(request, subs[n - 1].test.id);
      var prefix := subs[..n - 1];
      assert k !in TouchedKeys(request, prefix) by {
        forall i | 0 <= i < n - 1
          ensures k != ResultKey(request, prefix[i].test.id)
        {
          assert prefix[i] == subs[i];
        }
      }
      AppliedLeavesOthers(kind, results, request, subs[..n - 1], user, now, k);
    }
  }

  /**
   * Attribution: a row that existed keeps its `entered_by` and `result_date`
   * whatever the save does; a row the save creates is attributed to the saving user.
   */
  lemma {:induction false} AppliedKeepsFirstWriter(kind: FormKind, results: map<ResultKey, IndividualResult>, request: nat,
                                                   subs: seq<Submission>, user: nat, now: int, k: ResultKey)
    requires k in Applied(kind, results, request, subs, user, now)
    ensures k in results ==>
              Applied(kind, results, request, subs, user, now)[k].enteredBy == results[k].enteredBy
              && Applied(kind, results, request, subs, user, now)[k].resultDate == results[k].resultDate
    ensures k !in results ==> Applied(kind, results, request, subs, user, now)[k].enteredBy == Some(user)
  {
    if subs != [] {
      var n := |subs|;
      var before := Applied(kind, results, request, subs[..n - 1], user, now);
      var key := ResultKey(request, subs[n - 1].test.id);
      if k != key {
        AppliedKeepsFirstWriter(kind, results, request, subs[..n - 1], user, now, k);
      } else if key in before {
        AppliedKeepsFirstWriter(kind, results, request, subs[..n - 1], user, now, k);
      } else {
        AppliedKeys(kind, results, request, subs[..n - 1], user, now);
      }
    }
  }

  /** The individual form never changes the stored status of a row that already existed. */
  lemma {:induction false} IndividualFormKeepsStatus(results: map<ResultKey, IndividualResult>, request: nat,
                                                     subs: seq<Submission>, user: nat, now: int, k: ResultKey)
    requires k in results
    ensures k in Applied(IndividualForm, results, request, subs, user, now)
    ensures Applied(IndividualForm, results, request, subs, user, now)[k].status == results[k].status
  {
    AppliedKeys(IndividualForm, results, request, subs, user, now);
    if subs != [] {
      IndividualFormKeepsStatus(results, request, subs[..|subs| - 1], user, now, k);
    }
  }

  /**
   * The last submission for a test decides its row: value, notes, and for
   * the group form the status; a test submitted twice (it is in two groups)
   * ends with the later value. A row that existed is marked as modified by the saving user.
   */
  lemma {:induction false} LastSubmissionWins(kind: FormKind, results: map<ResultKey, IndividualResult>, request: nat,
                                              subs: seq<Submission>, user: nat, now: int, i: nat)
    requires i < |subs|
    requires forall j :: i < j < |subs| ==> subs[j].test.id != subs[i].test.id
    ensures var key := ResultKey(request, subs[i].test.id);
            var after := Applied(kind, results, request, subs, user, now);
            key in after && after[key].value == subs[i].value && after[key].notes == subs[i].notes
            && after[key].updatedAt == now
            && (key in results ==> after[key].lastModifiedBy == Some(user))
            && (kind.GroupForm? ==> after[key].status == GroupFormStoredStatus(subs[i].test, kind.gender, subs[i].value))
  {
    var n := |subs|;
    var key := ResultKey(request, subs[i].test.id);
    var prefix := subs[..n - 1];
    var before := Applied(kind, results, request, prefix, user, now);
    var last := subs[n - 1];
    assert Applied(kind, results, request, subs, user, now) == Step(kind, before, request, last, user, now).0;
    if i == n - 1 {
      assert subs[i] == last;
      AppliedKeys(kind, results, request, prefix, user, now);
      FinalStepWins(kind, results, before, request, last, user, now);
    } else {
      assert prefix[i] == subs[i];
      forall j | i < j < |prefix|
        ensures prefix[j].test.id != prefix[i].test.id
      {
        assert prefix[j] == subs[j];
      }
      LastSubmissionWins(kind, results, request, prefix, user, now, i);
      StepKeepsOther(kind, before, request, last, user, now, key);
    }
  }

  /** The upsert of `sub` leaves its row holding what `sub` wrote, on a table that has every original row. */
  lemma FinalStepWins(kind: FormKind, results: map<ResultKey, IndividualResult>, before: map<ResultKey, IndividualResult>,
                      request: nat, sub: Submission, user: nat, now: int)
    requires results.Keys <= before.Keys
    ensures var key := ResultKey(request, sub.test.id);
            var after := Step(kind, before, request, sub, user, now).0;
            key in after && after[key].value == sub.value && after[key].notes == sub.notes
            && after[key].updatedAt == now
            && (key in results ==> after[key].lastModifiedBy == Some(user))
            && (kind.GroupForm? ==> after[key].status == GroupFormStoredStatus(sub.test, kind.gender, sub.value))
  {
    StepWrites(kind, before, request, sub, user, now);
  }

  /** An upsert leaves every other row as it was. */
  lemma StepKeepsOther(kind: FormKind, results: map<ResultKey, IndividualResult>, request: nat,
                       sub: Submission, user: nat, now: int, k: ResultKey)
    requires k != ResultKey(request, sub.test.id)
    ensures var after := Step(kind, results, request, sub, user, now).0;
            (k in after <==> k in results) && (k in results ==> after[k] == results[k])
  {
    StepWrites(kind, results, request, sub, user, now);
  }

  lemma {:induction false} SavedRowsMatch(kind: FormKind, results: map<ResultKey, IndividualResult>, request: nat,
                                          subs: seq<Submission>, user: nat, now: int)
    ensures var saved := SavedRows(kind, results, request, subs, user, now);
            |saved| == |subs|
            && forall i :: 0 <= i < |subs| ==> saved[i].value == subs[i].value && saved[i].notes == subs[i].notes
  {
    if subs != [] {
      var n := |subs|;
      var prefix := subs[..n - 1];
      SavedRowsMatch(kind, results, request, prefix, user, now);
      var prev := SavedRows(kind, results, request, prefix, user, now);
      var before := Applied(kind, results, request, prefix, user, now);
      StepWrites(kind, before, request, subs[n - 1], user, now);
      var saved := SavedRows(kind, results, request, subs, user, now);
      assert saved == prev + [Step(kind, before, request, subs[n - 1], user, now).1];
      forall i | 0 <= i < n
        ensures saved[i].value == subs[i].value && saved[i].notes == subs[i].notes
      {
        if i < n - 1 {
          assert prefix[i] == subs[i] && saved[i] == prev[i];
        }
      }
    }
  }

  /** Every submission comes from an entry whose cleaned value is non-empty, in the order of the entries. */
  lemma {:induction false} SubmittedFromNonEmpty(slots: seq<Slot>, cleaned: map<FieldKey, string>, i: nat)
    requires i < |Submitted(slots, cleaned)|
    ensures exists j :: 0 <= j < |slots| && SubmissionOf(slots[j], cleaned) == Some(Submitted(slots, cleaned)[i])
  {
    var n := |slots|;
    var prefix := Submitted(slots[..n - 1], cleaned);
    if i < |prefix| {
      SubmittedFromNonEmpty(slots[..n - 1], cleaned, i);
      var j :| 0 <= j < n - 1 && SubmissionOf(slots[..n - 1][j], cleaned) == Some(prefix[i]);
      assert slots[..n - 1][j] == slots[j];
    } else {
      assert SubmissionOf(slots[n - 1], cleaned) == Some(Submitted(slots, cleaned)[i]);
    }
  }

  /** A test whose every entry was left empty gains no row and its existing row is untouched. */
  lemma {:induction false} EmptyEntriesSkipped(kind: FormKind, results: map<ResultKey, IndividualResult>, request: nat,
                                               slots: seq<Slot>, cleaned: map<FieldKey, string>,
                                               user: nat, now: int, test: nat)
    requires forall j :: 0 <= j < |slots| && slots[j].test.id == test ==> SubmissionOf(slots[j], cleaned).None?
    ensures var key := ResultKey(request, test);
            var after := Applied(kind, results, request, Submitted(slots, cleaned), user, now);
            (key in after <==> key in results) && (key in results ==> after[key] == results[key])
  {
    var subs := Submitted(slots, cleaned);
    var key := ResultKey(request, test);
    assert key !in TouchedKeys(request, subs) by {
      forall i | 0 <= i < |subs|
        ensures key != ResultKey(request, subs[i].test.id)
      {
        SubmittedFromNonEmpty(slots, cleaned, i);
      }
    }
    AppliedKeys(kind, results, request, subs, user, now);
    if key in results {
      AppliedLeavesOthers(kind, results, request, subs, user, now, key);
    }
  }

  lemma AppliedAppend(kind: FormKind, results: map<ResultKey, IndividualResult>, request: nat,
                      subs: seq<Submission>, sub: Submission, user: nat, now: int)
    ensures var step := Step(kind, Applied(kind, results, request, subs, user, now), request, sub, user, now);
            && Applied(kind, results, request, subs + [sub], user, now) == step.0
            && SavedRows(kind, results, request, subs + [sub], user, now)
               == SavedRows(kind, results, request, subs, user, now) + [step.1]
  {
    assert (subs + [sub])[..|subs|] == subs;
  }

  lemma SubmittedAppend(slots: seq<Slot>, s: Slot, cleaned: map<FieldKey, string>)
    ensures Submitted(slots + [s], cleaned)
            == Submitted(slots, cleaned) + (match SubmissionOf(s, cleaned) case Some(sub) => [sub] case None => [])
  {
    assert (slots + [s])[..|slots|] == slots;
  }

  lemma {:induction false} SubmittedConcat(a: seq<Slot>, b: seq<Slot>, cleaned: map<FieldKey, string>)
    ensures Submitted(a + b, cleaned) == Submitted(a, cleaned) + Submitted(b, cleaned)
  {
    if b == [] {
      assert a + b == a;
    } else {
      var init, last := b[..|b| - 1], b[|b| - 1];
      ConcatDropLast(a, b);
      SubmittedConcat(a, init, cleaned);
    }
  }

  /** Dropping the last element of `a + b`, for a non-empty `b`, drops it from `b`. */
  lemma ConcatDropLast<T>(a: seq<T>, b: seq<T>)
    requires b != []
    ensures (a + b)[..|a + b| - 1] == a + b[..|b| - 1] && (a + b)[|a + b| - 1] == b[|b| - 1]
  {
  }

  lemma ConcatAssoc<T>(a: seq<T>, b: seq<T>, c: seq<T>)
    ensures (a + b) + c == a + (b + c)
  {
  }

  /** The first `i + 1` elements: the first `i`, then element `i`. */
  lemma TakeOneMore<T>(s: seq<T>, i: nat)
    requires i < |s|
    ensures s[..i + 1] == s[..i] + [s[i]]
  {
  }

  /** The first `j` elements: the first `i`, then those from `i` up to `j`. */
  lemma TakeJoin<T>(s: seq<T>, i: nat, j: nat)
    requires i <= j <= |s|
    ensures s[..j] == s[..i] + s[i..j]
  {
  }

  /** A sequence is its part before `k` followed by its part from `k`. */
  lemma SplitAt<T>(s: seq<T>, k: nat)
    requires k <= |s|
    ensures s[..k] + s[k..] == s
  {
  }

  /**
   * Every entry with a non-empty cleaned value is submitted, behind the
   * submissions of the entries before it: entry order is kept.
   */
  lemma SubmittedHasEveryFilledEntry(slots: seq<Slot>, cleaned: map<FieldKey, string>, j: nat)
    requires j < |slots| && SubmissionOf(slots[j], cleaned).Some?
    ensures var k := |Submitted(slots[..j], cleaned)|;
            k < |Submitted(slots, cleaned)| && Submitted(slots, cleaned)[k] == SubmissionOf(slots[j], cleaned).value
    ensures Submitted(slots[..j + 1], cleaned) == Submitted(slots[..j], cleaned) + [SubmissionOf(slots[j], cleaned).value]
    ensures Submitted(slots, cleaned) == Submitted(slots[..j + 1], cleaned) + Submitted(slots[j + 1..], cleaned)
  {
    assert slots[..j + 1] == slots[..j] + [slots[j]];
    SubmittedAppend(slots[..j], slots[j], cleaned);
    assert slots == slots[..j + 1] + slots[j + 1..];
    SubmittedConcat(slots[..j + 1], slots[j + 1..], cleaned);
  }

  /** Of two filled entries, the earlier one's submission comes first. */
  lemma SubmittedKeepsOrder(slots: seq<Slot>, cleaned: map<FieldKey, string>, j1: nat, j2: nat)
    requires j1 < j2 < |slots|
    requires SubmissionOf(slots[j1], cleaned).Some? && SubmissionOf(slots[j2], cleaned).Some?
    ensures |Submitted(slots[..j1], cleaned)| < |Submitted(slots[..j2], cleaned)|
  {
    var before, upTo, between := slots[..j1], slots[..j1 + 1], slots[j1 + 1..j2];
    TakeOneMore(slots, j1);
    SubmittedAppend(before, slots[j1], cleaned);
    TakeJoin(slots, j1 + 1, j2);
    SubmittedConcat(upTo, between, cleaned);
  }

  /**
   * When the save gets through, the last entry filled in for a test decides
   * its row: its value and notes, and for the group form the status.
   */
  lemma LastFilledEntryWins(kind: FormKind, results: map<ResultKey, IndividualResult>, request: nat,
                            slots: seq<Slot>, cleaned: map<FieldKey, string>, user: nat, now: int, j: nat)
    requires j < |slots| && SubmissionOf(slots[j], cleaned).Some?
    requires forall j2 :: j < j2 < |slots| && slots[j2].test.id == slots[j].test.id ==>
               SubmissionOf(slots[j2], cleaned).None?
    ensures var key := ResultKey(request, slots[j].test.id);
            var after := Applied(kind, results, request, Submitted(slots, cleaned), user, now);
            var sub := SubmissionOf(slots[j], cleaned).value;
            key in after && after[key].value == cleaned[ValueKey(slots[j])] && after[key].notes == sub.notes
            && (kind.GroupForm? ==> after[key].status == GroupFormStoredStatus(sub.test, kind.gender, sub.value))
  {
    var subs := Submitted(slots, cleaned);
    var sub := SubmissionOf(slots[j], cleaned).value;
    SubmittedHasEveryFilledEntry(slots, cleaned, j);
    var k := |Submitted(slots[..j], cleaned)|;
    var rest := slots[j + 1..];
    var later := Submitted(rest, cleaned);
    forall m | k < m < |subs|
      ensures subs[m].test.id != subs[k].test.id
    {
      assert subs[m] == later[m - k - 1];
      SubmittedFromNonEmpty(rest, cleaned, m - k - 1);
      var j' :| 0 <= j' < |rest| && SubmissionOf(rest[j'], cleaned) == Some(later[m - k - 1]);
      assert rest[j'] == slots[j + 1 + j'];
    }
    LastSubmissionWins(kind, results, request, subs, user, now, k);
  }

  /** Once a submission raises, the save stores what it had stored: later entries change nothing. */
  lemma SavedPrefixStops(a: seq<Submission>, b: seq<Submission>, raises: Submission -> bool)
    requires SavedPrefix(a, raises) != a
    ensures SavedPrefix(a + b, raises) == SavedPrefix(a, raises) && SavedPrefix(a + b, raises) != a + b
  {
    var d, e := SavedPrefix(a, raises), SavedPrefix(a + b, raises);
    assert (a + b)[|d|] == a[|d|];
    assert e == (a + b)[..|d|] == d;
  }

  /** A submission after a run that raised nothing either raises or joins the run. */
  lemma SavedPrefixSnoc(a: seq<Submission>, x: Submission, raises: Submission -> bool)
    requires SavedPrefix(a, raises) == a
    ensures SavedPrefix(a + [x], raises) == if raises(x) then a else a + [x]
  {
    var e := SavedPrefix(a + [x], raises);
    if |e| == |a| {
      assert e == (a + [x])[..|a|] == a;
    } else if |e| == |a| + 1 {
      assert e[|a|] == (a + [x])[|a|] == x;
      assert e == (a + [x])[..|a| + 1] == a + [x];
    }
  }

  /** A save that raised among the first entries stops there, whatever entries follow. */
  lemma StopIsFinal(cur: seq<Slot>, rest: seq<Slot>, cleaned: map<FieldKey, string>, raises: Submission -> bool)
    requires SavedPrefix(Submitted(cur, cleaned), raises) != Submitted(cur, cleaned)
    ensures SavedPrefix(Submitted(cur + rest, cleaned), raises) == SavedPrefix(Submitted(cur, cleaned), raises)
    ensures SavedPrefix(Submitted(cur + rest, cleaned), raises) != Submitted(cur + rest, cleaned)
  {
    SubmittedConcat(cur, rest, cleaned);
    SavedPrefixStops(Submitted(cur, cleaned), Submitted(rest, cleaned), raises);
  }

  /** The save as written gets through no more submissions than with the hook reading decimals. */
  lemma AsWrittenSavesNoMore(subs: seq<Submission>)
    ensures var w := SavedPrefix(subs, RaisesAsWritten);
            |w| <= |SavedPrefix(subs, Raises)| && w == SavedPrefix(subs, Raises)[..|w|]
  {
    var w, c := SavedPrefix(subs, RaisesAsWritten), SavedPrefix(subs, Raises);
    forall i | 0 <= i < |w|
      ensures !Raises(subs[i])
    {
      assert w[i] == subs[i];
      RaisesAlsoAsWritten(subs[i]);
    }
    assert w == subs[..|w|] == c[..|w|];
  }

  lemma RaisesAlsoAsWritten(sub: Submission)
    ensures Raises(sub) ==> RaisesAsWritten(sub)
  {
  }

  /** As written, no entry for a test with both generic bounds truthy is ever saved: the save stops there. */
  lemma AsWrittenStopsAtBoundedTest(subs: seq<Submission>, i: nat)
    requires i < |subs| && Truthy(subs[i].test.normalMin) && Truthy(subs[i].test.normalMax)
    ensures |SavedPrefix(subs, RaisesAsWritten)| <= i
  {
    assert RaisesAsWritten(subs[i]);
    SavedPrefixEndsBefore(subs, i, RaisesAsWritten);
  }

  /** The saved prefix ends at or before any entry whose save raises. */
  lemma {:induction false} SavedPrefixEndsBefore(subs: seq<Submission>, i: nat, raises: Submission -> bool)
    requires i < |subs| && raises(subs[i])
    ensures |SavedPrefix(subs, raises)| <= i
  {
    if i > 0 && !raises(subs[0]) {
      assert subs[1..][i - 1] == subs[i];
      SavedPrefixEndsBefore(subs[1..], i - 1, raises);
    }
  }
}
