/**
 * The two bulk result-entry forms: the fields they build from the results
 * already stored, the entries they list for the template, and their saves,
 * each proved to follow the upsert functions of module Upsert.
 */
module Forms {
  import opened Optional
  import opened Catalog
  import opened Classify
  import opened Requests
  import opened Upsert

  /** One entry's identity: `test_{t}` or `group_{g}_test_{t}`. */
  datatype EntryKey = EntryKey(group: Option<nat>, test: nat)

  function EntryOf(s: Slot): EntryKey {
    EntryKey(s.group, s.test.id)
  }

  /** The request's stored rows by test id (`existing_results`). */
  function ExistingByTest(results: map<ResultKey, IndividualResult>, request: nat): (existing: map<nat, IndividualResult>)
    ensures forall t :: t in existing <==> ResultKey(request, t) in results
    ensures forall t :: t in existing ==> existing[t] == results[ResultKey(request, t)]
  {
    var ids := set k | k in results.Keys && k.request == request :: k.test;
    assert forall t :: t in ids <==> ResultKey(request, t) in results by {
      forall t | t in ids ensures ResultKey(request, t) in results {
        var k :| k in results.Keys && k.request == request && k.test == t;
        assert k == ResultKey(request, t);
      }
    }
    map t | t in ids :: results[ResultKey(request, t)]
  }

  function Lookup(existing: map<nat, IndividualResult>, t: nat): Option<IndividualResult> {
    if t in existing then Some(existing[t]) else None
  }

  /** A value field's initial value: the stored value, else the form's default. */
  function InitialValue(existing: map<nat, IndividualResult>, t: nat, default: Option<string>): Option<string> {
    if t in existing then Some(existing[t].value) else default
  }

  /** A notes field's initial value: the stored notes, else empty. */
  function InitialNotes(existing: map<nat, IndividualResult>, t: nat): Option<string> {
    if t in existing then Some(existing[t].notes) else Some("")
  }

  /** The initial values of the fields the constructor adds, entry by entry. */
  function Prefill(existing: map<nat, IndividualResult>, slots: seq<Slot>, default: Option<string>)
    : map<FieldKey, Option<string>>
  {
    if slots == [] then map[]
    else
      var s := slots[|slots| - 1];
      Prefill(existing, slots[..|slots| - 1], default)
        [ValueKey(s) := InitialValue(existing, s.test.id, default)]
        [NotesKey(s) := InitialNotes(existing, s.test.id)]
  }

  /** The `_info` attributes: for each entry, the row that existed when the form was built. */
  function Infos(existing: map<nat, IndividualResult>, slots: seq<Slot>): map<EntryKey, Option<IndividualResult>>
  {
    if slots == [] then map[]
    else
      var s := slots[|slots| - 1];
      Infos(existing, slots[..|slots| - 1])[EntryOf(s) := Lookup(existing, s.test.id)]
  }

  /**
   * An entry's value field shows the stored value (or the form's default)
   * and its notes field the stored notes (or empty).
   */
  lemma {:induction false} PrefillLookup(existing: map<nat, IndividualResult>, slots: seq<Slot>, default: Option<string>,
                                         s: Slot)
    requires s in slots
    ensures var fields := Prefill(existing, slots, default);
            && ValueKey(s) in fields && fields[ValueKey(s)] == InitialValue(existing, s.test.id, default)
            && NotesKey(s) in fields && fields[NotesKey(s)] == InitialNotes(existing, s.test.id)
  {
    var n := |slots|;
    if s != slots[n - 1] {
      assert s in slots[..n - 1];
      PrefillLookup(existing, slots[..n - 1], default, s);
    }
  }

  /** The form has no fields other than the entries' value and notes fields. */
  lemma {:induction false} PrefillKeys(existing: map<nat, IndividualResult>, slots: seq<Slot>, default: Option<string>,
                                       k: FieldKey)
    requires k in Prefill(existing, slots, default)
    ensures exists s :: s in slots && (k == ValueKey(s) || k == NotesKey(s))
  {
    var n := |slots|;
    if k != ValueKey(slots[n - 1]) && k != NotesKey(slots[n - 1]) {
      PrefillKeys(existing, slots[..n - 1], default, k);
      var s :| s in slots[..n - 1] && (k == ValueKey(s) || k == NotesKey(s));
      assert s in slots;
    }
  }

  /** An entry's `_info` attribute holds the row stored for its test. */
  lemma {:induction false} InfosLookup(existing: map<nat, IndividualResult>, slots: seq<Slot>, s: Slot)
    requires s in slots
    ensures EntryOf(s) in Infos(existing, slots) && Infos(existing, slots)[EntryOf(s)] == Lookup(existing, s.test.id)
  {
    var n := |slots|;
    if s != slots[n - 1] {
      assert s in slots[..n - 1];
      InfosLookup(existing, slots[..n - 1], s);
    }
  }

  /** Only the entries have `_info` attributes. */
  lemma {:induction false} InfosKeys(existing: map<nat, IndividualResult>, slots: seq<Slot>, e: EntryKey)
    requires e in Infos(existing, slots)
    ensures exists s :: s in slots && e == EntryOf(s)
  {
    var n := |slots|;
    if e != EntryOf(slots[n - 1]) {
      InfosKeys(existing, slots[..n - 1], e);
      var s :| s in slots[..n - 1] && e == EntryOf(s);
      assert s in slots;
    }
  }

  lemma PrefillStep(existing: map<nat, IndividualResult>, slots: seq<Slot>, s: Slot, default: Option<string>)
    ensures Prefill(existing, slots + [s], default)
            == Prefill(existing, slots, default)[ValueKey(s) := InitialValue(existing, s.test.id, default)]
                                                [NotesKey(s) := InitialNotes(existing, s.test.id)]
    ensures Infos(existing, slots + [s]) == Infos(existing, slots)[EntryOf(s) := Lookup(existing, s.test.id)]
  {
    assert (slots + [s])[..|slots|] == slots;
  }

  /** What the template receives for one entry: the test, its two fields' initial values and the stored row. */
  datatype TestEntry = TestEntry(test: IndividualTest, value: Option<string>, notes: Option<string>,
                                 existing: Option<IndividualResult>)

  datatype GroupEntry = GroupEntry(group: TestGroup, tests: seq<TestEntry>)

  predicate FieldsCover(fields: map<FieldKey, Option<string>>, infos: map<EntryKey, Option<IndividualResult>>) {
    forall e :: e in infos ==> FieldKey(e.group, e.test, ValueField) in fields && FieldKey(e.group, e.test, NotesField) in fields
  }

  /** The entries listed for `slots`: those that have an `_info` attribute, in order. */
  function Entries(slots: seq<Slot>, fields: map<FieldKey, Option<string>>, infos: map<EntryKey, Option<IndividualResult>>)
    : (entries: seq<TestEntry>)
    requires FieldsCover(fields, infos)
    ensures |entries| <= |slots|
  {
    if slots == [] then []
    else
      var s := slots[|slots| - 1];
      Entries(slots[..|slots| - 1], fields, infos)
      + (if EntryOf(s) in infos then [TestEntry(s.test, fields[ValueKey(s)], fields[NotesKey(s)], infos[EntryOf(s)])] else [])
  }

  /** The groups listed: each group with its entries, groups without entries left out. */
  function GroupEntries(groups: seq<TestGroup>, fields: map<FieldKey, Option<string>>, infos: map<EntryKey, Option<IndividualResult>>)
    : (entries: seq<GroupEntry>)
    requires FieldsCover(fields, infos)
    ensures |entries| <= |groups|
    ensures forall i :: 0 <= i < |entries| ==> entries[i].tests != []
  {
    if groups == [] then []
    else
      var g := groups[|groups| - 1];
      var tests := Entries(SlotsOf(g), fields, infos);
      GroupEntries(groups[..|groups| - 1], fields, infos) + (if tests != [] then [GroupEntry(g, tests)] else [])
  }

  /** The entry each slot shows on a freshly built form. */
  function FullEntries(existing: map<nat, IndividualResult>, slots: seq<Slot>, default: Option<string>): (entries: seq<TestEntry>)
    ensures |entries| == |slots|
  {
    seq(|slots|, i requires 0 <= i < |slots| =>
      TestEntry(slots[i].test, InitialValue(existing, slots[i].test.id, default),
                InitialNotes(existing, slots[i].test.id), Lookup(existing, slots[i].test.id)))
  }

  /** The groups a freshly built group form shows: every group with at least one test. */
  function ShownGroups(existing: map<nat, IndividualResult>, groups: seq<TestGroup>): seq<GroupEntry> {
    if groups == [] then []
    else
      var g := groups[|groups| - 1];
      ShownGroups(existing, groups[..|groups| - 1])
      + (if g.tests != [] then [GroupEntry(g, FullEntries(existing, SlotsOf(g), Some("")))] else [])
  }

  lemma PrefillCovers(existing: map<nat, IndividualResult>, slots: seq<Slot>, default: Option<string>)
    ensures FieldsCover(Prefill(existing, slots, default), Infos(existing, slots))
  {
    var fields := Prefill(existing, slots, default);
    forall e | e in Infos(existing, slots)
      ensures FieldKey(e.group, e.test, ValueField) in fields && FieldKey(e.group, e.test, NotesField) in fields
    {
      InfosKeys(existing, slots, e);
      var s :| s in slots && e == EntryOf(s);
      PrefillLookup(existing, slots, default, s);
    }
  }

  /**
   * On a freshly built form every entry whose slot was prefilled is listed,
   * in order, with the stored value and notes (or the defaults) and the stored row.
   */
  lemma {:induction false} EntriesAfterPrefill(existing: map<nat, IndividualResult>, all: seq<Slot>, slots: seq<Slot>,
                                               default: Option<string>)
    requires forall s :: s in slots ==> s in all
    ensures FieldsCover(Prefill(existing, all, default), Infos(existing, all))
    ensures Entries(slots, Prefill(existing, all, default), Infos(existing, all)) == FullEntries(existing, slots, default)
  {
    PrefillCovers(existing, all, default);
    if slots != [] {
      var n := |slots|;
      EntriesAfterPrefill(existing, all, slots[..n - 1], default);
      assert slots[n - 1] in all;
      PrefillLookup(existing, all, default, slots[n - 1]);
      InfosLookup(existing, all, slots[n - 1]);
      var full := FullEntries(existing, slots, default);
      assert full == FullEntries(existing, slots[..n - 1], default) + [full[n - 1]];
    }
  }

  /** A freshly built group form lists exactly the groups that have tests, each with all its tests. */
  lemma {:induction false} GroupEntriesAfterPrefill(existing: map<nat, IndividualResult>, groups: seq<TestGroup>,
                                                    shown: seq<TestGroup>)
    requires forall g :: g in shown ==> g in groups
    ensures FieldsCover(Prefill(existing, GroupSlots(groups), Some("")), Infos(existing, GroupSlots(groups)))
    ensures GroupEntries(shown, Prefill(existing, GroupSlots(groups), Some("")), Infos(existing, GroupSlots(groups)))
              == ShownGroups(existing, shown)
  {
    PrefillCovers(existing, GroupSlots(groups), Some(""));
    if shown != [] {
      var n := |shown|;
      var g := shown[n - 1];
      GroupEntriesAfterPrefill(existing, groups, shown[..n - 1]);
      SlotsOfInGroupSlots(groups, g);
      EntriesAfterPrefill(existing, GroupSlots(groups), SlotsOf(g), Some(""));
    }
  }

  lemma {:induction false} SlotsOfInGroupSlots(groups: seq<TestGroup>, g: TestGroup)
    requires g in groups
    ensures forall s :: s in SlotsOf(g) ==> s in GroupSlots(groups)
  {
    var n := |groups|;
    var prefix := GroupSlots(groups[..n - 1]);
    assert GroupSlots(groups) == prefix + SlotsOf(groups[n - 1]);
    if g != groups[n - 1] {
      assert g in groups[..n - 1];
      SlotsOfInGroupSlots(groups[..n - 1], g);
    }
  }

  lemma SlotsPrefixStep(done: seq<Slot>, slots: seq<Slot>, i: nat)
    requires i < |slots|
    ensures done + slots[..i + 1] == (done + slots[..i]) + [slots[i]]
  {
    assert slots[..i + 1] == slots[..i] + [slots[i]];
  }

  /**
   * One iteration of either form's save loop keeps the loop's invariant:
   * the table and the request status are those of the submissions saved so
   * far, and the saved list is complete unless this entry raised.
   */
  lemma IterationKeepsInvariant(kind: FormKind, results0: map<ResultKey, IndividualResult>, request: nat,
                                cur: seq<Slot>, slot: Slot, cleaned: map<FieldKey, string>, user: nat, now: int,
                                before: map<ResultKey, IndividualResult>, after: map<ResultKey, IndividualResult>,
                                savedBefore: seq<IndividualResult>, result: Option<Outcome<IndividualResult>>,
                                status0: RequestStatus, total: nat, countBefore: nat, countAfter: nat,
                                statusBefore: RequestStatus, statusAfter: RequestStatus)
    requires SavedPrefix(Submitted(cur, cleaned), Raises) == Submitted(cur, cleaned)
    requires before == Applied(kind, results0, request, Submitted(cur, cleaned), user, now)
    requires savedBefore == SavedRows(kind, results0, request, Submitted(cur, cleaned), user, now)
    requires statusBefore == StatusAfterSaves(status0, total, countBefore, Submitted(cur, cleaned) != [])
    requires countBefore <= countAfter
    requires match SubmissionOf(slot, cleaned)
             case None => result.None? && after == before && countAfter == countBefore && statusAfter == statusBefore
             case Some(sub) =>
               if Raises(sub) then
                 result == Some(Raised(InvalidDecimal)) && after == before && countAfter == countBefore
                 && statusAfter == statusBefore
               else
                 var step := Step(kind, before, request, sub, user, now);
                 && result == Some(Done(step.1)) && after == step.0
                 && statusAfter == NextStatus(statusBefore, total, countAfter).status
    ensures var next := Submitted(cur + [slot], cleaned);
            var done := SavedPrefix(next, Raises);
            && after == Applied(kind, results0, request, done, user, now)
            && statusAfter == StatusAfterSaves(status0, total, countAfter, done != [])
            && (done != next <==> result.Some? && result.value.Raised?)
            && (done == next ==>
                  (if result.Some? && result.value.Done? then savedBefore + [result.value.result] else savedBefore)
                  == SavedRows(kind, results0, request, next, user, now))
  {
    var prev := Submitted(cur, cleaned);
    SubmittedAppend(cur, slot, cleaned);
    match SubmissionOf(slot, cleaned)
    case None =>
      assert Submitted(cur + [slot], cleaned) == prev;
    case Some(sub) =>
      assert Submitted(cur + [slot], cleaned) == prev + [sub];
      SavedPrefixSnoc(prev, sub, Raises);
      if !Raises(sub) {
        AppliedAppend(kind, results0, request, prev, sub, user, now);
        StatusAfterOneMore(status0, total, countBefore, countAfter, prev != []);
      }
  }

  /** The entries of a group split at any test: those before it, then the rest. */
  lemma TestSlotsSplit(group: Option<nat>, tests: seq<IndividualTest>, k: nat)
    requires k <= |tests|
    ensures TestSlots(group, tests[..k]) + TestSlots(group, tests[k..]) == TestSlots(group, tests)
  {
    var left, right, all := TestSlots(group, tests[..k]), TestSlots(group, tests[k..]), TestSlots(group, tests);
    forall i | 0 <= i < |all|
      ensures (left + right)[i] == all[i]
    {
      if i < k {
        assert tests[..k][i] == tests[i];
      } else {
        assert tests[k..][i - k] == tests[i];
      }
    }
  }

  /** A save that raised at an individual test stops there: the later tests change nothing. */
  lemma IndividualStopIsFinal(slots: seq<Slot>, i: nat, cleaned: map<FieldKey, string>, raises: Submission -> bool)
    requires i < |slots|
    requires SavedPrefix(Submitted(slots[..i + 1], cleaned), raises) != Submitted(slots[..i + 1], cleaned)
    ensures SavedPrefix(Submitted(slots, cleaned), raises) == SavedPrefix(Submitted(slots[..i + 1], cleaned), raises)
    ensures SavedPrefix(Submitted(slots, cleaned), raises) != Submitted(slots, cleaned)
  {
    var cur, rest := slots[..i + 1], slots[i + 1..];
    SplitAt(slots, i + 1);
    StopIsFinal(cur, rest, cleaned, raises);
  }

  /** A save that raised inside a group stops there: the group's later tests change nothing. */
  lemma GroupStopIsFinal(done: seq<Slot>, group: TestGroup, ti: nat, cleaned: map<FieldKey, string>,
                         raises: Submission -> bool)
    requires ti < |group.tests|
    requires var cur := done + TestSlots(Some(group.id), group.tests[..ti + 1]);
             SavedPrefix(Submitted(cur, cleaned), raises) != Submitted(cur, cleaned)
    ensures var cur := done + TestSlots(Some(group.id), group.tests[..ti + 1]);
            var whole := done + SlotsOf(group);
            && SavedPrefix(Submitted(whole, cleaned), raises) == SavedPrefix(Submitted(cur, cleaned), raises)
            && SavedPrefix(Submitted(whole, cleaned), raises) != Submitted(whole, cleaned)
  {
    var cur := done + TestSlots(Some(group.id), group.tests[..ti + 1]);
    var rest := TestSlots(Some(group.id), group.tests[ti + 1..]);
    TestSlotsSplit(Some(group.id), group.tests, ti + 1);
    assert cur + rest == done + SlotsOf(group);
    StopIsFinal(cur, rest, cleaned, raises);
  }

  lemma {:induction false} GroupSlotsConcat(a: seq<TestGroup>, b: seq<TestGroup>)
    ensures GroupSlots(a + b) == GroupSlots(a) + GroupSlots(b)
  {
    if b == [] {
      assert a + b == a;
    } else {
      var init, last := b[..|b| - 1], b[|b| - 1];
      ConcatDropLast(a, b);
      GroupSlotsConcat(a, init);
      calc {
        GroupSlots(a + b);
        GroupSlots(a + init) + SlotsOf(last);
        (GroupSlots(a) + GroupSlots(init)) + SlotsOf(last);
        { ConcatAssoc(GroupSlots(a), GroupSlots(init), SlotsOf(last)); }
        GroupSlots(a) + (GroupSlots(init) + SlotsOf(last));
        GroupSlots(a) + GroupSlots(b);
      }
    }
  }

  /** A save that raised in a group stops there: later groups change nothing. */
  lemma GroupsStopIsFinal(groups: seq<TestGroup>, gi: nat, cleaned: map<FieldKey, string>, raises: Submission -> bool)
    requires gi < |groups|
    requires var cur := GroupSlots(groups[..gi + 1]);
             SavedPrefix(Submitted(cur, cleaned), raises) != Submitted(cur, cleaned)
    ensures var cur := GroupSlots(groups[..gi + 1]);
            var whole := GroupSlots(groups);
            && SavedPrefix(Submitted(whole, cleaned), raises) == SavedPrefix(Submitted(cur, cleaned), raises)
            && SavedPrefix(Submitted(whole, cleaned), raises) != Submitted(whole, cleaned)
  {
    assert groups[..gi + 1] + groups[gi + 1..] == groups;
    GroupSlotsConcat(groups[..gi + 1], groups[gi + 1..]);
    StopIsFinal(GroupSlots(groups[..gi + 1]), GroupSlots(groups[gi + 1..]), cleaned, raises);
  }

  /** The slots seen after one more test of a group, behind those of the earlier groups. */
  lemma TestSlotsStep(done: seq<Slot>, group: Option<nat>, tests: seq<IndividualTest>, i: nat)
    requires i < |tests|
    ensures done + TestSlots(group, tests[..i + 1]) == (done + TestSlots(group, tests[..i])) + [Slot(group, tests[i])]
  {
    assert tests[..i + 1][..i] == tests[..i];
  }

  /** Status after the saves of a bulk form: rechecked once per save, unchanged when nothing was saved. */
  function StatusAfterSaves(s: RequestStatus, total: nat, entered: nat, anySaved: bool): RequestStatus {
    if anySaved then NextStatus(s, total, entered).status else s
  }

  /** One more save, with at least as many results entered, keeps the status a single recheck would give. */
  lemma StatusAfterOneMore(s: RequestStatus, total: nat, before: nat, after: nat, anySaved: bool)
    requires before <= after
    ensures NextStatus(StatusAfterSaves(s, total, before, anySaved), total, after).status
            == StatusAfterSaves(s, total, after, true)
  {
    if anySaved {
      NextStatusAbsorbs(s, total, before, after);
    }
  }

  /** The individual form constructor's loop: a value and a notes field per test, prefilled from the stored rows. */
  method AddIndividualFields(existing: map<nat, IndividualResult>, tests: seq<IndividualTest>)
    returns (f: map<FieldKey, Option<string>>, inf: map<EntryKey, Option<IndividualResult>>)
    ensures f == Prefill(existing, IndividualSlots(tests), None)
    ensures inf == Infos(existing, IndividualSlots(tests))
  {
    ghost var slots := IndividualSlots(tests);
    f, inf := map[], map[];
    var i := 0;
    while i < |tests|
      invariant 0 <= i <= |tests|
      invariant f == Prefill(existing, slots[..i], None)
      invariant inf == Infos(existing, slots[..i])
    {
      var test := tests[i];
      var existingResult := Lookup(existing, test.id);
      var initialValue := if existingResult.Some? then Some(existingResult.value.value) else None;
      var initialNotes := if existingResult.Some? then Some(existingResult.value.notes) else Some("");
      f := f[FieldKey(None, test.id, ValueField) := initialValue][FieldKey(None, test.id, NotesField) := initialNotes];
      inf := inf[EntryKey(None, test.id) := existingResult];
      assert slots[..i + 1] == slots[..i] + [Slot(None, test)];
      PrefillStep(existing, slots[..i], Slot(None, test), None);
      i := i + 1;
    }
    assert slots[..|tests|] == slots;
  }

  /** `BulkIndividualTestResultForm`: one value and one notes field per individual test of the request. */
  class BulkIndividualResultForm {
    const request: TestRequest
    var fields: map<FieldKey, Option<string>>
    var infos: map<EntryKey, Option<IndividualResult>>

    predicate Valid()
      reads this
    {
      FieldsCover(fields, infos)
    }

    /** Builds the fields from the rows stored for the request when the form is created. */
    constructor (request: TestRequest, lab: Lab)
      ensures this.request == request
      ensures fields == Prefill(ExistingByTest(lab.results, request.id), IndividualSlots(request.individualTests), None)
      ensures infos == Infos(ExistingByTest(lab.results, request.id), IndividualSlots(request.individualTests))
      ensures Valid()
    {
      var existing := ExistingByTest(lab.results, request.id);
      var f, inf := AddIndividualFields(existing, request.individualTests);
      this.request := request;
      fields := f;
      infos := inf;
      new;
      PrefillCovers(existing, IndividualSlots(request.individualTests), None);
    }

    /** `get_test_fields`: the entries in the order of the request's tests. */
    method GetTestFields() returns (entries: seq<TestEntry>)
      requires Valid()
      ensures entries == Entries(IndividualSlots(request.individualTests), fields, infos)
    {
      var tests := request.individualTests;
      ghost var slots := IndividualSlots(tests);
      entries := [];
      var i := 0;
      while i < |tests|
        invariant 0 <= i <= |tests|
        invariant entries == Entries(slots[..i], fields, infos)
      {
        var test := tests[i];
        assert slots[..i + 1][..i] == slots[..i];
        var key := EntryKey(None, test.id);
        if key in infos {
          entries := entries + [TestEntry(test, fields[FieldKey(None, test.id, ValueField)],
                                          fields[FieldKey(None, test.id, NotesField)], infos[key])];
        }
        i := i + 1;
      }
      assert slots[..|tests|] == slots;
    }

    /**
     * One iteration of `save`: skip an empty value, else `get_or_create`,
     * then the field update when the row existed. A value the decimal column
     * rejects raises in whichever of the two saves writes it.
     */
    method SaveEntry(user: nat, cleaned: map<FieldKey, string>, test: IndividualTest, lab: Lab, now: int)
      returns (result: Option<Outcome<IndividualResult>>)
      modifies lab`results, request`status
      ensures match SubmissionOf(Slot(None, test), cleaned)
              case None =>
                && result.None? && lab.results == old(lab.results) && request.status == old(request.status)
              case Some(sub) =>
                if Raises(sub) then
                  result == Some(Raised(InvalidDecimal)) && lab.results == old(lab.results)
                  && request.status == old(request.status)
                else
                  var step := Step(IndividualForm, old(lab.results), request.id, sub, user, now);
                  && result == Some(Done(step.1)) && lab.results == step.0
                  && request.status == NextStatus(old(request.status), request.TotalTests(), lab.EnteredCount(request.id)).status
      ensures old(lab.results).Keys <= lab.results.Keys
    {
      var valueKey := FieldKey(None, test.id, ValueField);
      var notesKey := FieldKey(None, test.id, NotesField);
      if valueKey !in cleaned || cleaned[valueKey] == "" {
        return None;
      }
      var value := cleaned[valueKey];
      var notes := if notesKey in cleaned then cleaned[notesKey] else "";
      var r, created := lab.GetOrCreate(request, test, IndividualResult(value, notes, Unset, now, now, Some(user), None));
      if !created {
        var updated := r.result.(value := value, notes := notes, lastModifiedBy := Some(user), updatedAt := now);
        r := lab.SaveResultFields(request, test, updated);
      }
      result := Some(r);
    }

    /** Saves one test and keeps the save loop's invariant, one slot further on; `raised` when its save raised. */
    method SaveSlot(user: nat, cleaned: map<FieldKey, string>, test: IndividualTest, lab: Lab, now: int,
                    ghost results0: map<ResultKey, IndividualResult>, ghost status0: RequestStatus,
                    ghost cur: seq<Slot>, saved0: seq<IndividualResult>)
      returns (saved: seq<IndividualResult>, raised: bool)
      requires SavedPrefix(Submitted(cur, cleaned), Raises) == Submitted(cur, cleaned)
      requires lab.results == Applied(IndividualForm, results0, request.id, Submitted(cur, cleaned), user, now)
      requires saved0 == SavedRows(IndividualForm, results0, request.id, Submitted(cur, cleaned), user, now)
      requires request.status == StatusAfterSaves(status0, request.TotalTests(), lab.EnteredCount(request.id),
                                                  Submitted(cur, cleaned) != [])
      modifies lab`results, request`status
      ensures var next := Submitted(cur + [Slot(None, test)], cleaned);
              var done := SavedPrefix(next, Raises);
              && lab.results == Applied(IndividualForm, results0, request.id, done, user, now)
              && request.status == StatusAfterSaves(status0, request.TotalTests(), lab.EnteredCount(request.id), done != [])
              && (raised <==> done != next)
              && (!raised ==> saved == SavedRows(IndividualForm, results0, request.id, next, user, now))
    {
      ghost var before := lab.results;
      ghost var countBefore := lab.EnteredCount(request.id);
      ghost var statusBefore := request.status;
      var result := SaveEntry(user, cleaned, test, lab, now);
      raised := result.Some? && result.value.Raised?;
      saved := if result.Some? && result.value.Done? then saved0 + [result.value.result] else saved0;
      KeysOfRequestGrow(before, lab.results, request.id);
      IterationKeepsInvariant(IndividualForm, results0, request.id, cur, Slot(None, test), cleaned, user, now,
                              before, lab.results, saved0, result, status0, request.TotalTests(),
                              countBefore, lab.EnteredCount(request.id), statusBefore, request.status);
    }

    /**
     * One iteration of `save`'s loop: the test at position `i`. Either the
     * loop's invariant holds one test further on, or the save raised and the
     * whole `save` ends with what is stored now.
     */
    method SaveAt(user: nat, cleaned: map<FieldKey, string>, i: nat, lab: Lab, now: int,
                  ghost results0: map<ResultKey, IndividualResult>, ghost status0: RequestStatus,
                  saved0: seq<IndividualResult>)
      returns (saved: seq<IndividualResult>, raised: bool)
      requires i < |request.individualTests|
      requires var cur := Submitted(IndividualSlots(request.individualTests)[..i], cleaned);
               && SavedPrefix(cur, Raises) == cur
               && lab.results == Applied(IndividualForm, results0, request.id, cur, user, now)
               && saved0 == SavedRows(IndividualForm, results0, request.id, cur, user, now)
               && request.status == StatusAfterSaves(status0, request.TotalTests(), lab.EnteredCount(request.id), cur != [])
      modifies lab`results, request`status
      ensures !raised ==>
                var next := Submitted(IndividualSlots(request.individualTests)[..i + 1], cleaned);
                && SavedPrefix(next, Raises) == next
                && lab.results == Applied(IndividualForm, results0, request.id, next, user, now)
                && saved == SavedRows(IndividualForm, results0, request.id, next, user, now)
                && request.status == StatusAfterSaves(status0, request.TotalTests(), lab.EnteredCount(request.id), next != [])
      ensures raised ==>
                var subs := Submitted(IndividualSlots(request.individualTests), cleaned);
                var done := SavedPrefix(subs, Raises);
                && done != subs
                && lab.results == Applied(IndividualForm, results0, request.id, done, user, now)
                && request.status == StatusAfterSaves(status0, request.TotalTests(), lab.EnteredCount(request.id), done != [])
    {
      var tests := request.individualTests;
      ghost var slots := IndividualSlots(tests);
      TakeOneMore(slots, i);
      saved, raised := SaveSlot(user, cleaned, tests[i], lab, now, results0, status0, slots[..i], saved0);
      if raised {
        IndividualStopIsFinal(slots, i, cleaned, Raises);
      }
    }

    /**
     * `save`: for each test with a non-empty value, create the row (first
     * writer recorded, full save) or update value, notes, `last_modified_by`
     * and `updated_at` only; the list holds one result object per saved value.
     * The first entry whose save raises ends the save: the exception
     * propagates, and the rows saved before it stay.
     */
    method Save(user: nat, cleaned: map<FieldKey, string>, lab: Lab, now: int)
      returns (r: Outcome<seq<IndividualResult>>)
      modifies lab`results, request`status
      ensures var subs := Submitted(IndividualSlots(request.individualTests), cleaned);
              var done := SavedPrefix(subs, Raises);
              && lab.results == Applied(IndividualForm, old(lab.results), request.id, done, user, now)
              && request.status == StatusAfterSaves(old(request.status), request.TotalTests(),
                                                    lab.EnteredCount(request.id), done != [])
              && r == if done == subs then Done(SavedRows(IndividualForm, old(lab.results), request.id, subs, user, now))
                      else Raised(InvalidDecimal)
    {
      ghost var results0 := lab.results;
      ghost var status0 := request.status;
      ghost var slots := IndividualSlots(request.individualTests);
      var saved := [];
      var i := 0;
      while i < |request.individualTests|
        invariant 0 <= i <= |request.individualTests|
        invariant var cur := Submitted(slots[..i], cleaned);
                  && SavedPrefix(cur, Raises) == cur
                  && lab.results == Applied(IndividualForm, results0, request.id, cur, user, now)
                  && saved == SavedRows(IndividualForm, results0, request.id, cur, user, now)
                  && request.status == StatusAfterSaves(status0, request.TotalTests(), lab.EnteredCount(request.id), cur != [])
      {
        var raised;
        saved, raised := SaveAt(user, cleaned, i, lab, now, results0, status0, saved);
        if raised {
          return Raised(InvalidDecimal);
        }
        i := i + 1;
      }
      assert slots[..i] == slots;
      r := Done(saved);
    }
  }

  /** The group form constructor's inner loop: one group's value and notes fields, tests in display order. */
  method AddGroupFields(existing: map<nat, IndividualResult>, group: TestGroup,
                        f0: map<FieldKey, Option<string>>, inf0: map<EntryKey, Option<IndividualResult>>,
                        ghost done: seq<Slot>)
    returns (f: map<FieldKey, Option<string>>, inf: map<EntryKey, Option<IndividualResult>>)
    requires f0 == Prefill(existing, done, Some("")) && inf0 == Infos(existing, done)
    ensures f == Prefill(existing, done + SlotsOf(group), Some("")) && inf == Infos(existing, done + SlotsOf(group))
  {
    f, inf := f0, inf0;
    ghost var slots := SlotsOf(group);
    ghost var cur := done;
    var ti := 0;
    while ti < |group.tests|
      invariant 0 <= ti <= |group.tests|
      invariant cur == done + slots[..ti]
      invariant f == Prefill(existing, cur, Some(""))
      invariant inf == Infos(existing, cur)
    {
      var test := group.tests[ti];
      var existingResult := Lookup(existing, test.id);
      var initialValue := if existingResult.Some? then Some(existingResult.value.value) else Some("");
      var initialNotes := if existingResult.Some? then Some(existingResult.value.notes) else Some("");
      f := f[FieldKey(Some(group.id), test.id, ValueField) := initialValue][FieldKey(Some(group.id), test.id, NotesField) := initialNotes];
      inf := inf[EntryKey(Some(group.id), test.id) := existingResult];
      PrefillStep(existing, cur, Slot(Some(group.id), test), Some(""));
      cur := cur + [Slot(Some(group.id), test)];
      SlotsPrefixStep(done, slots, ti);
      ti := ti + 1;
    }
    assert slots[..|group.tests|] == slots;
  }

  /** The inner loop of `get_group_fields`: one group's tests that have an `_info` attribute, in order. */
  method GroupTestEntries(group: TestGroup, fields: map<FieldKey, Option<string>>,
                          infos: map<EntryKey, Option<IndividualResult>>)
    returns (tests: seq<TestEntry>)
    requires FieldsCover(fields, infos)
    ensures tests == Entries(SlotsOf(group), fields, infos)
  {
    ghost var slots := SlotsOf(group);
    tests := [];
    var ti := 0;
    while ti < |group.tests|
      invariant 0 <= ti <= |group.tests|
      invariant tests == Entries(slots[..ti], fields, infos)
    {
      var test := group.tests[ti];
      assert slots[..ti + 1][..ti] == slots[..ti];
      var key := EntryKey(Some(group.id), test.id);
      if key in infos {
        tests := tests + [TestEntry(test, fields[FieldKey(Some(group.id), test.id, ValueField)],
                                    fields[FieldKey(Some(group.id), test.id, NotesField)], infos[key])];
      }
      ti := ti + 1;
    }
    assert slots[..|group.tests|] == slots;
  }

  /** Storing a key twice keeps only the second value. */
  lemma Overwrite(m: map<ResultKey, IndividualResult>, k: ResultKey, v: IndividualResult, w: IndividualResult)
    ensures m[k := v][k := w] == m[k := w]
  {
  }

  /** The group form's upsert of a test with no row yet: a new row, with the status the form and then the hook decide. */
  lemma GroupStepOnNewRow(gender: string, results: map<ResultKey, IndividualResult>, request: nat,
                          sub: Submission, user: nat, now: int)
    requires ResultKey(request, sub.test.id) !in results
    ensures var row := NewRow(sub, user, now).(status := GroupFormStoredStatus(sub.test, gender, sub.value), updatedAt := now);
            Step(GroupForm(gender), results, request, sub, user, now) == (results[ResultKey(request, sub.test.id) := row], row)
  {
  }

  /**
   * A row `get_or_create` has just created, given the form's status and saved
   * again with the hook, is the group form's upsert step on that test.
   */
  lemma NewRowResaved(gender: string, results: map<ResultKey, IndividualResult>, request: nat,
                      sub: Submission, user: nat, now: int)
    requires ResultKey(request, sub.test.id) !in results
    ensures var k := ResultKey(request, sub.test.id);
            var row := NewRow(sub, user, now);
            var first := row.(status := FormStatus(sub.test, gender, sub.value), updatedAt := now);
            var hooked := first.(status := HookStatus(sub.test, first.value, first.status));
            var step := Step(GroupForm(gender), results, request, sub, user, now);
            hooked == step.1 && results[k := row][k := hooked] == step.0
  {
    var k := ResultKey(request, sub.test.id);
    var row := NewRow(sub, user, now);
    var stored := row.(status := GroupFormStoredStatus(sub.test, gender, sub.value), updatedAt := now);
    GroupStepOnNewRow(gender, results, request, sub, user, now);
    Overwrite(results, k, row, stored);
  }

  /** The slots of the first `i + 1` groups: those of the first `i`, then the next group's. */
  lemma GroupSlotsStep(groups: seq<TestGroup>, i: nat)
    requires i < |groups|
    ensures GroupSlots(groups[..i + 1]) == GroupSlots(groups[..i]) + SlotsOf(groups[i])
  {
    assert groups[..i + 1][..i] == groups[..i];
  }

  /** `BulkTestGroupResultForm`: one value and one notes field per test of each group of the request. */
  class BulkGroupResultForm {
    const request: TestRequest
    var fields: map<FieldKey, Option<string>>
    var infos: map<EntryKey, Option<IndividualResult>>

    predicate Valid()
      reads this
    {
      FieldsCover(fields, infos)
    }

    /** Builds the fields group by group, each group's tests in display order. */
    constructor (request: TestRequest, lab: Lab)
      ensures this.request == request
      ensures fields == Prefill(ExistingByTest(lab.results, request.id), GroupSlots(request.testGroups), Some(""))
      ensures infos == Infos(ExistingByTest(lab.results, request.id), GroupSlots(request.testGroups))
      ensures Valid()
    {
      var existing := ExistingByTest(lab.results, request.id);
      var groups := request.testGroups;
      var f: map<FieldKey, Option<string>> := map[];
      var inf: map<EntryKey, Option<IndividualResult>> := map[];
      var gi := 0;
      while gi < |groups|
        invariant 0 <= gi <= |groups|
        invariant f == Prefill(existing, GroupSlots(groups[..gi]), Some(""))
        invariant inf == Infos(existing, GroupSlots(groups[..gi]))
      {
        var group := groups[gi];
        f, inf := AddGroupFields(existing, group, f, inf, GroupSlots(groups[..gi]));
        GroupSlotsStep(groups, gi);
        gi := gi + 1;
      }
      assert groups[..|groups|] == groups;
      this.request := request;
      fields := f;
      infos := inf;
      new;
      PrefillCovers(existing, GroupSlots(groups), Some(""));
    }

    /** `get_group_fields`: each group with its entries, groups without entries omitted. */
    method GetGroupFields() returns (entries: seq<GroupEntry>)
      requires Valid()
      ensures entries == GroupEntries(request.testGroups, fields, infos)
    {
      var groups := request.testGroups;
      entries := [];
      var gi := 0;
      while gi < |groups|
        invariant 0 <= gi <= |groups|
        invariant entries == GroupEntries(groups[..gi], fields, infos)
      {
        var group := groups[gi];
        var tests := GroupTestEntries(group, fields, infos);
        assert groups[..gi + 1][..gi] == groups[..gi];
        if tests != [] {
          entries := entries + [GroupEntry(group, tests)];
        }
        gi := gi + 1;
      }
      assert groups[..|groups|] == groups;
    }

    /**
     * One iteration of `save` for a non-empty value: `get_or_create` (a full
     * save when the row is new), the sex-specific status, then a second full
     * save. A value the decimal column rejects raises in the first save that
     * writes it, before anything is stored.
     */
    method Upsert(user: nat, gender: string, sub: Submission, lab: Lab, now: int)
      returns (r: Outcome<IndividualResult>)
      modifies lab`results, request`status
      ensures Raises(sub) ==>
                r == Raised(InvalidDecimal) && lab.results == old(lab.results) && request.status == old(request.status)
      ensures !Raises(sub) ==>
                var step := Step(GroupForm(gender), old(lab.results), request.id, sub, user, now);
                && r == Done(step.1) && lab.results == step.0
                && request.status == NextStatus(old(request.status), request.TotalTests(), lab.EnteredCount(request.id)).status
    {
      ghost var results0 := lab.results;
      ghost var status0 := request.status;
      var got, created := lab.GetOrCreate(request, sub.test,
                                          IndividualResult(sub.value, sub.notes, Unset, now, now, Some(user), None));
      if got.Raised? {
        return got;
      }
      if created {
        var saved := FinishCreated(user, gender, sub, lab, now, got.result, results0, status0);
        r := Done(saved);
      } else {
        var row := got.result.(value := sub.value, notes := sub.notes, lastModifiedBy := Some(user));
        row := row.(status := FormStatus(sub.test, gender, sub.value), updatedAt := now);
        r := lab.SaveResult(request, sub.test, row);
      }
    }

    /** The rest of `Upsert` once `get_or_create` has created and saved the row. */
    method FinishCreated(user: nat, gender: string, sub: Submission, lab: Lab, now: int, row: IndividualResult,
                         ghost results0: map<ResultKey, IndividualResult>, ghost status0: RequestStatus)
      returns (saved: IndividualResult)
      requires !ValueRejected(row.value)
      requires ResultKey(request.id, sub.test.id) !in results0
      requires row == NewRow(sub, user, now)
      requires lab.results == results0[ResultKey(request.id, sub.test.id) := row]
      requires request.status == NextStatus(status0, request.TotalTests(), lab.EnteredCount(request.id)).status
      modifies lab`results, request`status
      ensures var step := Step(GroupForm(gender), results0, request.id, sub, user, now);
              && saved == step.1 && lab.results == step.0
              && request.status == NextStatus(status0, request.TotalTests(), lab.EnteredCount(request.id)).status
    {
      ghost var middle := lab.results;
      ghost var count := lab.EnteredCount(request.id);
      var first := row.(status := FormStatus(sub.test, gender, sub.value), updatedAt := now);
      var o := lab.SaveResult(request, sub.test, first);
      saved := o.result;
      assert lab.EnteredCount(request.id) == count by {
        UpdateKeepsKeys(middle, ResultKey(request.id, sub.test.id), saved);
        KeysOfRequestSame(middle, lab.results, request.id);
      }
      NextStatusAbsorbs(status0, request.TotalTests(), count, count);
      NewRowResaved(gender, results0, request.id, sub, user, now);
    }

    /** One iteration of `save`: an empty value is skipped, any other is upserted. */
    method SaveEntry(user: nat, gender: string, cleaned: map<FieldKey, string>, group: TestGroup, test: IndividualTest,
                     lab: Lab, now: int)
      returns (result: Option<Outcome<IndividualResult>>)
      modifies lab`results, request`status
      ensures match SubmissionOf(Slot(Some(group.id), test), cleaned)
              case None =>
                && result.None? && lab.results == old(lab.results) && request.status == old(request.status)
              case Some(sub) =>
                if Raises(sub) then
                  result == Some(Raised(InvalidDecimal)) && lab.results == old(lab.results)
                  && request.status == old(request.status)
                else
                  var step := Step(GroupForm(gender), old(lab.results), request.id, sub, user, now);
                  && result == Some(Done(step.1)) && lab.results == step.0
                  && request.status == NextStatus(old(request.status), request.TotalTests(), lab.EnteredCount(request.id)).status
      ensures old(lab.results).Keys <= lab.results.Keys
    {
      var valueKey := FieldKey(Some(group.id), test.id, ValueField);
      var notesKey := FieldKey(Some(group.id), test.id, NotesField);
      if valueKey !in cleaned || cleaned[valueKey] == "" {
        return None;
      }
      var value := cleaned[valueKey];
      var notes := if notesKey in cleaned then cleaned[notesKey] else "";
      var r := Upsert(user, gender, Submission(test, value, notes), lab, now);
      result := Some(r);
    }

    /** Saves one test of a group and keeps the save loop's invariant, one slot further on; `raised` when its save raised. */
    method SaveSlot(user: nat, gender: string, cleaned: map<FieldKey, string>, group: TestGroup, test: IndividualTest,
                    lab: Lab, now: int, ghost results0: map<ResultKey, IndividualResult>, ghost status0: RequestStatus,
                    ghost cur: seq<Slot>, saved0: seq<IndividualResult>)
      returns (saved: seq<IndividualResult>, raised: bool)
      requires SavedPrefix(Submitted(cur, cleaned), Raises) == Submitted(cur, cleaned)
      requires lab.results == Applied(GroupForm(gender), results0, request.id, Submitted(cur, cleaned), user, now)
      requires saved0 == SavedRows(GroupForm(gender), results0, request.id, Submitted(cur, cleaned), user, now)
      requires request.status == StatusAfterSaves(status0, request.TotalTests(), lab.EnteredCount(request.id),
                                                  Submitted(cur, cleaned) != [])
      modifies lab`results, request`status
      ensures var next := Submitted(cur + [Slot(Some(group.id), test)], cleaned);
              var done := SavedPrefix(next, Raises);
              && lab.results == Applied(GroupForm(gender), results0, request.id, done, user, now)
              && request.status == StatusAfterSaves(status0, request.TotalTests(), lab.EnteredCount(request.id), done != [])
              && (raised <==> done != next)
              && (!raised ==> saved == SavedRows(GroupForm(gender), results0, request.id, next, user, now))
    {
      ghost var before := lab.results;
      ghost var countBefore := lab.EnteredCount(request.id);
      ghost var statusBefore := request.status;
      var result := SaveEntry(user, gender, cleaned, group, test, lab, now);
      raised := result.Some? && result.value.Raised?;
      saved := if result.Some? && result.value.Done? then saved0 + [result.value.result] else saved0;
      KeysOfRequestGrow(before, lab.results, request.id);
      IterationKeepsInvariant(GroupForm(gender), results0, request.id, cur, Slot(Some(group.id), test), cleaned, user, now,
                              before, lab.results, saved0, result, status0, request.TotalTests(),
                              countBefore, lab.EnteredCount(request.id), statusBefore, request.status);
    }

    /** One iteration of the inner loop of `save`: the test at position `ti` of the group, one test further on. */
    method SaveTestAt(user: nat, gender: string, cleaned: map<FieldKey, string>, group: TestGroup, ti: nat,
                      lab: Lab, now: int, ghost results0: map<ResultKey, IndividualResult>, ghost status0: RequestStatus,
                      ghost done: seq<Slot>, saved0: seq<IndividualResult>)
      returns (saved: seq<IndividualResult>, raised: bool)
      requires ti < |group.tests|
      requires var cur := done + TestSlots(Some(group.id), group.tests[..ti]);
               && SavedPrefix(Submitted(cur, cleaned), Raises) == Submitted(cur, cleaned)
               && lab.results == Applied(GroupForm(gender), results0, request.id, Submitted(cur, cleaned), user, now)
               && saved0 == SavedRows(GroupForm(gender), results0, request.id, Submitted(cur, cleaned), user, now)
               && request.status == StatusAfterSaves(status0, request.TotalTests(), lab.EnteredCount(request.id),
                                                     Submitted(cur, cleaned) != [])
      modifies lab`results, request`status
      ensures var next := Submitted(done + TestSlots(Some(group.id), group.tests[..ti + 1]), cleaned);
              var d := SavedPrefix(next, Raises);
              && lab.results == Applied(GroupForm(gender), results0, request.id, d, user, now)
              && request.status == StatusAfterSaves(status0, request.TotalTests(), lab.EnteredCount(request.id), d != [])
              && (raised <==> d != next)
              && (!raised ==> saved == SavedRows(GroupForm(gender), results0, request.id, next, user, now))
    {
      ghost var cur := done + TestSlots(Some(group.id), group.tests[..ti]);
      saved, raised := SaveSlot(user, gender, cleaned, group, group.tests[ti], lab, now, results0, status0, cur, saved0);
      TestSlotsStep(done, Some(group.id), group.tests, ti);
    }

    /** The inner loop of `save`: one group's tests in display order, appending to the saved list; `raised` when a save raised. */
    method SaveGroup(user: nat, gender: string, cleaned: map<FieldKey, string>, group: TestGroup, lab: Lab, now: int,
                     ghost results0: map<ResultKey, IndividualResult>, ghost status0: RequestStatus,
                     ghost done: seq<Slot>, saved0: seq<IndividualResult>)
      returns (saved: seq<IndividualResult>, raised: bool)
      requires SavedPrefix(Submitted(done, cleaned), Raises) == Submitted(done, cleaned)
      requires lab.results == Applied(GroupForm(gender), results0, request.id, Submitted(done, cleaned), user, now)
      requires saved0 == SavedRows(GroupForm(gender), results0, request.id, Submitted(done, cleaned), user, now)
      requires request.status == StatusAfterSaves(status0, request.TotalTests(), lab.EnteredCount(request.id),
                                                  Submitted(done, cleaned) != [])
      modifies lab`results, request`status
      ensures var next := Submitted(done + SlotsOf(group), cleaned);
              var d := SavedPrefix(next, Raises);
              && lab.results == Applied(GroupForm(gender), results0, request.id, d, user, now)
              && request.status == StatusAfterSaves(status0, request.TotalTests(), lab.EnteredCount(request.id), d != [])
              && (raised <==> d != next)
              && (!raised ==> saved == SavedRows(GroupForm(gender), results0, request.id, next, user, now))
    {
      ghost var kind := GroupForm(gender);
      saved := saved0;
      raised := false;
      var ti := 0;
      ghost var cur := done;
      assert done + TestSlots(Some(group.id), group.tests[..0]) == done;
      while ti < |group.tests|
        invariant 0 <= ti <= |group.tests|
        invariant cur == done + TestSlots(Some(group.id), group.tests[..ti])
        invariant SavedPrefix(Submitted(cur, cleaned), Raises) == Submitted(cur, cleaned)
        invariant lab.results == Applied(kind, results0, request.id, Submitted(cur, cleaned), user, now)
        invariant saved == SavedRows(kind, results0, request.id, Submitted(cur, cleaned), user, now)
        invariant request.status == StatusAfterSaves(status0, request.TotalTests(), lab.EnteredCount(request.id),
                                                     Submitted(cur, cleaned) != [])
      {
        saved, raised := SaveTestAt(user, gender, cleaned, group, ti, lab, now, results0, status0, done, saved);
        if raised {
          GroupStopIsFinal(done, group, ti, cleaned, Raises);
          return;
        }
        cur := done + TestSlots(Some(group.id), group.tests[..ti + 1]);
        ti := ti + 1;
      }
      assert group.tests[..|group.tests|] == group.tests;
    }

    /**
     * One iteration of the outer loop of `save`: the group at position `gi`.
     * Either the loop's invariant holds one group further on, or a save
     * raised and the whole `save` ends with what is stored now.
     */
    method SaveGroupAt(user: nat, gender: string, cleaned: map<FieldKey, string>, groups: seq<TestGroup>, gi: nat,
                       lab: Lab, now: int, ghost results0: map<ResultKey, IndividualResult>, ghost status0: RequestStatus,
                       saved0: seq<IndividualResult>)
      returns (saved: seq<IndividualResult>, raised: bool)
      requires gi < |groups|
      requires var cur := Submitted(GroupSlots(groups[..gi]), cleaned);
               && SavedPrefix(cur, Raises) == cur
               && lab.results == Applied(GroupForm(gender), results0, request.id, cur, user, now)
               && saved0 == SavedRows(GroupForm(gender), results0, request.id, cur, user, now)
               && request.status == StatusAfterSaves(status0, request.TotalTests(), lab.EnteredCount(request.id), cur != [])
      modifies lab`results, request`status
      ensures !raised ==>
                var next := Submitted(GroupSlots(groups[..gi + 1]), cleaned);
                && SavedPrefix(next, Raises) == next
                && lab.results == Applied(GroupForm(gender), results0, request.id, next, user, now)
                && saved == SavedRows(GroupForm(gender), results0, request.id, next, user, now)
                && request.status == StatusAfterSaves(status0, request.TotalTests(), lab.EnteredCount(request.id), next != [])
      ensures raised ==>
                var subs := Submitted(GroupSlots(groups), cleaned);
                var done := SavedPrefix(subs, Raises);
                && done != subs
                && lab.results == Applied(GroupForm(gender), results0, request.id, done, user, now)
                && request.status == StatusAfterSaves(status0, request.TotalTests(), lab.EnteredCount(request.id), done != [])
    {
      saved, raised := SaveGroup(user, gender, cleaned, groups[gi], lab, now, results0, status0, GroupSlots(groups[..gi]), saved0);
      GroupSlotsStep(groups, gi);
      if raised {
        GroupsStopIsFinal(groups, gi, cleaned, Raises);
      }
    }

    /**
     * `save`: for each group test with a non-empty value, create or update
     * the row, set the status from the patient's sex-specific bounds, then
     * save every field (the hook may override that status). The first entry
     * whose save raises ends the save, keeping the rows saved before it.
     */
    method Save(user: nat, cleaned: map<FieldKey, string>, lab: Lab, now: int)
      returns (r: Outcome<seq<IndividualResult>>)
      modifies lab`results, request`status
      ensures var subs := Submitted(GroupSlots(request.testGroups), cleaned);
              var done := SavedPrefix(subs, Raises);
              var kind := GroupForm(request.patient.gender);
              && lab.results == Applied(kind, old(lab.results), request.id, done, user, now)
              && request.status == StatusAfterSaves(old(request.status), request.TotalTests(),
                                                    lab.EnteredCount(request.id), done != [])
              && r == if done == subs then Done(SavedRows(kind, old(lab.results), request.id, subs, user, now))
                      else Raised(InvalidDecimal)
    {
      ghost var results0 := lab.results;
      ghost var status0 := request.status;
      var gender := request.patient.gender;
      ghost var kind := GroupForm(gender);
      var groups := request.testGroups;
      var saved := [];
      var gi := 0;
      while gi < |groups|
        invariant 0 <= gi <= |groups|
        invariant request.patient.gender == gender
        invariant var cur := Submitted(GroupSlots(groups[..gi]), cleaned);
                  && SavedPrefix(cur, Raises) == cur
                  && lab.results == Applied(kind, results0, request.id, cur, user, now)
                  && saved == SavedRows(kind, results0, request.id, cur, user, now)
                  && request.status == StatusAfterSaves(status0, request.TotalTests(), lab.EnteredCount(request.id), cur != [])
      {
        var raised;
        saved, raised := SaveGroupAt(user, gender, cleaned, groups, gi, lab, now, results0, status0, saved);
        if raised {
          return Raised(InvalidDecimal);
        }
        gi := gi + 1;
      }
      assert groups[..gi] == groups;
      r := Done(saved);
    }
  }
}
