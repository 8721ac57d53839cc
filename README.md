# Lab results: a verified model

This project models the result-keeping core of the `lab` application of a
clinic's laboratory website (a Django app). It covers:

- **Patients.** Validation, the reconciliation of age and birth date, and
  the one-time accession barcode assigned when a patient is first saved.
- **Catalogue and requests.** Individual tests and test groups with their
  prices. A test request has a status, which the completion state machine
  moves after every result save.
- **Classification.** Two classifiers exist. The model-level hook of
  `IndividualTestResult.save` uses the generic bounds and Python
  truthiness. The group bulk form uses the patient's sex-specific bounds,
  with `abnormal` as its fallback. In the group form the hook runs after
  the form has set the status.
- **Bulk result entry.** The individual-test form and the test-group form
  prefill their fields from the results already stored. They list their
  entries for the template. Their saves upsert one row per
  `(request, test)`: the first writer is kept in `entered_by` and later
  writers go in `last_modified_by`.
- **Single-result view.** `add_test_result` edits the row stored for
  `(request, test)` and gives `entered_by` to whoever saved last.
- **Reports.** `patient_report` and `patient_report_print` build a
  dictionary of result lists keyed by category. The WhatsApp utility builds
  the same dictionary with sex-specific reference ranges. The
  reference-range strings are `"{lo} - {hi}"` stripped of spaces and
  dashes.

The database is modelled as the class `Requests.Lab`, which holds three
collections:

- the individual-result table, a map keyed by `(request, test)`;
- the group-result table, a map keyed by `(request, group)`;
- the print log, a sequence of `PrintedReport` rows.

A test request is the class `Requests.TestRequest`; its `status` field is
updated in place. The two bulk forms are classes whose constructors fill
`fields` and `infos` (the `_info` attributes) in loops.

Each save method is proved against pure functions in module `Upsert`:

- `Step` performs one upsert;
- `Applied` folds `Step` over the submissions;
- `SavedRows` gives the returned list.

The lemmas about these functions state what the saves promise. The report
loops are proved equal to `Grouping.GroupAll`, a fold of dictionary
insertions. Lemmas characterise `GroupAll` by an independent filter of the
input.

Modelling choices:

- **Decimals.** Stored two-place decimals (the bounds) are whole numbers of
  hundredths, with `None` standing for SQL NULL. A result value is text,
  because the bulk forms submit `CharField` text (`website/lab/forms.py:173`
  and `:535`), although `website/lab/models.py:239` declares a decimal
  column. The group form reads the text with `Decimal` before comparing.
  The hook compares the text itself with the decimal bounds, which Python
  refuses. The model's hook reads the value as a decimal first; the hook as
  written is `Classify.HookAsWritten` (see Findings).
- **Saves that raise.** A save raises when the decimal column rejects the
  text. Nothing is written and the completion check does not run. In a bulk
  form the exception ends the loop. The rows saved before it stay, since no
  transaction wraps the loop. The saves return `Outcome` values (`Done` or
  `Raised`), and `Upsert.SavedPrefix` gives the submissions a bulk save gets
  through.
- **Missing fields.** The forms and the utility read fields that
  `website/lab/models.py` does not declare:
  - the sex-specific bounds `normal_value_min_m`, `normal_value_max_m`,
    `normal_value_min_f` and `normal_value_max_f`;
  - the free-text `normal_value_m` and `normal_value_f`;
  - `display_order`;
  - the result row's `last_modified_by` and `updated_at`.

  The test record and the result row carry all of them, since the code that
  uses them is what is modelled.
- **Parameters.** The clock (`now`, `today`), the random barcode suffix,
  the barcodes other patients already hold, the current user and the
  patient's gender are parameters.
- **Query results as input.** The rows returned by the report queries
  (already joined and ordered by the database) are input sequences.

## Model

| member | source | states |
|---|---|---|
| Catalog.SumPricesAppend | website/lab/models.py:169-173 | the price sum of two lists of tests is the sum of their sums |
| Catalog.SumGroupPricesAppend | website/lab/models.py:172 | the sum of group `total_price`s over two lists of groups adds up |
| Catalog.SumPricesBoundsEach | website/lab/models.py:137-139 | with the validator's non-negative prices, every test's price lies between 0 and the group's individual price sum |
| Catalog.SumPricesNonNegative | website/lab/models.py:137-139 | with non-negative prices, `get_individual_price_sum` is non-negative |
| Catalog.GroupTestsCountAppend | website/lab/models.py:182-184 | the number of tests over a list of groups adds up over concatenation |
| Catalog.IndividualPriceSum | website/lab/models.py:137-139 | with non-negative prices the sum is non-negative and at least each test's price |
| Catalog.SumGroupPricesNonNegative | website/lab/models.py:172 | with non-negative group prices their sum is non-negative |
| Requests.TestRequest.GetTotalPrice | website/lab/models.py:169-173 | with non-negative prices the total is non-negative and at least each individual test's price |
| Requests.TotalPriceAddsTest | website/lab/models.py:169-173 | adding a test to a request raises `get_total_price` by exactly that test's price |
| Requests.TotalPriceAddsGroup | website/lab/models.py:169-173 | adding a group to a request raises `get_total_price` by exactly that group's `total_price` |
| Dates.CalculateAge | website/lab/models.py:35-42 | an age exists exactly when a birth date does |
| Dates.AgeIsBirthdaysReached | website/lab/models.py:37-41 | the computed age is the largest `n` whose `n`-th birthday (year plus `n`, same month and day) is not after today |
| Dates.AgeMonotoneInToday | website/lab/models.py:35-42 | the age never decreases as today moves forward |
| Dates.EstimateBirthdate | website/lab/models.py:44-50 | no estimate for a missing or zero age; otherwise 1 July of `today.year - age`, or the `date()` error when that year is outside 1..9999 |
| Dates.EstimateThenCalculate | website/lab/models.py:44-50 | the age computed back from an estimated birth date is the given age from 1 July on and one less before |
| Patients.BarcodeFor | website/lab/models.py:58-61 | the barcode has 10 characters, all digits |
| Patients.BarcodeDecodes | website/lab/models.py:59-61 | the barcode reads back as two-digit year, month, day and the 1000..9999 suffix |
| Patients.DeriveFields | website/lab/models.py:52-69 | validation fails iff there is neither a birth date nor a non-zero age; a birth date forces `age = calculate_age`; an age alone gives 1 July of `today.year - age`; the out-of-range year error happens exactly then |
| Patients.DerivedFieldsAgree | website/lab/models.py:63-69 | a stored patient has both birth date and age, and they agree (exactly, or within the July-1 estimate) |
| Patients.Patient.Save | website/lab/models.py:57-70 | a barcode is assigned only when empty, an existing one never changes, and it is never empty afterwards; the new birth date and age are those of `DeriveFields`; the row is stored unless validation or the date fails, the derived age is negative (the age column takes only non-negative integers, line 20), or another patient already holds the barcode (the column is unique, line 17); nothing else changes on rejection |
| Patients.RowOutcome | website/lab/models.py:17-20 | the database stores the row iff the age is NULL or not negative and no other patient holds the barcode; a negative age is refused first, a duplicate barcode otherwise |
| Patients.AgeRefusedIffBornAfterToday | website/lab/models.py:20 | with a birth date on file, the recomputed age is refused by the age column exactly when the birth date lies after today |
| Classify.Compare | website/lab/models.py:257-262 | low iff below the minimum, high iff not low and above the maximum, normal iff within the bounds |
| Classify.CompareMonotone | website/lab/forms.py:634-639 | for fixed bounds the status never moves backwards as the value grows |
| Classify.HookStatus | website/lab/models.py:256-262 | the hook as evidently intended (see Findings): it classifies only when both generic bounds are truthy (zero counts as absent) and the value reads as a decimal; otherwise the status is left as it was |
| Classify.HookAsWritten | website/lab/models.py:256-257 | the hook as written, given the submitted text: it raises exactly when both generic bounds are truthy, and otherwise leaves the status as the intended hook does |
| Classify.HookAsWrittenRaisesOnText | website/lab/models.py:256-257 | with bounds 3.50 and 5.00 the value "4" makes the hook as written raise, where the intended hook gives normal |
| Classify.SexBounds | website/lab/forms.py:623-628 | gender `M` selects the `_m` bounds, every other gender the `_f` bounds |
| Classify.FormStatus | website/lab/forms.py:631-644 | `abnormal` iff the value is not a decimal or a sex-specific bound is missing (zero counts as present); otherwise low/high/normal against those bounds |
| Classify.BoundsAreNormal | website/lab/forms.py:634-639 | the minimum and the maximum themselves classify as normal |
| Classify.FormStatusMonotone | website/lab/forms.py:631-644 | with both bounds present, the form's status never moves backwards as the value grows |
| Classify.GroupFormStoredStatus | website/lab/forms.py:622-646 | the stored status is the hook's when both generic bounds are truthy and the value is a decimal, otherwise the form's; it is never unset. A value that is not a decimal never reaches the table, because its save raises |
| Classify.ZeroBoundTreatedDifferently | website/lab/models.py:256 | with bounds 0.00 and 10.00 the form classifies "-1" as low while the hook leaves the status unchanged |
| Decimals.FormatCents | website/lab/views.py:377 | `str()` of a stored bound is the unsigned form, preceded by a minus sign exactly when negative |
| Decimals.FormatParseRoundTrip | website/lab/forms.py:632-634 | printing a stored bound and reading it back as a decimal gives the same number |
| Decimals.ParseWholeNumber | website/lab/forms.py:632 | a run of digits reads as the whole number it spells |
| Decimals.ParseNeedsDigit | website/lab/forms.py:632 | text that reads as a decimal holds a digit, so text such as `pos` is rejected |
| Requests.NextStatus | website/lab/models.py:193-204 | reports a change iff the status changes; completed iff all results are entered (T > 0 and R >= T) or it already was; otherwise pending with some result becomes in progress, and every other status stays, returning False |
| Requests.CompletedIsFinal | website/lab/models.py:193-197 | a completed request stays completed and no change is reported |
| Requests.InProgressOnlyFromPending | website/lab/models.py:198-202 | `in_progress` is entered only from `pending`, with some but not all results entered |
| Requests.CancelledOnlyCompletes | website/lab/models.py:193-202 | a cancelled request becomes completed once every result is in, and otherwise stays cancelled |
| Requests.NextStatusAbsorbs | website/lab/models.py:175-204 | checking at a smaller count and then at a larger one ends where a single check at the larger count would |
| Requests.NextStatusIdempotent | website/lab/models.py:175-204 | a second check with no new results changes nothing and returns False |
| Requests.CompletionPercentage | website/lab/models.py:220-223 | 0 when no test is required; otherwise `p * total == 100 * entered`; never negative |
| Requests.PercentageBounds | website/lab/models.py:217-223 | at most 100 while results do not exceed tests, exactly 100 when they match |
| Requests.KeysOfRequest | website/lab/models.py:179 | a request's result rows are exactly the stored rows whose key names that request |
| Requests.KeysOfRequestGrow | website/lab/models.py:178-190 | adding rows never lowers a request's count of entered results |
| Requests.Lab.SaveResult | website/lab/models.py:254-268 | a value the decimal column rejects raises and changes nothing; otherwise the hook sets the status, the row is stored under `(request, test)`, and the request's status becomes the completion check's |
| Requests.Lab.GetOrCreate | website/lab/forms.py:234-242 | returns the stored row unchanged; or creates the defaults with a full save (hook, store, completion check), which raises and stores nothing when the column rejects the value; reports which |
| Requests.Lab.SaveResultFields | website/lab/forms.py:253 | a rejected value raises and changes nothing; otherwise only value, notes, `last_modified_by` and `updated_at` reach the stored row, the hook's status stays in memory, and the completion check runs |
| Requests.Lab.SaveGroupResult | website/lab/models.py:297-303 | the group result is stored under `(request, group)`, then the completion check runs |
| Requests.TestRequest.CountGroupTests | website/lab/models.py:182-184 | the loop's total is the number of tests over the request's groups |
| Requests.TestRequest.CheckCompletionStatus | website/lab/models.py:175-204 | the new status and the return value are those of `NextStatus` for T = individual tests + group tests and R = individual + group results |
| Requests.TestRequest.GetCompletionPercentage | website/lab/models.py:206-223 | the percentage of the same T and R |
| Upsert.IndividualSlots | website/lab/forms.py:224 | the individual form visits the request's tests in order |
| Upsert.SlotsOf | website/lab/forms.py:596 | a group's entries are its tests in display order |
| Upsert.GroupSlots | website/lab/forms.py:595-596 | the group form visits one entry per test over all its groups |
| Upsert.SubmissionOf | website/lab/forms.py:228-232 | an entry is acted on iff its cleaned value is present and non-empty; notes default to empty |
| Upsert.Submitted | website/lab/forms.py:600-604 | no submission has an empty value, and there are at most as many submissions as entries |
| Upsert.SubmittedFromNonEmpty | website/lab/forms.py:603-604 | every submission comes from an entry with a non-empty value |
| Upsert.SubmittedHasEveryFilledEntry | website/lab/forms.py:224-232 | every entry with a non-empty value yields its submission, placed after the submissions of the entries before it |
| Upsert.SubmittedKeepsOrder | website/lab/forms.py:224-232 | of two filled entries, the earlier one's submission comes first |
| Upsert.Step | website/lab/forms.py:234-253 | one upsert adds at most its own key to the table |
| Upsert.Applied | website/lab/forms.py:224-257 | a save never removes a row |
| Upsert.SavedRows | website/lab/forms.py:255 | the list holds one object per submission |
| Upsert.SavedPrefix | website/lab/forms.py:224-257 | the submissions a save gets through: a prefix of them, none of which raises, ending just before the first that does |
| Upsert.SavedPrefixStops | website/lab/forms.py:595-649 | once a save has raised, later submissions change nothing |
| Upsert.SavedPrefixSnoc | website/lab/forms.py:595-649 | while nothing has raised, one more submission is saved unless it raises |
| Upsert.SavedPrefixEndsBefore | website/lab/forms.py:224-257 | a save never gets past a submission that raises |
| Upsert.AsWrittenSavesNoMore | website/lab/models.py:256-257 | with the hook as written a bulk save gets through a prefix of what the intended hook lets through |
| Upsert.AsWrittenStopsAtBoundedTest | website/lab/models.py:256-257 | with the hook as written, a bulk save stops at or before the first entry for a test with both generic bounds truthy |
| Upsert.StepWrites | website/lab/forms.py:606-646 | what one upsert that does not raise writes: only its own key. Value, notes and `updated_at` are written. An existing row keeps `entered_by` and `result_date` and gets `last_modified_by`; a new row is attributed to the user. The individual form keeps an existing row's stored status; the group form stores the form-then-hook status |
| Upsert.AppliedKeys | website/lab/forms.py:234-236 | after a save the table's keys are the old keys plus exactly the submitted tests' keys: one row per `(request, test)` |
| Upsert.AppliedLeavesOthers | website/lab/forms.py:224-257 | a row no submission names is left exactly as it was |
| Upsert.AppliedKeepsFirstWriter | website/lab/forms.py:234-253 | an existing row keeps its `entered_by` and `result_date`; a created row has `entered_by` = the saving user |
| Upsert.IndividualFormKeepsStatus | website/lab/forms.py:253 | the individual bulk update never changes an existing row's stored status |
| Upsert.LastSubmissionWins | website/lab/forms.py:595-647 | the last submission for a test decides its value, notes and (group form) status; a test in two groups ends with the later value |
| Upsert.LastFilledEntryWins | website/lab/forms.py:224-255 | when the save gets through, the last filled entry for a test decides its stored value and notes, and in the group form its status |
| Upsert.SavedRowsMatch | website/lab/forms.py:255 | the returned list has one object per submission, in order, with its value and notes |
| Upsert.EmptyEntriesSkipped | website/lab/forms.py:231-232 | a test whose every entry was left empty gains no row and its existing row is untouched |
| Forms.ExistingByTest | website/lab/forms.py:162-165 | `existing_results` maps a test id to the request's stored row for that test, and holds nothing else |
| Forms.PrefillLookup | website/lab/forms.py:168-196 | each entry's value field starts at the stored value (or the form's default), its notes field at the stored notes (or empty) |
| Forms.PrefillKeys | website/lab/forms.py:172-185 | the form has no fields besides the entries' value and notes fields |
| Forms.InfosLookup | website/lab/forms.py:199-204 | each entry's `_info` attribute holds the row stored for its test |
| Forms.InfosKeys | website/lab/forms.py:199-204 | only the entries have `_info` attributes |
| Forms.GroupEntries | website/lab/forms.py:581-585 | no listed group has an empty list of tests |
| Forms.EntriesAfterPrefill | website/lab/forms.py:206-218 | on a freshly built form every entry is listed in order with its prefilled fields and stored row |
| Forms.GroupEntriesAfterPrefill | website/lab/forms.py:567-586 | a freshly built group form lists exactly the groups with tests, each with all its tests |
| Forms.StatusAfterOneMore | website/lab/models.py:266-268 | one more save's completion check lands where a single check at the new count would |
| Forms.BulkIndividualResultForm.constructor | website/lab/forms.py:154-204 | the fields and `_info` attributes are the prefill of the request's tests from the stored rows |
| Forms.AddIndividualFields | website/lab/forms.py:168-204 | the constructor's loop: a value field (stored value or empty) and a notes field per test, and the `_info` attribute of each, in test order |
| Forms.BulkIndividualResultForm.GetTestFields | website/lab/forms.py:206-218 | the entries with an `_info` attribute, in the order of the request's tests |
| Forms.BulkIndividualResultForm.SaveEntry | website/lab/forms.py:225-255 | an empty value changes nothing; a rejected value raises and changes nothing; any other performs one individual-form upsert step and a completion check |
| Forms.BulkIndividualResultForm.Save | website/lab/forms.py:220-257 | the table and the request status are `Applied` and the completion check over the submissions before the first that raises; the result is the `SavedRows` list when none raises, and the exception otherwise |
| Forms.AddGroupFields | website/lab/forms.py:530-565 | one group's fields and `_info` attributes are added, tests in display order |
| Forms.GroupTestEntries | website/lab/forms.py:571-580 | one group's entries that have an `_info` attribute, in display order |
| Forms.BulkGroupResultForm.constructor | website/lab/forms.py:515-565 | the fields and `_info` attributes are the prefill of every group's tests, groups in order |
| Forms.BulkGroupResultForm.GetGroupFields | website/lab/forms.py:567-586 | each group with its entries, groups without entries omitted |
| Forms.BulkGroupResultForm.Upsert | website/lab/forms.py:606-646 | a rejected value raises in the first save and changes nothing; otherwise one group-form upsert: the row, the returned object and the request status |
| Forms.BulkGroupResultForm.SaveEntry | website/lab/forms.py:597-647 | an empty value changes nothing; a rejected one raises and changes nothing; any other is upserted |
| Forms.BulkGroupResultForm.SaveGroup | website/lab/forms.py:596-647 | after one group's tests, table and status are those of the submissions so far up to the first that raises; it reports whether one raised, and the list is complete when none did |
| Forms.BulkGroupResultForm.Save | website/lab/forms.py:588-649 | the table and the request status are `Applied` and the completion check, with the patient's gender, over the submissions before the first that raises; the result is the `SavedRows` list when none raises, and the exception otherwise |
| Ranges.BoundText | website/lab/views.py:377 | a bound prints as nothing exactly when it is NULL or zero |
| Ranges.RangeOfTightEnds | website/lab/utils.py:36 | with ends that do not start or end in a space or dash, the range is the lone end or `lo - hi` |
| Ranges.RangeDropsLeadingMinus | website/lab/views.py:377 | a leading minus sign of the low end is lost to the strip |
| Ranges.RangeNegativeHighAlone | website/lab/views.py:377 | a negative high end printed alone loses its minus sign |
| Ranges.NormalRangeCases | website/lab/views.py:377 | no truthy bound prints `''`; a lone bound prints alone without sign; two bounds print `|min| - max` |
| Ranges.RangeText | website/lab/views.py:377 | the printed range never starts or ends with a space or a dash |
| Ranges.NormalRange | website/lab/views.py:377 | never starts or ends with a space or a dash, and is empty when neither bound is truthy |
| Grouping.InsertWellFormed | website/lab/views.py:371-373 | appending under a key keeps each key listed once |
| Grouping.GroupAllLists | website/lab/views.py:364-381 | each key once, exactly the keys some result carries, each list the results with that key in input order |
| Grouping.GroupAllCount | website/lab/views.py:364-381 | the lists hold as many entries as there were results |
| Grouping.TwoPartLists | website/lab/views.py:364-400 | after two loops, each list is the first loop's entries for the key followed by the second's, and every result is counted once |
| Views.IndividualKeyNonEmpty | website/lab/views.py:369 | an individual result's key is its stripped description or the test name, and never empty for a named test |
| Views.IndividualKey | website/lab/views.py:369 | the key is the stripped description or the test name, and is empty only when both are |
| Views.GroupKeyAsWrittenFailsOnNull | website/lab/views.py:385 | the views' group key fails exactly on a NULL description |
| Views.GroupKeyAsWritten | website/lab/views.py:385 | fails exactly on a NULL description; otherwise the stripped description or the name |
| Views.GroupKey | website/lab/views.py:385 | the corrected key agrees with the views wherever they succeed and falls back to the name on NULL |
| Views.Append | website/lab/views.py:371-373 | appending to the dictionary is one `Insert` |
| Views.FileIndividualResults | website/lab/views.py:367-381 | the first loop builds `GroupAll` of the individual results' key-entry pairs |
| Views.FileGroupResults | website/lab/views.py:384-400 | the second loop continues the fold with the group results' pairs, with the corrected group key (see Findings) |
| Views.PatientReport | website/lab/views.py:364-400 | the report dictionary is `GroupAll` of the individual pairs followed by the group pairs, with the corrected group key (see Findings) |
| Views.PatientReportPrint | website/lab/views.py:412-483 | exactly one `PrintedReport` is appended, and the dictionary is the same as `patient_report`'s, with the corrected group key (see Findings) |
| Views.ReportLists | website/lab/views.py:364-400 | each key once; under each key its individual results in query order, then its group results; every result shown exactly once; with the corrected group key (see Findings) |
| Views.AddedRow | website/lab/views.py:200-205 | the saved row has the submitted value and notes and `entered_by` = the current user; an existing row keeps its other fields |
| Views.AddTestResult | website/lab/views.py:188-209 | an unparsable value changes nothing; a valid one stores the row with a full save under `(request, test)` and the completion check runs |
| Views.AddKeepsOneRowPerTest | website/lab/views.py:194-206 | the request's rows after the save are those before plus the one edited |
| Views.AddOverwritesEnteredBy | website/lab/views.py:205 | the bulk forms keep the first writer while this view hands `entered_by` to the last one |
| Views.IdTextInjective | website/lab/views.py:148 | no two test ids have the same text |
| Views.ResultsByIdLookup | website/lab/views.py:148 | `str(test id)` is in `individual_results` iff the request has a row for that test, and maps to that row |
| Views.ResultsById | website/lab/views.py:148 | every row of the request is found under the text of its test id |
| ReportUtils.BlankSubclassGivesEmptyKey | website/lab/utils.py:20 | a whitespace-only subclass is chosen and yields the empty key |
| ReportUtils.TestKey | website/lab/utils.py:20 | with no subclass, and a description that is empty or not blank, the key is the report views' key |
| ReportUtils.GroupDescriptionKey | website/lab/utils.py:43 | the key is the corrected report key unless the description is made only of whitespace |
| ReportUtils.SexRange | website/lab/utils.py:36 | the range never starts or ends with a space or a dash |
| ReportUtils.RangeEnds | website/lab/utils.py:21-27 | for `M`, the low end is empty iff no truthy `_m` minimum and no `normal_value_m`, and the high end iff no truthy `_m` maximum; symmetrically for others with the `_f` fields |
| ReportUtils.SexRangeEmpty | website/lab/utils.py:36 | two empty ends give the empty range |
| ReportUtils.SexRangeAsNormalRange | website/lab/utils.py:22-36 | with a truthy `_m` minimum (male) or `_f` maximum (others), the range is the generic report's range of those bounds |
| ReportUtils.SexRangeIgnoresOtherSex | website/lab/utils.py:22-27 | the other sex's fields do not affect the range |
| ReportUtils.FileSexResults | website/lab/utils.py:18-40 | the first loop builds `GroupAll` of the subclass-keyed, sex-specific entries |
| ReportUtils.FileDescriptionResults | website/lab/utils.py:42-54 | the second loop continues the fold with the group results |
| ReportUtils.WhatsAppGrouping | website/lab/utils.py:17-54 | the dictionary is `GroupAll` of the individual pairs followed by the group pairs |
| ReportUtils.WhatsAppLists | website/lab/utils.py:17-54 | each key once; individual results in input order, then group results; every result contributes exactly one entry |

## Left out

- PDF generation and WhatsApp sending (`website/lab/utils.py:56-69`) are external I/O through pdfkit and pywhatkit. The model stops at the grouped dictionary.
- QR and Code128 rendering, base64 and in-memory image buffers (`website/lab/views.py:570-665`) are wrappers over imaging libraries.
- The model leaves out the page views and HTTP plumbing: pagination, search, messages, redirects, template rendering and the 404 lookups. It starts from the objects those lookups return.
- The admin configuration and the URL table (`website/lab/admin.py`, `website/lab/urls.py`) are not part of this model. Neither are the views that the URL table names but that have no body in these files.
- The template filters (`website/lab/templatetags`) are float arithmetic and a dictionary lookup.
- Database transactions and concurrent saves are not modelled; execution is sequential, and a uniqueness race in `get_or_create` cannot happen.
- Query ordering is taken as given. The result rows of the reports arrive as sequences already in the database's order, and a group's tests arrive already sorted by `display_order`.
- The report views' `test_requests` list and `report_date` only feed the template.
- `patient_report_print` takes the patient id as a parameter, after the 404 lookup.
- Django form cleaning is taken as done. The bulk forms' `cleaned_data` is a map from field to text, already stripped by `CharField`; the single-result form's validity is modelled as the value reading as a decimal.
- Decimals.ParseDecimal: reads plain notation only (sign, ASCII digits, optional point and digits). Python's `Decimal` also accepts exponents, underscores and non-ASCII decimal digits such as the Arabic-Indic `٤`. Such text counts as unparsable here: the group form's classifier gives `abnormal` and a save of it raises, where the source classifies and stores it. `Decimal` also reads `NaN` and `Infinity`. The decimal column refuses both, so their saves raise in the source as in the model, and for `NaN` the classifier's `abnormal` agrees too, because the comparison raises and is caught. Only `Infinity` and `-Infinity` are classified differently: `high` and `low` in the source against both bounds, `abnormal` here.
- Decimals.ParseDecimal: the `max_digits=10` and `decimal_places=2` limits of the decimal columns are not checked.
- Requests.CompletionPercentage: an exact ratio instead of the floating-point value rounded to one decimal.
- Requests.TestRequest.GetCompletionPercentage: same weakening as `Requests.CompletionPercentage`.
- The individual form's value field defaults to `None` and the group form's to `''`. Both are modelled, as `None` and `Some("")`, but the widget attributes and labels are not.
- `PrintedReport.notes` and the request's `notes` and `created_by` are not modelled, since no modelled operation reads them.
- The `result_value` of an individual report entry is the stored text. Python would show it through `Decimal.__str__` of the stored column.
- Forms.PrefillLookup: the initial value of an existing row's value field (`Forms.InitialValue`) is the stored text, such as `4`. The source reads the row back from the decimal column and starts the field at `4.00`.

## Findings

| source | as written | input that shows it | evidently intended | confidence | as-written member | corrected member |
|---|---|---|---|---|---|---|
| website/lab/models.py:257 | the hook compares `self.value`, which the bulk forms set to the submitted text, with the `Decimal` bounds | a bulk form entry `"4"` for a test whose generic bounds are 3.50 and 5.00: the comparison of `str` with `Decimal` raises `TypeError`, nothing is stored, and the bulk save stops at that entry | read the value as a decimal before comparing, as the group form does at `website/lab/forms.py:632` | not executed | Classify.HookAsWrittenRaisesOnText | Classify.HookStatus |
| website/lab/views.py:385 | `patient_report` calls `strip()` on the group description, which the model declares nullable (`website/lab/models.py:122`) | a patient with a group result whose `TestGroup.description` is NULL: the call raises `AttributeError` and the report page fails | fall back to the group name, as `website/lab/utils.py:43` does | not executed | Views.GroupKeyAsWrittenFailsOnNull | Views.GroupKey |
| website/lab/views.py:459 | `patient_report_print` repeats the same call | the same NULL description makes the print view fail, after the `PrintedReport` row has been created | fall back to the group name | not executed | Views.GroupKeyAsWrittenFailsOnNull | Views.GroupKey |
