# Rotating-savings group tracker: roster, form validation and reports, in Dafny

This project models the two pieces of sequential logic in the group tracker's web
front end.

- **The "Create New Group" dialog** (`components/create-group-modal.tsx`).
  - The member roster is an ordered list of `{id, order, name, contact}` rows.
  - It has three edits: `addMember`, `removeMember` and `updateMember`.
  - `validateForm` builds an error map keyed by field.
  - The weaker `isFormValid` predicate enables the Save button.
  - `handleSave` submits the named members and resets the dialog.
  - The per-field `onChange` handlers clear their own error entry.
- **The reports page** (`app/reports/page.tsx`).
  - The `overallStats` folds over the cycle rows give the total collected, the on-time, late and missed counts, and the mean completion rate rounded by `Math.round`.
  - The download filename of `handleExport` is the group name with each run of white space replaced by `_`, then `_report.` and the extension.
  - The `currentGroup` lookup falls back to the first group.

Modules:

| file | module | what it holds |
|---|---|---|
| `optional.dfy` | `Optional` | `Option`, for `undefined` and `NaN` results |
| `js_text.dfy` | `JsText` | the ECMAScript white-space class shared by `\s` and `trim()`, and trimming |
| `roster.dfy` | `Roster` | members, the three roster edits, and the invariant that orders are exactly 1..N |
| `group_form.dfy` | `GroupForm` | dialog state, typed error keys, validation, the Save gate and save, and the event machine |
| `report_stats.dfy` | `ReportStats` | cycle rows, the column folds, half-up rounding, and `overallStats` |
| `report_export.dfy` | `ReportExport` | export formats, the whitespace-to-underscore replacement, the filename, and group selection |

Modelling choices:

- **Error keys.** The source keys its error object by strings such as `member-<id>-name`. Here the keys are a datatype (`GroupForm.ErrorKey`). `Text()` renders a key to the source's string, and `GroupForm.KeyTextInjective` proves that no two keys render to the same string. Keying the map by datatype is therefore faithful.
- **Number inputs.** An `<input type="number">` yields either the empty string or a number. It is modelled as `Blank | Num(value: real)`. The test `!v || Number(v) <= 0` becomes "not a positive number".
- **Roster ids.** `Date.now().toString()` becomes a parameter, the fresh id of an `AddClick` event.
- **Arithmetic.** Counts and amounts are unbounded integers. Completion rates are exact reals.
- **`Math.round`.** Modelled as `floor(x + 0.5)`, so halves round up.
- **Empty inputs.** The mean of zero rows is `NaN` in the source and `None` here. A lookup in an empty group list is `undefined` in the source and `None` here.
- **Mock data.** The code has no payment ledger, status derivation or cycle scheduling. The cycle figures on the reports page are constants (`ReportStats.SampleCycles`, `ReportExport.GroupsData`).
- **Adding.** Adding a member never fails: `addMember` appends a member with an empty name and contact.
- **Removing.** Removing an absent id is not an error. When more than one member is present, `removeMember` simply renumbers.
- **Completion rates.** These are stored values, neither capped nor computed.

## Model

| member | source | states |
|---|---|---|
| Roster.AddMember | components/create-group-modal.tsx:36-44 | appends exactly one member with an empty name and contact; all existing members are unchanged; the new member's order is the new length, so numbering 1..N is kept; ids stay distinct when the new id is fresh |
| Roster.Without | components/create-group-modal.tsx:48 | the filter keeps exactly the members whose id differs from the removed one |
| Roster.Renumber | components/create-group-modal.tsx:49-52 | survivors keep id, name and contact, and get orders 1..N in list order |
| Roster.RemoveMember | components/create-group-modal.tsx:46-55 | a no-op on a roster of one member or fewer; otherwise no member with the id remains, the survivors are the filtered list in order, and member i gets order i+1 |
| Roster.UpdateMember | components/create-group-modal.tsx:57-58 | only the chosen field of members with that id changes; id, order, the other field and all other members are untouched |
| Roster.WithoutAppend | components/create-group-modal.tsx:48 | the filter distributes over concatenation, so the survivors keep their relative order |
| Roster.WithoutDistinct | components/create-group-modal.tsx:48 | with distinct ids the filter drops exactly one member if the id is present and none otherwise |
| Roster.RemoveKeepsOne | components/create-group-modal.tsx:46-48 | with distinct ids removal never empties the roster and removes exactly one present member |
| Roster.RemoveKeepsDistinct | components/create-group-modal.tsx:46-53 | removal keeps ids distinct |
| Roster.RemoveKeepsAbsent | components/create-group-modal.tsx:46-53 | removal never brings back an id that was absent |
| Roster.RemoveKeepsOthers | components/create-group-modal.tsx:48-52 | every member with another id survives removal, renumbered to its new position |
| Roster.RemoveSecondOfTwo | components/create-group-modal.tsx:46-53 | removing the second of two members leaves the first alone, still numbered 1 |
| Roster.RemoveDuplicateIdsEmpties | components/create-group-modal.tsx:38-53 | two members that share an id (added in the same millisecond) are both removed at once, which empties the roster |
| Roster.RunKeepsNumbered | components/create-group-modal.tsx:36-58 | any sequence of add, remove and update edits keeps the orders exactly 1..N |
| Roster.RunKeepsNonEmpty | components/create-group-modal.tsx:36-58 | with fresh ids for every add, any sequence of edits keeps ids distinct and the roster non-empty |
| Roster.InitialRosterInvariant | components/create-group-modal.tsx:33-58 | from the initial one-member roster every reachable roster is numbered 1..N, and with fresh ids it is also non-empty with distinct ids |
| JsText.SpaceClass | app/reports/page.tsx:150 | the white-space class of `\s` and `trim()` is, within ASCII, exactly SPACE and TAB..CR; no letter or digit is in it, and nothing above the byte-order mark is |
| JsText.Trim | components/create-group-modal.tsx:72 | `trim()` cuts a blank prefix and a blank suffix off the string and leaves no white space at either end of what remains; it yields "" exactly when the string is all white space |
| GroupForm.KeyTextInjective | components/create-group-modal.tsx:72-80 | distinct error keys have distinct property names, so the typed map loses nothing |
| GroupForm.FormLevelErrors | components/create-group-modal.tsx:72-76 | each group-level key is present exactly when its field fails its check, and carries the source's message |
| GroupForm.MemberEntries | components/create-group-modal.tsx:79-80 | one loop iteration adds a key for each blank field of that member and nothing else |
| GroupForm.MemberErrors | components/create-group-modal.tsx:78-81 | the member loop holds a member key exactly when some member with that id has that field blank |
| GroupForm.Validate | components/create-group-modal.tsx:69-85 | returns true exactly when the map is empty, and exactly when the trimmed name is non-empty, both numbers are positive, a frequency is chosen and every member has a non-blank name and contact; one key per failing field, each with its message |
| GroupForm.FormLevelErrorsEmpty | components/create-group-modal.tsx:72-76 | no group-level key exactly when all four group fields pass |
| GroupForm.MemberErrorsEmpty | components/create-group-modal.tsx:78-81 | no member key exactly when every member has a non-blank name and contact |
| GroupForm.IsFormValid | components/create-group-modal.tsx:115-121 | an enabled Save needs non-empty (untrimmed) fields, some member with a non-blank name, and an empty error map |
| GroupForm.ValidFormEnablesSave | components/create-group-modal.tsx:69-121 | a form that passes validation and shows no errors has Save enabled |
| GroupForm.SaveEnabledButInvalid | components/create-group-modal.tsx:115-121 | the Save gate is strictly weaker than validation: it is enabled for a name of one space, a zero amount and a missing contact |
| GroupForm.NamedMembers | components/create-group-modal.tsx:100 | the submitted members are exactly those with a non-blank name, and all of them when every name is non-blank |
| GroupForm.NamedMembersSingle | components/create-group-modal.tsx:100 | the filter keeps a lone member exactly when its trimmed name is non-empty |
| GroupForm.NamedMembersAppend | components/create-group-modal.tsx:100 | the filter distributes over concatenation, so the submitted members keep their roster order and multiplicity |
| GroupForm.Save | components/create-group-modal.tsx:87-113 | submits exactly when validation passes; on failure the form is kept and the fresh non-empty error map is shown; on success the full roster is submitted and the form returns to its initial state |
| GroupForm.ClearError | components/create-group-modal.tsx:60-66 | deletes the one key when its message is truthy and keeps every other entry as it was |
| GroupForm.TypeInMember | components/create-group-modal.tsx:57-67 | `updateMember` edits the roster, clears exactly that member field's key, and leaves the group fields alone |
| GroupForm.EditField | components/create-group-modal.tsx:146-245 | each group-field handler sets its field and clears its own key only; the roster and other fields are untouched |
| GroupForm.RemoveMemberAsWritten | components/create-group-modal.tsx:46-55 | removal changes the roster and leaves the error map exactly as it was |
| GroupForm.RemoveMemberCorrected | components/create-group-modal.tsx:46-55 | removal also deletes the removed member's two error keys, and nothing else |
| GroupForm.PressSave | components/create-group-modal.tsx:87-121 | a click on a disabled Save changes nothing; an enabled click on a form that passes validation resets the dialog to its opening state; an enabled click on a form that fails validation keeps every field and the roster and replaces the error map by exactly the fresh one validation builds, which is non-empty and so disables Save |
| GroupForm.Step | components/create-group-modal.tsx:266-337 | the dialog's events (add, remove with its errors cleared, type in a member field, edit a group field, Save) keep the roster numbered 1..N; every event but Save only removes error keys; an add keeps the errors and grows the roster by one |
| GroupForm.StepAsWritten | components/create-group-modal.tsx:266-337 | as written, a removal changes the roster as the corrected step does but keeps every error entry; every other event is the corrected step; both keep the numbering and only Save adds error keys |
| GroupForm.Run | components/create-group-modal.tsx:266-337 | a sequence of events from a numbered roster ends with a numbered roster |
| GroupForm.RunAsWritten | components/create-group-modal.tsx:266-337 | the same for the events as the source handles them |
| GroupForm.InitialFormNumbered | components/create-group-modal.tsx:33-67 | every roster reachable from the opening dialog, with or without removal clearing errors, is numbered 1..N |
| GroupForm.StaleErrorPersists | components/create-group-modal.tsx:46-55 | as written, an error key of a removed member survives every later event that does not re-add or edit that id, and Save stays disabled |
| GroupForm.StaleErrorScenario | components/create-group-modal.tsx:46-121 | as written, Save on a form with a blank second member followed by removing that member leaves a stale key and a disabled Save |
| GroupForm.StaleSetupReachesStaleStart | components/create-group-modal.tsx:33-67 | the opening dialog reaches that form by adding a member, typing the first member's name and contact, and setting the four group fields |
| GroupForm.InitialFormGoesStale | components/create-group-modal.tsx:33-121 | as written, the dialog opened fresh reaches, after those events, Save and removing member 2, a state whose error map names a member that is gone, with Save disabled |
| GroupForm.SaveFlagsBlankName | components/create-group-modal.tsx:87-88 | an enabled Save on a form with a blank member name keeps the roster and flags that member |
| GroupForm.BlankMemberFlagged | components/create-group-modal.tsx:79 | a blank member name makes validation fail and puts that member's name key in the map |
| GroupForm.AsWrittenBreaksErrorsLive | components/create-group-modal.tsx:46-55 | as written, removal can leave an error key whose member is gone |
| GroupForm.StepKeepsErrorsLive | components/create-group-modal.tsx:36-67 | with the corrected removal every event keeps each member key tied to a present member, with non-empty messages |
| GroupForm.RunKeepsErrorsLive | components/create-group-modal.tsx:36-67 | the same holds after any sequence of events |
| GroupForm.ErrorsClearable | components/create-group-modal.tsx:60-66 | with live keys, every shown error can be cleared by one event |
| GroupForm.InitialFormStaysLive | components/create-group-modal.tsx:33-34 | with the corrected removal, every state reachable from the opening state has live error keys (the dialog as written does not, see `GroupForm.InitialFormGoesStale`) |
| ReportStats.Round | app/reports/page.tsx:160 | `Math.round` gives the integer within half a unit below and strictly less than half above |
| ReportStats.AverageCompletionRate | app/reports/page.tsx:160-162 | defined exactly when there are rows, and then the nearest integer to the mean rate, with halves rounded up |
| ReportStats.ColumnSum | app/reports/page.tsx:159-165 | a column total over no rows is 0 and over one row is that row's cell |
| ReportStats.RateSum | app/reports/page.tsx:161 | the sum of rates over no rows is 0 and over one row is that row's rate |
| ReportStats.ColumnSumFromFront | app/reports/page.tsx:159-165 | the fold from the right (the first cell plus the total of the rest) gives the same total as `reduce`'s fold from the left, which is `ColumnSum`'s own recursion |
| ReportStats.RateSumAppend | app/reports/page.tsx:161 | the sum of rates over joined row lists is the sum of the two sums |
| ReportStats.RateSumFromFront | app/reports/page.tsx:161 | the fold of the rates from the right (the first rate plus the sum of the rest) gives the same sum as `reduce`'s fold from the left |
| ReportStats.Overall | app/reports/page.tsx:158-166 | with no rows every total is 0 and there is no average; with one row the totals are that row's figures and the average is its rounded rate |
| ReportStats.ColumnSumAppend | app/reports/page.tsx:159-165 | a column total over joined row lists is the sum of the two totals |
| ReportStats.ColumnSumBounds | app/reports/page.tsx:159-165 | bounds on every cell bound the total by the row count times the bound |
| ReportStats.ColumnSumMonotone | app/reports/page.tsx:159 | a column that is at most another in every row has at most its total |
| ReportStats.ColumnSumNonNegative | app/reports/page.tsx:159-165 | non-negative cells give a non-negative total |
| ReportStats.RateSumBounds | app/reports/page.tsx:160-162 | bounds on every rate bound the sum of rates |
| ReportStats.AverageInRange | app/reports/page.tsx:160-162 | if every rate lies in [0, 100], the rounded average exists and lies in [0, 100] |
| ReportStats.AverageOfEqualRates | app/reports/page.tsx:160-162 | equal whole-number rates average to exactly that rate |
| ReportStats.CollectedAtMostDue | app/reports/page.tsx:159 | when no row collects more than it is owed, the total collected is between zero and the total due |
| ReportStats.CountsAddUp | app/reports/page.tsx:163-165 | when each row settles m payments, the three count totals add up to m per row |
| ReportStats.SampleOverall | app/reports/page.tsx:67-166 | the page's six cycles give 1,100,000 collected, an average of 92, and 20 on time, 2 late and 2 missed |
| ReportStats.HalfRoundsUp | app/reports/page.tsx:160-162 | rates 75 and 100 average 87.5, shown as 88 |
| ReportExport.Extension | app/reports/page.tsx:150 | the extension is the format name, except "xlsx" for excel |
| ReportExport.ExtensionRoundTrip | app/reports/page.tsx:150 | the extension identifies the format: reading it back gives the format that produced it, and each of "csv", "xlsx" and "pdf" is the extension of exactly its own format |
| ReportExport.Underscored | app/reports/page.tsx:150 | the replacement leaves no white space and never lengthens the name |
| ReportExport.UnderscoredNoSpace | app/reports/page.tsx:150 | a name without white space is unchanged |
| ReportExport.UnderscoredRun | app/reports/page.tsx:150 | a run of white space alone becomes a single underscore |
| ReportExport.UnderscoredConcat | app/reports/page.tsx:150 | replacement works piece by piece across a cut that follows a non-space |
| ReportExport.UnderscoredLeadingRun | app/reports/page.tsx:150 | a leading run becomes one underscore and the rest is replaced on its own |
| ReportExport.UnderscoredSplit | app/reports/page.tsx:150 | a maximal run between two non-space neighbours becomes exactly one underscore and nothing else changes |
| ReportExport.UnderscoredTwoWords | app/reports/page.tsx:150 | two words separated by a space are joined by an underscore |
| ReportExport.UnderscoredWords | app/reports/page.tsx:150 | three words separated by spaces are joined by underscores |
| ReportExport.UnderscoredIdempotent | app/reports/page.tsx:150 | replacing twice gives the same as replacing once |
| ReportExport.ExportFilename | app/reports/page.tsx:150 | the filename has no white space and is exactly the replaced name, then `_report.`, then the extension, with nothing else in between |
| ReportExport.FilenamesDistinctPerFormat | app/reports/page.tsx:150 | the three formats never give the same filename |
| ReportExport.FilenameCollision | app/reports/page.tsx:150 | names that differ only in a white-space run versus an underscore give the same filename |
| ReportExport.ExportFilenameWords | app/reports/page.tsx:150 | a three-word name such as "Lagos Market Traders" gives "Lagos_Market_Traders_report." plus the extension |
| ReportExport.FindGroup | app/reports/page.tsx:134 | `find` succeeds exactly when some group has the id, and returns a group with that id, with no earlier group matching |
| ReportExport.CurrentGroup | app/reports/page.tsx:134 | defined exactly when the list is non-empty; a matching group when one exists, otherwise the first group |
| ReportExport.CurrentGroupIsFirstMatch | app/reports/page.tsx:134 | the first group whose id matches is the one selected |
| ReportExport.SampleSelection | app/reports/page.tsx:132-134 | on the page's data the initial selection "1" and an unknown id both show the first group, and "2" shows the second |

## Left out

- JSX rendering, the dialog's open state, animations, and the `Select`, `Card` and `Input` components. These are presentation.
- The `isLoading` flag and the two-second `setTimeout` in `handleSave`. They are timing, and the model treats a save as one step.
- `console.log` of the submission and of the export. `Save` returns the submission instead.
- The DOM anchor that triggers the download. Only the filename is modelled.
- `Intl.NumberFormat` currency strings, `Date` parsing and `toLocaleDateString`. These are locale-dependent library calls.
- The progress percentage and `averagePaymentTime`. The first is floating-point display arithmetic; the second is a stored constant the model carries but does not use.
- Roster.AddMember: the fresh id is a parameter, because `Date.now()` is a clock. Distinct ids are assumed only where a lemma says so, and `Roster.RemoveDuplicateIdsEmpties` shows what happens without them.
- GroupForm.Validate: `Number(...)` is taken as already parsed into `Blank | Num(real)`. `NaN` and `Infinity` (for instance from an overflowing exponent such as `1e999`) are not modelled.
- ReportStats.AverageCompletionRate: uses exact rational arithmetic instead of IEEE doubles. A sum that floating point rounds across a .5 boundary is not modelled.
- The frequency options of the `Select` are not enumerated. Any non-empty string is accepted, as the validation does.
- The other pages (dashboard, group detail, member detail and payments) and the payment reminder modal. They hold mock data and display logic only.

## Findings

| source | as written | input that shows it | evidently intended | confidence | as-written member | corrected member |
|---|---|---|---|---|---|---|
| components/create-group-modal.tsx:46-55 | `removeMember` changes the roster but never deletes the removed member's `member-<id>-name` / `member-<id>-contact` entries; `isFormValid` needs an empty error map and only `updateMember` on that id can delete such a key, so the Save button stays disabled for as long as the component lives | a form with all group fields filled, member 1 "Ada"/"0801" and a blank member 2: Save (validation fails and flags member 2), then remove member 2 | removing a member also removes its error entries, so every error shown belongs to a field the user can still edit | not executed | GroupForm.StaleErrorPersists, GroupForm.StaleErrorScenario, GroupForm.InitialFormGoesStale | GroupForm.RemoveMemberCorrected, GroupForm.RunKeepsErrorsLive |
