# TestForm: a verified model of the test-entry form

`src/TestForm.js` is a React component. Its form holds a draft test record with
these fields:

- name and type;
- tester email and mobile number;
- an alternative number;
- creation and last-update timestamps.

The component keeps a list of test types that the user can extend. It also keeps a table of stored records. A submit either appends the draft with a fresh id (create mode, `testId === null`) or overwrites the row with the draft's id (edit mode). Rows can be chosen for editing, deleted after a confirmation, and are coloured by their test type.

The model treats the component as a state machine: each handler is one
transition from one `State` to the next. There are seven modules, one file each:

| module | file | contents |
|---|---|---|
| `Wrappers` | `wrappers.dfy` | `Option`, standing for JavaScript's `null` id |
| `Text` | `text.dfy` | ECMAScript whitespace, `trim`, the `!s.trim()` blank test |
| `Patterns` | `patterns.dfy` | the form's three regular expressions |
| `Records` | `records.dfy` | the record, the five editable fields, the error map |
| `Validation` | `validation.dfy` | the per-keystroke rules and the submit-time rules |
| `Store` | `store.dfy` | the table's id assignment, create, update and delete |
| `TestForm` | `test_form.dfy` | the state, the handlers, the event loop, the invariant |

Each regular expression is modelled twice:

- an executable scanner, which the handlers use;
- a declarative description of the strings the expression accepts.

A lemma or an ensures clause proves that the two agree.

The central invariant is `TestForm.Valid`. It holds in the initial state and
every handler keeps it. It says four things:

- every stored id is a number of at least 1, and the ids strictly increase down the table, so no id occurs twice;
- every stored row passed the submit check;
- the type list holds no name twice;
- a draft in create mode carries no timestamps.

Two behaviours of the code are modelled as written, and a lemma exhibits each:

- **Weaker submit rules.** The submit check is weaker than the per-keystroke checks. It does not re-check the name's characters, the type's membership in the list, or the alternative number's format.
- **Create-mode quirk.** After a create, the draft stays in the form, still in create mode, so a second submit stores the same data again under the next id.

Ids are unique only among the rows currently stored. The next id is "largest id
plus one", so after the last row is deleted the next create takes an id no larger
than the deleted one. It takes the same id when the table held that row alone or
when the two last ids were consecutive, as `Store.DeletedLastIdIsReused` proves.
Otherwise it takes a smaller one: with ids 1, 2 and 3, deleting 2 and then 3
makes the next id 2.

A second invariant, `TestForm.DraftTracksRow`, says that an edit-mode draft
carries the id and creation time of a stored row. It is what makes a creation
time permanent once stored.

## Model

| member | source | states |
|---|---|---|
| `Text.Trim` | src/TestForm.js:88-104 | `String.prototype.trim`: the result is the piece of the input left after cutting off whitespace at both ends. It is a contiguous piece of the input with only whitespace on either side, it neither starts nor ends with whitespace, it is empty exactly when the input is all whitespace, and an input without whitespace comes back unchanged |
| `Text.TrimStart` | src/TestForm.js:88 | the result is a suffix of the input, every character dropped is whitespace, and the result does not start with whitespace |
| `Text.TrimEnd` | src/TestForm.js:88 | the result is a prefix of the input, every character dropped is whitespace, and the result does not end with whitespace |
| `Text.IsBlank` | src/TestForm.js:61 | the test `!s.trim()` holds exactly when every character of `s` is whitespace, the empty string included |
| `Patterns.MatchesName` | src/TestForm.js:39 | `/^[a-zA-Z ]*$/` accepts exactly the strings of ASCII letters and spaces, the empty string included |
| `Patterns.MatchesTenDigits` | src/TestForm.js:54 | `/^\d{10}$/` accepts exactly the strings of ten characters, each `0`-`9` |
| `Patterns.MatchesEmailIff` | src/TestForm.js:49 | the scanner for `/^\S+@\S+\.\S+$/` accepts a string exactly when it has no whitespace and has an `@` after the first character that comes at least two places before a `.` that is not the last character |
| `Patterns.EmailShapeIffSplit` | src/TestForm.js:49 | that description is the same as "three non-empty whitespace-free parts joined by `@` and `.`", the expression read literally |
| `Patterns.TenDigitsAreTrimmed` | src/TestForm.js:100 | a ten-digit string is unchanged by trimming and is never blank, so the `!trim()` half of the mobile rule never fires on its own |
| `Patterns.EmailShapeNotBlank` | src/TestForm.js:96 | an address the expression accepts is never blank, so the `!trim()` half of the email rule never fires on its own |
| `Records.WithField` | src/TestForm.js:30-33 | the spread `{...formData, [name]: value}` sets the named field and leaves every other field, the id and both dates unchanged |
| `Records.Errors.Set` | src/TestForm.js:37-55 | the spread `{...validationErrors, [name]: msg}` sets the named field's message and leaves the other four messages unchanged |
| `Records.Errors.AllClear` | src/TestForm.js:111 | `Object.values(errors).some(e => e)` is false exactly when every field's message is the empty string |
| `Validation.LiveError` | src/TestForm.js:36-56 | per field: the keystroke error is empty exactly when the value passes that field's rule (name pattern, type in the list, email pattern, ten digits for both numbers), and otherwise is that field's message |
| `Validation.RequiredError` | src/TestForm.js:88-94 | the required-field error on name or type is empty exactly when the value has a non-whitespace character |
| `Validation.EmailSubmitError` | src/TestForm.js:96-98 | the submit-time email error is empty exactly when the address matches the email pattern |
| `Validation.MobileSubmitError` | src/TestForm.js:100-102 | the submit-time mobile error is empty exactly when the number is ten digits |
| `Validation.SameNumberError` | src/TestForm.js:104-106 | the alternative-number error is set exactly when the two numbers are equal after trimming |
| `Validation.SubmitErrors` | src/TestForm.js:78-106 | the error map a submit computes: each of the five entries is empty exactly when its rule holds, and otherwise holds that rule's message |
| `Validation.SubmitGate` | src/TestForm.js:108-113 | a submit goes through (no error set) exactly when the draft satisfies `SubmitReady`: a name and a type that are not blank, an accepted email, a ten-digit mobile, and a trimmed alternative number different from the mobile |
| `Validation.SubmittedNumbersDiffer` | src/TestForm.js:100-106 | a draft that passes the submit check never has its alternative number equal to its mobile number |
| `Validation.DigitNameRejectedLive` | src/TestForm.js:36-40 | the name `R2` gets the "Only Character Should come." error while typing |
| `Validation.EmptyNumberRejectedLive` | src/TestForm.js:51-56 | an empty alternative number gets the ten-digit error while typing |
| `Validation.SampleDraftReady` | src/TestForm.js:88-106 | a draft with name `R2`, an empty alternative number, email `a@b.c` and mobile `0123456789` passes all five submit rules |
| `Validation.SubmitAcceptsWhatLiveRejects` | src/TestForm.js:36-106 | the submit check is weaker than the keystroke checks: that draft submits with no error, although its name, its type (absent from an empty type list) and its alternative number were each flagged while typing |
| `Store.MaxId` | src/TestForm.js:116 | `Math.max(...ids, 0)` is at least 0, at least every id in the table, and either 0 or one of the ids |
| `Store.MaxIdIsLast` | src/TestForm.js:116 | in a table with ascending ids the maximum is the last row's id |
| `Store.Create` | src/TestForm.js:118-123 | a create appends exactly one row, leaves the existing rows in place, and stores the draft with the creation time; the new id is at least 1, exceeds every existing id, and is 1 in an empty table |
| `Store.AppendKeepsAscending` | src/TestForm.js:120-123 | appending a row whose id exceeds every stored id keeps the ids ascending |
| `Store.CreateKeepsAscending` | src/TestForm.js:115-123 | a create keeps the ids ascending, and the new id is the last id plus one |
| `Store.MaxIdAfterCreate` | src/TestForm.js:116-122 | right after a create, the largest id is the one just assigned |
| `Store.CreateTwice` | src/TestForm.js:115-123 | two creates of the same draft append it twice, under two consecutive ids |
| `Store.Updated` | src/TestForm.js:127 | the row an update writes, `{...formData, lastUpdationDate}`, keeps the draft's five editable fields, its id and its creation time, and carries the update time |
| `Store.Update` | src/TestForm.js:124-129 | an update keeps the table's length and every id; a row with the draft's id becomes the draft stamped with the update time, and every other row is unchanged |
| `Store.UpdateKeepsAll` | src/TestForm.js:126-128 | any property of rows that both the old rows and the updated draft have also holds for every row after the update |
| `Store.UpdateKeepsAscending` | src/TestForm.js:124-129 | an update keeps the ids ascending |
| `Store.UpdateReplacesOne` | src/TestForm.js:126-128 | with unique ids, updating the draft of row `k` replaces row `k` alone |
| `Store.UpdateKeepsCreationDates` | src/TestForm.js:126-128 | with unique ids, an update whose draft carries the creation time of the row with its id leaves every row's creation time as it was |
| `Store.UpdateAbsent` | src/TestForm.js:126-128 | an update whose id is in no row leaves the table as it was |
| `Store.AscendingTail` | src/TestForm.js:150 | dropping the first row keeps the ids ascending |
| `Store.Remove` | src/TestForm.js:150 | the filter keeps at most the rows it had, and no remaining row has the deleted id |
| `Store.RemoveContents` | src/TestForm.js:150 | a row survives the filter exactly when it was in the table and has a different id |
| `Store.PrependKeepsAscending` | src/TestForm.js:150 | putting back a first row whose id is below every other id keeps the ids ascending |
| `Store.RemoveKeepsAscending` | src/TestForm.js:150 | a delete keeps the ids ascending |
| `Store.RemoveAbsent` | src/TestForm.js:150 | a delete of an id that no row has leaves the table as it was |
| `Store.RemoveFirst` | src/TestForm.js:150 | deleting the first row's id leaves the other rows |
| `Store.RemoveTakesOutOne` | src/TestForm.js:147-151 | with unique ids, deleting row `k`'s id takes out row `k` alone and keeps the other rows in order |
| `Store.RemoveLast` | src/TestForm.js:150 | deleting the last row's id leaves the rows before it, which still have ascending ids |
| `Store.DeletedLastIdIsReused` | src/TestForm.js:115-151 | after the last row is deleted, the next create takes an id no larger than the deleted one: the same id when the table held one row or when the two last ids were consecutive |
| `TestForm.InputChange` | src/TestForm.js:27-57 | a keystroke sets one field of the draft and leaves the others, the id and the dates; it sets that field's error to empty exactly when the keystroke rule holds, and to the field's message otherwise; all other errors and the rest of the state stay unchanged |
| `TestForm.NewTestTypeChange` | src/TestForm.js:270 | typing in the new-type box changes only the pending name |
| `TestForm.CreateTestType` | src/TestForm.js:59-76 | a blank name raises "Please enter a non-empty test type." and a listed name raises "Test type already exists!", both without changing anything; otherwise the untrimmed name is appended to the list, chosen as the draft's type, and the box is cleared |
| `TestForm.Submit` | src/TestForm.js:78-141 | the error map always becomes the submit-time errors; a draft with any error set changes nothing else; a draft with none (by `SubmitGate`, one that satisfies `SubmitReady`) is created and stays in the form in create mode, and in edit mode updates its row and the form is reset |
| `TestForm.Edit` | src/TestForm.js:143-145 | the chosen row becomes the draft, id and dates included; nothing else changes |
| `TestForm.Delete` | src/TestForm.js:147-164 | without confirmation nothing changes; with it, the rows with that id are filtered out and the form is reset |
| `TestForm.RowColor` | src/TestForm.js:166-175 | the colour is green exactly for `PHP`, yellow exactly for `Node Js`, and orange for every other type |
| `TestForm.Step` | src/TestForm.js:188-306 | the controls are wired to the handlers so that only a submit or a delete changes the table, only the create-type button changes the type list, only a keystroke or a submit changes the error map, and only the new-type box or its button changes the pending name |
| `TestForm.InitialValid` | src/TestForm.js:4-25 | the initial state satisfies both invariants: no rows, three distinct seed types, an empty draft in create mode |
| `TestForm.CreateTestTypeKeepsDistinct` | src/TestForm.js:66-67 | adding a type never puts a name in the list twice |
| `TestForm.SameFieldsSameVerdict` | src/TestForm.js:88-106 | the submit check depends only on the five editable fields |
| `TestForm.AppendKeepsReady` | src/TestForm.js:120-123 | appending a row that passes the submit check keeps every stored row passing it |
| `TestForm.CreatedRowReady` | src/TestForm.js:122 | the row a create stores passes the submit check |
| `TestForm.CreateKeepsReady` | src/TestForm.js:118-123 | after a create, every stored row passes the submit check |
| `TestForm.CreatePreservesValid` | src/TestForm.js:115-123 | an accepted create keeps the invariant |
| `TestForm.UpdateKeepsReady` | src/TestForm.js:126-129 | after an update, every stored row passes the submit check |
| `TestForm.UpdatePreservesValid` | src/TestForm.js:124-140 | an accepted update, with the form reset, keeps the invariant |
| `TestForm.SubmitPreservesValid` | src/TestForm.js:78-141 | every submit, accepted or not, keeps the invariant |
| `TestForm.DeletePreservesValid` | src/TestForm.js:147-164 | every delete, confirmed or not, keeps the invariant |
| `TestForm.StepPreservesValid` | src/TestForm.js:27-175 | every user action keeps the invariant: ids unique and ascending, every stored row valid at submit time, no duplicate type, no timestamps on a create-mode draft |
| `TestForm.StepKeepsDraftTracking` | src/TestForm.js:27-164 | every user action keeps an edit-mode draft tied to a stored row with the same id and creation time: only an edit puts an id into the form, the hidden date inputs have no change handler, and an update or a delete resets the form |
| `TestForm.SubmitKeepsCreationDates` | src/TestForm.js:115-140 | a creation time, once stored, is never overwritten: after any submit, every row that was stored keeps its position, its id and its creation time |
| `TestForm.StoredNumbersDiffer` | src/TestForm.js:104-106 | in a reachable state, no stored row has its alternative number equal to its mobile number |
| `TestForm.EditThenSubmitUpdatesRow` | src/TestForm.js:124-145 | editing a stored row and submitting it unchanged overwrites that row alone; it keeps the row's id and creation time, stamps the update time and resets the form |
| `TestForm.DoubleSubmitDuplicates` | src/TestForm.js:118-123 | submitting an accepted create-mode draft twice stores it twice, under consecutive ids, and the draft stays in the form |
| `TestForm.DeleteTakesOutRow` | src/TestForm.js:147-164 | a confirmed delete of a stored row takes out that row alone, keeps the others in order, and resets the form |
| `TestForm.UntrimmedNameIsNotADuplicate` | src/TestForm.js:61-67 | the duplicate test compares untrimmed names: ` PHP` is appended although `PHP` is already listed |

## Left out

- Rendering (`src/TestForm.js:177-321`) is not modelled: markup, styles and the error spans. The rendered table's only modelled content is the row colour.
- React's state updates are modelled as applied at once, each handler seeing the state left by the previous one. Batching and stale closures are not modelled: one handler that calls `setFormData` twice, or events that fire before a re-render, are out of scope.
- `alert` becomes the `alert` field of an `Outcome`. `window.confirm` becomes a boolean argument of `Delete`. `new Date().toLocaleString()` becomes an opaque string argument. The model does not capture the clock or the dialogs.
- Ids are unbounded integers. In JavaScript they are doubles, so `maxTestId + 1` (`src/TestForm.js:116-122`) stops growing at 2^53, and `Math.max(...ids, 0)` throws a `RangeError` once the table has more rows than the engine accepts as arguments. Neither case is modelled; both need far more rows than a user can enter through the form.
- Strings are sequences of Unicode code points, not UTF-16 code units. A character outside the Basic Multilingual Plane counts as one character here and as two in JavaScript. None of the three patterns, and no whitespace character, involves such characters.
- `TestForm.InputChange`: the type field accepts any string. The rendered select offers only the empty option and the listed types. The keystroke rule still checks membership, which is exactly what the code does.
- `TestForm.StepPreservesValid` requires `Offered`: Edit and Delete fire only on rows of the table, because the rendered table offers them only there. An edit of a row from nowhere is outside what the component can receive.
- The change handler of the new-type box is the inline arrow at `src/TestForm.js:270`, modelled as `TestForm.NewTestTypeChange`.
