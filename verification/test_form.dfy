/**
  The `TestForm` component's state and its handlers, each one atomic transition
  from a state to the next. `alert` becomes an `Outcome` that carries the message
  and the unchanged state, `window.confirm` a boolean argument, and the
  `new Date().toLocaleString()` timestamp an opaque string argument.
 */
module TestForm {
  import opened Wrappers
  import opened Text
  import opened Records
  import opened Validation
  import opened Store

  const SeedTypes: seq<string> := ["PHP", "Node Js", "React Js"]
  const EmptyTypeMsg := "Please enter a non-empty test type."
  const DuplicateTypeMsg := "Test type already exists!"

  /** The component's state hooks: the draft bound to the form, the test-type list,
      the stored table, the pending new-type input and the per-field errors. */
  datatype State = State(
    form: Record,
    testTypes: seq<string>,
    table: seq<Record>,
    newTestType: string,
    errors: Errors)

  const Initial := State(EmptyRecord, SeedTypes, [], "", NoErrors)

  /** A handler's effect: the next state, and the message of the `alert` it raised, if any. */
  datatype Outcome = Outcome(state: State, alert: Option<string>)

  /** The row background colour of a test type. */
  datatype Colour = Green | Yellow | Orange

  // ---------------------------------------------------------------------------
  // Handlers

  /** `handleInputChange`: store the keystroke in field `f` of the draft and
      re-validate that field alone. */
  function InputChange(st: State, f: Field, v: string): (st': State)
    ensures FieldValue(st'.form, f) == v
    ensures forall g :: g != f ==> FieldValue(st'.form, g) == FieldValue(st.form, g)
    ensures st'.form.testId == st.form.testId
    ensures st'.form.creationDate == st.form.creationDate
    ensures st'.form.lastUpdationDate == st.form.lastUpdationDate
    ensures st'.errors.Get(f) == "" <==> LiveValid(f, v, st.testTypes)
    ensures st'.errors.Get(f) != "" ==> st'.errors.Get(f) == LiveMessage(f)
    ensures forall g :: g != f ==> st'.errors.Get(g) == st.errors.Get(g)
    ensures st'.table == st.table && st'.testTypes == st.testTypes && st'.newTestType == st.newTestType
  {
    st.(form := WithField(st.form, f, v), errors := st.errors.Set(f, LiveError(f, v, st.testTypes)))
  }

  /** The change handler of the new-type input: remember the pending name. */
  function NewTestTypeChange(st: State, name: string): (st': State)
    ensures st'.newTestType == name
    ensures st'.form == st.form && st'.table == st.table && st'.testTypes == st.testTypes && st'.errors == st.errors
  {
    st.(newTestType := name)
  }

  /** `handleCreateTestType`: a whitespace-only name or one already listed raises an
      alert and changes nothing; otherwise the name, untrimmed, is appended to the
      list, chosen as the draft's type, and the pending input is cleared. */
  function CreateTestType(st: State): (o: Outcome)
    ensures AllSpace(st.newTestType) ==> o == Outcome(st, Some(EmptyTypeMsg))
    ensures !AllSpace(st.newTestType) && st.newTestType in st.testTypes ==> o == Outcome(st, Some(DuplicateTypeMsg))
    ensures o.alert.None? <==> !AllSpace(st.newTestType) && st.newTestType !in st.testTypes
    ensures o.alert.None? ==>
      && o.state.testTypes == st.testTypes + [st.newTestType]
      && o.state.form == st.form.(testType := st.newTestType)
      && o.state.newTestType == ""
      && o.state.table == st.table && o.state.errors == st.errors
  {
    var name := st.newTestType;
    if IsBlank(name) then Outcome(st, Some(EmptyTypeMsg))
    else if name !in st.testTypes then
      Outcome(st.(testTypes := st.testTypes + [name], form := st.form.(testType := name), newTestType := ""), None)
    else Outcome(st, Some(DuplicateTypeMsg))
  }

  /** `handleFormSubmit`: the submit-time errors always replace the error map. A
      draft with any error set changes nothing else. A draft with none, which by
      `SubmitGate` is one satisfying `SubmitReady`, is appended and stays in the form
      in create mode; in edit mode it overwrites its row and the form is reset. */
  function Submit(st: State, now: string): (st': State)
    ensures st'.errors == SubmitErrors(st.form)
    ensures st'.testTypes == st.testTypes && st'.newTestType == st.newTestType
    ensures !st'.errors.AllClear() ==> st'.table == st.table && st'.form == st.form
    ensures st'.errors.AllClear() && st.form.testId.None? ==>
      st'.table == Create(st.table, st.form, now) && st'.form == st.form
    ensures st'.errors.AllClear() && st.form.testId.Some? ==>
      st'.table == Update(st.table, st.form, now) && st'.form == EmptyRecord
  {
    var errors := SubmitErrors(st.form);
    if !errors.AllClear() then st.(errors := errors)
    else if st.form.testId.None? then st.(errors := errors, table := Create(st.table, st.form, now))
    else st.(errors := errors, table := Update(st.table, st.form, now), form := EmptyRecord)
  }

  /** `handleEdit`: the chosen row becomes the draft, wholesale. */
  function Edit(st: State, row: Record): (st': State)
    ensures st'.form == row
    ensures st'.table == st.table && st'.testTypes == st.testTypes
    ensures st'.newTestType == st.newTestType && st'.errors == st.errors
  {
    st.(form := row)
  }

  /** `handleDelete`: without confirmation nothing changes; with it, every row with
      the chosen row's id is dropped and the form is reset. */
  function Delete(st: State, row: Record, confirmed: bool): (st': State)
    ensures !confirmed ==> st' == st
    ensures confirmed ==> st'.table == Remove(st.table, row.testId) && st'.form == EmptyRecord
    ensures st'.testTypes == st.testTypes && st'.newTestType == st.newTestType && st'.errors == st.errors
  {
    if confirmed then st.(table := Remove(st.table, row.testId), form := EmptyRecord) else st
  }

  /** `getRowColor`: PHP is green, Node Js yellow, anything else orange. */
  function RowColor(testType: string): (c: Colour)
    ensures c == Green <==> testType == "PHP"
    ensures c == Yellow <==> testType == "Node Js"
    ensures c == Orange <==> testType != "PHP" && testType != "Node Js"
  {
    if testType == "PHP" then Green
    else if testType == "Node Js" then Yellow
    else Orange
  }

  // ---------------------------------------------------------------------------
  // The component as a state machine

  /** The user actions the rendered form wires to the handlers. */
  datatype Event =
    | Keystroke(field: Field, value: string)
    | NewTypeKeystroke(name: string)
    | CreateType
    | SubmitForm(now: string)
    | EditRow(row: Record)
    | DeleteRow(row: Record, confirmed: bool)

  /** One user action, dispatched to its handler. Only a submit or a delete touches
      the table, only the create-type button the type list, only a keystroke or a
      submit the error map, and only the new-type box or its button the pending name. */
  function Step(st: State, ev: Event): (st': State)
    ensures !ev.SubmitForm? && !ev.DeleteRow? ==> st'.table == st.table
    ensures !ev.CreateType? ==> st'.testTypes == st.testTypes
    ensures !ev.Keystroke? && !ev.SubmitForm? ==> st'.errors == st.errors
    ensures !ev.NewTypeKeystroke? && !ev.CreateType? ==> st'.newTestType == st.newTestType
  {
    match ev
    case Keystroke(f, v) => InputChange(st, f, v)
    case NewTypeKeystroke(name) => NewTestTypeChange(st, name)
    case CreateType => CreateTestType(st).state
    case SubmitForm(now) => Submit(st, now)
    case EditRow(row) => Edit(st, row)
    case DeleteRow(row, confirmed) => Delete(st, row, confirmed)
  }

  /** The rendered form offers Edit and Delete only on rows of the table. */
  ghost predicate Offered(st: State, ev: Event) {
    match ev
    case EditRow(row) => row in st.table
    case DeleteRow(row, _) => row in st.table
    case _ => true
  }

  ghost predicate Distinct(xs: seq<string>) {
    forall i, j :: 0 <= i < j < |xs| ==> xs[i] != xs[j]
  }

  /** What every reachable state satisfies: ids unique and ascending down the table,
      every stored row passed the submit check, the type list holds no name twice,
      and a draft in create mode carries no dates. */
  ghost predicate Valid(st: State) {
    && IdsAscending(st.table)
    && RowsReady(st.table)
    && Distinct(st.testTypes)
    && (st.form.testId.None? ==> st.form.creationDate == "" && st.form.lastUpdationDate == "")
  }

  lemma InitialValid()
    ensures Valid(Initial)
    ensures DraftTracksRow(Initial)
  {
  }

  lemma CreateTestTypeKeepsDistinct(st: State)
    requires Distinct(st.testTypes)
    ensures Distinct(CreateTestType(st).state.testTypes)
  {
  }

  /** Rows that agree on the five editable fields pass or fail the submit check together. */
  lemma SameFieldsSameVerdict(a: Record, b: Record)
    requires forall f :: FieldValue(a, f) == FieldValue(b, f)
    ensures SubmitReady(a) == SubmitReady(b)
  {
    assert FieldValue(a, TestName) == FieldValue(b, TestName);
    assert FieldValue(a, TestType) == FieldValue(b, TestType);
    assert FieldValue(a, TesterEmail) == FieldValue(b, TesterEmail);
    assert FieldValue(a, TesterMobile) == FieldValue(b, TesterMobile);
    assert FieldValue(a, AlternativeNo) == FieldValue(b, AlternativeNo);
  }

  /** Every row of `t` passed the submit check. */
  ghost predicate RowsReady(t: seq<Record>) {
    forall i :: 0 <= i < |t| ==> SubmitReady(t[i])
  }

  lemma AppendKeepsReady(t: seq<Record>, r: Record)
    requires RowsReady(t) && SubmitReady(r)
    ensures RowsReady(t + [r])
  {
    forall i | 0 <= i < |t| + 1 ensures SubmitReady((t + [r])[i]) {
      if i < |t| {
        assert (t + [r])[i] == t[i];
      } else {
        assert (t + [r])[i] == r;
      }
    }
  }

  lemma CreatedRowReady(table: seq<Record>, d: Record, now: string)
    requires SubmitReady(d)
    ensures SubmitReady(Create(table, d, now)[|table|])
  {
    var r := Create(table, d, now)[|table|];
    assert r == d.(testId := r.testId, creationDate := now);
    SameFieldsSameVerdict(d, r);
  }

  lemma CreateKeepsReady(table: seq<Record>, d: Record, now: string)
    requires RowsReady(table) && SubmitReady(d)
    ensures RowsReady(Create(table, d, now))
  {
    var t := Create(table, d, now);
    CreatedRowReady(table, d, now);
    assert t == table + [t[|table|]];
    AppendKeepsReady(table, t[|table|]);
  }

  lemma CreatePreservesValid(st: State, now: string)
    requires Valid(st) && SubmitReady(st.form) && st.form.testId.None?
    ensures Valid(st.(table := Create(st.table, st.form, now)))
  {
    CreateKeepsReady(st.table, st.form, now);
    CreateKeepsAscending(st.table, st.form, now);
  }

  lemma UpdateKeepsReady(table: seq<Record>, d: Record, now: string)
    requires RowsReady(table) && SubmitReady(d)
    ensures RowsReady(Update(table, d, now))
  {
    SameFieldsSameVerdict(d, Updated(d, now));
    UpdateKeepsAll(table, d, now, SubmitReady);
  }

  lemma UpdatePreservesValid(st: State, now: string)
    requires Valid(st) && SubmitReady(st.form)
    ensures Valid(st.(table := Update(st.table, st.form, now), form := EmptyRecord))
  {
    UpdateKeepsReady(st.table, st.form, now);
    UpdateKeepsAscending(st.table, st.form, now);
  }

  lemma SubmitPreservesValid(st: State, now: string)
    requires Valid(st)
    ensures Valid(Submit(st, now))
  {
    SubmitGate(st.form);
    if SubmitReady(st.form) {
      if st.form.testId.None? {
        CreatePreservesValid(st, now);
      } else {
        UpdatePreservesValid(st, now);
      }
    }
  }

  lemma DeletePreservesValid(st: State, row: Record, confirmed: bool)
    requires Valid(st)
    ensures Valid(Delete(st, row, confirmed))
  {
    if confirmed {
      RemoveKeepsAscending(st.table, row.testId);
      RemoveContents(st.table, row.testId);
      var t := Remove(st.table, row.testId);
      forall i | 0 <= i < |t| ensures SubmitReady(t[i]) {
        assert t[i] in st.table;
      }
    }
  }

  /** Every handler keeps the state valid. */
  lemma StepPreservesValid(st: State, ev: Event)
    requires Valid(st) && Offered(st, ev)
    ensures Valid(Step(st, ev))
  {
    match ev
    case Keystroke(f, v) =>
    case NewTypeKeystroke(name) =>
    case CreateType => CreateTestTypeKeepsDistinct(st);
    case SubmitForm(now) => SubmitPreservesValid(st, now);
    case EditRow(row) =>
      var k :| 0 <= k < |st.table| && st.table[k] == row;
    case DeleteRow(row, confirmed) => DeletePreservesValid(st, row, confirmed);
  }

  /** Two records share an origin: the same id and the same creation time. */
  predicate SameOrigin(a: Record, b: Record) {
    a.testId == b.testId && a.creationDate == b.creationDate
  }

  /** In edit mode the draft carries the id and creation time of a stored row: only
      `handleEdit` puts an id into the form, the hidden date inputs have no change
      handler, and every handler that changes the table either keeps the draft in
      create mode or resets it. */
  ghost predicate DraftTracksRow(st: State) {
    st.form.testId.Some? ==> exists k :: 0 <= k < |st.table| && SameOrigin(st.table[k], st.form)
  }

  /** Every handler keeps the edit-mode draft tied to a stored row. */
  lemma StepKeepsDraftTracking(st: State, ev: Event)
    requires DraftTracksRow(st) && Offered(st, ev)
    ensures DraftTracksRow(Step(st, ev))
  {
    var st' := Step(st, ev);
    if st'.form.testId.Some? {
      match ev
      case Keystroke(f, v) =>
        var k :| 0 <= k < |st.table| && SameOrigin(st.table[k], st.form);
        assert SameOrigin(st'.table[k], st'.form);
      case NewTypeKeystroke(name) =>
        var k :| 0 <= k < |st.table| && SameOrigin(st.table[k], st.form);
        assert SameOrigin(st'.table[k], st'.form);
      case CreateType =>
        var k :| 0 <= k < |st.table| && SameOrigin(st.table[k], st.form);
        assert SameOrigin(st'.table[k], st'.form);
      case SubmitForm(now) =>
        var k :| 0 <= k < |st.table| && SameOrigin(st.table[k], st.form);
        assert st' == st.(errors := st'.errors);
        assert SameOrigin(st'.table[k], st'.form);
      case EditRow(row) =>
        var k :| 0 <= k < |st.table| && st.table[k] == row;
        assert SameOrigin(st'.table[k], st'.form);
      case DeleteRow(row, confirmed) =>
        var k :| 0 <= k < |st.table| && SameOrigin(st.table[k], st.form);
        assert SameOrigin(st'.table[k], st'.form);
    }
  }

  /** A creation time, once stored, is never overwritten: after any submit every row
      that was stored keeps its place, its id and its creation time. */
  lemma SubmitKeepsCreationDates(st: State, now: string, k: nat)
    requires IdsAscending(st.table) && DraftTracksRow(st) && k < |st.table|
    ensures var t := Submit(st, now).table;
            && k < |t|
            && t[k].testId == st.table[k].testId
            && t[k].creationDate == st.table[k].creationDate
  {
    SubmitGate(st.form);
    if SubmitReady(st.form) {
      if st.form.testId.None? {
        var t := Create(st.table, st.form, now);
        assert t[k] == t[..|st.table|][k];
      } else {
        var j :| 0 <= j < |st.table| && SameOrigin(st.table[j], st.form);
        UpdateKeepsCreationDates(st.table, st.form, now, j);
      }
    }
  }

  // ---------------------------------------------------------------------------
  // Consequences

  /** No stored row has its alternative number equal to its mobile number. */
  lemma StoredNumbersDiffer(st: State, k: nat)
    requires Valid(st) && k < |st.table|
    ensures st.table[k].alternativeNo != st.table[k].testerMobile
  {
    SubmittedNumbersDiffer(st.table[k]);
  }

  /** Choosing a stored row for editing and submitting it unchanged overwrites that
      row alone, keeps its id and creation time, stamps the update time and resets
      the form. */
  lemma EditThenSubmitUpdatesRow(st: State, k: nat, now: string)
    requires Valid(st) && k < |st.table|
    ensures var st' := Submit(Edit(st, st.table[k]), now);
            && st'.table == st.table[k := Updated(st.table[k], now)]
            && st'.table[k].testId == st.table[k].testId
            && st'.table[k].creationDate == st.table[k].creationDate
            && st'.table[k].lastUpdationDate == now
            && st'.form == EmptyRecord
  {
    var edited := Edit(st, st.table[k]);
    assert SubmitReady(edited.form);
    SubmitGate(edited.form);
    UpdateReplacesOne(st.table, st.table[k], now, k);
  }

  /** The create-mode quirk: a create leaves the draft in create mode, so submitting
      twice stores the same data twice, under two consecutive new ids. */
  lemma DoubleSubmitDuplicates(st: State, now1: string, now2: string)
    requires st.form.testId.None? && SubmitReady(st.form)
    ensures var st2 := Submit(Submit(st, now1), now2);
            var n := |st.table|;
            && |st2.table| == n + 2
            && st2.table[..n] == st.table
            && st2.table[n] == st.form.(testId := st2.table[n].testId, creationDate := now1)
            && st2.table[n + 1] == st.form.(testId := st2.table[n + 1].testId, creationDate := now2)
            && IdNumber(st2.table[n + 1]) == IdNumber(st2.table[n]) + 1
            && st2.form == st.form
  {
    SubmitGate(st.form);
    var st1 := Submit(st, now1);
    assert st1.table == Create(st.table, st.form, now1) && st1.form == st.form;
    var st2 := Submit(st1, now2);
    assert st2.table == Create(st1.table, st.form, now2) && st2.form == st.form;
    CreateTwice(st.table, st.form, now1, now2);
  }

  /** A delete of a stored row, confirmed, takes out that row alone, keeps the others
      in order, and resets the form. */
  lemma DeleteTakesOutRow(st: State, k: nat)
    requires Valid(st) && k < |st.table|
    ensures var st' := Delete(st, st.table[k], true);
            && st'.table == st.table[..k] + st.table[k + 1..]
            && st'.form == EmptyRecord
  {
    RemoveTakesOutOne(st.table, k);
  }

  /** The duplicate check compares untrimmed names: " PHP" is accepted as a new type
      although "PHP" is already listed. */
  lemma UntrimmedNameIsNotADuplicate(st: State)
    requires st.testTypes == SeedTypes && st.newTestType == " PHP"
    ensures CreateTestType(st).alert.None?
    ensures CreateTestType(st).state.testTypes == ["PHP", "Node Js", "React Js", " PHP"]
  {
    assert !IsSpace(st.newTestType[1]);
  }
}
