/** The generic edit modal of the front end: its form state, the change and
    submit handlers, the required-field validator and the rule deciding which
    fields are rendered. Values are the JavaScript values a form field holds. */
module GenericModal {
  import opened Outcomes

  datatype Value = Undefined | Null | Bool(b: bool) | Str(s: string) | Num(n: int)

  datatype FieldKind = Text | Number | Select | Date

  datatype SelectOption = SelectOption(value: string, caption: string)

  /** A field descriptor (its label is `caption`); `onlyEditable` and `options` may be absent. */
  datatype Field = Field(kind: FieldKind, caption: string, editable: bool,
                         onlyEditable: Option<bool>, options: Option<seq<SelectOption>>)

  /** A record of form values, keyed by field name. */
  type Record = map<string, Value>

  const Required := "This field is required"

  /** Reading a key that the record does not hold gives `undefined`. */
  function Get(r: Record, k: string): (v: Value)
    ensures k !in r ==> v == Undefined
  {
    if k in r then r[k] else Undefined
  }

  /** JavaScript truthiness. */
  predicate Truthy(v: Value) {
    match v
    case Undefined => false
    case Null => false
    case Bool(b) => b
    case Str(s) => s != ""
    case Num(n) => n != 0
  }

  /** An existing record is one whose initial values carry a truthy `id`. */
  predicate IsExisting(initial: Record) {
    Truthy(Get(initial, "id"))
  }

  /** The values the required check rejects: undefined, null and the empty string. */
  predicate Blank(v: Value) {
    v == Undefined || v == Null || v == Str("")
  }

  // ---------------------------------------------------------------------------
  // What each field contributes to the verdict
  // ---------------------------------------------------------------------------

  /** Field `i` is editable and its value is blank. */
  predicate FailsAt(fields: seq<(string, Field)>, values: Record, i: int)
    requires 0 <= i < |fields|
  {
    fields[i].1.editable && Blank(Get(values, fields[i].0))
  }

  /** Field `i`, on a new record, sets the running verdict back to valid. */
  predicate ResetsAt(fields: seq<(string, Field)>, initial: Record, i: int)
    requires 0 <= i < |fields|
  {
    fields[i].1.editable && fields[i].1.onlyEditable == Some(true) && !IsExisting(initial)
  }

  /** Field `i`, on an existing record, differs from its initial value. */
  predicate ChangedAt(fields: seq<(string, Field)>, values: Record, initial: Record, i: int)
    requires 0 <= i < |fields|
  {
    fields[i].1.editable && IsExisting(initial) && Get(values, fields[i].0) != Get(initial, fields[i].0)
  }

  /** The validator's verdict: every failing field is followed, at its own
      position or later, by a resetting field, and an existing record has a change. */
  predicate Verdict(fields: seq<(string, Field)>, values: Record, initial: Record)
    ensures Verdict(fields, values, initial) && IsExisting(initial) ==>
      forall i :: 0 <= i < |fields| ==> !FailsAt(fields, values, i)
  {
    && (forall i :: 0 <= i < |fields| && FailsAt(fields, values, i) ==>
          exists j :: i <= j < |fields| && ResetsAt(fields, initial, j))
    && (IsExisting(initial) ==> exists i :: 0 <= i < |fields| && ChangedAt(fields, values, initial, i))
  }

  /** The verdict kept while walking the first `n` fields, before the final
      check for changes: the last field that resets or fails decides. */
  ghost function RunningVerdict(fields: seq<(string, Field)>, values: Record, initial: Record, n: int): bool
    requires 0 <= n <= |fields|
  {
    if n == 0 then true
    else if ResetsAt(fields, initial, n - 1) then true
    else if FailsAt(fields, values, n - 1) then false
    else RunningVerdict(fields, values, initial, n - 1)
  }

  /** Whether one of the first `n` fields changed. */
  ghost function ChangedBefore(fields: seq<(string, Field)>, values: Record, initial: Record, n: int): bool
    requires 0 <= n <= |fields|
  {
    n > 0 && (ChangedAt(fields, values, initial, n - 1) || ChangedBefore(fields, values, initial, n - 1))
  }

  /** The running verdict holds exactly when every failure so far is answered
      by a reset at its position or later. */
  lemma {:induction false} RunningVerdictMeaning(fields: seq<(string, Field)>, values: Record, initial: Record, n: int)
    requires 0 <= n <= |fields|
    ensures RunningVerdict(fields, values, initial, n) <==>
      forall j :: 0 <= j < n && FailsAt(fields, values, j) ==>
        exists m :: j <= m < n && ResetsAt(fields, initial, m)
  {
    if n > 0 {
      RunningVerdictMeaning(fields, values, initial, n - 1);
      if ResetsAt(fields, initial, n - 1) {
        forall j | 0 <= j < n && FailsAt(fields, values, j)
          ensures exists m :: j <= m < n && ResetsAt(fields, initial, m)
        {
          assert j <= n - 1;
        }
      } else if !FailsAt(fields, values, n - 1) {
        if RunningVerdict(fields, values, initial, n - 1) {
          forall j | 0 <= j < n && FailsAt(fields, values, j)
            ensures exists m :: j <= m < n && ResetsAt(fields, initial, m)
          {
            var m :| j <= m < n - 1 && ResetsAt(fields, initial, m);
          }
        } else {
          var j :| 0 <= j < n - 1 && FailsAt(fields, values, j) &&
            !exists m :: j <= m < n - 1 && ResetsAt(fields, initial, m);
          assert !exists m :: j <= m < n && ResetsAt(fields, initial, m);
        }
      } else {
        assert !exists m :: n - 1 <= m < n && ResetsAt(fields, initial, m);
      }
    }
  }

  lemma {:induction false} ChangedBeforeMeaning(fields: seq<(string, Field)>, values: Record, initial: Record, n: int)
    requires 0 <= n <= |fields|
    ensures ChangedBefore(fields, values, initial, n) <==> exists j :: 0 <= j < n && ChangedAt(fields, values, initial, j)
  {
    if n > 0 {
      ChangedBeforeMeaning(fields, values, initial, n - 1);
    }
  }

  /** The names of the failing fields among the first `n`. */
  function FailingKeys(fields: seq<(string, Field)>, values: Record, n: int): set<string>
    requires 0 <= n <= |fields|
  {
    set i | 0 <= i < n && FailsAt(fields, values, i) :: fields[i].0
  }

  /** The error messages the validator records: one per failing field. */
  function RequiredErrors(fields: seq<(string, Field)>, values: Record): map<string, string> {
    map k | k in FailingKeys(fields, values, |fields|) :: Required
  }

  // ---------------------------------------------------------------------------
  // The validator
  // ---------------------------------------------------------------------------

  /** Walks the fields in order, recording an error for every blank editable
      field; on a new record an editable only-editable field resets the verdict
      to valid; an existing record without any change is invalid. */
  method ValidateForm(fields: seq<(string, Field)>, values: Record, initial: Record)
    returns (isValid: bool, errors: map<string, string>)
    ensures isValid == Verdict(fields, values, initial)
    ensures errors == RequiredErrors(fields, values)
  {
    errors := map[];
    isValid := true;
    var hasChanges := false;
    var existing := Truthy(Get(initial, "id"));
    for i := 0 to |fields|
      invariant isValid == RunningVerdict(fields, values, initial, i)
      invariant hasChanges == ChangedBefore(fields, values, initial, i)
      invariant errors.Keys == FailingKeys(fields, values, i)
      invariant forall k :: k in errors ==> errors[k] == Required
    {
      var (key, field) := fields[i];
      var value := Get(values, key);
      var initialValue := Get(initial, key);
      if field.editable {
        if value == Undefined || value == Null || value == Str("") {
          errors := errors[key := Required];
          isValid := false;
        }
        if existing && value != initialValue {
          hasChanges := true;
        }
        if field.onlyEditable == Some(true) && !existing {
          isValid := true;
        }
      }
      FailingKeysStep(fields, values, i);
    }
    if existing && !hasChanges {
      isValid := false;
    }
    RunningVerdictMeaning(fields, values, initial, |fields|);
    ChangedBeforeMeaning(fields, values, initial, |fields|);
  }

  /** The failing keys of a longer prefix add the next field's key when it fails. */
  lemma FailingKeysStep(fields: seq<(string, Field)>, values: Record, i: int)
    requires 0 <= i < |fields|
    ensures FailingKeys(fields, values, i + 1) ==
      FailingKeys(fields, values, i) + (if FailsAt(fields, values, i) then {fields[i].0} else {})
  {
    var before, after := FailingKeys(fields, values, i), FailingKeys(fields, values, i + 1);
    forall k | k in after
      ensures k in before || (FailsAt(fields, values, i) && k == fields[i].0)
    {
      var j :| 0 <= j < i + 1 && FailsAt(fields, values, j) && fields[j].0 == k;
      if j < i {
        assert k in before;
      }
    }
  }

  // ---------------------------------------------------------------------------
  // Properties of the verdict
  // ---------------------------------------------------------------------------

  /** The position of the last resetting field, or -1 when there is none. */
  function LastReset(fields: seq<(string, Field)>, initial: Record, n: int): (r: int)
    requires 0 <= n <= |fields|
    ensures -1 <= r < n
    ensures r >= 0 ==> ResetsAt(fields, initial, r)
    ensures forall j :: r < j < n ==> !ResetsAt(fields, initial, j)
  {
    if n == 0 then -1
    else if ResetsAt(fields, initial, n - 1) then n - 1
    else LastReset(fields, initial, n - 1)
  }

  /** For a new record the verdict is false exactly when some required field
      fails after the last resetting field. */
  lemma NewRecordVerdict(fields: seq<(string, Field)>, values: Record, initial: Record)
    requires !IsExisting(initial)
    ensures Verdict(fields, values, initial) <==>
      forall i :: 0 <= i < |fields| && FailsAt(fields, values, i) ==> i <= LastReset(fields, initial, |fields|)
  {
    var last := LastReset(fields, initial, |fields|);
    forall i | 0 <= i < |fields| && FailsAt(fields, values, i) && i <= last
      ensures exists j :: i <= j < |fields| && ResetsAt(fields, initial, j)
    {
      assert ResetsAt(fields, initial, last);
    }
  }

  /** For an existing record no field resets, so a single blank editable field
      makes the form invalid, and so does the absence of any change. */
  lemma ExistingRecordVerdict(fields: seq<(string, Field)>, values: Record, initial: Record)
    requires IsExisting(initial)
    ensures Verdict(fields, values, initial) <==>
      && (forall i :: 0 <= i < |fields| ==> !FailsAt(fields, values, i))
      && (exists i :: 0 <= i < |fields| && ChangedAt(fields, values, initial, i))
  {
    assert forall j :: 0 <= j < |fields| ==> !ResetsAt(fields, initial, j);
  }

  /** The order matters: on a new record a missing required name followed by
      an only-editable field leaves the form valid, with the error recorded. */
  lemma ResetHidesMissingField()
    ensures var fields := [("name", Field(Text, "Name", true, None, None)),
                           ("status", Field(Text, "Status", true, Some(true), None))];
      && Verdict(fields, map[], map[])
      && RequiredErrors(fields, map[]) == map["name" := Required, "status" := Required]
      && !Verdict([fields[1], fields[0]], map[], map[])
  {
    var fields := [("name", Field(Text, "Name", true, None, None)),
                   ("status", Field(Text, "Status", true, Some(true), None))];
    assert FailsAt(fields, map[], 0) && FailsAt(fields, map[], 1);
    assert ResetsAt(fields, map[], 1);
    assert FailingKeys(fields, map[], 2) == {"name", "status"} by {
      assert fields[0].0 == "name" && fields[1].0 == "status";
    }
    var swapped := [fields[1], fields[0]];
    assert FailsAt(swapped, map[], 1) && !ResetsAt(swapped, map[], 1);
  }

  /** A field that is not editable never fails, never resets and never counts as
      a change: changing its value changes neither the verdict nor the errors. */
  lemma NonEditableIgnored(fields: seq<(string, Field)>, values: Record, initial: Record, k: string, v: Value)
    requires forall i :: 0 <= i < |fields| && fields[i].0 == k ==> !fields[i].1.editable
    ensures Verdict(fields, values[k := v], initial) == Verdict(fields, values, initial)
    ensures RequiredErrors(fields, values[k := v]) == RequiredErrors(fields, values)
  {
    forall i | 0 <= i < |fields|
      ensures FailsAt(fields, values[k := v], i) == FailsAt(fields, values, i)
      ensures ChangedAt(fields, values[k := v], initial, i) == ChangedAt(fields, values, initial, i)
    {
    }
    var updated := values[k := v];
    assert (forall i :: 0 <= i < |fields| && FailsAt(fields, updated, i) ==>
              exists j :: i <= j < |fields| && ResetsAt(fields, initial, j)) <==>
           (forall i :: 0 <= i < |fields| && FailsAt(fields, values, i) ==>
              exists j :: i <= j < |fields| && ResetsAt(fields, initial, j));
    if exists i :: 0 <= i < |fields| && ChangedAt(fields, updated, initial, i) {
      var i :| 0 <= i < |fields| && ChangedAt(fields, updated, initial, i);
      assert ChangedAt(fields, values, initial, i);
    }
    if exists i :: 0 <= i < |fields| && ChangedAt(fields, values, initial, i) {
      var i :| 0 <= i < |fields| && ChangedAt(fields, values, initial, i);
      assert ChangedAt(fields, updated, initial, i);
    }
    assert FailingKeys(fields, updated, |fields|) == FailingKeys(fields, values, |fields|);
  }

  /** The errors name exactly the blank editable fields, each with the required message. */
  lemma ErrorsNameBlankEditableFields(fields: seq<(string, Field)>, values: Record, k: string)
    ensures k in RequiredErrors(fields, values) <==>
      exists i :: 0 <= i < |fields| && fields[i].0 == k && fields[i].1.editable && Blank(Get(values, k))
    ensures k in RequiredErrors(fields, values) ==> RequiredErrors(fields, values)[k] == "This field is required"
  {
    if exists i :: 0 <= i < |fields| && fields[i].0 == k && fields[i].1.editable && Blank(Get(values, k)) {
      var i :| 0 <= i < |fields| && fields[i].0 == k && fields[i].1.editable && Blank(Get(values, k));
      assert FailsAt(fields, values, i);
    }
  }

  // ---------------------------------------------------------------------------
  // Form state and handlers
  // ---------------------------------------------------------------------------

  /** The modal's state: the current values and the error shown under each field. */
  datatype FormState = FormState(values: Record, errors: map<string, string>)

  /** An error is shown under a field when its message is a non-empty string. */
  predicate ErrorShown(st: FormState, k: string) {
    k in st.errors && st.errors[k] != ""
  }

  /** A field edit stores the new value under its key and clears that key's
      error; every other key keeps its value and its error message. */
  function HandleChange(st: FormState, k: string, v: Value): (r: FormState)
    ensures forall j :: Get(r.values, j) == if j == k then v else Get(st.values, j)
    ensures !ErrorShown(r, k)
    ensures forall j :: j != k ==> (ErrorShown(r, j) <==> ErrorShown(st, j))
    ensures r.errors.Keys == st.errors.Keys + {k} && r.errors[k] == ""
    ensures forall j :: j != k && j in st.errors ==> r.errors[j] == st.errors[j]
  {
    FormState(st.values[k := v], st.errors[k := ""])
  }

  /** Of two edits of the same field, the later one wins. */
  lemma LastEditWins(st: FormState, k: string, v1: Value, v2: Value)
    ensures HandleChange(HandleChange(st, k, v1), k, v2) == HandleChange(st, k, v2)
  {
    var twice, once := HandleChange(HandleChange(st, k, v1), k, v2), HandleChange(st, k, v2);
    assert twice.values == once.values;
    assert twice.errors == once.errors;
  }

  /** Typing a non-empty text into a field answers its required check. */
  lemma EditAnswersRequired(fields: seq<(string, Field)>, st: FormState, i: int, s: string)
    requires 0 <= i < |fields| && s != ""
    ensures !FailsAt(fields, HandleChange(st, fields[i].0, Str(s)).values, i)
  {
  }

  /** Submission: when the form validates, its values are handed to the submit
      callback, the errors are cleared and the modal closes; otherwise the
      validator's errors are shown and nothing is submitted. */
  method HandleSubmit(fields: seq<(string, Field)>, st: FormState, initial: Record)
    returns (next: FormState, submitted: Option<Record>, closed: bool)
    ensures submitted.Some? <==> Verdict(fields, st.values, initial)
    ensures closed <==> submitted.Some?
    ensures submitted.Some? ==> submitted.value == st.values && next.errors == map[]
    ensures submitted.None? ==> next.errors == RequiredErrors(fields, st.values)
    ensures next.values == st.values
  {
    var isValid, errors := ValidateForm(fields, st.values, initial);
    next := st.(errors := errors);
    submitted, closed := None, false;
    if isValid {
      submitted := Some(st.values);
      next := next.(errors := map[]);
      closed := true;
    }
  }

  // ---------------------------------------------------------------------------
  // Rendering
  // ---------------------------------------------------------------------------

  /** Whether the modal renders a field: text, number and select fields (the
      last only with options) are shown when `onlyEditable` is absent, or when
      it is true and the record exists; date fields never are. */
  predicate Shown(f: Field, initial: Record)
    ensures Shown(f, initial) ==> f.kind != Date && f.onlyEditable != Some(false)
  {
    && (f.kind == Text || f.kind == Number || (f.kind == Select && f.options.Some?))
    && ((IsExisting(initial) && f.onlyEditable == Some(true)) || f.onlyEditable.None?)
  }

  /** Date fields are never rendered, nor is a field whose `onlyEditable` is false. */
  lemma NeverShown(f: Field, initial: Record)
    ensures f.kind == Date ==> !Shown(f, initial)
    ensures f.onlyEditable == Some(false) ==> !Shown(f, initial)
    ensures f.kind == Select && f.options.None? ==> !Shown(f, initial)
  {
  }

  /** The fields that reset the verdict on a new record are exactly the
      editable ones the modal hides from a new record for being only-editable. */
  lemma ResettingFieldsAreHidden(fields: seq<(string, Field)>, initial: Record, i: int)
    requires 0 <= i < |fields|
    ensures ResetsAt(fields, initial, i) ==> !Shown(fields[i].1, initial)
    ensures ResetsAt(fields, initial, i) <==>
      fields[i].1.editable && fields[i].1.onlyEditable == Some(true) && !IsExisting(initial)
  {
  }

  /** For a new record a field is shown exactly when it has no `onlyEditable`
      and is a text, number or optioned select field. */
  lemma NewRecordShows(f: Field, initial: Record)
    requires !IsExisting(initial)
    ensures Shown(f, initial) <==>
      f.onlyEditable.None? && (f.kind == Text || f.kind == Number || (f.kind == Select && f.options.Some?))
  {
  }
}
