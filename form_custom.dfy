/**
 * The latest form revision, src/form-custom/form/form.component.jsx: a file
 * event stores a copy of the chosen files (or '' when none), a checkbox event
 * stores `checked`, any other event its value; reset restores the initial
 * state and clears every file input; submit hands over only the filled
 * fields and then triggers the reset.
 *
 * The helpers it imports from its own form.utils are taken to be those of
 * src/components/form/form.utils.js. The file inputs a reset clears (and
 * re-notifies with a change event) are returned as a set of field names.
 */
module CustomForm {
  import opened Js
  import opened FormUtils

  /** A file event always carries a file list, possibly empty. */
  predicate WellFormed(target: Target) {
    target.fieldType == Some("file") ==> target.files.Some?
  }

  /** The value stored for an event. */
  function NewValue(target: Target): (v: Value)
    requires WellFormed(target)
    ensures target.fieldType == Some("file") ==> (v == Str("") <==> target.files.value == [])
    ensures target.fieldType == Some("file") && target.files.value != [] ==> v == Files(target.files.value)
    ensures target.fieldType == Some("checkbox") ==> v == Bool(target.checked)
    ensures target.fieldType != Some("file") && target.fieldType != Some("checkbox") ==> v == target.value
  {
    if target.fieldType == Some("file") then
      (if |target.files.value| > 0 then Files(target.files.value) else Str(""))
    else if target.fieldType == Some("checkbox") then Bool(target.checked)
    else target.value
  }

  /**
   * The empty event an invalid file input sends has a type but no name, so
   * the '' it carries lands under the key "undefined", not under the field.
   */
  lemma NamelessFileEvent(state: map<string, Value>, value: Value)
    ensures var fake := Target(None, Some("file"), value, false, Some([]), "");
      state[PropertyKey(fake.name) := NewValue(fake)] == state["undefined" := Str("")]
  {
  }

  /** The checkbox-group event carries no type, so its array is stored as the value. */
  lemma CheckboxGroupStoresArray(name: string, flags: seq<Value>)
    ensures NewValue(Target(Some(name), None, List(flags), false, None, "")) == List(flags)
  {
  }

  // ---------------------------------------------------------------------
  // The submit snapshot
  // ---------------------------------------------------------------------

  /** The fields with a truthy value; arrays and objects are copied, which as values changes nothing. */
  function Filled(state: map<string, Value>): map<string, Value> {
    map k | k in state && Truthy(state[k]) :: state[k]
  }

  /** The `for (field in this.state)` loop that builds `filledFields`. */
  method FilledFields(state: map<string, Value>) returns (filled: map<string, Value>)
    ensures filled.Keys == set k | k in state && Truthy(state[k])
    ensures forall k :: k in filled ==> filled[k] == state[k]
  {
    filled := map[];
    var pending := state.Keys;
    while pending != {}
      invariant pending <= state.Keys
      invariant filled.Keys == set k | k in state && k !in pending && Truthy(state[k])
      invariant forall k :: k in filled ==> filled[k] == state[k]
      decreases |pending|
    {
      var field :| field in pending;
      if Truthy(state[field]) {
        filled := filled[field := state[field]];
      }
      pending := pending - {field};
    }
  }

  /** The loop's result is the filled-fields map. */
  lemma FilledFieldsMeaning(state: map<string, Value>, filled: map<string, Value>)
    requires filled.Keys == set k | k in state && Truthy(state[k])
    requires forall k :: k in filled ==> filled[k] == state[k]
    ensures filled == Filled(state)
  {
  }

  /** '' and false are dropped, a non-empty string is kept, and any array is kept, even one of false flags. */
  lemma FilledExample(state: map<string, Value>)
    requires state == map["a" := Str(""), "b" := Str("x"), "c" := Bool(false), "d" := List([Bool(false)])]
    ensures Filled(state) == map["b" := Str("x"), "d" := List([Bool(false)])]
  {
    var f := Filled(state);
    assert "b" in f && "d" in f;
    assert f.Keys == {"b", "d"};
  }

  // ---------------------------------------------------------------------
  // Props handed to each field
  // ---------------------------------------------------------------------

  /** `fieldValue`: the stored value, or null for a file field. */
  function FieldValue(field: Entry, state: map<string, Value>): (v: Value)
    ensures TypeOf(field) == Str("file") ==> v == Null
    ensures TypeOf(field) != Str("file") ==> v == Lookup(state, KeyOf(field))
  {
    if TypeOf(field) != Str("file") then Lookup(state, KeyOf(field)) else Null
  }

  /** `equalTo`: the current value of the referenced field, or null when the field names none. */
  function EqualToValue(field: Entry, state: map<string, Value>): (v: Value)
    ensures !Truthy(Lookup(field, "equalTo")) ==> v == Null
    ensures Truthy(Lookup(field, "equalTo")) ==> v == Lookup(state, ToPropertyKey(Lookup(field, "equalTo")))
  {
    var equalTo := Lookup(field, "equalTo");
    if Truthy(equalTo) then Lookup(state, ToPropertyKey(equalTo)) else Null
  }

  /** A confirmation field pointing at a password field sees the password as it is now. */
  lemma EqualToFollowsState(field: Entry, state: map<string, Value>, pass: Value)
    requires Lookup(field, "equalTo") == Str("password")
    ensures EqualToValue(field, state["password" := pass]) == pass
  {
  }

  class Form {
    const fields: seq<Entry>
    const btns: seq<Entry>
    const unsupported: seq<Entry>
    const fieldsRefs: map<string, Value>
    var state: map<string, Value>

    /** Classification, initial state and refs are computed once, from the schema. */
    constructor(formData: seq<Entry>, supported: set<string>, buttons: set<string>)
      requires forall i :: 0 <= i < |formData| ==> OptionsReadable(formData[i])
      ensures fields == WithTypeIn(formData, supported)
      ensures btns == WithTypeIn(formData, buttons - supported)
      ensures unsupported == WithTypeNotIn(formData, supported + buttons)
      ensures state == InitialState(fields)
      ensures fieldsRefs == RefTypes(fields)
    {
      var f, b, u := CalculateFieldsArrays(formData, supported, buttons);
      fields, btns, unsupported := f, b, u;
      WithTypeInMembers(formData, supported);
      forall i | 0 <= i < |f| ensures OptionsReadable(f[i]) {
        assert f[i] in formData;
      }
      var initial := CreateInitialState(f);
      var refs := BuildFieldsRefs(f);
      state, fieldsRefs := initial, refs;
    }

    method HandleChange(target: Target)
      requires WellFormed(target)
      modifies this`state
      ensures state == old(state)[PropertyKey(target.name) := NewValue(target)]
    {
      var key := PropertyKey(target.name);
      if target.fieldType == Some("file") {
        var filesCopy := target.files.value;
        state := state[key := if |filesCopy| > 0 then Files(filesCopy) else Str("")];
      } else if target.fieldType == Some("checkbox") {
        state := state[key := Bool(target.checked)];
      } else {
        state := state[key := target.value];
      }
    }

    /**
     * Reset merges the initial state into the state, as `setState` does, so
     * keys it lacks keep their values; every file-typed ref is cleared and
     * re-notified.
     */
    method HandleReset() returns (cleared: set<string>)
      modifies this`state
      ensures state == old(state) + InitialState(fields)
      ensures cleared == FileRefs(fieldsRefs)
    {
      state := state + InitialState(fields);
      cleared := FileInputs(fieldsRefs);
    }

    /** The parent receives the filled fields once; the form's reset follows. */
    method HandleSubmit() returns (filled: map<string, Value>, cleared: set<string>)
      modifies this`state
      ensures filled == Filled(old(state))
      ensures state == old(state) + InitialState(fields)
      ensures cleared == FileRefs(fieldsRefs)
    {
      filled := FilledFields(state);
      FilledFieldsMeaning(state, filled);
      cleared := HandleReset();
    }
  }

  /**
   * A key the initial state lacks, such as the "" an unnamed input writes or
   * the "undefined" of the fake file event, survives the reset's merge and
   * is submitted again by the next snapshot.
   */
  lemma StrayKeySurvivesReset(state: map<string, Value>, fields: seq<Entry>, key: string)
    requires key in state && Truthy(state[key]) && key !in InitialState(fields)
    ensures var after := state + InitialState(fields);
      key in Filled(after) && Filled(after)[key] == state[key]
  {
  }

  /** The `for (key in fieldsRefs)` walk of a reset, collecting the file inputs it clears. */
  method FileInputs(refs: map<string, Value>) returns (cleared: set<string>)
    ensures cleared == FileRefs(refs)
  {
    cleared := {};
    var pending := refs.Keys;
    while pending != {}
      invariant pending <= refs.Keys
      invariant cleared == FileRefs(refs) - pending
      decreases |pending|
    {
      var key :| key in pending;
      if refs[key] == Str("file") {
        cleared := cleared + {key};
      }
      pending := pending - {key};
    }
  }
}
