/**
 * The oldest form revision, src/form/form.component.jsx: the schema is split
 * by three independent filters, the state holds one value per named,
 * supported field, a change stores `files` or `value` under the event's
 * name, `confirmPassword` is checked against the stored password, reset
 * recomputes the initial state, and submit hands over the whole state.
 *
 * `setCustomValidity` calls are recorded in a map from field name to message.
 */
module ClassicForm {
  import opened Js
  import opened FormUtils

  /** This revision's own reduce: a key only for a truthy name with a supported type. */
  function LegacyInitialState(formData: seq<Entry>, supported: set<string>): map<string, Value>
    decreases |formData|
  {
    if formData == [] then map[]
    else
      var acc := LegacyInitialState(formData[..|formData| - 1], supported);
      var curr := formData[|formData| - 1];
      if Named(curr) && TypeIn(curr, supported) then acc[KeyOf(curr) := InitialValue(curr)] else acc
  }

  /** The local reduce is the shared one run over the supported entries only. */
  lemma {:induction false} LegacyInitialStateIsFiltered(formData: seq<Entry>, supported: set<string>)
    ensures LegacyInitialState(formData, supported) == InitialState(WithTypeIn(formData, supported))
    decreases |formData|
  {
    if formData != [] {
      var init, last := formData[..|formData| - 1], formData[|formData| - 1];
      LegacyInitialStateIsFiltered(init, supported);
      var kept := WithTypeIn(formData, supported);
      if TypeIn(last, supported) {
        assert kept == WithTypeIn(init, supported) + [last];
        assert kept[..|kept| - 1] == WithTypeIn(init, supported) && kept[|kept| - 1] == last;
      } else {
        assert kept == WithTypeIn(init, supported);
      }
    }
  }

  /**
   * Buttons and unsupported entries contribute no key: the keys are exactly
   * the names of the supported entries that have a truthy name.
   */
  lemma LegacyInitialStateKeys(formData: seq<Entry>, supported: set<string>)
    ensures forall k :: k in LegacyInitialState(formData, supported) <==>
      exists e :: e in formData && Named(e) && TypeIn(e, supported) && KeyOf(e) == k
  {
    LegacyInitialStateIsFiltered(formData, supported);
    var kept := WithTypeIn(formData, supported);
    InitialStateKeys(kept);
    WithTypeInMembers(formData, supported);
    forall k | k in LegacyInitialState(formData, supported)
      ensures exists e :: e in formData && Named(e) && TypeIn(e, supported) && KeyOf(e) == k
    {
      var i :| 0 <= i < |kept| && Named(kept[i]) && KeyOf(kept[i]) == k;
      assert kept[i] in kept;
    }
    forall k | exists e :: e in formData && Named(e) && TypeIn(e, supported) && KeyOf(e) == k
      ensures k in LegacyInitialState(formData, supported)
    {
      var e :| e in formData && Named(e) && TypeIn(e, supported) && KeyOf(e) == k;
      var i :| 0 <= i < |kept| && kept[i] == e;
    }
  }

  /** The three filters: `btns` does not exclude supported types, unlike the later one-pass partition. */
  lemma ButtonFilterOverlap(formData: seq<Entry>, supported: set<string>, buttons: set<string>)
    ensures supported * buttons == {} ==> WithTypeIn(formData, buttons) == WithTypeIn(formData, buttons - supported)
    ensures forall e :: e in formData && TypeIn(e, supported) && TypeIn(e, buttons) ==>
      e in WithTypeIn(formData, supported) && e in WithTypeIn(formData, buttons)
  {
    WithTypeInMembers(formData, supported);
    WithTypeInMembers(formData, buttons);
    if supported * buttons == {} {
      forall x | x in buttons ensures x !in supported {
        assert x !in supported * buttons;
      }
      assert buttons - supported == buttons;
    }
  }

  /** The value `handleChange` stores: a file list when the target has one, else the value. */
  function NewValue(target: Target): Value {
    if target.files.Some? then Files(target.files.value) else target.value
  }

  const Mismatch: string := "Passwords don't match"

  /** The form's state and the validity message last set on each field. */
  datatype Session = Session(state: map<string, Value>, validity: map<string, string>)

  /**
   * One change event: the value is stored under the event's name, then
   * confirmPassword is checked through `fieldRef`. The handler's second
   * parameter defaults to null, and the form's own inputs call it with the
   * event alone; `fieldRef` says whether a caller passed a ref.
   */
  function Changed(s: Session, target: Target, fieldRef: bool): (r: Session)
    ensures r.state.Keys == s.state.Keys + {PropertyKey(target.name)}
    ensures forall k :: k in s.state && k != PropertyKey(target.name) ==> r.state[k] == s.state[k]
    ensures target.files.Some? ==> r.state[PropertyKey(target.name)] == Files(target.files.value)
    ensures target.files.None? ==> r.state[PropertyKey(target.name)] == target.value
    ensures target.name != Some("confirmPassword") || !fieldRef ==> r.validity == s.validity
    ensures target.name == Some("confirmPassword") && fieldRef ==>
      && "confirmPassword" in r.validity
      && (r.validity["confirmPassword"] == Mismatch <==> target.value != Lookup(s.state, "password"))
    ensures target.name == Some("confirmPassword") && fieldRef ==>
      r.validity == s.validity["confirmPassword" := if target.value != Lookup(s.state, "password") then Mismatch else ""]
  {
    var state := s.state[PropertyKey(target.name) := NewValue(target)];
    if target.name == Some("confirmPassword") && fieldRef then
      var message := if target.value != Lookup(s.state, "password") then Mismatch else "";
      Session(state, s.validity["confirmPassword" := message])
    else Session(state, s.validity)
  }

  /** A change event with no files and a string value for the named field. */
  function TextEvent(name: string, text: string): Target {
    Target(Some(name), Some("text"), Str(text), false, None, "")
  }

  /**
   * The check runs only when confirmPassword changes: editing the password
   * afterwards leaves a stale "" on confirmPassword although they now differ.
   */
  lemma StaleConfirmation(s: Session, pass: string, other: string)
    requires other != pass
    ensures var s1 := Changed(Changed(s, TextEvent("password", pass), true), TextEvent("confirmPassword", pass), true);
      var s2 := Changed(s1, TextEvent("password", other), true);
      && s2.validity["confirmPassword"] == ""
      && Lookup(s2.state, "password") != Lookup(s2.state, "confirmPassword")
  {
  }

  /**
   * Called with the event alone, as the form's inputs call it, a
   * confirmPassword change stores the value and then throws on the null
   * `fieldRef`: no message is ever set, whatever was typed.
   */
  lemma ConfirmationWithoutRef(s: Session, pass: string, typed: string)
    requires typed != pass
    ensures var s1 := Changed(Changed(s, TextEvent("password", pass), false), TextEvent("confirmPassword", typed), false);
      && s1.validity == s.validity
      && s1.state["confirmPassword"] == Str(typed) && s1.state["password"] == Str(pass)
  {
  }

  class Form {
    const formData: seq<Entry>
    const supported: set<string>
    const buttons: set<string>
    const fields: seq<Entry>
    const btns: seq<Entry>
    const unsupportedFields: seq<Entry>
    var state: map<string, Value>
    var validity: map<string, string>

    constructor(formData: seq<Entry>, supported: set<string>, buttons: set<string>)
      requires forall i :: 0 <= i < |formData| ==> OptionsReadable(formData[i])
      ensures this.formData == formData && this.supported == supported && this.buttons == buttons
      ensures state == LegacyInitialState(formData, supported) && validity == map[]
      ensures fields == WithTypeIn(formData, supported)
      ensures btns == WithTypeIn(formData, buttons)
      ensures unsupportedFields == WithTypeNotIn(formData, supported + buttons)
    {
      this.formData := formData;
      this.supported := supported;
      this.buttons := buttons;
      fields := WithTypeIn(formData, supported);
      btns := WithTypeIn(formData, buttons);
      unsupportedFields := WithTypeNotIn(formData, supported + buttons);
      state := LegacyInitialState(formData, supported);
      validity := map[];
    }

    /** `threw` reports the TypeError of `fieldRef.current` on a null ref; the state write before it stands. */
    method HandleChange(target: Target, fieldRef: bool) returns (threw: bool)
      modifies this`state, this`validity
      ensures Session(state, validity) == Changed(old(Session(state, validity)), target, fieldRef)
      ensures threw <==> target.name == Some("confirmPassword") && !fieldRef
    {
      threw := false;
      var key := PropertyKey(target.name);
      var previous := state;
      if target.files.Some? {
        state := state[key := Files(target.files.value)];
      } else {
        state := state[key := target.value];
      }
      if target.name == Some("confirmPassword") {
        if !fieldRef {
          threw := true;
          return;
        }
        if target.value != Lookup(previous, "password") {
          validity := validity["confirmPassword" := Mismatch];
        } else {
          validity := validity["confirmPassword" := ""];
        }
      }
    }

    /**
     * Reset merges the initial state of the whole schema into the state, as
     * `setState` does: keys the initial state lacks keep their values, and
     * validity messages stay.
     */
    method HandleReset()
      modifies this`state
      ensures state == old(state) + LegacyInitialState(formData, supported)
    {
      state := state + LegacyInitialState(formData, supported);
    }

    /** The submit payload is the whole state, empty values included; nothing is reset. */
    method Submit() returns (payload: map<string, Value>)
      ensures payload == state
    {
      payload := state;
    }
  }

  /** Only a button of type 'button' receives its onClick; submit and reset buttons get null. */
  function ButtonOnClick(btn: Entry): (handler: Value)
    ensures TypeOf(btn) == Str("button") ==> handler == Lookup(btn, "onClick")
    ensures TypeOf(btn) != Str("button") ==> handler == Null
  {
    if TypeOf(btn) == Str("button") then Lookup(btn, "onClick") else Null
  }
}
