/**
 * The second form revision, src/components/form/form.component.jsx: the
 * schema is classified in one pass, the state is built from the supported
 * fields, a checkbox event toggles the stored value, confirmPassword and the
 * file extension are validated through the field refs, submit hands over the
 * whole state and then resets.
 *
 * `setCustomValidity` calls are recorded in a map keyed by field name; the
 * file inputs a reset clears by hand are returned as a set of field names.
 */
module ComponentsForm {
  import opened Js
  import opened FormUtils
  import InputField
  import InputCheckboxes

  const Mismatch: string := "Passwords don't match"
  const Unsupported: string := "File format not supported"
  const Separator: string := ", "

  // ---------------------------------------------------------------------
  // File acceptance by extension
  // ---------------------------------------------------------------------

  /** `value.slice(value.lastIndexOf('.'))`: from the last dot, or only the last character when there is none. */
  function Extension(path: string): (ext: string)
    ensures '.' in path ==> 1 <= |ext| <= |path| && ext[0] == '.' && '.' !in ext[1..] && ext == path[|path| - |ext|..]
    ensures '.' !in path && path != [] ==> ext == [path[|path| - 1]]
  {
    var dot := LastIndexOf(path, '.');
    if dot >= 0 then
      assert path == path[..dot] + path[dot..];
      Slice(path, dot)
    else Slice(path, dot)
  }

  /** The file's extension is one of the tokens of `accept.split(', ')`, compared exactly. */
  predicate Accepted(path: string, accept: string) {
    Extension(path) in Split(accept, Separator)
  }

  /**
   * The message the file check leaves on the field when `accept` is set:
   * cleared first, then set when a file is chosen whose extension is not listed.
   */
  function FileMessage(value: Value, accept: string): (message: string)
    requires value.Str?
    ensures message == Unsupported <==> value.s != "" && !Accepted(value.s, accept)
    ensures message != Unsupported ==> message == ""
  {
    if Truthy(value) && !Accepted(value.s, accept) then Unsupported else ""
  }

  /** A name ending in a dot and dot-free text has that suffix as its extension. */
  lemma ExtensionOfSuffix(stem: string, ext: string)
    requires |ext| >= 1 && ext[0] == '.' && '.' !in ext[1..]
    ensures Extension(stem + ext) == ext
  {
    var path := stem + ext;
    var dot := LastIndexOf(path, '.');
    assert path[|stem|] == '.';
    assert path[|stem|..] == ext;
  }

  /** The accept list of the example form. */
  const ExampleAccept: string := ".pdf, .doc"

  lemma ExampleAcceptTokens()
    ensures Split(ExampleAccept, Separator) == [".pdf", ".doc"]
  {
    assert ExampleAccept == ".pdf" + Separator + ".doc";
    SplitAtFirst(".pdf", ".doc", Separator);
    SplitWithoutSeparator(".doc", Separator);
  }

  /** Any file named *.pdf passes the example accept list. */
  lemma PdfAccepted(stem: string)
    ensures FileMessage(Str(stem + ".pdf"), ExampleAccept) == ""
  {
    ExampleAcceptTokens();
    ExtensionOfSuffix(stem, ".pdf");
  }

  /** The comparison is exact: *.png and the upper-case *.PDF are both refused. */
  lemma OtherExtensionsRefused(stem: string)
    ensures FileMessage(Str(stem + ".png"), ExampleAccept) == Unsupported
    ensures FileMessage(Str(stem + ".PDF"), ExampleAccept) == Unsupported
  {
    ExampleAcceptTokens();
    ExtensionOfSuffix(stem, ".png");
    ExtensionOfSuffix(stem, ".PDF");
  }

  // ---------------------------------------------------------------------
  // The session: state and validity messages
  // ---------------------------------------------------------------------

  datatype Session = Session(state: map<string, Value>, validity: map<string, string>)

  /** A file event carries the file input's value, always a string. */
  predicate WellFormed(target: Target) {
    target.fieldType == Some("file") ==> target.value.Str?
  }

  /** The value stored for an event: the file list, the negated previous value for a checkbox, else the value. */
  function NewValue(state: map<string, Value>, target: Target): Value {
    var key := PropertyKey(target.name);
    if target.fieldType == Some("file") then (if target.files.Some? then Files(target.files.value) else Undefined)
    else if target.fieldType == Some("checkbox") then Bool(!Truthy(Lookup(state, key)))
    else target.value
  }

  /** The validity messages after the confirmPassword check and then the file check. */
  function NewValidity(s: Session, target: Target): map<string, string>
    requires WellFormed(target)
  {
    var key := PropertyKey(target.name);
    var afterConfirm :=
      if target.name == Some("confirmPassword") then
        s.validity[key := if target.value != Lookup(s.state, "password") then Mismatch else ""]
      else s.validity;
    if target.fieldType == Some("file") && target.accept != "" then
      afterConfirm[key := FileMessage(target.value, target.accept)]
    else afterConfirm
  }

  /** One change event. */
  function Changed(s: Session, target: Target): (r: Session)
    requires WellFormed(target)
    ensures r.state.Keys == s.state.Keys + {PropertyKey(target.name)}
    ensures forall k :: k in s.state && k != PropertyKey(target.name) ==> r.state[k] == s.state[k]
    ensures forall k :: k in s.validity && k != PropertyKey(target.name) ==> k in r.validity && r.validity[k] == s.validity[k]
    ensures r.validity.Keys <= s.validity.Keys + {PropertyKey(target.name)}
    ensures var key := PropertyKey(target.name);
      && (target.fieldType == Some("file") && target.files.Some? ==> r.state[key] == Files(target.files.value))
      && (target.fieldType == Some("checkbox") ==> r.state[key] == Bool(!Truthy(Lookup(s.state, key))))
      && (target.fieldType != Some("file") && target.fieldType != Some("checkbox") ==> r.state[key] == target.value)
    ensures target.fieldType == Some("file") && target.accept != "" ==>
      PropertyKey(target.name) in r.validity && r.validity[PropertyKey(target.name)] == FileMessage(target.value, target.accept)
    ensures target.name == Some("confirmPassword") && !(target.fieldType == Some("file") && target.accept != "") ==>
      "confirmPassword" in r.validity &&
      r.validity["confirmPassword"] == if target.value != Lookup(s.state, "password") then Mismatch else ""
    ensures target.name != Some("confirmPassword") && !(target.fieldType == Some("file") && target.accept != "") ==>
      r.validity == s.validity
  {
    Session(s.state[PropertyKey(target.name) := NewValue(s.state, target)], NewValidity(s, target))
  }

  function CheckboxEvent(name: string, checked: bool): Target {
    Target(Some(name), Some("checkbox"), Str("on"), checked, None, "")
  }

  /**
   * A checkbox event ignores its payload: the stored value is negated, so the
   * initial '' becomes true, then false, whatever `checked` says.
   */
  lemma CheckboxToggles(s: Session, name: string, c1: bool, c2: bool)
    requires Lookup(s.state, name) == Str("")
    ensures var s1 := Changed(s, CheckboxEvent(name, c1));
      var s2 := Changed(s1, CheckboxEvent(name, c2));
      s1.state[name] == Bool(true) && s2.state[name] == Bool(false)
  {
  }

  function TextEvent(name: string, text: string): Target {
    Target(Some(name), Some("password"), Str(text), false, None, "")
  }

  /** confirmPassword is flagged iff it differs from the stored password, and only when it changes. */
  lemma ConfirmPasswordOneWay(s: Session, pass: string, confirm: string, other: string)
    requires other != confirm
    ensures var s1 := Changed(Changed(s, TextEvent("password", pass)), TextEvent("confirmPassword", confirm));
      && s1.validity["confirmPassword"] == (if confirm != pass then Mismatch else "")
      && Changed(s1, TextEvent("password", other)).validity == s1.validity
  {
  }

  /** An empty file value always passes the check, whatever the accept list. */
  lemma EmptyFileValid(s: Session, name: string, accept: string)
    requires accept != "" && name != "confirmPassword"
    ensures Changed(s, Target(Some(name), Some("file"), Str(""), false, Some([]), accept)).validity[name] == ""
  {
  }

  // ---------------------------------------------------------------------
  // The rendered Input and the element both handlers write to

  /**
   * Whether the Form's own handler writes a custom validity message for
   * this event: confirmPassword is always checked, a file input with an
   * accept list is checked by extension.
   */
  predicate FormWrites(target: Target) {
    target.name == Some("confirmPassword") || (target.fieldType == Some("file") && target.accept != "")
  }

  /**
   * Input's handler throws before it calls the Form's: the entry's
   * `equalTo` passes `!== null` (an absent one is undefined) and the entry
   * is a checkbox or radio group, whose element never gets the ref.
   */
  predicate InputThrows(field: Entry) {
    InputField.Throws(Lookup(field, "type"), Lookup(field, "equalTo"))
  }

  /**
   * The custom validity left on the element a change event comes from.
   * The render spreads the schema entry into Input's props, so Input's
   * `equalTo` is the entry's own `equalTo` (a field name, not that field's
   * value) and its `errMsg` is the entry's `errMsg` as a string. Input runs
   * its check on the value it forwards, then calls the Form's handler, which
   * writes to the same element through its ref; the Form's message, when it
   * writes one, is the one left. `None` when neither writes, and when
   * Input throws, since then nothing is written and the Form never runs.
   */
  function ElementMessage(s: Session, field: Entry, target: Target): (message: Option<string>)
    requires WellFormed(target)
    ensures InputThrows(field) ==> message.None?
    ensures !InputThrows(field) && target.name == Some("confirmPassword") && !(target.fieldType == Some("file") && target.accept != "") ==>
      message == Some(if target.value != Lookup(s.state, "password") then Mismatch else "")
    ensures !InputThrows(field) && target.fieldType == Some("file") && target.accept != "" ==>
      message == Some(FileMessage(target.value, target.accept))
    ensures !FormWrites(target) ==> (message.None? <==> Lookup(field, "equalTo") == Null || InputThrows(field))
    ensures !FormWrites(target) && !InputThrows(field) && Lookup(field, "equalTo") != Null && ToPropertyKey(Lookup(field, "errMsg")) != "" ==>
      (message == Some(ToPropertyKey(Lookup(field, "errMsg"))) <==> target.value != Lookup(field, "equalTo"))
  {
    var input := InputField.EqualToMessage(target.value, Lookup(field, "equalTo"), ToPropertyKey(Lookup(field, "errMsg")));
    if InputThrows(field) then None
    else if FormWrites(target) then Some(Changed(s, target).validity[PropertyKey(target.name)])
    else input
  }

  /**
   * The Form's state and messages after an event has gone through the
   * rendered Input: unchanged when Input throws, else one `Changed` step.
   */
  function ThroughInput(s: Session, field: Entry, target: Target): (r: Session)
    requires WellFormed(target)
    ensures InputThrows(field) ==> r == s
    ensures !InputThrows(field) ==> r == Changed(s, target)
  {
    if InputThrows(field) then s else Changed(s, target)
  }

  /**
   * As intended: Input skips its check when its element has no ref and
   * always forwards the event, so every event reaches the Form.
   */
  function ThroughInputIntended(s: Session, field: Entry, target: Target): (r: Session)
    requires WellFormed(target)
    ensures PropertyKey(target.name) in r.state && r.state[PropertyKey(target.name)] == NewValue(s.state, target)
    ensures forall k :: k in s.state && k != PropertyKey(target.name) ==> k in r.state && r.state[k] == s.state[k]
  {
    Changed(s, target)
  }

  /** A checkbox or radio group without `equalTo` in its entry never records a value or a message. */
  lemma GroupsNeverRecord(s: Session, field: Entry, target: Target)
    requires WellFormed(target) && "equalTo" !in field
    requires Lookup(field, "type") == Str("checkboxes") || Lookup(field, "type") == Str("radios")
    ensures ThroughInput(s, field, target) == s
    ensures ElementMessage(s, field, target) == None
  {
  }

  /** The privacy checkboxes of the example schema, with the keys that decide the render. */
  function PrivacyEntry(): Entry {
    map["type" := Str("checkboxes"), "name" := Str("privacy"), "id" := Str("privacy-1")]
  }

  /** The event the checkbox group sends when box `indx` is clicked. */
  function PrivacyClick(flags: Value, indx: nat): Target
    requires flags.List? || flags.Str?
  {
    Target(Some("privacy"), None, List(InputCheckboxes.Toggled(InputCheckboxes.Spread(flags), indx)), false, None, "")
  }

  /**
   * As written, a click on a privacy box is lost: the group's value stays
   * the initial '' however often it is clicked. As intended, the click
   * stores the toggled flags.
   */
  lemma PrivacyClickLost(s: Session, indx: nat)
    requires Lookup(s.state, "privacy") == Str("")
    ensures Lookup(ThroughInput(s, PrivacyEntry(), PrivacyClick(Str(""), indx)).state, "privacy") == Str("")
    ensures ThroughInputIntended(s, PrivacyEntry(), PrivacyClick(Str(""), indx)).state["privacy"]
      == List(InputCheckboxes.Toggled([], indx))
  {
  }

  /** As intended, clicking the same box twice restores the flags a click started from. */
  lemma IntendedPrivacyRoundTrip(s: Session, flags: seq<Value>, indx: nat)
    requires indx < |flags| && flags[indx].Bool?
    ensures var once := ThroughInputIntended(s, PrivacyEntry(), PrivacyClick(List(flags), indx));
      once.state["privacy"].List? &&
      ThroughInputIntended(once, PrivacyEntry(), PrivacyClick(once.state["privacy"], indx)).state["privacy"] == List(flags)
  {
    InputCheckboxes.ToggleTwice(flags, indx);
  }

  /** The confirmation entry of the example schema, as the render spreads it into Input. */
  function ConfirmEntry(errMsg: string): Entry {
    map["type" := Str("password"), "name" := Str("confirmPassword"), "equalTo" := Str("password"), "errMsg" := Str(errMsg)]
  }

  /**
   * Input compares the confirmation with the literal text "password", the
   * name in the entry's `equalTo`: typing the real password is flagged
   * unless the password is that word.
   */
  lemma InputComparesWithFieldName(pass: string, errMsg: string)
    requires pass != "password" && errMsg != ""
    ensures var entry := ConfirmEntry(errMsg);
      InputField.EqualToMessage(Str(pass), Lookup(entry, "equalTo"), ToPropertyKey(Lookup(entry, "errMsg"))) == Some(errMsg)
  {
  }

  /**
   * On confirmPassword the Form writes after Input and its message stays:
   * a confirmation equal to the stored password leaves the element valid
   * although Input flagged it, and any other text leaves the Form's message.
   */
  lemma FormMessageWins(s: Session, pass: string, typed: string, errMsg: string)
    requires Lookup(s.state, "password") == Str(pass) && pass != "password" && errMsg != ""
    ensures var entry := ConfirmEntry(errMsg);
      var event := TextEvent("confirmPassword", typed);
      && (typed == pass ==> InputField.EqualToMessage(Str(typed), Lookup(entry, "equalTo"), errMsg) == Some(errMsg))
      && ElementMessage(s, entry, event) == Some(if typed == pass then "" else Mismatch)
  {
  }

  /**
   * Any other field whose entry names a field in `equalTo` is flagged when
   * it matches that field's stored value, and cleared only when it holds
   * the name itself.
   */
  lemma EqualToNamesAField(s: Session, name: string, other: string, typed: string, errMsg: string)
    requires name != "confirmPassword" && errMsg != ""
    ensures var entry := map["type" := Str("text"), "name" := Str(name), "equalTo" := Str(other), "errMsg" := Str(errMsg)];
      var event := Target(Some(name), Some("text"), Str(typed), false, None, "");
      && (Lookup(s.state, other) == Str(typed) && typed != other ==> ElementMessage(s, entry, event) == Some(errMsg))
      && (typed == other ==> ElementMessage(s, entry, event) == Some(""))
  {
  }

  /** The validity messages with those of `keys` cleared. */
  function WithCleared(validity: map<string, string>, keys: set<string>): map<string, string> {
    map k | k in validity.Keys + keys :: if k in keys then "" else validity[k]
  }

  lemma FileRefsStep(refs: map<string, Value>, pending: set<string>, key: string)
    requires key in pending && pending <= refs.Keys
    ensures FileRefs(refs) - (pending - {key}) == (FileRefs(refs) - pending) + (if refs[key] == Str("file") then {key} else {})
  {
  }

  lemma ClearOneMore(validity: map<string, string>, keys: set<string>, key: string)
    ensures WithCleared(validity, keys)[key := ""] == WithCleared(validity, keys + {key})
  {
    var a, b := WithCleared(validity, keys)[key := ""], WithCleared(validity, keys + {key});
    assert a.Keys == b.Keys;
    forall k | k in a ensures a[k] == b[k] {}
  }

  lemma ClearNothing(validity: map<string, string>)
    ensures WithCleared(validity, {}) == validity
  {
    var r := WithCleared(validity, {});
    assert r.Keys == validity.Keys;
    forall k | k in r ensures r[k] == validity[k] {}
  }

  /** Clearing sets exactly the cleared keys to "" and keeps every other message. */
  lemma WithClearedMeaning(validity: map<string, string>, keys: set<string>)
    ensures WithCleared(validity, keys).Keys == validity.Keys + keys
    ensures forall k :: k in keys ==> WithCleared(validity, keys)[k] == ""
    ensures forall k :: k in validity && k !in keys ==> WithCleared(validity, keys)[k] == validity[k]
  {
  }

  /** The `for (key in fieldsRefs)` walk of a reset: every file input loses its value and its message. */
  method ClearFileInputs(refs: map<string, Value>, before: map<string, string>)
    returns (cleared: set<string>, messages: map<string, string>)
    ensures cleared == FileRefs(refs)
    ensures messages == WithCleared(before, cleared)
  {
    messages := before;
    ClearNothing(before);
    cleared := {};
    var pending := refs.Keys;
    while pending != {}
      invariant pending <= refs.Keys
      invariant cleared == FileRefs(refs) - pending
      invariant messages == WithCleared(before, cleared)
      decreases |pending|
    {
      var key :| key in pending;
      FileRefsStep(refs, pending, key);
      if refs[key] == Str("file") {
        ClearOneMore(before, cleared, key);
        messages := messages[key := ""];
        cleared := cleared + {key};
      }
      pending := pending - {key};
    }
  }

  class Form {
    const fields: seq<Entry>
    const btns: seq<Entry>
    const unsupported: seq<Entry>
    const fieldsRefs: map<string, Value>
    var state: map<string, Value>
    var validity: map<string, string>

    constructor(formData: seq<Entry>, supported: set<string>, buttons: set<string>)
      requires forall i :: 0 <= i < |formData| ==> OptionsReadable(formData[i])
      ensures fields == WithTypeIn(formData, supported)
      ensures btns == WithTypeIn(formData, buttons - supported)
      ensures unsupported == WithTypeNotIn(formData, supported + buttons)
      ensures state == InitialState(fields) && validity == map[]
      ensures fieldsRefs == RefTypes(fields)
    {
      var f, b, u := CalculateFieldsArrays(formData, supported, buttons);
      fields, btns, unsupported := f, b, u;
      WithTypeInMembers(formData, supported);
      forall i | 0 <= i < |f| ensures OptionsReadable(f[i]) {
        assert f[i] in formData;
      }
      var initial := CreateInitialState(f);
      var refs := BuildFieldsRefs(f);
      state, fieldsRefs, validity := initial, refs, map[];
    }

    method HandleChange(target: Target)
      requires WellFormed(target)
      modifies this`state, this`validity
      ensures state == old(state)[PropertyKey(target.name) := NewValue(old(state), target)]
      ensures validity == NewValidity(old(Session(state, validity)), target)
    {
      var key := PropertyKey(target.name);
      var previous := state;
      if target.fieldType == Some("file") {
        state := state[key := if target.files.Some? then Files(target.files.value) else Undefined];
      } else if target.fieldType == Some("checkbox") {
        state := state[key := Bool(!Truthy(Lookup(state, key)))];
      } else {
        state := state[key := target.value];
      }
      if target.name == Some("confirmPassword") {
        if target.value != Lookup(previous, "password") {
          validity := validity[key := Mismatch];
        } else {
          validity := validity[key := ""];
        }
      }
      assert state == previous[key := NewValue(previous, target)];
      ghost var afterConfirm := validity;
      if target.fieldType == Some("file") && target.accept != "" {
        validity := validity[key := ""];
        if Truthy(target.value) {
          var extIndx := LastIndexOf(target.value.s, '.');
          var extension := Slice(target.value.s, extIndx);
          var validExtensions := Split(target.accept, Separator);
          if extension !in validExtensions {
            validity := validity[key := Unsupported];
          }
        }
        assert validity == afterConfirm[key := FileMessage(target.value, target.accept)];
      }
    }

    /**
     * Reset merges the initial state into the state, as `setState` does
     * (keys it lacks keep their values) and, walking the refs, clears the
     * value and the validity message of every file input.
     */
    method HandleReset() returns (cleared: set<string>)
      modifies this`state, this`validity
      ensures state == old(state) + InitialState(fields)
      ensures cleared == FileRefs(fieldsRefs)
      ensures validity == WithCleared(old(validity), cleared)
    {
      state := state + InitialState(fields);
      var messages;
      cleared, messages := ClearFileInputs(fieldsRefs, validity);
      validity := messages;
    }

    /** The parent receives the whole state, empty values included; then the form resets. */
    method HandleSubmit() returns (payload: map<string, Value>, cleared: set<string>)
      modifies this`state, this`validity
      ensures payload == old(state)
      ensures state == old(state) + InitialState(fields)
      ensures cleared == FileRefs(fieldsRefs)
      ensures validity == WithCleared(old(validity), cleared)
    {
      payload := state;
      cleared := HandleReset();
    }
  }
}
