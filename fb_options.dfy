/**
 * The option-list editor of src/form-builder/fb-custom-fields/fb-options.component.jsx.
 *
 * Options are strings, or `{label, required}` objects for a checkboxes
 * field. Every operation copies the array shallowly and emits the copy in
 * an 'options' event; label and required updates mutate the shared object.
 * The `console.error` of an unknown input name is a returned flag.
 */
module OptionsEditor {
  import opened Js
  import opened Drafts

  const EventName: string := "options"

  /** Appends '' or, for checkboxes, a fresh `{label: '', required: false}`. */
  method AddOption(optionsArray: seq<OptionItem>, isCheckboxes: bool) returns (event: ListEvent<OptionItem>)
    ensures event.name == EventName
    ensures |event.value| == |optionsArray| + 1 && event.value[..|optionsArray|] == optionsArray
    ensures !isCheckboxes ==> event.value[|optionsArray|] == Blank("")
    ensures isCheckboxes ==> event.value[|optionsArray|].Box? && fresh(event.value[|optionsArray|].box)
    ensures OptionValues(event.value) == OptionValues(optionsArray) + [if isCheckboxes then BoxOption("", false) else PlainOption("")]
  {
    var currentOptions := optionsArray;
    if isCheckboxes {
      var option := new CheckboxOption("", false);
      currentOptions := currentOptions + [Box(option)];
    } else {
      currentOptions := currentOptions + [Blank("")];
    }
    event := ListEvent(EventName, currentOptions);
  }

  /** The effect run when the list changes: an empty list gets its first blank option. */
  method OnOptionsChanged(optionsArray: seq<OptionItem>, isCheckboxes: bool) returns (event: Option<ListEvent<OptionItem>>)
    ensures event.Some? <==> optionsArray == []
    ensures event.Some? ==> event.value.name == EventName && |event.value.value| == 1
    ensures event.Some? ==> OptionValues(event.value.value) == [if isCheckboxes then BoxOption("", false) else PlainOption("")]
  {
    if |optionsArray| == 0 {
      var added := AddOption([], isCheckboxes);
      event := Some(added);
    } else {
      event := None;
    }
  }

  /**
   * 'option' replaces element `indx` with the typed text; 'option-label'
   * and 'option-required' update the object at `indx` in place; any other
   * name is logged and the unchanged copy is emitted all the same.
   */
  method UpdateOption(optionsArray: seq<OptionItem>, inputName: string, value: string, indx: int)
    returns (event: ListEvent<OptionItem>, logged: bool)
    requires 0 <= indx < |optionsArray|
    requires inputName == "option-label" || inputName == "option-required" ==> optionsArray[indx].Box?
    modifies if optionsArray[indx].Box? then {optionsArray[indx].box} else {}
    ensures event.name == EventName
    ensures logged <==> inputName !in {"option", "option-label", "option-required"}
    ensures inputName == "option" ==> event.value == optionsArray[indx := Blank(value)]
    ensures inputName != "option" ==> event.value == optionsArray
    ensures inputName == "option-label" ==>
      optionsArray[indx].box.labelText == value && optionsArray[indx].box.required == old(optionsArray[indx].box.required)
    ensures inputName == "option-required" ==>
      optionsArray[indx].box.required == !old(optionsArray[indx].box.required) && optionsArray[indx].box.labelText == old(optionsArray[indx].box.labelText)
    ensures inputName != "option-label" && inputName != "option-required" ==> unchanged(Boxes(optionsArray))
  {
    var currentOptions := optionsArray;
    logged := false;
    if inputName == "option" {
      currentOptions := currentOptions[indx := Blank(value)];
    } else if inputName == "option-label" {
      currentOptions[indx].box.labelText := value;
    } else if inputName == "option-required" {
      var isRequired := currentOptions[indx].box.required;
      currentOptions[indx].box.required := !isRequired;
    } else {
      logged := true;
    }
    event := ListEvent(EventName, currentOptions);
  }

  /**
   * The guard of `removeOption` as written: `!optionsArray.length === 1`
   * compares the boolean `!length` with the number 1 under `===`.
   */
  function RemoveGuard(length: nat): (passes: bool)
    ensures !passes
  {
    Bool(!Truthy(Num(length))) == Num(1)
  }

  /** `removeOption` as written: the guard never passes, so nothing is removed and nothing is emitted. */
  function RemoveOption(optionsArray: seq<OptionItem>, indx: int): (event: Option<ListEvent<OptionItem>>)
    ensures event.None?
  {
    if RemoveGuard(|optionsArray|) then Some(ListEvent(EventName, SpliceOne(optionsArray, indx))) else None
  }

  /** The evidently intended guard `optionsArray.length !== 1`: the last option cannot be removed. */
  function RemoveOptionIntended(optionsArray: seq<OptionItem>, indx: int): (event: Option<ListEvent<OptionItem>>)
    ensures event.Some? <==> |optionsArray| != 1
    ensures event.Some? ==> event.value.name == EventName
    ensures event.Some? && 0 <= indx < |optionsArray| ==>
      event.value.value == optionsArray[..indx] + optionsArray[indx + 1..]
  {
    if |optionsArray| != 1 then Some(ListEvent(EventName, SpliceOne(optionsArray, indx))) else None
  }

  /** Two options, one click on the remove button: the intended editor drops it, the written one does nothing. */
  lemma RemoveOptionDiscrepancy(a: OptionItem, b: OptionItem)
    ensures RemoveOption([a, b], 0).None?
    ensures RemoveOptionIntended([a, b], 0) == Some(ListEvent(EventName, [b]))
  {
    assert [a, b][..0] + [a, b][1..] == [b];
  }

  /** Under the intended guard a list never loses its last option. */
  lemma IntendedKeepsOne(optionsArray: seq<OptionItem>, indx: int)
    requires optionsArray != []
    ensures var event := RemoveOptionIntended(optionsArray, indx);
      event.Some? ==> |event.value.value| >= 1
  {
    var k := SpliceStart(|optionsArray|, indx);
    if |optionsArray| != 1 && k < |optionsArray| {
      assert |SpliceOne(optionsArray, indx)| == |optionsArray| - 1;
    }
  }
}
