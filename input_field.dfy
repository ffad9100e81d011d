/**
 * The text input of src/components/input/input.component.jsx: the `equalTo`
 * check run on every change, the masked variant that unmasks the typed text
 * before validating and forwarding it, and the choice of the displayed value.
 *
 * The input element's custom validity message is a field of the component;
 * the events handed to the parent's `onChange` are returned in call order,
 * and the TypeError the check raises on a group with no ref is `threw`.
 * The `input.utils` module this component imports is taken to be the codec
 * of src/form-custom/input/input.utils.js.
 */
module InputField {
  import opened Js
  import MaskCodec

  /**
   * The message the `equalTo` check writes, or `None` when `equalTo` is
   * exactly `null` and nothing is written. The comparison is `!==`, so an
   * absent (`undefined`) `equalTo` still runs the check.
   */
  function EqualToMessage(value: Value, equalTo: Value, errMsg: string): (message: Option<string>)
    ensures message.None? <==> equalTo == Null
    ensures message.Some? ==> message.value == errMsg || message.value == ""
    ensures message.Some? && errMsg != "" ==> (message.value == errMsg <==> value != equalTo)
  {
    if equalTo != Null then
      Some(if value != equalTo then errMsg else "")
    else None
  }

  /**
   * Whether the rendered element carries `innerRef`: the field renderer takes
   * the ref out of the props and attaches it to the select, the textarea, the
   * file input and the plain input, but never to a checkbox or radio group,
   * whose ref therefore stays `null`.
   */
  predicate RefAttached(fieldType: Value) {
    fieldType != Str("checkboxes") && fieldType != Str("radios")
  }

  /**
   * The `equalTo` check calls `innerRef.current.setCustomValidity`, which
   * throws a TypeError when the ref was never attached.
   */
  predicate Throws(fieldType: Value, equalTo: Value) {
    equalTo != Null && !RefAttached(fieldType)
  }

  /** A group without an `equalTo` prop throws on every change: undefined passes `!== null`. */
  lemma GroupsThrow(fieldType: Value)
    requires fieldType == Str("checkboxes") || fieldType == Str("radios")
    ensures Throws(fieldType, Undefined) && !Throws(fieldType, Null)
  {
  }

  /** A field with no `equalTo` prop at all flags every string it is given. */
  lemma AbsentEqualToFlags(text: string, errMsg: string)
    ensures EqualToMessage(Str(text), Undefined, errMsg) == Some(errMsg)
  {
  }

  /** A confirmation equal to the referenced value clears the message; any other text sets it. */
  lemma ConfirmationAgainstPassword(pass: string, typed: string, errMsg: string)
    ensures EqualToMessage(Str(typed), Str(pass), errMsg) == Some(if typed == pass then "" else errMsg)
  {
  }

  /** The value displayed: the masked field value when a mask is set, else the raw value. */
  function Shown(fieldValue: string, mask: string): (shown: string)
    ensures mask == [] ==> shown == fieldValue
    ensures mask != [] && fieldValue != [] ==> |shown| <= |mask|
    ensures forall i :: 0 <= i < |shown| && i < |mask| && mask[i] != MaskCodec.Slot ==> shown[i] == mask[i]
  {
    MaskCodec.MaskedShape(fieldValue, mask);
    if mask != [] then MaskCodec.Masked(fieldValue, mask) else fieldValue
  }

  class Input {
    const fieldType: Value
    const equalTo: Value
    const errMsg: string
    const mask: string
    var validity: string

    constructor(fieldType: Value, equalTo: Value, errMsg: string, mask: string)
      ensures this.fieldType == fieldType && this.equalTo == equalTo && this.errMsg == errMsg && this.mask == mask
      ensures validity == ""
    {
      this.fieldType, this.equalTo, this.errMsg, this.mask := fieldType, equalTo, errMsg, mask;
      validity := "";
    }

    /**
     * Validation first, then exactly one call of `onChange` with the event as
     * received; on a group with a non-null `equalTo` the validation throws
     * (`threw`) and nothing is forwarded.
     */
    method HandleChange(target: Target) returns (forwarded: seq<Target>, threw: bool)
      modifies this`validity
      ensures threw <==> Throws(fieldType, equalTo)
      ensures threw ==> forwarded == [] && validity == old(validity)
      ensures !threw ==> forwarded == [target]
      ensures !threw && EqualToMessage(target.value, equalTo, errMsg).Some? ==> validity == EqualToMessage(target.value, equalTo, errMsg).value
      ensures EqualToMessage(target.value, equalTo, errMsg).None? ==> validity == old(validity)
    {
      if equalTo != Null {
        if !RefAttached(fieldType) {
          return [], true;
        }
        if target.value != equalTo {
          validity := errMsg;
        } else {
          validity := "";
        }
      }
      forwarded, threw := [target], false;
    }

    /** The typed text is unmasked in the event itself; validation and forwarding see only the raw text. */
    method HandleMaskedField(target: Target) returns (forwarded: seq<Target>, threw: bool)
      requires target.value.Str?
      modifies this`validity
      ensures threw <==> Throws(fieldType, equalTo)
      ensures threw ==> forwarded == [] && validity == old(validity)
      ensures !threw ==> |forwarded| == 1 && forwarded[0] == target.(value := Str(MaskCodec.Unmasked(target.value.s, mask)))
      ensures !threw ==> var raw := forwarded[0].value;
        EqualToMessage(raw, equalTo, errMsg).Some? ==> validity == EqualToMessage(raw, equalTo, errMsg).value
      ensures equalTo == Null ==> validity == old(validity)
    {
      var unmasked := MaskCodec.UnMaskValue(target.value.s, mask);
      var event := target.(value := Str(unmasked));
      forwarded, threw := HandleChange(event);
    }
  }

  /**
   * Editing nothing in a masked field hands the parent back the value it
   * displayed, as long as that value holds no `#` and fits the template.
   */
  lemma ShownThenForwarded(fieldValue: string, mask: string)
    requires MaskCodec.NoSlotChar(fieldValue) && |fieldValue| <= MaskCodec.SlotCount(mask)
    ensures MaskCodec.Unmasked(Shown(fieldValue, mask), mask) == fieldValue
  {
    if mask != [] {
      MaskCodec.RoundTrip(fieldValue, mask);
    }
  }

  /**
   * With a mask, the equalTo check compares the raw text: a confirmation
   * typed through the same template as the referenced value matches it.
   */
  lemma MaskedConfirmationMatches(pass: string, mask: string, errMsg: string)
    requires MaskCodec.NoSlotChar(pass) && |pass| <= MaskCodec.SlotCount(mask)
    ensures EqualToMessage(Str(MaskCodec.Unmasked(Shown(pass, mask), mask)), Str(pass), errMsg) == Some("")
  {
    ShownThenForwarded(pass, mask);
  }
}
