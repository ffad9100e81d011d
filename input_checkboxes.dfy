/**
 * The checkbox group of src/components/custom-input-fields/input-checkboxes.component.jsx:
 * clicking box `indx` copies the group's flags, negates one slot of the copy
 * and sends the copy to the parent in a custom event with a name and a value
 * but no type.
 */
module InputCheckboxes {
  import opened Js

  /**
   * `[...fieldValue]`: an array spreads into its elements, a string into its
   * characters (the group's initial state is '', which spreads into nothing).
   */
  function Spread(fieldValue: Value): (items: seq<Value>)
    requires fieldValue.List? || fieldValue.Str?
    ensures fieldValue.List? ==> items == fieldValue.items
    ensures fieldValue.Str? ==> |items| == |fieldValue.s|
  {
    if fieldValue.List? then fieldValue.items
    else seq(|fieldValue.s|, i requires 0 <= i < |fieldValue.s| => Str([fieldValue.s[i]]))
  }

  /**
   * The copy after `currentValues[indx] = !currentValues[indx]`: slot `indx`
   * negated, every other slot kept, and an index past the end filling the
   * gap with `undefined` holes.
   */
  function Toggled(values: seq<Value>, indx: nat): seq<Value> {
    var len := if indx < |values| then |values| else indx + 1;
    seq(len, i requires 0 <= i < len =>
      var previous := if i < |values| then values[i] else Undefined;
      if i == indx then Bool(!Truthy(previous)) else previous)
  }

  /** Exactly slot `indx` changes, to the negation of what it held. */
  lemma ToggledChangesOneSlot(values: seq<Value>, indx: nat)
    ensures |Toggled(values, indx)| == if indx < |values| then |values| else indx + 1
    ensures indx < |values| ==> Toggled(values, indx)[indx] == Bool(!Truthy(values[indx]))
    ensures indx >= |values| ==> Toggled(values, indx)[indx] == Bool(true)
    ensures forall i :: 0 <= i < |values| && i != indx ==> Toggled(values, indx)[i] == values[i]
    ensures forall i :: |values| <= i < |Toggled(values, indx)| && i != indx ==> Toggled(values, indx)[i] == Undefined
  {
  }

  /** Toggling the same box twice restores the flags, when that box held a boolean. */
  lemma ToggleTwice(values: seq<Value>, indx: nat)
    requires indx < |values| && values[indx].Bool?
    ensures Toggled(Toggled(values, indx), indx) == values
  {
    var twice := Toggled(Toggled(values, indx), indx);
    assert |twice| == |values|;
    forall i | 0 <= i < |values| ensures twice[i] == values[i] {}
  }

  /** A non-boolean slot comes back as its truthiness: '' twice toggled is false. */
  lemma ToggleTwiceNormalises(values: seq<Value>, indx: nat)
    requires indx < |values|
    ensures Toggled(Toggled(values, indx), indx)[indx] == Bool(Truthy(values[indx]))
  {
  }

  /** The first click on a group still holding its initial '' yields holes and one true flag. */
  lemma FirstClickOnEmptyGroup(indx: nat)
    ensures Toggled(Spread(Str("")), indx) == seq(indx, i => Undefined) + [Bool(true)]
  {
    var t := Toggled(Spread(Str("")), indx);
    var expected := seq(indx, i => Undefined) + [Bool(true)];
    assert |t| == |expected|;
    forall i | 0 <= i < |t| ensures t[i] == expected[i] {}
  }

  /**
   * The handler: the copy is a fresh array written in place, so the parent's
   * value is left as it was, and the event carries the name and the copy.
   */
  method HandleChange(fieldValue: Value, indx: nat, name: string) returns (event: Target)
    requires fieldValue.List? || fieldValue.Str?
    ensures event == Target(Some(name), None, List(Toggled(Spread(fieldValue), indx)), false, None, "")
  {
    var spread := Spread(fieldValue);
    var len := if indx < |spread| then |spread| else indx + 1;
    var currentValues := new Value[len](i requires 0 <= i < len => if i < |spread| then spread[i] else Undefined);
    currentValues[indx] := Bool(!Truthy(currentValues[indx]));
    assert currentValues[..] == Toggled(spread, indx);
    event := Target(Some(name), None, List(currentValues[..]), false, None, "");
  }
}
