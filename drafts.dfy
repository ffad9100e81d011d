/**
 * The values the schema builder of src/form-builder passes around.
 *
 * A draft is the plain object a FieldBuilder edits: a map from key to a
 * property. The attribute list and the checkbox option list hold objects
 * that the editors mutate through shared references, so those two are
 * classes; the draft itself stores value snapshots of them (the builder's
 * submit copies everything through JSON, which keeps only values).
 */
module Drafts {
  import opened Js

  /** One `{name, value}` entry of an `additionalAttribs` list. */
  class Attrib {
    var name: string
    var value: string

    constructor(name: string, value: string)
      ensures this.name == name && this.value == value
    {
      this.name, this.value := name, value;
    }
  }

  /** One `{label, required}` option of a checkboxes field (`label` is a reserved word here). */
  class CheckboxOption {
    var labelText: string
    var required: bool

    constructor(labelText: string, required: bool)
      ensures this.labelText == labelText && this.required == required
    {
      this.labelText, this.required := labelText, required;
    }
  }

  /** An option as the options editor holds it: a string, or a checkbox option object. */
  datatype OptionItem = Blank(text: string) | Box(box: CheckboxOption)

  /** The value copies of attributes and options. */
  datatype AttribValue = AttribValue(name: string, value: string)
  datatype OptionValue = PlainOption(text: string) | BoxOption(labelText: string, required: bool)

  /** A draft property: text from an input, the required flag, the options, or the extra attributes. */
  datatype Prop =
    | Text(s: string)
    | Flag(b: bool)
    | OptionList(options: seq<OptionValue>)
    | AttribList(attribs: seq<AttribValue>)

  /** Text is truthy when non-empty, a flag when true, every list always. */
  predicate PropTruthy(p: Prop) {
    match p
    case Text(s) => s != ""
    case Flag(b) => b
    case OptionList(_) => true
    case AttribList(_) => true
  }

  type Draft = map<string, Prop>

  /** `draft[key]` is truthy (a missing key reads as undefined). */
  predicate Has(d: Draft, key: string) {
    key in d && PropTruthy(d[key])
  }

  /** The custom event an editor emits: `{target: {name, value}}`. */
  datatype ListEvent<T> = ListEvent(name: string, value: seq<T>)

  /** The values the attribute objects hold now. */
  function AttribValues(list: seq<Attrib>): (values: seq<AttribValue>)
    reads list
    ensures |values| == |list|
    ensures forall i :: 0 <= i < |list| ==> values[i] == AttribValue(list[i].name, list[i].value)
  {
    seq(|list|, i reads list requires 0 <= i < |list| => AttribValue(list[i].name, list[i].value))
  }

  /** The objects behind the checkbox options of a list. */
  function Boxes(items: seq<OptionItem>): set<CheckboxOption> {
    set i | 0 <= i < |items| && items[i].Box? :: items[i].box
  }

  function OptionValueOf(item: OptionItem): OptionValue
    reads if item.Box? then {item.box} else {}
  {
    match item
    case Blank(text) => PlainOption(text)
    case Box(box) => BoxOption(box.labelText, box.required)
  }

  /** The values the options hold now. */
  function OptionValues(items: seq<OptionItem>): (values: seq<OptionValue>)
    reads Boxes(items)
    ensures |values| == |items|
    ensures forall i :: 0 <= i < |items| ==> values[i] == OptionValueOf(items[i])
  {
    seq(|items|, i reads Boxes(items) requires 0 <= i < |items| => OptionValueOf(items[i]))
  }
}
