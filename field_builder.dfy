/**
 * The per-draft editor of src/form-builder/field-builder/field-builder.component.jsx.
 *
 * Every change copies the draft, updates the copy according to the input's
 * name and hands the copy to the parent with the draft's index. A name
 * change also sets the input's validity message and synthesises an id from
 * the name and `Math.floor(Math.random() * 1000)`, which is a parameter here.
 */
module FieldEditor {
  import opened Js
  import opened Drafts

  const TypesWithOptions: seq<string> := ["select", "radios", "checkboxes"]
  const TextTypes: seq<string> := ["text", "email", "password", "url", "tel"]
  const NameUsed: string := "This name has already been used!"

  /** `value + '-' + n`: the synthesised id. */
  function IdFor(name: string, rand: nat): string {
    name + "-" + NatToString(rand)
  }

  /** The type test of `TYPES.includes(fieldData.type)`. */
  predicate TypeAmong(d: Draft, types: seq<string>) {
    "type" in d && d["type"].Text? && d["type"].s in types
  }

  /** `newFieldData.key && delete newFieldData.key`: only a truthy value is removed. */
  function DropIfTruthy(d: Draft, key: string): (r: Draft)
    ensures Has(d, key) ==> r == d - {key}
    ensures !Has(d, key) ==> r == d
  {
    if Has(d, key) then d - {key} else d
  }

  /** The copy after a change of the input `name` with `value`. */
  function Edited(fieldData: Draft, name: string, value: Prop, rand: nat): Draft
    requires name == "name" ==> value.Text?
  {
    if name == "name" then
      fieldData["name" := value]["id" := Text(IdFor(value.s, rand))]
    else if name == "required" then
      fieldData["required" := Flag(!Has(fieldData, "required"))]
    else if name == "type" then
      var pruned :=
        if Has(fieldData, "type") && fieldData["type"] != value then
          var noOptions := if TypeAmong(fieldData, TypesWithOptions) then DropIfTruthy(fieldData, "options") else fieldData;
          if TypeAmong(fieldData, TextTypes) then DropIfTruthy(DropIfTruthy(noOptions, "mask"), "equalTo") else noOptions
        else fieldData;
      pruned["type" := value]
    else
      fieldData[name := value]
  }

  /** The validity message a name change sets on the name input; other changes set none. */
  function NameMessage(name: string, value: Prop, usedNames: seq<Prop>): (message: Option<string>)
    ensures message.Some? <==> name == "name"
    ensures message.Some? ==> (message.value == NameUsed <==> value in usedNames)
    ensures message.Some? ==> message.value == NameUsed || message.value == ""
  {
    if name == "name" then Some(if value in usedNames then NameUsed else "") else None
  }

  /** The handler: the old draft is only read; the copy is emitted once, with the index. */
  method HandleChange(fieldData: Draft, indx: nat, usedNames: seq<Prop>, name: string, value: Prop, rand: nat)
    returns (newFieldData: Draft, emittedIndex: nat, message: Option<string>)
    requires rand < 1000
    requires name == "name" ==> value.Text?
    ensures newFieldData == Edited(fieldData, name, value, rand) && emittedIndex == indx
    ensures message == NameMessage(name, value, usedNames)
  {
    newFieldData := fieldData;
    message := None;
    if name == "name" {
      message := Some("");
      if value in usedNames {
        message := Some(NameUsed);
      }
      newFieldData := newFieldData["name" := value];
      newFieldData := newFieldData["id" := Text(value.s + "-" + NatToString(rand))];
    } else if name == "required" {
      if !Has(newFieldData, "required") {
        newFieldData := newFieldData["required" := Flag(false)];
      }
      newFieldData := newFieldData["required" := Flag(!PropTruthy(newFieldData["required"]))];
    } else if name == "type" {
      if Has(fieldData, "type") && fieldData["type"] != value {
        if TypeAmong(fieldData, TypesWithOptions) && Has(newFieldData, "options") {
          newFieldData := newFieldData - {"options"};
        }
        if TypeAmong(fieldData, TextTypes) {
          if Has(newFieldData, "mask") {
            newFieldData := newFieldData - {"mask"};
          }
          if Has(newFieldData, "equalTo") {
            newFieldData := newFieldData - {"equalTo"};
          }
        }
      }
      newFieldData := newFieldData[name := value];
    } else {
      newFieldData := newFieldData[name := value];
    }
    emittedIndex := indx;
  }

  /**
   * A name change stores the name and an id made of the name, a dash and a
   * number below 1000 that reads back from the id's tail; nothing else changes.
   */
  lemma NameSetsId(fieldData: Draft, value: string, rand: nat)
    requires rand < 1000
    ensures var r := Edited(fieldData, "name", Text(value), rand);
      && r["name"] == Text(value)
      && r["id"].Text? && r["id"].s[..|value| + 1] == value + "-"
      && IsDigits(r["id"].s[|value| + 1..]) && ParseDecimal(r["id"].s[|value| + 1..]) == rand
      && (forall k :: k in fieldData && k != "name" && k != "id" ==> k in r && r[k] == fieldData[k])
  {
    NatToStringParses(rand);
    var id := IdFor(value, rand);
    assert id[..|value| + 1] == value + "-";
    assert id[|value| + 1..] == NatToString(rand);
  }

  /** Clearing the name still synthesises an id, "-" followed by the number. */
  lemma ClearedNameStillGetsId(fieldData: Draft, rand: nat)
    requires rand < 1000
    ensures Edited(fieldData, "name", Text(""), rand)["id"] == Text("-" + NatToString(rand))
  {
  }

  /** `required` toggles: absent or false becomes true, true becomes false; toggling twice restores a flag. */
  lemma RequiredToggles(fieldData: Draft)
    ensures Edited(fieldData, "required", Text(""), 0)["required"] == Flag(!Has(fieldData, "required"))
    ensures var twice := Edited(Edited(fieldData, "required", Text(""), 0), "required", Text(""), 0);
      twice["required"] == Flag(Has(fieldData, "required"))
  {
  }

  /**
   * Leaving a text type for another type drops a truthy mask and equalTo but
   * keeps falsy ones; leaving an option type drops truthy options. Every
   * other key keeps its value.
   */
  lemma TypeChangePrunes(fieldData: Draft, value: Prop)
    requires Has(fieldData, "type") && fieldData["type"] != value
    ensures var r := Edited(fieldData, "type", value, 0);
      && r["type"] == value
      && (TypeAmong(fieldData, TextTypes) ==> !Has(r, "mask") && !Has(r, "equalTo"))
      && (TypeAmong(fieldData, TypesWithOptions) ==> !Has(r, "options"))
      && (forall k :: k in fieldData && !Has(fieldData, k) ==> k in r)
      && (forall k :: k in fieldData && k != "type" && k != "options" && k != "mask" && k != "equalTo" ==>
            k in r && r[k] == fieldData[k])
  {
  }

  /** A first type, or the same type again, prunes nothing. */
  lemma TypeSetWithoutPruning(fieldData: Draft, value: Prop)
    requires !Has(fieldData, "type") || fieldData["type"] == value
    ensures Edited(fieldData, "type", value, 0) == fieldData["type" := value]
  {
  }

  /** Any other input sets exactly its own key. */
  lemma OtherKeySetsOnlyItself(fieldData: Draft, name: string, value: Prop)
    requires name != "name" && name != "required" && name != "type"
    ensures var r := Edited(fieldData, name, value, 0);
      r.Keys == fieldData.Keys + {name} && r[name] == value &&
      forall k :: k in fieldData && k != name ==> r[k] == fieldData[k]
  {
  }
}
