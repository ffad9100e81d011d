/**
 * The schema builder of src/form-builder/form-builder/form-builder.component.jsx:
 * a list of drafts that fields are added to, removed from and replaced in,
 * and a submit that copies the list, flattens each draft's
 * `additionalAttribs` into plain keys, appends a submit and a reset button
 * and hands the result to the parent, leaving the list as it was.
 */
module Builder {
  import opened Js
  import opened Drafts
  import FieldEditor

  const AttribsKey: string := "additionalAttribs"

  /** An `additionalAttribs` that is set at all is an attribute list, as the attribute editor emits it. */
  predicate AttribsWellFormed(d: Draft) {
    Has(d, AttribsKey) ==> d[AttribsKey].AttribList?
  }

  // ---------------------------------------------------------------------
  // Flattening the extra attributes
  // ---------------------------------------------------------------------

  /** The draft after assigning `draft[name] = value` for each pair in order. */
  function WithAttribs(d: Draft, attribs: seq<AttribValue>): Draft
    decreases |attribs|
  {
    if attribs == [] then d
    else
      var last := attribs[|attribs| - 1];
      WithAttribs(d, attribs[..|attribs| - 1])[last.name := Text(last.value)]
  }

  /** One draft as `spreadAdditionalAttribs` leaves it. */
  function Spread(d: Draft): Draft
    requires AttribsWellFormed(d)
  {
    if Has(d, AttribsKey) then WithAttribs(d - {AttribsKey}, d[AttribsKey].attribs) else d
  }

  /** The position of the last pair named `key`, or -1. */
  function LastNamed(attribs: seq<AttribValue>, key: string): (j: int)
    ensures -1 <= j < |attribs|
    ensures j >= 0 ==> attribs[j].name == key && forall i :: j < i < |attribs| ==> attribs[i].name != key
    ensures j == -1 ==> forall i :: 0 <= i < |attribs| ==> attribs[i].name != key
    decreases |attribs|
  {
    if attribs == [] then -1
    else if attribs[|attribs| - 1].name == key then |attribs| - 1
    else LastNamed(attribs[..|attribs| - 1], key)
  }

  /** The last pair with a name wins, over earlier pairs and over the draft's own key. */
  lemma {:induction false} WithAttribsLookup(d: Draft, attribs: seq<AttribValue>, key: string)
    ensures key in WithAttribs(d, attribs) <==> key in d || LastNamed(attribs, key) >= 0
    ensures LastNamed(attribs, key) >= 0 ==> WithAttribs(d, attribs)[key] == Text(attribs[LastNamed(attribs, key)].value)
    ensures LastNamed(attribs, key) == -1 && key in d ==> WithAttribs(d, attribs)[key] == d[key]
    decreases |attribs|
  {
    if attribs != [] {
      WithAttribsLookup(d, attribs[..|attribs| - 1], key);
    }
  }

  /**
   * After flattening, a key holds the value of the last pair of that name if
   * there is one, and otherwise what the draft held; the list itself is gone
   * unless a pair is named after it.
   */
  lemma SpreadLookup(d: Draft, key: string)
    requires AttribsWellFormed(d) && Has(d, AttribsKey)
    ensures var attribs := d[AttribsKey].attribs;
      && (LastNamed(attribs, key) >= 0 ==> key in Spread(d) && Spread(d)[key] == Text(attribs[LastNamed(attribs, key)].value))
      && (LastNamed(attribs, key) == -1 && key != AttribsKey ==> (key in Spread(d) <==> key in d) && (key in d ==> Spread(d)[key] == d[key]))
      && (LastNamed(attribs, AttribsKey) == -1 ==> AttribsKey !in Spread(d))
  {
    var attribs := d[AttribsKey].attribs;
    WithAttribsLookup(d - {AttribsKey}, attribs, key);
    WithAttribsLookup(d - {AttribsKey}, attribs, AttribsKey);
  }

  /** Two pairs with the same name: the second one's value is kept. */
  lemma LaterPairWins(d: Draft, name: string, first: string, second: string)
    requires name != AttribsKey
    requires d == map[AttribsKey := AttribList([AttribValue(name, first), AttribValue(name, second)])]
    ensures Spread(d) == map[name := Text(second)]
  {
    var attribs := d[AttribsKey].attribs;
    assert attribs[..1] == [AttribValue(name, first)];
    assert attribs[..1][..0] == [];
    assert d - {AttribsKey} == map[];
    assert WithAttribs(map[], attribs[..1]) == map[name := Text(first)];
  }

  /** The nested loops of `spreadAdditionalAttribs`, run in place over the copied array. */
  method SpreadAdditionalAttribs(fieldsData: array<Draft>)
    requires forall i :: 0 <= i < fieldsData.Length ==> AttribsWellFormed(fieldsData[i])
    modifies fieldsData
    ensures forall i :: 0 <= i < fieldsData.Length ==> fieldsData[i] == Spread(old(fieldsData[i]))
  {
    for i := 0 to fieldsData.Length
      invariant forall k :: 0 <= k < i ==> fieldsData[k] == Spread(old(fieldsData[k]))
      invariant forall k :: i <= k < fieldsData.Length ==> fieldsData[k] == old(fieldsData[k])
    {
      if Has(fieldsData[i], AttribsKey) {
        var attribsArr := fieldsData[i][AttribsKey].attribs;
        fieldsData[i] := fieldsData[i] - {AttribsKey};
        for j := 0 to |attribsArr|
          invariant fieldsData[i] == WithAttribs(old(fieldsData[i]) - {AttribsKey}, attribsArr[..j])
          invariant forall k :: 0 <= k < fieldsData.Length && k != i ==> fieldsData[k] == if k < i then Spread(old(fieldsData[k])) else old(fieldsData[k])
        {
          assert attribsArr[..j + 1][..j] == attribsArr[..j];
          fieldsData[i] := fieldsData[i][attribsArr[j].name := Text(attribsArr[j].value)];
        }
        assert attribsArr[..|attribsArr|] == attribsArr;
      }
    }
  }

  // ---------------------------------------------------------------------
  // Submit
  // ---------------------------------------------------------------------

  const SubmitButton: Draft := map["type" := Text("submit"), "name" := Text("submit-btn"), "id" := Text("submit-btn"), "value" := Text("SUBMIT")]
  const ResetButton: Draft := map["type" := Text("reset"), "name" := Text("reset-btn"), "id" := Text("reset-btn"), "value" := Text("RESET")]

  /** The schema handed to the parent: every draft flattened, then the two buttons. */
  function Submitted(drafts: seq<Draft>): (schema: seq<Draft>)
    requires forall i :: 0 <= i < |drafts| ==> AttribsWellFormed(drafts[i])
    ensures |schema| == |drafts| + 2
    ensures forall i :: 0 <= i < |drafts| ==> schema[i] == Spread(drafts[i])
    ensures schema[|drafts|] == SubmitButton && schema[|drafts| + 1] == ResetButton
  {
    seq(|drafts|, i requires 0 <= i < |drafts| => Spread(drafts[i])) + [SubmitButton, ResetButton]
  }

  /** A draft without extra attributes reaches the parent as it is. */
  lemma PlainDraftUnchanged(drafts: seq<Draft>, i: int)
    requires forall k :: 0 <= k < |drafts| ==> AttribsWellFormed(drafts[k])
    requires 0 <= i < |drafts| && !Has(drafts[i], AttribsKey)
    ensures Submitted(drafts)[i] == drafts[i]
  {
  }

  // ---------------------------------------------------------------------
  // Names and numbering
  // ---------------------------------------------------------------------

  /** `usedNames`: the truthy names, in draft order. */
  function UsedNames(drafts: seq<Draft>): seq<Prop>
    decreases |drafts|
  {
    if drafts == [] then []
    else
      var d := drafts[|drafts| - 1];
      UsedNames(drafts[..|drafts| - 1]) + (if Has(d, "name") then [d["name"]] else [])
  }

  /** A name is listed iff some draft holds it as a truthy name; the draft being edited counts too. */
  lemma {:induction false} UsedNamesMembers(drafts: seq<Draft>, name: Prop)
    ensures name in UsedNames(drafts) <==> exists i :: 0 <= i < |drafts| && Has(drafts[i], "name") && drafts[i]["name"] == name
    decreases |drafts|
  {
    if drafts != [] {
      var init := drafts[..|drafts| - 1];
      UsedNamesMembers(init, name);
      if exists i :: 0 <= i < |drafts| && Has(drafts[i], "name") && drafts[i]["name"] == name {
        var i :| 0 <= i < |drafts| && Has(drafts[i], "name") && drafts[i]["name"] == name;
        if i < |init| {
          assert init[i] == drafts[i];
        }
      }
      if exists i :: 0 <= i < |init| && Has(init[i], "name") && init[i]["name"] == name {
        var i :| 0 <= i < |init| && Has(init[i], "name") && init[i]["name"] == name;
        assert drafts[i] == init[i];
      }
    }
  }

  /** A draft's own name is in the list it is checked against, so entering it again is flagged as used. */
  lemma OwnNameFlagged(drafts: seq<Draft>, i: int)
    requires 0 <= i < |drafts| && Has(drafts[i], "name")
    ensures FieldEditor.NameMessage("name", drafts[i]["name"], UsedNames(drafts)) == Some(FieldEditor.NameUsed)
  {
    UsedNamesMembers(drafts, drafts[i]["name"]);
  }

  /** No falsy name is ever listed. */
  lemma {:induction false} UsedNamesTruthy(drafts: seq<Draft>)
    ensures forall i :: 0 <= i < |UsedNames(drafts)| ==> PropTruthy(UsedNames(drafts)[i])
    decreases |drafts|
  {
    if drafts != [] {
      UsedNamesTruthy(drafts[..|drafts| - 1]);
    }
  }

  /** `setNumeration`: 1st, 2nd, 3rd, and `n + 'th'` for every other number. */
  function SetNumeration(indx: int): string {
    if indx == 1 then "1st"
    else if indx == 2 then "2nd"
    else if indx == 3 then "3rd"
    else IntToString(indx) + "th"
  }

  /** From 4 on the text is the number's digits, which read back as the number, then "th". */
  lemma NumerationFromFour(n: nat)
    requires n >= 4
    ensures var text := SetNumeration(n);
      |text| > 2 && text[|text| - 2..] == "th" && IsDigits(text[..|text| - 2]) && ParseDecimal(text[..|text| - 2]) == n
  {
    NatToStringParses(n);
    var text := SetNumeration(n);
    assert text == NatToString(n) + "th";
    assert text[..|text| - 2] == NatToString(n);
  }

  /** There is no special case past 3: the 21st field is announced as "21th". */
  lemma TwentyFirst()
    ensures SetNumeration(21) == "21th"
  {
    assert NatToString(21) == NatToString(2) + [DigitChar(1)];
  }

  /**
   * The field editor keeps a draft's `additionalAttribs` well formed as long
   * as that key is only ever set from the attribute editor's list, so the
   * drafts it hands back keep the builder's invariant.
   */
  lemma EditedKeepsAttribsWellFormed(d: Draft, name: string, value: Prop, rand: nat)
    requires AttribsWellFormed(d) && (name == AttribsKey ==> value.AttribList?)
    requires name == "name" ==> value.Text?
    ensures AttribsWellFormed(FieldEditor.Edited(d, name, value, rand))
  {
  }

  // ---------------------------------------------------------------------
  // The builder
  // ---------------------------------------------------------------------

  class FormBuilder {
    var fieldsData: seq<Draft>

    predicate Valid()
      reads this
    {
      forall i :: 0 <= i < |fieldsData| ==> AttribsWellFormed(fieldsData[i])
    }

    /** One empty draft to start from. */
    constructor()
      ensures fieldsData == [map[]] && Valid()
    {
      fieldsData := [map[]];
    }

    method AddField()
      requires Valid()
      modifies this
      ensures fieldsData == old(fieldsData) + [map[]] && Valid()
    {
      fieldsData := fieldsData + [map[]];
    }

    /** `splice(indx, 1)` on a copy: there is no lower bound, so the list can become empty. */
    method RemoveField(indx: int)
      requires Valid()
      modifies this
      ensures fieldsData == SpliceOne(old(fieldsData), indx) && Valid()
    {
      var newFieldsData := fieldsData;
      newFieldsData := SpliceOne(newFieldsData, indx);
      fieldsData := newFieldsData;
      forall i | 0 <= i < |fieldsData| ensures AttribsWellFormed(fieldsData[i]) {
        var k := SpliceStart(|old(fieldsData)|, indx);
        if k < |old(fieldsData)| {
          assert fieldsData[i] == if i < k then old(fieldsData)[i] else old(fieldsData)[i + 1];
        }
      }
    }

    /** The edited draft replaces position `indx` only. */
    method HandleChange(fieldData: Draft, indx: nat)
      requires Valid() && indx < |fieldsData| && AttribsWellFormed(fieldData)
      modifies this
      ensures fieldsData == old(fieldsData)[indx := fieldData] && Valid()
    {
      var newFieldsData := fieldsData;
      newFieldsData := newFieldsData[indx := fieldData];
      fieldsData := newFieldsData;
    }

    /** Nothing is submitted from an empty list; otherwise the flattened copy, and the drafts stay. */
    method HandleSubmit() returns (submitted: Option<seq<Draft>>)
      requires Valid()
      ensures fieldsData == [] ==> submitted == None
      ensures fieldsData != [] ==> submitted == Some(Submitted(fieldsData))
    {
      if |fieldsData| == 0 {
        return None;
      }
      var stateCopy := new Draft[|fieldsData|](i requires 0 <= i < |fieldsData| reads this => fieldsData[i]);
      assert forall i :: 0 <= i < stateCopy.Length ==> stateCopy[i] == fieldsData[i];
      SpreadAdditionalAttribs(stateCopy);
      assert stateCopy[..] == Submitted(fieldsData)[..|fieldsData|];
      submitted := Some(stateCopy[..] + [SubmitButton, ResetButton]);
    }
  }

  /** Removing the starting draft leaves nothing to submit. */
  lemma RemovingEverything(start: seq<Draft>)
    requires start == [map[]]
    ensures SpliceOne(start, 0) == []
  {
  }
}
