/**
 * The attribute-list editor of src/form-builder/fb-custom-fields/fb-additional-html.component.jsx.
 *
 * Every operation copies the array shallowly and emits it in one
 * 'additionalAttribs' event; the two updates then assign a field of an
 * element of the copy, which is the same object the caller's list holds.
 * An absent list (`None`) defaults to the empty list.
 */
module AttribsEditor {
  import opened Js
  import opened Drafts

  const EventName: string := "additionalAttribs"

  /** The `additionalAttribs = []` default. */
  function OrEmpty(additionalAttribs: Option<seq<Attrib>>): seq<Attrib> {
    if additionalAttribs.Some? then additionalAttribs.value else []
  }

  /** Appends a fresh `{name: '', value: ''}`. */
  method AddAttrib(additionalAttribs: Option<seq<Attrib>>) returns (event: ListEvent<Attrib>)
    ensures event.name == EventName
    ensures |event.value| == |OrEmpty(additionalAttribs)| + 1
    ensures event.value[..|event.value| - 1] == OrEmpty(additionalAttribs)
    ensures fresh(event.value[|event.value| - 1])
    ensures AttribValues(event.value) == AttribValues(OrEmpty(additionalAttribs)) + [AttribValue("", "")]
  {
    var newArray := OrEmpty(additionalAttribs);
    var blank := new Attrib("", "");
    newArray := newArray + [blank];
    event := ListEvent(EventName, newArray);
  }

  /**
   * Sets the name of element `indx`. The emitted list holds the very same
   * objects, so the caller's list shows the new name as well, and so does
   * every other position holding that object.
   */
  method UpdateAttribName(additionalAttribs: Option<seq<Attrib>>, value: string, indx: int) returns (event: ListEvent<Attrib>)
    requires 0 <= indx < |OrEmpty(additionalAttribs)|
    modifies OrEmpty(additionalAttribs)[indx]
    ensures event == ListEvent(EventName, OrEmpty(additionalAttribs))
    ensures var list := OrEmpty(additionalAttribs);
      forall i :: 0 <= i < |list| ==>
        AttribValues(list)[i] == if list[i] == list[indx] then AttribValue(value, old(list[indx].value)) else old(AttribValues(list))[i]
  {
    var newArray := OrEmpty(additionalAttribs);
    newArray[indx].name := value;
    event := ListEvent(EventName, newArray);
  }

  /** Sets the value of element `indx`, again on the shared object. */
  method UpdateAttribValue(additionalAttribs: Option<seq<Attrib>>, value: string, indx: int) returns (event: ListEvent<Attrib>)
    requires 0 <= indx < |OrEmpty(additionalAttribs)|
    modifies OrEmpty(additionalAttribs)[indx]
    ensures event == ListEvent(EventName, OrEmpty(additionalAttribs))
    ensures var list := OrEmpty(additionalAttribs);
      forall i :: 0 <= i < |list| ==>
        AttribValues(list)[i] == if list[i] == list[indx] then AttribValue(old(list[indx].name), value) else old(AttribValues(list))[i]
  {
    var newArray := OrEmpty(additionalAttribs);
    newArray[indx].value := value;
    event := ListEvent(EventName, newArray);
  }

  /**
   * Drops element `indx`; a negative index counts from the end, and one
   * before the start drops the first element. The list may become empty.
   */
  method RemoveAttrib(additionalAttribs: Option<seq<Attrib>>, indx: int) returns (event: ListEvent<Attrib>)
    ensures event.name == EventName
    ensures 0 <= indx < |OrEmpty(additionalAttribs)| ==>
      |event.value| == |OrEmpty(additionalAttribs)| - 1 &&
      event.value == OrEmpty(additionalAttribs)[..indx] + OrEmpty(additionalAttribs)[indx + 1..]
    ensures indx >= |OrEmpty(additionalAttribs)| ==> event.value == OrEmpty(additionalAttribs)
    ensures var list := OrEmpty(additionalAttribs);
      -|list| <= indx < 0 ==> event.value == list[..|list| + indx] + list[|list| + indx + 1..]
    ensures var list := OrEmpty(additionalAttribs);
      indx < -|list| && list != [] ==> event.value == list[1..]
    ensures multiset(event.value) <= multiset(OrEmpty(additionalAttribs))
  {
    var newArray := OrEmpty(additionalAttribs);
    newArray := SpliceOne(newArray, indx);
    SpliceOneSubmultiset(OrEmpty(additionalAttribs), indx);
    event := ListEvent(EventName, newArray);
  }

  /** What `splice(indx, 1)` leaves is part of what was there. */
  lemma SpliceOneSubmultiset<T>(s: seq<T>, indx: int)
    ensures multiset(SpliceOne(s, indx)) <= multiset(s)
  {
    var k := SpliceStart(|s|, indx);
    if k < |s| {
      assert s == s[..k] + [s[k]] + s[k + 1..];
    }
  }

  /** Removing the only attribute leaves an empty list: there is no minimum length. */
  lemma RemoveLast(a: Attrib)
    ensures SpliceOne([a], 0) == []
  {
  }
}
