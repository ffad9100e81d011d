/**
 * The stand-alone masked input component of src/masked-input: its own copies
 * of the masking loops (guarded only by an empty template), the change
 * handler that forwards the unmasked text, the re-render test over its props
 * and the text/tel render guard.
 */
module MaskedInput {
  import opened Js
  import MaskCodec

  // ---------------------------------------------------------------------
  // The component's copies of the codec
  // ---------------------------------------------------------------------

  /** This copy returns early only on an empty template; an empty value runs the loop zero times. */
  method MaskValue(value: string, mask: string) returns (masked: string)
    ensures masked == MaskCodec.Masked(value, mask)
  {
    if mask == [] {
      return value;
    }
    var maskIndx, valueIndx := 0, 0;
    masked := [];
    while valueIndx < |value| && maskIndx < |mask|
      invariant 0 <= valueIndx <= |value| && 0 <= maskIndx <= |mask|
      invariant masked + MaskCodec.Walk(value[valueIndx..], mask[maskIndx..]) == MaskCodec.Walk(value, mask)
    {
      ghost var rest := MaskCodec.Walk(value[valueIndx..], mask[maskIndx..]);
      if mask[maskIndx] == MaskCodec.Slot {
        assert rest == [value[valueIndx]] + MaskCodec.Walk(value[valueIndx + 1..], mask[maskIndx + 1..]);
        masked := masked + [value[valueIndx]];
        valueIndx := valueIndx + 1;
        maskIndx := maskIndx + 1;
      } else {
        assert rest == [mask[maskIndx]] + MaskCodec.Walk(value[valueIndx..], mask[maskIndx + 1..]);
        masked := masked + [mask[maskIndx]];
        maskIndx := maskIndx + 1;
      }
    }
  }

  /** Same filter as the shared codec; only the template is tested before the loop. */
  method UnMaskValue(masked: string, mask: string) returns (unmasked: string)
    ensures unmasked == MaskCodec.Unmasked(masked, mask)
  {
    if mask == [] {
      return masked;
    }
    unmasked := [];
    var i := 0;
    while i < |masked|
      invariant 0 <= i <= |masked|
      invariant unmasked == MaskCodec.Strip(masked[..i], mask)
    {
      assert masked[..i + 1] == masked[..i] + [masked[i]];
      MaskCodec.StripSnoc(masked[..i], mask, masked[i]);
      if i >= |mask| || masked[i] != mask[i] {
        unmasked := unmasked + [masked[i]];
      }
      i := i + 1;
    }
    assert masked[..|masked|] == masked;
  }

  // ---------------------------------------------------------------------
  // Props, change handling and rendering
  // ---------------------------------------------------------------------

  /** The component's props; `htmlProps` is the bag of attributes spread on the input. */
  datatype Props = Props(
    fieldLabel: Value,
    errMsg: Value,
    mask: string,
    value: string,
    onChange: Value,
    htmlProps: map<string, Value>)

  /**
   * The change handler overwrites `event.target.value` with the unmasked text
   * and hands the same event to `onChange`; the returned target is what the
   * parent receives.
   */
  method HandleChange(target: Target, mask: string) returns (forwarded: Target)
    requires target.value.Str?
    ensures forwarded.value == Str(MaskCodec.Unmasked(target.value.s, mask))
    ensures forwarded.(value := target.value) == target
  {
    var unmasked := UnMaskValue(target.value.s, mask);
    forwarded := target.(value := Str(unmasked));
  }

  /** Some key of the new attribute bag is missing from the old one or holds another value. */
  predicate HtmlPropsChanged(oldHtml: map<string, Value>, newHtml: map<string, Value>) {
    exists key :: key in newHtml && (key !in oldHtml || newHtml[key] != oldHtml[key])
  }

  /** The condition under which `shouldComponentUpdate` answers true. */
  predicate PropsChanged(oldProps: Props, newProps: Props) {
    || oldProps.fieldLabel != newProps.fieldLabel
    || oldProps.errMsg != newProps.errMsg
    || oldProps.mask != newProps.mask
    || oldProps.value != newProps.value
    || oldProps.onChange != newProps.onChange
    || HtmlPropsChanged(oldProps.htmlProps, newProps.htmlProps)
  }

  /** The five scalar props are compared first; then the keys of the new attribute bag, one at a time. */
  method ShouldComponentUpdate(oldProps: Props, newProps: Props) returns (update: bool)
    ensures update <==> PropsChanged(oldProps, newProps)
  {
    if oldProps.fieldLabel != newProps.fieldLabel { return true; }
    if oldProps.errMsg != newProps.errMsg { return true; }
    if oldProps.mask != newProps.mask { return true; }
    if oldProps.value != newProps.value { return true; }
    if oldProps.onChange != newProps.onChange { return true; }

    var oldHtml, newHtml := oldProps.htmlProps, newProps.htmlProps;
    var pending := newHtml.Keys;
    while pending != {}
      invariant pending <= newHtml.Keys
      invariant forall key :: key in newHtml && key !in pending ==> key in oldHtml && newHtml[key] == oldHtml[key]
      decreases |pending|
    {
      var key :| key in pending;
      if key !in oldHtml {
        return true;
      }
      if newHtml[key] != oldHtml[key] {
        return true;
      }
      pending := pending - {key};
    }
    return false;
  }

  /** Only the keys of the new attribute bag are visited, so dropping an attribute does not re-render. */
  lemma RemovedAttributeIgnored(props: Props, key: string)
    ensures !PropsChanged(props, props.(htmlProps := props.htmlProps - {key}))
  {
  }

  /** Adding an attribute, or changing one, does re-render. */
  lemma AddedAttributeNoticed(props: Props, key: string, v: Value)
    requires key !in props.htmlProps || props.htmlProps[key] != v
    ensures PropsChanged(props, props.(htmlProps := props.htmlProps[key := v]))
  {
    assert key in props.htmlProps[key := v];
  }

  /** The input is rendered only for `type` "text" or "tel". */
  predicate RendersInput(htmlProps: map<string, Value>) {
    Lookup(htmlProps, "type") == Str("text") || Lookup(htmlProps, "type") == Str("tel")
  }

  /** What the rendered input displays: the masked value, or nothing at all. */
  function Displayed(props: Props): (shown: Option<string>)
    ensures shown.Some? <==> RendersInput(props.htmlProps)
    ensures shown.Some? && props.mask == [] ==> shown.value == props.value
    ensures shown.Some? && props.mask != [] ==> |shown.value| <= |props.mask|
  {
    if RendersInput(props.htmlProps) then
      MaskCodec.MaskedShape(props.value, props.mask);
      Some(MaskCodec.Masked(props.value, props.mask))
    else None
  }

  /**
   * Displaying a value and forwarding the unedited display gives the parent
   * back the same value, when it holds no `#` and fits the template.
   */
  lemma DisplayThenForward(props: Props, target: Target)
    requires RendersInput(props.htmlProps)
    requires MaskCodec.NoSlotChar(props.value) && |props.value| <= MaskCodec.SlotCount(props.mask)
    requires target.value == Str(Displayed(props).value)
    ensures MaskCodec.Unmasked(target.value.s, props.mask) == props.value
  {
    MaskCodec.RoundTrip(props.value, props.mask);
  }
}
