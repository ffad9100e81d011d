/**
 * The masking codec of src/form-custom/input/input.utils.js.
 *
 * `maskValue` walks a template: every `#` consumes one character of the raw
 * value, every other template character is emitted as a literal. The walk
 * stops as soon as either the value or the template runs out, so literals
 * after the last consumed character are never emitted.
 *
 * `unMaskValue` is position based: it keeps a character of the masked text
 * iff it differs from the template character at the same index (characters
 * past the end of the template are always kept).
 *
 * Absent strings are modelled as "" (both are falsy, and the guards treat
 * them alike).
 */
module MaskCodec {

  const Slot: char := '#'

  /** Number of `#` slots in a template. */
  function SlotCount(mask: string): nat
    decreases |mask|
  {
    if mask == [] then 0 else (if mask[0] == Slot then 1 else 0) + SlotCount(mask[1..])
  }

  predicate NoSlotChar(v: string) {
    forall i :: 0 <= i < |v| ==> v[i] != Slot
  }

  /** The template walk of `maskValue`'s loop, from the current positions onwards. */
  function Walk(value: string, mask: string): string
    decreases |mask|
  {
    if value == [] || mask == [] then []
    else if mask[0] == Slot then [value[0]] + Walk(value[1..], mask[1..])
    else [mask[0]] + Walk(value, mask[1..])
  }

  /** `maskValue(value, mask)`: an empty mask or value is returned unchanged. */
  function Masked(value: string, mask: string): string {
    if mask == [] || value == [] then value else Walk(value, mask)
  }

  /** The decision of `unMaskValue`'s loop at index i. */
  predicate KeptAt(masked: string, mask: string, i: nat)
    requires i < |masked|
  {
    i >= |mask| || masked[i] != mask[i]
  }

  /** The characters `unMaskValue`'s loop keeps, from the front. */
  function Strip(masked: string, mask: string): string
    decreases |masked|
  {
    if masked == [] then []
    else
      (if mask == [] || masked[0] != mask[0] then [masked[0]] else [])
      + Strip(masked[1..], if mask == [] then [] else mask[1..])
  }

  /** `unMaskValue(masked, mask)`: an empty mask or masked text is returned unchanged. */
  function Unmasked(masked: string, mask: string): string {
    if mask == [] || masked == [] then masked else Strip(masked, mask)
  }

  /** The template from index i on (empty past its end), as `mask[i]` reads it. */
  function From(mask: string, i: nat): string {
    if i <= |mask| then mask[i..] else []
  }

  // ---------------------------------------------------------------------
  // The two loops
  // ---------------------------------------------------------------------

  method MaskValue(value: string, mask: string) returns (masked: string)
    ensures masked == Masked(value, mask)
  {
    if mask == [] || value == [] {
      return value;
    }
    var maskIndx, valueIndx := 0, 0;
    masked := [];
    while valueIndx < |value| && maskIndx < |mask|
      invariant 0 <= valueIndx <= |value| && 0 <= maskIndx <= |mask|
      invariant masked + Walk(value[valueIndx..], mask[maskIndx..]) == Walk(value, mask)
    {
      ghost var rest := Walk(value[valueIndx..], mask[maskIndx..]);
      if mask[maskIndx] == Slot {
        assert rest == [value[valueIndx]] + Walk(value[valueIndx + 1..], mask[maskIndx + 1..]);
        masked := masked + [value[valueIndx]];
        valueIndx := valueIndx + 1;
      } else {
        assert rest == [mask[maskIndx]] + Walk(value[valueIndx..], mask[maskIndx + 1..]);
        masked := masked + [mask[maskIndx]];
      }
      maskIndx := maskIndx + 1;
    }
  }

  method UnMaskValue(masked: string, mask: string) returns (unmasked: string)
    ensures unmasked == Unmasked(masked, mask)
  {
    if mask == [] || masked == [] {
      return masked;
    }
    unmasked := [];
    for i := 0 to |masked|
      invariant unmasked == Strip(masked[..i], mask)
    {
      assert masked[..i + 1] == masked[..i] + [masked[i]];
      StripSnoc(masked[..i], mask, masked[i]);
      if i >= |mask| || masked[i] != mask[i] {
        unmasked := unmasked + [masked[i]];
      }
    }
    assert masked[..|masked|] == masked;
  }

  // ---------------------------------------------------------------------
  // maskValue: shape of the result
  // ---------------------------------------------------------------------

  /** The characters of `r` that sit on `#` slots of the template, in order. */
  function SlotChars(r: string, mask: string): string
    decreases |r|
  {
    if r == [] || mask == [] then []
    else (if mask[0] == Slot then [r[0]] else []) + SlotChars(r[1..], mask[1..])
  }

  function Min(a: nat, b: nat): nat {
    if a < b then a else b
  }

  /**
   * The walk never outruns the template, copies every literal it passes,
   * and stops right after a slot when it stops before the template's end.
   */
  lemma {:induction false} WalkShape(value: string, mask: string)
    ensures |Walk(value, mask)| <= |mask|
    ensures forall i :: 0 <= i < |Walk(value, mask)| && mask[i] != Slot ==> Walk(value, mask)[i] == mask[i]
    ensures var r := Walk(value, mask); r != [] && |r| < |mask| ==> mask[|r| - 1] == Slot
    ensures value != [] && SlotCount(mask) > 0 ==> Walk(value, mask) != []
    decreases |mask|
  {
    if value == [] || mask == [] {
    } else if mask[0] == Slot {
      WalkShape(value[1..], mask[1..]);
    } else {
      WalkShape(value, mask[1..]);
      var r := Walk(value, mask[1..]);
      assert Walk(value, mask) == [mask[0]] + r;
      if value != [] && SlotCount(mask) > 0 {
        assert SlotCount(mask[1..]) == SlotCount(mask);
      }
    }
  }

  /**
   * Read in order, the characters on `#` slots are exactly the first
   * min(|value|, number of slots) characters of the value: surplus input is
   * dropped.
   */
  lemma {:induction false} WalkSlots(value: string, mask: string)
    ensures SlotChars(Walk(value, mask), mask) == value[..Min(|value|, SlotCount(mask))]
    decreases |mask|
  {
    if value == [] || mask == [] {
    } else if mask[0] == Slot {
      WalkSlots(value[1..], mask[1..]);
      var n := Min(|value[1..]|, SlotCount(mask[1..]));
      assert value[..n + 1] == [value[0]] + value[1..][..n];
    } else {
      WalkSlots(value, mask[1..]);
      assert SlotCount(mask) == SlotCount(mask[1..]);
    }
  }

  /** maskValue: its guard, its length bound, its literals and its slots. */
  lemma MaskedShape(value: string, mask: string)
    ensures mask == [] || value == [] ==> Masked(value, mask) == value
    ensures mask != [] ==> |Masked(value, mask)| <= |mask|
    ensures forall i :: 0 <= i < |Masked(value, mask)| && i < |mask| && mask[i] != Slot ==> Masked(value, mask)[i] == mask[i]
    ensures mask != [] ==> SlotChars(Masked(value, mask), mask) == value[..Min(|value|, SlotCount(mask))]
  {
    WalkShape(value, mask);
    WalkSlots(value, mask);
  }

  /** One literal step of the walk. */
  lemma WalkLiteral(value: string, c: char, mask: string)
    requires value != [] && c != Slot
    ensures Walk(value, [c] + mask) == [c] + Walk(value, mask)
  {
    assert ([c] + mask)[1..] == mask;
  }

  /** One slot step of the walk. */
  lemma WalkSlot(x: char, value: string, mask: string)
    ensures Walk([x] + value, [Slot] + mask) == [x] + Walk(value, mask)
  {
    assert ([Slot] + mask)[1..] == mask;
    assert ([x] + value)[1..] == value;
  }

  /** Trailing literals are not emitted once the value runs out. */
  lemma MaskedStopsAfterLastChar()
    ensures Masked("12", "##-") == "12"
  {
    assert Walk("", "-") == "";
  }

  /** A run of literals in front of the template is copied while there is value left. */
  lemma {:induction false} WalkLiterals(value: string, literals: string, mask: string)
    requires value != [] && NoSlotChar(literals)
    ensures Walk(value, literals + mask) == literals + Walk(value, mask)
    decreases |literals|
  {
    if literals != [] {
      assert NoSlotChar(literals[1..]) by {
        forall i | 0 <= i < |literals[1..]| ensures literals[1..][i] != Slot {
          assert literals[1..][i] == literals[i + 1];
        }
      }
      WalkLiterals(value, literals[1..], mask);
      assert (literals + mask)[0] == literals[0] && literals[0] != Slot;
      assert (literals + mask)[1..] == literals[1..] + mask;
      calc {
        Walk(value, literals + mask);
        [literals[0]] + Walk(value, literals[1..] + mask);
        [literals[0]] + (literals[1..] + Walk(value, mask));
        { assert literals == [literals[0]] + literals[1..]; }
        literals + Walk(value, mask);
      }
    } else {
      assert literals + mask == mask;
    }
  }

  predicate AllSlots(block: string) {
    forall i :: 0 <= i < |block| ==> block[i] == Slot
  }

  /** A run of slots in front of the template copies that many characters of the value. */
  lemma {:induction false} WalkSlotRun(value: string, block: string, mask: string)
    requires AllSlots(block) && |block| <= |value|
    ensures Walk(value, block + mask) == value[..|block|] + Walk(value[|block|..], mask)
    decreases |block|
  {
    if block != [] {
      assert AllSlots(block[1..]) by {
        forall i | 0 <= i < |block[1..]| ensures block[1..][i] == Slot {
          assert block[1..][i] == block[i + 1];
        }
      }
      WalkSlotRun(value[1..], block[1..], mask);
      assert (block + mask)[0] == block[0] == Slot;
      assert (block + mask)[1..] == block[1..] + mask;
      assert value[..|block|] == [value[0]] + value[1..][..|block[1..]|];
      assert value[1..][|block[1..]|..] == value[|block|..];
      calc {
        Walk(value, block + mask);
        [value[0]] + Walk(value[1..], block[1..] + mask);
        [value[0]] + (value[1..][..|block[1..]|] + Walk(value[|block|..], mask));
        value[..|block|] + Walk(value[|block|..], mask);
      }
    } else {
      assert block + mask == mask && value[|block|..] == value;
    }
  }

  /** The phone template of the example form data, on a ten-digit number. */
  lemma MaskedPhone(digits: string, mask: string)
    requires digits == "3334445555" && mask == "+39 ### ### ####"
    ensures Masked(digits, mask) == "+39 333 444 5555"
  {
    var v := digits;
    assert mask == "+39 " + ("###" + (" " + ("###" + (" " + ("####" + "")))));
    assert "+39 333 444 5555" == "+39 " + ("333" + (" " + ("444" + (" " + ("5555" + "")))));
    assert v[..3] == "333" && v[3..][..3] == "444" && v[3..][3..][..4] == "5555";
    assert v[3..][3..][4..] == "";
    WalkLiterals(v, "+39 ", "###" + (" " + ("###" + (" " + ("####" + "")))));
    WalkSlotRun(v, "###", " " + ("###" + (" " + ("####" + ""))));
    WalkLiterals(v[3..], " ", "###" + (" " + ("####" + "")));
    WalkSlotRun(v[3..], "###", " " + ("####" + ""));
    WalkLiterals(v[3..][3..], " ", "####" + "");
    WalkSlotRun(v[3..][3..], "####", "");
  }

  // ---------------------------------------------------------------------
  // unMaskValue: a position-based filter
  // ---------------------------------------------------------------------

  /** Unmasking the concatenation of two pieces: the second piece meets the template from |a| on. */
  lemma {:induction false} StripConcat(a: string, b: string, mask: string)
    ensures Strip(a + b, mask) == Strip(a, mask) + Strip(b, From(mask, |a|))
    decreases |a|
  {
    if a == [] {
      assert a + b == b;
    } else {
      var tailMask := if mask == [] then [] else mask[1..];
      var head := if mask == [] || a[0] != mask[0] then [a[0]] else [];
      assert Strip(a + b, mask) == head + Strip(a[1..] + b, tailMask) by {
        assert (a + b)[0] == a[0];
        assert (a + b)[1..] == a[1..] + b;
      }
      assert From(tailMask, |a[1..]|) == From(mask, |a|);
      StripConcat(a[1..], b, tailMask);
    }
  }

  /** One character against a template. */
  lemma StripSingle(c: char, mask: string)
    ensures Strip([c], mask) == if mask != [] && c == mask[0] then [] else [c]
  {
    assert [c][1..] == [];
    assert Strip([c], mask) == (if mask == [] || c != mask[0] then [c] else []) + Strip([], if mask == [] then [] else mask[1..]);
  }

  /**
   * `unMaskValue` keeps a character typed at index |s| iff it differs from
   * the template character there; past the template's end it is always kept.
   */
  lemma StripSnoc(s: string, mask: string, c: char)
    ensures Strip(s + [c], mask) == Strip(s, mask) + (if |s| < |mask| && c == mask[|s|] then [] else [c])
  {
    StripConcat(s, [c], mask);
    StripSingle(c, From(mask, |s|));
    if |s| < |mask| {
      assert From(mask, |s|)[0] == mask[|s|];
    }
  }

  /** `a` is a subsequence of `b`. */
  predicate IsSubsequence(a: string, b: string)
    decreases |b|
  {
    if a == [] then true
    else if b == [] then false
    else if a[0] == b[0] then IsSubsequence(a[1..], b[1..])
    else IsSubsequence(a, b[1..])
  }

  /** A subsequence of `b` is also one of `b` with one more character in front. */
  lemma {:induction false} SubsequenceCons(a: string, x: char, b: string)
    requires IsSubsequence(a, b)
    ensures IsSubsequence(a, [x] + b)
    decreases |b|, 1
  {
    assert ([x] + b)[1..] == b;
    if a != [] && a[0] == x {
      SubsequenceDrop(a, b);
    }
  }

  /** Dropping the first character of a subsequence keeps it a subsequence. */
  lemma {:induction false} SubsequenceDrop(a: string, b: string)
    requires a != [] && IsSubsequence(a, b)
    ensures IsSubsequence(a[1..], b)
    decreases |b|, 0
  {
    if a[0] == b[0] {
      if a[1..] != [] {
        SubsequenceCons(a[1..], b[0], b[1..]);
        assert [b[0]] + b[1..] == b;
      }
    } else {
      SubsequenceDrop(a, b[1..]);
      if a[1..] != [] {
        SubsequenceCons(a[1..], b[0], b[1..]);
        assert [b[0]] + b[1..] == b;
      }
    }
  }

  /** What unMaskValue returns is a subsequence of the masked text. */
  lemma {:induction false} StripIsSubsequence(masked: string, mask: string)
    ensures IsSubsequence(Strip(masked, mask), masked)
    decreases |masked|
  {
    if masked != [] {
      var tailMask := if mask == [] then [] else mask[1..];
      StripIsSubsequence(masked[1..], tailMask);
      var rest := Strip(masked[1..], tailMask);
      if mask == [] || masked[0] != mask[0] {
        assert Strip(masked, mask) == [masked[0]] + rest;
        assert (([masked[0]] + rest)[1..]) == rest;
      } else {
        assert Strip(masked, mask) == rest;
        SubsequenceCons(rest, masked[0], masked[1..]);
        assert [masked[0]] + masked[1..] == masked;
      }
    }
  }

  /** Text that agrees with the template position by position unmasks to nothing. */
  lemma {:induction false} StripOfTemplatePrefix(masked: string, mask: string)
    requires masked <= mask
    ensures Strip(masked, mask) == []
    decreases |masked|
  {
    if masked != [] {
      StripOfTemplatePrefix(masked[1..], mask[1..]);
    }
  }

  /** Text that differs from the template everywhere (or lies past its end) unmasks to itself. */
  lemma {:induction false} StripKeepsAll(masked: string, mask: string)
    requires forall i :: 0 <= i < |masked| ==> KeptAt(masked, mask, i)
    ensures Strip(masked, mask) == masked
    decreases |masked|
  {
    if masked != [] {
      var tailMask := if mask == [] then [] else mask[1..];
      assert KeptAt(masked, mask, 0);
      forall i | 0 <= i < |masked[1..]|
        ensures KeptAt(masked[1..], tailMask, i)
      {
        assert KeptAt(masked, mask, i + 1);
      }
      StripKeepsAll(masked[1..], tailMask);
      assert masked == [masked[0]] + masked[1..];
    }
  }

  /** unMaskValue: its guard, and the filter it performs. */
  lemma UnmaskedShape(masked: string, mask: string)
    ensures mask == [] || masked == [] ==> Unmasked(masked, mask) == masked
    ensures IsSubsequence(Unmasked(masked, mask), masked)
    ensures mask != [] && masked <= mask ==> Unmasked(masked, mask) == []
    ensures (forall i :: 0 <= i < |masked| ==> KeptAt(masked, mask, i)) ==> Unmasked(masked, mask) == masked
  {
    StripIsSubsequence(masked, mask);
    if mask == [] || masked == [] {
      SubsequenceRefl(masked);
    }
    if masked <= mask {
      StripOfTemplatePrefix(masked, mask);
    }
    if forall i :: 0 <= i < |masked| ==> KeptAt(masked, mask, i) {
      StripKeepsAll(masked, mask);
    }
  }

  lemma {:induction false} SubsequenceRefl(a: string)
    ensures IsSubsequence(a, a)
    decreases |a|
  {
    if a != [] {
      SubsequenceRefl(a[1..]);
    }
  }

  // ---------------------------------------------------------------------
  // Round trip, and where it breaks
  // ---------------------------------------------------------------------

  /**
   * Unmasking the walk of `value` gives back the part of the value the
   * template had room for, provided the value holds no `#`.
   */
  lemma {:induction false} StripWalk(value: string, mask: string)
    requires NoSlotChar(value)
    ensures Strip(Walk(value, mask), mask) == value[..Min(|value|, SlotCount(mask))]
    decreases |mask|
  {
    if value == [] || mask == [] {
    } else if mask[0] == Slot {
      var rest := Walk(value[1..], mask[1..]);
      assert Walk(value, mask) == [value[0]] + rest;
      StripConcat([value[0]], rest, mask);
      assert Strip([value[0]], mask) == [value[0]];
      assert From(mask, 1) == mask[1..];
      StripWalk(value[1..], mask[1..]);
      var n := Min(|value[1..]|, SlotCount(mask[1..]));
      assert value[..n + 1] == [value[0]] + value[1..][..n];
    } else {
      var rest := Walk(value, mask[1..]);
      assert Walk(value, mask) == [mask[0]] + rest;
      StripConcat([mask[0]], rest, mask);
      assert Strip([mask[0]], mask) == [];
      assert From(mask, 1) == mask[1..];
      StripWalk(value, mask[1..]);
      assert SlotCount(mask) == SlotCount(mask[1..]);
    }
  }

  /** Surplus input is lost: the round trip keeps only what the slots could hold. */
  lemma RoundTripTruncates(value: string, mask: string)
    requires NoSlotChar(value) && mask != []
    ensures Unmasked(Masked(value, mask), mask) == value[..Min(|value|, SlotCount(mask))]
  {
    if value != [] {
      StripWalk(value, mask);
    }
  }

  /** The round trip holds when the value has no `#` and fits the template's slots. */
  lemma RoundTrip(value: string, mask: string)
    requires NoSlotChar(value) && |value| <= SlotCount(mask)
    ensures Unmasked(Masked(value, mask), mask) == value
  {
    if mask != [] {
      RoundTripTruncates(value, mask);
      assert value[..|value|] == value;
    }
  }

  /**
   * The position-based quirk. After the form displays `Masked(v, m)` and the
   * user types `c` at its end, the unmasked value forwarded to the state is
   * v + [c] unless `c` equals the template character at that position, in
   * which case the keystroke is silently dropped.
   */
  lemma TypeAtEnd(value: string, mask: string, c: char)
    requires NoSlotChar(value) && |value| <= SlotCount(mask) && mask != []
    ensures var shown := Masked(value, mask);
      Unmasked(shown + [c], mask) == if |shown| < |mask| && c == mask[|shown|] then value else value + [c]
  {
    var shown := Masked(value, mask);
    StripSnoc(shown, mask, c);
    RoundTrip(value, mask);
  }

  /** A first keystroke equal to the template's first character is lost. */
  lemma FirstKeystrokeDropped(mask: string, c: char)
    requires mask != []
    ensures Unmasked([c], mask) == if c == mask[0] then [] else [c]
  {
    StripSingle(c, mask);
  }

  /** The number of slots adds up over the pieces of a template. */
  lemma {:induction false} SlotCountConcat(a: string, b: string)
    ensures SlotCount(a + b) == SlotCount(a) + SlotCount(b)
    decreases |a|
  {
    if a != [] {
      SlotCountConcat(a[1..], b);
      assert (a + b)[0] == a[0];
      assert (a + b)[1..] == a[1..] + b;
    } else {
      assert a + b == b;
    }
  }

  /** Typing the template's own characters yields an empty value. */
  lemma UnmaskedTemplateText()
    ensures Unmasked("+39 #", "+39 ###") == ""
  {
    StripOfTemplatePrefix("+39 #", "+39 ###");
  }

  /** The displayed phone number unmasks back to its digits. */
  lemma UnmaskedPhone(shown: string, mask: string)
    requires shown == "+39 333 444 5555" && mask == "+39 ### ### ####"
    ensures Unmasked(shown, mask) == "3334445555"
  {
    var digits := "3334445555";
    assert mask == "+39 " + ("###" + (" " + ("###" + (" " + "####"))));
    assert SlotCount("####") == 4 && SlotCount("###") == 3;
    assert SlotCount(" ") == 0 && SlotCount("+39 ") == 0;
    assert NoSlotChar(digits);
    SlotCountConcat(" ", "####");
    SlotCountConcat("###", " " + "####");
    SlotCountConcat(" ", "###" + (" " + "####"));
    SlotCountConcat("###", " " + ("###" + (" " + "####")));
    SlotCountConcat("+39 ", "###" + (" " + ("###" + (" " + "####"))));
    RoundTrip(digits, mask);
    MaskedPhone(digits, mask);
  }
}
