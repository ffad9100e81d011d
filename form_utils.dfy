/**
 * The schema helpers of src/components/form/form.utils.js (the older
 * src/form/form.utils.js holds the same three helpers without the hash).
 *
 * A schema entry is a plain object: a map from property names to values.
 * The sets of supported input types and of button types come from a module
 * that is not part of this model; they are parameters here.
 */
module FormUtils {
  import opened Js

  /** One element of a `formData` schema array. */
  type Entry = map<string, Value>

  function TypeOf(e: Entry): Value {
    Lookup(e, "type")
  }

  /** `types.includes(e.type)`: only a string type can be a member. */
  predicate TypeIn(e: Entry, types: set<string>) {
    TypeOf(e).Str? && TypeOf(e).s in types
  }

  // ---------------------------------------------------------------------
  // calculateFieldsArrays: a stable three-way partition
  // ---------------------------------------------------------------------

  /** The entries whose type is in `types`, in schema order. */
  function WithTypeIn(s: seq<Entry>, types: set<string>): seq<Entry>
    decreases |s|
  {
    if s == [] then []
    else WithTypeIn(s[..|s| - 1], types) + (if TypeIn(s[|s| - 1], types) then [s[|s| - 1]] else [])
  }

  /** The entries whose type is not in `types`, in schema order. */
  function WithTypeNotIn(s: seq<Entry>, types: set<string>): seq<Entry>
    decreases |s|
  {
    if s == [] then []
    else WithTypeNotIn(s[..|s| - 1], types) + (if TypeIn(s[|s| - 1], types) then [] else [s[|s| - 1]])
  }

  /**
   * One pass over the schema: a supported type goes to `fields`, otherwise a
   * button type goes to `btns`, and everything else to `unsupported`.
   */
  method CalculateFieldsArrays(formData: seq<Entry>, supported: set<string>, buttons: set<string>)
    returns (fields: seq<Entry>, btns: seq<Entry>, unsupported: seq<Entry>)
    ensures fields == WithTypeIn(formData, supported)
    ensures btns == WithTypeIn(formData, buttons - supported)
    ensures unsupported == WithTypeNotIn(formData, supported + buttons)
  {
    fields, btns, unsupported := [], [], [];
    for i := 0 to |formData|
      invariant fields == WithTypeIn(formData[..i], supported)
      invariant btns == WithTypeIn(formData[..i], buttons - supported)
      invariant unsupported == WithTypeNotIn(formData[..i], supported + buttons)
    {
      assert formData[..i + 1][..i] == formData[..i];
      if TypeIn(formData[i], supported) {
        fields := fields + [formData[i]];
      } else if TypeIn(formData[i], buttons) {
        btns := btns + [formData[i]];
      } else {
        unsupported := unsupported + [formData[i]];
      }
    }
    assert formData[..|formData|] == formData;
  }

  /** Membership: an entry lands in the filter iff it is in the schema and its type matches. */
  lemma {:induction false} WithTypeInMembers(s: seq<Entry>, types: set<string>)
    ensures forall e :: e in WithTypeIn(s, types) <==> e in s && TypeIn(e, types)
    ensures forall e :: e in WithTypeNotIn(s, types) <==> e in s && !TypeIn(e, types)
    decreases |s|
  {
    if s != [] {
      WithTypeInMembers(s[..|s| - 1], types);
      assert s == s[..|s| - 1] + [s[|s| - 1]];
    }
  }

  /** Both filters distribute over concatenation: the schema order is kept. */
  lemma {:induction false} FiltersKeepOrder(s1: seq<Entry>, s2: seq<Entry>, types: set<string>)
    ensures WithTypeIn(s1 + s2, types) == WithTypeIn(s1, types) + WithTypeIn(s2, types)
    ensures WithTypeNotIn(s1 + s2, types) == WithTypeNotIn(s1, types) + WithTypeNotIn(s2, types)
    decreases |s2|
  {
    if s2 == [] {
      assert s1 + s2 == s1;
    } else {
      var init := s2[..|s2| - 1];
      FiltersKeepOrder(s1, init, types);
      assert (s1 + s2)[..|s1 + s2| - 1] == s1 + init;
      assert (s1 + s2)[|s1 + s2| - 1] == s2[|s2| - 1];
    }
  }

  /** A filter and its complement split the schema: every entry goes to exactly one side. */
  lemma {:induction false} FilterSplits(s: seq<Entry>, types: set<string>)
    ensures multiset(WithTypeIn(s, types)) + multiset(WithTypeNotIn(s, types)) == multiset(s)
    ensures |WithTypeIn(s, types)| + |WithTypeNotIn(s, types)| == |s|
    decreases |s|
  {
    if s != [] {
      var init, last := s[..|s| - 1], s[|s| - 1];
      FilterSplits(init, types);
      assert s == init + [last];
      assert multiset(s) == multiset(init) + multiset{last};
      if TypeIn(last, types) {
        assert WithTypeIn(s, types) == WithTypeIn(init, types) + [last];
        assert WithTypeNotIn(s, types) == WithTypeNotIn(init, types);
      } else {
        assert WithTypeIn(s, types) == WithTypeIn(init, types);
        assert WithTypeNotIn(s, types) == WithTypeNotIn(init, types) + [last];
      }
    }
  }

  /** Filtering the rest of a first filter by a second set. */
  lemma {:induction false} FilterCompose(s: seq<Entry>, a: set<string>, b: set<string>)
    ensures WithTypeIn(WithTypeNotIn(s, a), b) == WithTypeIn(s, b - a)
    ensures WithTypeNotIn(WithTypeNotIn(s, a), b) == WithTypeNotIn(s, a + b)
    decreases |s|
  {
    if s != [] {
      var init, last := s[..|s| - 1], s[|s| - 1];
      FilterCompose(init, a, b);
      var rest := WithTypeNotIn(s, a);
      if TypeIn(last, a) {
        assert rest == WithTypeNotIn(init, a);
        assert !TypeIn(last, b - a) && TypeIn(last, a + b);
      } else {
        assert rest == WithTypeNotIn(init, a) + [last];
        assert rest[..|rest| - 1] == WithTypeNotIn(init, a) && rest[|rest| - 1] == last;
        assert TypeIn(last, b - a) <==> TypeIn(last, b);
        assert TypeIn(last, a + b) <==> TypeIn(last, b);
      }
    }
  }

  /**
   * calculateFieldsArrays places every entry in exactly one of the three
   * lists: their lengths add up to the schema's, their contents together are
   * the schema's, supported types win over button types, and the unsupported
   * entries are those in neither set.
   */
  lemma ThreeWayPartition(s: seq<Entry>, supported: set<string>, buttons: set<string>)
    ensures var fields, btns, unsupported :=
      WithTypeIn(s, supported), WithTypeIn(s, buttons - supported), WithTypeNotIn(s, supported + buttons);
      && |fields| + |btns| + |unsupported| == |s|
      && multiset(fields) + multiset(btns) + multiset(unsupported) == multiset(s)
      && (forall e :: e in fields <==> e in s && TypeIn(e, supported))
      && (forall e :: e in btns <==> e in s && !TypeIn(e, supported) && TypeIn(e, buttons))
      && (forall e :: e in unsupported <==> e in s && !TypeIn(e, supported) && !TypeIn(e, buttons))
  {
    FilterSplits(s, supported);
    var rest := WithTypeNotIn(s, supported);
    FilterSplits(rest, buttons);
    FilterCompose(s, supported, buttons);
    WithTypeInMembers(s, supported);
    WithTypeInMembers(rest, buttons);
    WithTypeInMembers(s, buttons - supported);
    WithTypeInMembers(s, supported + buttons);
  }

  // ---------------------------------------------------------------------
  // createInitialState
  // ---------------------------------------------------------------------

  /** `curr.name` is truthy. */
  predicate Named(e: Entry) {
    Truthy(Lookup(e, "name"))
  }

  /** The state key `acc[curr.name]` writes. */
  function KeyOf(e: Entry): string {
    ToPropertyKey(Lookup(e, "name"))
  }

  /** `options[0]` on whatever the entry holds under "options". */
  function FirstOption(options: Value): Value {
    match options
    case List(items) => if items == [] then Undefined else items[0]
    case Str(s) => if s == [] then Undefined else Str([s[0]])
    case _ => Undefined
  }

  /** Reading `options[0]` throws on a select whose options are undefined or null. */
  predicate OptionsReadable(e: Entry) {
    Named(e) && TypeOf(e) == Str("select") ==> !(Lookup(e, "options").Undefined? || Lookup(e, "options").Null?)
  }

  /** A select starts at its first option; every other type starts at ''. */
  function InitialValue(e: Entry): Value {
    if TypeOf(e) == Str("select") then FirstOption(Lookup(e, "options")) else Str("")
  }

  /** The reduce of createInitialState, one entry at a time from the left. */
  function InitialState(s: seq<Entry>): map<string, Value>
    decreases |s|
  {
    if s == [] then map[]
    else
      var acc := InitialState(s[..|s| - 1]);
      var e := s[|s| - 1];
      if Named(e) then acc[KeyOf(e) := InitialValue(e)] else acc
  }

  method CreateInitialState(fieldsData: seq<Entry>) returns (acc: map<string, Value>)
    requires forall i :: 0 <= i < |fieldsData| ==> OptionsReadable(fieldsData[i])
    ensures acc == InitialState(fieldsData)
  {
    acc := map[];
    for i := 0 to |fieldsData|
      invariant acc == InitialState(fieldsData[..i])
    {
      assert fieldsData[..i + 1][..i] == fieldsData[..i];
      var curr := fieldsData[i];
      if Truthy(Lookup(curr, "name")) {
        if TypeOf(curr) == Str("select") {
          acc := acc[KeyOf(curr) := FirstOption(Lookup(curr, "options"))];
        } else {
          acc := acc[KeyOf(curr) := Str("")];
        }
      }
    }
    assert fieldsData[..|fieldsData|] == fieldsData;
  }

  /** The index of the last entry with a truthy name whose key is `k`, if any. */
  predicate LastWithKey(s: seq<Entry>, k: string, j: int) {
    && 0 <= j < |s| && Named(s[j]) && KeyOf(s[j]) == k
    && forall i :: j < i < |s| && Named(s[i]) ==> KeyOf(s[i]) != k
  }

  /**
   * The initial state has exactly one key per truthy name; a nameless entry
   * contributes nothing, and when a name repeats, the last entry carrying it
   * decides the value.
   */
  lemma {:induction false} InitialStateKeys(s: seq<Entry>)
    ensures forall k :: k in InitialState(s) <==> exists i :: 0 <= i < |s| && Named(s[i]) && KeyOf(s[i]) == k
    ensures forall k, j :: LastWithKey(s, k, j) ==> k in InitialState(s) && InitialState(s)[k] == InitialValue(s[j])
    decreases |s|
  {
    if s != [] {
      var init := s[..|s| - 1];
      var last := s[|s| - 1];
      InitialStateKeys(init);
      forall k | k in InitialState(s)
        ensures exists i :: 0 <= i < |s| && Named(s[i]) && KeyOf(s[i]) == k
      {
        if Named(last) && k == KeyOf(last) {
          assert Named(s[|s| - 1]) && KeyOf(s[|s| - 1]) == k;
        } else {
          assert k in InitialState(init);
          var i :| 0 <= i < |init| && Named(init[i]) && KeyOf(init[i]) == k;
          assert s[i] == init[i];
        }
      }
      forall k | exists i :: 0 <= i < |s| && Named(s[i]) && KeyOf(s[i]) == k
        ensures k in InitialState(s)
      {
        var i :| 0 <= i < |s| && Named(s[i]) && KeyOf(s[i]) == k;
        if i < |init| {
          assert init[i] == s[i];
        }
      }
      forall k, j | LastWithKey(s, k, j)
        ensures k in InitialState(s) && InitialState(s)[k] == InitialValue(s[j])
      {
        if j < |init| {
          assert LastWithKey(init, k, j) by {
            forall i | j < i < |init| && Named(init[i]) ensures KeyOf(init[i]) != k {
              assert init[i] == s[i];
            }
          }
          assert !(Named(last) && KeyOf(last) == k);
        }
      }
    }
  }

  /** Schema from the example form: a nameless entry is skipped and a repeated name keeps the last value. */
  lemma InitialStateExample(nameless: Entry, first: Entry, second: Entry)
    requires nameless == map["type" := Str("text")]
    requires first == map["name" := Str("color"), "type" := Str("text")]
    requires second == map["name" := Str("color"), "type" := Str("select"), "options" := List([Str("red"), Str("blue")])]
    ensures InitialState([nameless, first, second]) == map["color" := Str("red")]
  {
    assert [nameless, first, second][..2] == [nameless, first];
    assert [nameless, first][..1] == [nameless];
    assert [nameless][..0] == [];
    assert !Named(nameless);
    assert InitialState([nameless]) == map[];
    assert KeyOf(first) == "color" && KeyOf(second) == "color";
    assert InitialState([nameless, first]) == map["color" := Str("")];
    assert InitialValue(second) == Str("red");
  }

  // ---------------------------------------------------------------------
  // The refs table both later Form revisions build in their constructor
  // ---------------------------------------------------------------------

  /** `fieldsRefs[field.name] = {type: field.type, ...}` for every field in order; only the type is kept. */
  function RefTypes(fields: seq<Entry>): map<string, Value>
    decreases |fields|
  {
    if fields == [] then map[]
    else
      var last := fields[|fields| - 1];
      RefTypes(fields[..|fields| - 1])[KeyOf(last) := TypeOf(last)]
  }

  method BuildFieldsRefs(fields: seq<Entry>) returns (refs: map<string, Value>)
    ensures refs == RefTypes(fields)
  {
    refs := map[];
    for i := 0 to |fields|
      invariant refs == RefTypes(fields[..i])
    {
      assert fields[..i + 1][..i] == fields[..i];
      refs := refs[KeyOf(fields[i]) := TypeOf(fields[i])];
    }
    assert fields[..|fields|] == fields;
  }

  /** Every field has an entry under its name (a missing name becomes the key "undefined"). */
  lemma {:induction false} RefTypesCover(fields: seq<Entry>)
    ensures forall i :: 0 <= i < |fields| ==> KeyOf(fields[i]) in RefTypes(fields)
    decreases |fields|
  {
    if fields != [] {
      var init := fields[..|fields| - 1];
      RefTypesCover(init);
      forall i | 0 <= i < |init| ensures KeyOf(fields[i]) in RefTypes(fields) {
        assert fields[i] == init[i];
      }
    }
  }

  /** Every entry comes from some field. */
  lemma {:induction false} RefTypesFromFields(fields: seq<Entry>)
    ensures forall k :: k in RefTypes(fields) ==> exists i :: 0 <= i < |fields| && KeyOf(fields[i]) == k
    decreases |fields|
  {
    if fields != [] {
      var init := fields[..|fields| - 1];
      RefTypesFromFields(init);
      forall k | k in RefTypes(fields)
        ensures exists i :: 0 <= i < |fields| && KeyOf(fields[i]) == k
      {
        if k != KeyOf(fields[|fields| - 1]) {
          assert k in RefTypes(init);
          var i :| 0 <= i < |init| && KeyOf(init[i]) == k;
          assert fields[i] == init[i];
        }
      }
    }
  }

  /** No later field shares the name of field i. */
  predicate LastOfName(fields: seq<Entry>, i: int) {
    0 <= i < |fields| && forall j :: i < j < |fields| ==> KeyOf(fields[j]) != KeyOf(fields[i])
  }

  /** The entry records the type of the last field with that name. */
  lemma {:induction false} RefTypesLastWins(fields: seq<Entry>, i: int)
    requires LastOfName(fields, i)
    ensures KeyOf(fields[i]) in RefTypes(fields) && RefTypes(fields)[KeyOf(fields[i])] == TypeOf(fields[i])
    decreases |fields|
  {
    var init := fields[..|fields| - 1];
    if i < |init| {
      assert fields[i] == init[i];
      assert LastOfName(init, i) by {
        forall j | i < j < |init| ensures KeyOf(init[j]) != KeyOf(init[i]) {
          assert init[j] == fields[j];
        }
      }
      RefTypesLastWins(init, i);
    }
  }

  /** The refs whose recorded type is 'file': the inputs a reset has to clear by hand. */
  function FileRefs(refs: map<string, Value>): set<string> {
    set k | k in refs && refs[k] == Str("file")
  }

  // ---------------------------------------------------------------------
  // shallowCompareFormData
  // ---------------------------------------------------------------------

  /**
   * The per-entry test: the `length` property differs (plain objects have
   * none, so this reads undefined on both sides), or some key of the new
   * entry is falsy in the old entry or holds another value there.
   */
  predicate EntryChanged(oldEntry: Entry, newEntry: Entry) {
    || Lookup(oldEntry, "length") != Lookup(newEntry, "length")
    || exists key :: key in newEntry && (!Truthy(Lookup(oldEntry, key)) || Lookup(oldEntry, key) != newEntry[key])
  }

  /** The answer of shallowCompareFormData, given whether both arrays are the same reference. */
  predicate FormDataChanged(sameReference: bool, oldData: seq<Entry>, newData: seq<Entry>) {
    && !sameReference
    && (|oldData| != |newData| || exists i :: 0 <= i < |newData| && EntryChanged(oldData[i], newData[i]))
  }

  method ShallowCompareFormData(oldData: array<Entry>, newData: array<Entry>) returns (changed: bool)
    ensures changed == FormDataChanged(oldData == newData, oldData[..], newData[..])
  {
    if oldData != newData {
      if oldData.Length != newData.Length {
        return true;
      }
      for i := 0 to newData.Length
        invariant forall j :: 0 <= j < i ==> !EntryChanged(oldData[j], newData[j])
      {
        var oldEntry, newEntry := oldData[i], newData[i];
        if Lookup(oldEntry, "length") != Lookup(newEntry, "length") {
          return true;
        }
        var pending := newEntry.Keys;
        while pending != {}
          invariant pending <= newEntry.Keys
          invariant forall key :: key in newEntry && key !in pending ==>
            Truthy(Lookup(oldEntry, key)) && Lookup(oldEntry, key) == newEntry[key]
          decreases |pending|
        {
          var key :| key in pending;
          if !Truthy(Lookup(oldEntry, key)) {
            assert key in newEntry;
            return true;
          }
          if Lookup(oldEntry, key) != newEntry[key] {
            return true;
          }
          pending := pending - {key};
        }
      }
    }
    return false;
  }

  /** A key present only in the old entry is never looked at. */
  lemma DeletedKeyUndetected(e: Entry, key: string)
    requires key != "length"
    requires forall k :: k in e ==> Truthy(e[k])
    ensures !EntryChanged(e, e - {key})
  {
    assert Lookup(e, "length") == Lookup(e - {key}, "length");
  }

  /** A key whose old value is falsy reports a change even when nothing changed. */
  lemma FalsyValueAlwaysChanged(data: seq<Entry>, i: int, key: string)
    requires 0 <= i < |data| && key in data[i] && !Truthy(data[i][key])
    ensures FormDataChanged(false, data, data)
  {
    assert EntryChanged(data[i], data[i]);
  }

  /** The same array reference is never reported as changed. */
  lemma SameReferenceUnchanged(data: seq<Entry>, other: seq<Entry>)
    ensures !FormDataChanged(true, data, other)
  {
  }

  /** Two distinct arrays of different lengths are always reported as changed. */
  lemma LengthChangeNoticed(oldData: seq<Entry>, newData: seq<Entry>)
    requires |oldData| != |newData|
    ensures FormDataChanged(false, oldData, newData)
  {
  }

  // ---------------------------------------------------------------------
  // stringifyAndHash
  // ---------------------------------------------------------------------

  /** A UTF-16 code unit, as `charCodeAt` returns it. */
  newtype CodeUnit = x: int | 0 <= x < 0x1_0000

  /** Java's String.hashCode recurrence over a prefix, in 32-bit arithmetic. */
  function JavaHash(units: seq<CodeUnit>): (h: int)
    ensures IsInt32(h)
    decreases |units|
  {
    if units == [] then 0
    else ToInt32(31 * JavaHash(units[..|units| - 1]) + units[|units| - 1] as int)
  }

  /** The polynomial the recurrence computes before any wrap-around. */
  function Polynomial(units: seq<CodeUnit>): int
    decreases |units|
  {
    if units == [] then 0
    else 31 * Polynomial(units[..|units| - 1]) + units[|units| - 1] as int
  }

  /** One step of the loop: `(hash << 5) - hash + char`, then `hash & hash`. */
  function Step(hash: int, c: CodeUnit): int {
    ToInt32(ToInt32(hash * 32) - hash + c as int)
  }

  /** The shift-and-subtract step is the same as multiplying by 31 in 32-bit arithmetic. */
  lemma StepIsTimes31(hash: int, c: CodeUnit)
    ensures Step(hash, c) == ToInt32(31 * hash + c as int)
  {
    var k := ToInt32Offset(hash * 32);
    assert ToInt32(hash * 32) - hash + c as int == (31 * hash + c as int) + k * TwoTo32;
    ToInt32Shift(31 * hash + c as int, k);
  }

  /** The hash of the stringified object; the stringification itself is not modelled. */
  method StringifyAndHash(units: seq<CodeUnit>) returns (hash: int)
    ensures hash == JavaHash(units)
    ensures IsInt32(hash)
  {
    hash := 0;
    if |units| == 0 {
      return hash;
    }
    for i := 0 to |units|
      invariant hash == JavaHash(units[..i])
    {
      assert units[..i + 1][..i] == units[..i];
      StepIsTimes31(hash, units[i]);
      hash := ToInt32(ToInt32(hash * 32) - hash + units[i] as int);
    }
    assert units[..|units|] == units;
  }

  /** The hash is the polynomial in base 31 of the code units, reduced to 32 bits. */
  lemma {:induction false} HashIsPolynomial(units: seq<CodeUnit>)
    ensures JavaHash(units) == ToInt32(Polynomial(units))
    decreases |units|
  {
    if units != [] {
      var init := units[..|units| - 1];
      var c := units[|units| - 1] as int;
      HashIsPolynomial(init);
      var k := ToInt32Offset(Polynomial(init));
      assert 31 * JavaHash(init) + c == 31 * Polynomial(init) + c + (31 * k) * TwoTo32;
      ToInt32Shift(31 * Polynomial(init) + c, 31 * k);
    }
  }

  /** The hash is not unique: "Aa" and "BB" collide, so two different schemas can share a key. */
  lemma HashCollision()
    ensures JavaHash([65, 97]) == JavaHash([66, 66]) == 2112
  {
    assert [65 as CodeUnit, 97][..1] == [65];
    assert [66 as CodeUnit, 66][..1] == [66];
  }
}
