/**
 * The slice of JavaScript semantics the form library relies on: dynamic
 * values and their truthiness, property lookup on plain objects, the event
 * target a change handler reads, 32-bit integer conversion, and the string
 * helpers (`split`, `lastIndexOf`, `slice`, `splice`, number to text) the
 * handlers call.
 */
module Js {

  datatype Option<+T> = None | Some(value: T)

  /** A browser `File`: name, size in bytes and MIME type. */
  datatype FileInfo = FileInfo(name: string, size: nat, mimeType: string)

  /**
   * A JavaScript value as it appears in a form's state map or in a schema
   * entry. `Files` is a file list, `List` an array (checkbox-group flags),
   * `Ref` any other object (a function, a nested object), known only by
   * its identity.
   */
  datatype Value =
    | Undefined
    | Null
    | Bool(b: bool)
    | Num(n: int)
    | Str(s: string)
    | Files(files: seq<FileInfo>)
    | List(items: seq<Value>)
    | Ref(addr: nat)

  /** JavaScript's truthiness: `undefined`, `null`, `false`, `0` and `''` are falsy; every object is truthy. */
  predicate Truthy(v: Value) {
    match v
    case Undefined => false
    case Null => false
    case Bool(b) => b
    case Num(n) => n != 0
    case Str(s) => s != ""
    case Files(_) => true
    case List(_) => true
    case Ref(_) => true
  }

  /** `obj[key]` on a plain object: a missing key reads as `undefined`. */
  function Lookup(m: map<string, Value>, key: string): Value {
    if key in m then m[key] else Undefined
  }

  /** The property key `{[name]: ...}` produces: a missing name becomes the key "undefined". */
  function PropertyKey(name: Option<string>): string {
    match name
    case Some(n) => n
    case None => "undefined"
  }

  /**
   * `event.target` as the change handlers read it. A custom event built by
   * a component may leave out the name or the type (`None`); `files` is
   * `None` on every input but a file input.
   */
  datatype Target = Target(
    name: Option<string>,
    fieldType: Option<string>,
    value: Value,
    checked: bool,
    files: Option<seq<FileInfo>>,
    accept: string)

  /** `String(n)` for any integer. */
  function IntToString(n: int): string {
    if n < 0 then "-" + NatToString(-n) else NatToString(n)
  }

  /**
   * The property key a value turns into when used as `obj[v]`: strings are
   * used as they are, other primitives print themselves, an array joins its
   * elements with "," (undefined and null elements print as nothing), and any
   * other object prints as its class tag.
   */
  function ToPropertyKey(v: Value): string
    decreases v
  {
    match v
    case Undefined => "undefined"
    case Null => "null"
    case Bool(b) => if b then "true" else "false"
    case Num(n) => IntToString(n)
    case Str(s) => s
    case Files(_) => "[object FileList]"
    case List(items) => JoinKeys(items)
    case Ref(_) => "[object Object]"
  }

  /** `items.join(",")` on the property keys of an array's elements. */
  function JoinKeys(items: seq<Value>): string
    decreases items
  {
    if items == [] then ""
    else
      (if items[0].Undefined? || items[0].Null? then "" else ToPropertyKey(items[0]))
      + (if |items| == 1 then "" else "," + JoinKeys(items[1..]))
  }

  // ---------------------------------------------------------------------
  // 32-bit integers
  // ---------------------------------------------------------------------

  const TwoTo31: int := 0x8000_0000
  const TwoTo32: int := 0x1_0000_0000

  predicate IsInt32(x: int) {
    -TwoTo31 <= x < TwoTo31
  }

  /** ECMAScript ToInt32: reduce modulo 2^32 into the signed range. */
  function ToInt32(x: int): (r: int)
    ensures IsInt32(r)
    ensures IsInt32(x) ==> r == x
  {
    (x + TwoTo31) % TwoTo32 - TwoTo31
  }

  /** ToInt32 only sees its argument modulo 2^32. */
  lemma {:induction false} ToInt32Shift(x: int, k: int)
    ensures ToInt32(x + k * TwoTo32) == ToInt32(x)
  {
    var a := x + TwoTo31;
    assert (a + k * TwoTo32) % TwoTo32 == a % TwoTo32 by {
      var q := a / TwoTo32;
      var r := a % TwoTo32;
      assert a == q * TwoTo32 + r && 0 <= r < TwoTo32;
      assert a + k * TwoTo32 == (q + k) * TwoTo32 + r;
    }
  }

  /** ToInt32(x) differs from x by a multiple of 2^32. */
  lemma {:induction false} ToInt32Offset(x: int) returns (k: int)
    ensures ToInt32(x) == x + k * TwoTo32
  {
    var a := x + TwoTo31;
    k := -(a / TwoTo32);
    assert a == (a / TwoTo32) * TwoTo32 + a % TwoTo32;
  }

  // ---------------------------------------------------------------------
  // String helpers
  // ---------------------------------------------------------------------

  /** `s.split(sep)`: the pieces between the leftmost non-overlapping occurrences of `sep`. */
  function Split(s: string, sep: string): (parts: seq<string>)
    requires sep != ""
    ensures |parts| >= 1
    decreases |s|
  {
    if s == [] then [""]
    else if sep <= s then [""] + Split(s[|sep|..], sep)
    else
      var rest := Split(s[1..], sep);
      [[s[0]] + rest[0]] + rest[1..]
  }

  /** `parts.join(sep)`. */
  function Join(parts: seq<string>, sep: string): string
    decreases |parts|
  {
    if parts == [] then ""
    else if |parts| == 1 then parts[0]
    else parts[0] + sep + Join(parts[1..], sep)
  }

  /** A string in which the separator's first character never occurs is not split. */
  lemma {:induction false} SplitWithoutSeparator(s: string, sep: string)
    requires sep != "" && sep[0] !in s
    ensures Split(s, sep) == [s]
    decreases |s|
  {
    if s != [] {
      assert s[0] != sep[0];
      SplitWithoutSeparator(s[1..], sep);
      assert [s[0]] + s[1..] == s;
    }
  }

  /** The first piece ends at the first separator. */
  lemma {:induction false} SplitAtFirst(a: string, b: string, sep: string)
    requires sep != "" && sep[0] !in a
    ensures Split(a + sep + b, sep) == [a] + Split(b, sep)
    decreases |a|
  {
    var s := a + sep + b;
    if a == [] {
      assert s == sep + b && sep <= s && s[|sep|..] == b;
    } else {
      assert s[0] == a[0] != sep[0];
      assert s[1..] == a[1..] + sep + b;
      SplitAtFirst(a[1..], b, sep);
      assert [a[0]] + a[1..] == a;
    }
  }

  /** Joining the pieces of a split with the same separator gives the string back. */
  lemma {:induction false} JoinSplit(s: string, sep: string)
    requires sep != ""
    ensures Join(Split(s, sep), sep) == s
    decreases |s|
  {
    if s == [] {
    } else if sep <= s {
      var tail := Split(s[|sep|..], sep);
      JoinSplit(s[|sep|..], sep);
      calc {
        Join(Split(s, sep), sep);
        Join([""] + tail, sep);
        { JoinEmptyFirst(tail, sep); }
        sep + Join(tail, sep);
        sep + s[|sep|..];
        s;
      }
    } else {
      var rest := Split(s[1..], sep);
      JoinSplit(s[1..], sep);
      calc {
        Join(Split(s, sep), sep);
        Join([[s[0]] + rest[0]] + rest[1..], sep);
        { JoinPrepend(s[0], rest, sep); }
        [s[0]] + Join(rest, sep);
        [s[0]] + s[1..];
        s;
      }
    }
  }

  /** An empty first piece contributes only the separator. */
  lemma JoinEmptyFirst(parts: seq<string>, sep: string)
    requires parts != []
    ensures Join([""] + parts, sep) == sep + Join(parts, sep)
  {
    assert ([""] + parts)[1..] == parts;
  }

  /** Prepending a character to the first piece prepends it to the join. */
  lemma JoinPrepend(c: char, parts: seq<string>, sep: string)
    requires parts != []
    ensures Join([[c] + parts[0]] + parts[1..], sep) == [c] + Join(parts, sep)
  {
    var longer := [[c] + parts[0]] + parts[1..];
    if |parts| > 1 {
      assert longer[1..] == parts[1..];
    }
  }

  /** Appending one more piece to a non-empty join. */
  lemma {:induction false} JoinSnoc(parts: seq<string>, sep: string, last: string)
    requires parts != []
    ensures Join(parts + [last], sep) == Join(parts, sep) + sep + last
    decreases |parts|
  {
    if |parts| == 1 {
      assert parts + [last] == [parts[0], last];
    } else {
      JoinSnoc(parts[1..], sep, last);
      assert (parts + [last])[1..] == parts[1..] + [last];
    }
  }

  /** `s.lastIndexOf(c)`: the last position holding `c`, or -1. */
  function LastIndexOf(s: string, c: char): (r: int)
    ensures -1 <= r < |s|
    ensures r == -1 <==> c !in s
    ensures r >= 0 ==> s[r] == c && c !in s[r + 1..]
    decreases |s|
  {
    if s == [] then -1
    else if s[|s| - 1] == c then |s| - 1
    else
      var r := LastIndexOf(s[..|s| - 1], c);
      assert s == s[..|s| - 1] + [s[|s| - 1]];
      r
  }

  /** `s.slice(start)`: a negative start counts from the end. */
  function Slice(s: string, start: int): string {
    if start >= 0 then (if start <= |s| then s[start..] else [])
    else if |s| + start >= 0 then s[|s| + start..]
    else s
  }

  /** The position `splice(start, 1)` removes at, for a list of length `len`. */
  function SpliceStart(len: nat, start: int): nat {
    if start < 0 then (if len + start < 0 then 0 else len + start)
    else if start > len then len
    else start
  }

  /** `copy.splice(start, 1)` on a copy of `s`: drops at most one element. */
  function SpliceOne<T>(s: seq<T>, start: int): (r: seq<T>)
    ensures 0 <= start < |s| ==> |r| == |s| - 1
    ensures 0 <= start < |s| ==> forall i :: 0 <= i < |r| ==> r[i] == (if i < start then s[i] else s[i + 1])
    ensures start >= |s| ==> r == s
    ensures -|s| <= start < 0 ==> r == s[..|s| + start] + s[|s| + start + 1..]
  {
    var k := SpliceStart(|s|, start);
    if k < |s| then s[..k] + s[k + 1..] else s
  }

  // ---------------------------------------------------------------------
  // Numbers as text
  // ---------------------------------------------------------------------

  function DigitChar(d: nat): char
    requires d < 10
  {
    "0123456789"[d]
  }

  predicate IsDigits(s: string) {
    forall i :: 0 <= i < |s| ==> '0' <= s[i] <= '9'
  }

  /** `String(n)` for a non-negative integer. */
  function NatToString(n: nat): string
    decreases n
  {
    if n < 10 then [DigitChar(n)] else NatToString(n / 10) + [DigitChar(n % 10)]
  }

  /** Reads a string of decimal digits back as a number. */
  function ParseDecimal(s: string): int
    decreases |s|
  {
    if s == [] then 0
    else ParseDecimal(s[..|s| - 1]) * 10 + (s[|s| - 1] as int - '0' as int)
  }

  /** `String(n)` is a non-empty digit string that reads back as `n`. */
  lemma {:induction false} NatToStringParses(n: nat)
    ensures NatToString(n) != [] && IsDigits(NatToString(n))
    ensures ParseDecimal(NatToString(n)) == n
    decreases n
  {
    if n >= 10 {
      NatToStringParses(n / 10);
      var s := NatToString(n);
      assert s[..|s| - 1] == NatToString(n / 10);
    }
  }
}
