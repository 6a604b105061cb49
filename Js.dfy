/** The slice of the JavaScript language that the utility routines rely on:
    the values a request bag can hold, their truthiness, and the string
    built-ins `toLowerCase`, `indexOf` and `join` that the routines call.
    `lastIndexOf` and `split` are here too: the model uses them for its
    e-mail matcher and to read the error message back, though the routines
    call neither. */
module Js {

  /** A JavaScript value, as far as the utility routines inspect it. */
  datatype Value =
    | Undefined
    | Null
    | Bool(b: bool)
    | Num(n: real)  // every number but NaN; -0 and +0 are both 0.0 (and -0 === 0 holds)
    | NaN
    | Str(s: string)
    | Obj           // objects, arrays and functions: always truthy

  /** ToBoolean: the test `if (v)` and `!v` perform. */
  predicate Truthy(v: Value) {
    match v
    case Undefined => false
    case Null => false
    case Bool(b) => b
    case Num(n) => n != 0.0
    case NaN => false
    case Str(s) => s != ""
    case Obj => true
  }

  /** `v === 0`: true for +0 and -0, false for NaN and every non-number. */
  predicate IsZero(v: Value) {
    v.Num? && v.n == 0.0
  }

  /** `bag[key]` for a plain data object: an absent key reads as `undefined`. */
  function Get(bag: map<string, Value>, key: string): Value
  {
    if key in bag then bag[key] else Undefined
  }

  // ---------------------------------------------------------------------------
  // Characters and case

  predicate IsUpper(c: char) { 'A' <= c <= 'Z' }

  /** Lower-cases one ASCII letter; every other character is left alone. */
  function LowerChar(c: char): (r: char)
    ensures !IsUpper(r)
    ensures IsUpper(c) ==> r as int == c as int + 32
    ensures !IsUpper(c) ==> r == c
  {
    if IsUpper(c) then (c as int + 32) as char else c
  }

  /** `s.toLowerCase()` restricted to the ASCII letters. */
  function ToLowerCase(s: string): (r: string)
    ensures |r| == |s|
    ensures forall i :: 0 <= i < |s| ==> r[i] == LowerChar(s[i])
  {
    if s == [] then [] else [LowerChar(s[0])] + ToLowerCase(s[1..])
  }

  /** `a` and `b` spell the same word when ASCII case is ignored. */
  predicate SameIgnoringCase(a: string, b: string) {
    |a| == |b| && forall i :: 0 <= i < |a| ==> LowerChar(a[i]) == LowerChar(b[i])
  }

  // ---------------------------------------------------------------------------
  // Searching

  /** `t` occurs in `s` starting at index `j`. */
  predicate OccursAt(s: string, t: string, j: int) {
    0 <= j && j + |t| <= |s| && s[j..j + |t|] == t
  }

  /** `s` contains `t` somewhere. */
  ghost predicate Contains(s: string, t: string) {
    exists j :: OccursAt(s, t, j)
  }

  /** `s.indexOf(t)`: the first index where `t` occurs in `s`, or -1. */
  function IndexOf(s: string, t: string): (r: int)
    ensures r == -1 <==> !Contains(s, t)
    ensures r != -1 ==> OccursAt(s, t, r) && forall j :: 0 <= j < r ==> !OccursAt(s, t, j)
  {
    IndexFrom(s, t, 0)
  }

  /** The first index at or after `from` where `t` occurs in `s`, or -1. */
  function IndexFrom(s: string, t: string, from: nat): (r: int)
    requires forall j :: 0 <= j < from ==> !OccursAt(s, t, j)
    ensures r == -1 <==> !Contains(s, t)
    ensures r != -1 ==> OccursAt(s, t, r) && forall j :: 0 <= j < r ==> !OccursAt(s, t, j)
    decreases |s| - from
  {
    if from + |t| > |s| then
      assert forall j :: from <= j ==> !OccursAt(s, t, j);
      -1
    else if s[from..from + |t|] == t then
      assert OccursAt(s, t, from);
      from
    else IndexFrom(s, t, from + 1)
  }

  /** `s.indexOf(c)` for a one-character search string. */
  function FirstIndexOfChar(s: string, c: char): (r: int)
    ensures r == -1 <==> c !in s
    ensures r != -1 ==> 0 <= r < |s| && s[r] == c && c !in s[..r]
  {
    if s == [] then -1
    else if s[0] == c then 0
    else
      var k := FirstIndexOfChar(s[1..], c);
      assert s == [s[0]] + s[1..];
      if k == -1 then -1
      else
        assert s[..k + 1] == [s[0]] + s[1..][..k];
        k + 1
  }

  /** `s.lastIndexOf(c)` for a one-character search string. */
  function LastIndexOfChar(s: string, c: char): (r: int)
    ensures r == -1 <==> c !in s
    ensures r != -1 ==> 0 <= r < |s| && s[r] == c && c !in s[r + 1..]
  {
    if s == [] then -1
    else if s[|s| - 1] == c then |s| - 1
    else
      var k := LastIndexOfChar(s[..|s| - 1], c);
      assert s == s[..|s| - 1] + [s[|s| - 1]];
      if k == -1 then -1
      else
        assert s[k + 1..] == s[..|s| - 1][k + 1..] + [s[|s| - 1]];
        k
  }

  // ---------------------------------------------------------------------------
  // Joining and splitting

  /** `parts.join(sep)`: the parts with `sep` between each neighbouring pair. */
  function Join(parts: seq<string>, sep: string): (r: string)
    decreases |parts|
  {
    if |parts| == 0 then ""
    else if |parts| == 1 then parts[0]
    else parts[0] + sep + Join(parts[1..], sep)
  }

  /** `s.split(c)` for a one-character separator: the maximal runs of `s`
      between occurrences of `c` (one more piece than there are separators). */
  function Split(s: string, c: char): (r: seq<string>)
    ensures |r| >= 1
  {
    if s == [] then [""]
    else
      assert s == [s[0]] + s[1..];
      var rest := Split(s[1..], c);
      if s[0] == c then [""] + rest
      else [[s[0]] + rest[0]] + rest[1..]
  }

  /** Splitting undoes joining when no part contains the separator. */
  lemma {:induction false} SplitJoin(parts: seq<string>, c: char)
    requires |parts| >= 1
    requires forall k :: 0 <= k < |parts| ==> c !in parts[k]
    ensures Split(Join(parts, [c]), c) == parts
    decreases |parts|
  {
    if |parts| == 1 {
      SplitWithout(parts[0], c);
    } else {
      var tail := Join(parts[1..], [c]);
      forall k | 0 <= k < |parts[1..]| ensures c !in parts[1..][k] {
        assert parts[1..][k] == parts[k + 1];
      }
      SplitJoin(parts[1..], c);
      assert Split([c] + tail, c) == [""] + parts[1..] by {
        assert ([c] + tail)[0] == c;
        assert ([c] + tail)[1..] == tail;
      }
      SplitPrefix(parts[0], [c] + tail, c);
      assert Join(parts, [c]) == parts[0] + ([c] + tail);
      assert ([""] + parts[1..])[0] == "";
      assert ([""] + parts[1..])[1..] == parts[1..];
      assert parts[0] + "" == parts[0];
      assert [parts[0]] + parts[1..] == parts;
    }
  }

  /** A string free of the separator splits into itself alone. */
  lemma {:induction false} SplitWithout(s: string, c: char)
    requires c !in s
    ensures Split(s, c) == [s]
    decreases |s|
  {
    if s != [] {
      assert s == [s[0]] + s[1..];
      SplitWithout(s[1..], c);
    }
  }

  /** A separator-free prefix is glued onto the first piece of the rest. */
  lemma {:induction false} SplitPrefix(a: string, b: string, c: char)
    requires c !in a
    ensures Split(a + b, c) == [a + Split(b, c)[0]] + Split(b, c)[1..]
    decreases |a|
  {
    if a == [] {
      assert a + b == b;
      var r := Split(b, c);
      assert a + r[0] == r[0];
      assert [r[0]] + r[1..] == r;
    } else {
      var ab := a + b;
      assert ab[0] == a[0] && a[0] != c;
      assert ab[1..] == a[1..] + b;
      assert ab == [ab[0]] + ab[1..];
      var rest := Split(ab[1..], c);
      assert Split(ab, c) == [[a[0]] + rest[0]] + rest[1..];
      SplitPrefix(a[1..], b, c);
      var sb := Split(b, c);
      assert rest[0] == a[1..] + sb[0] && rest[1..] == sb[1..];
      assert [a[0]] + (a[1..] + sb[0]) == a + sb[0];
    }
  }
}
