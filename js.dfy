/** The few pieces of JavaScript runtime behaviour the route handlers rely on:
    optional values and truthiness, `Array.prototype.find`, `Array.prototype.join`,
    `String.prototype.split`, `startsWith` and `toLowerCase`, and the byte type
    behind `Buffer`. */
module Js {

  /** An optional value: `undefined`/`null` is `None`. */
  datatype Option<+T> = None | Some(value: T)

  /** The element type of a `Buffer`. */
  newtype byte = x: int | 0 <= x < 256

  /** JavaScript truthiness of an optional string: present and not the empty string. */
  predicate Truthy(s: Option<string>) {
    s.Some? && s.value != ""
  }

  /** `a || fallback` where `a` is an optional string. */
  function OrElse(a: Option<string>, fallback: string): string {
    if Truthy(a) then a.value else fallback
  }

  /** `s.startsWith(prefix)`. */
  predicate StartsWith(s: string, prefix: string) {
    |prefix| <= |s| && s[..|prefix|] == prefix
  }

  /** Lower-casing of one character, restricted to the ASCII letters. */
  function LowerChar(c: char): char {
    if 'A' <= c <= 'Z' then (c as int + 32) as char else c
  }

  /** `s.toLowerCase()`, restricted to the ASCII letters. */
  function ToLower(s: string): (r: string)
    ensures |r| == |s|
    ensures forall i :: 0 <= i < |s| ==> r[i] == LowerChar(s[i])
  {
    seq(|s|, i requires 0 <= i < |s| => LowerChar(s[i]))
  }

  /** `xs.findIndex(p)`, with "not found" as `None` instead of -1: the index of the
      first element satisfying `p`. */
  function FindIndex<T>(xs: seq<T>, p: T -> bool): (r: Option<nat>)
    ensures r.Some? ==> r.value < |xs| && p(xs[r.value])
    ensures r.Some? ==> forall j :: 0 <= j < r.value ==> !p(xs[j])
    ensures r.None? <==> forall j :: 0 <= j < |xs| ==> !p(xs[j])
    decreases |xs|
  {
    if xs == [] then None
    else if p(xs[0]) then Some(0)
    else
      match FindIndex(xs[1..], p)
      case None => None
      case Some(k) => Some(k + 1)
  }

  /** An element satisfying `p` with none before it is the one `findIndex` reports. */
  lemma FindIndexIs<T>(xs: seq<T>, p: T -> bool, i: nat)
    requires i < |xs| && p(xs[i])
    requires forall j :: 0 <= j < i ==> !p(xs[j])
    ensures FindIndex(xs, p) == Some(i)
  {
  }

  /** `xs.find(p)`: the first element satisfying `p`, if any. */
  function Find<T>(xs: seq<T>, p: T -> bool): (r: Option<T>)
    ensures r.Some? <==> exists i :: 0 <= i < |xs| && p(xs[i])
    ensures r.Some? ==> exists i :: 0 <= i < |xs| && xs[i] == r.value && p(xs[i]) &&
                                     forall j :: 0 <= j < i ==> !p(xs[j])
  {
    match FindIndex(xs, p)
    case None => None
    case Some(i) => Some(xs[i])
  }

  /** `lines.join(sep)`. */
  function Join(lines: seq<string>, sep: string): string
    decreases |lines|
  {
    if lines == [] then ""
    else if |lines| == 1 then lines[0]
    else lines[0] + sep + Join(lines[1..], sep)
  }

  /** `s.split(sep)` for a one-character separator. */
  function Split(s: string, sep: char): (r: seq<string>)
    ensures |r| >= 1
    ensures forall i :: 0 <= i < |r| ==> sep !in r[i]
    decreases |s|
  {
    if s == [] then [""]
    else
      var rest := Split(s[1..], sep);
      if s[0] == sep then [""] + rest
      else [[s[0]] + rest[0]] + rest[1..]
  }

  /** Splitting and joining again with the same separator gives back the string. */
  lemma {:induction false} JoinSplit(s: string, sep: char)
    ensures Join(Split(s, sep), [sep]) == s
    decreases |s|
  {
    if s != [] {
      var rest := Split(s[1..], sep);
      JoinSplit(s[1..], sep);
      if s[0] == sep {
        assert Split(s, sep) == [""] + rest;
        calc {
          Join([""] + rest, [sep]);
          "" + [sep] + Join(rest, [sep]);
          [sep] + s[1..];
          s;
        }
      } else {
        var r := Split(s, sep);
        assert r == [[s[0]] + rest[0]] + rest[1..];
        if |rest| == 1 {
          assert Join(r, [sep]) == [s[0]] + rest[0];
          assert Join(rest, [sep]) == rest[0];
        } else {
          assert r[1..] == rest[1..];
          assert Join(r, [sep]) == [s[0]] + rest[0] + [sep] + Join(rest[1..], [sep]);
          assert Join(rest, [sep]) == rest[0] + [sep] + Join(rest[1..], [sep]);
        }
      }
    }
  }

  /** Joining two or more lines: the first two come first, separated, and the next
      character (if any) is the separator again. */
  lemma JoinFirstTwo(lines: seq<string>, sep: char)
    requires |lines| > 1
    ensures var s := Join(lines, [sep]);
            var n := |lines[0]| + 1 + |lines[1]|;
            && StartsWith(s, lines[0] + [sep] + lines[1])
            && (|s| == n || s[n] == sep)
  {
    var rest := lines[1..];
    var t := if |rest| == 1 then "" else [sep] + Join(rest[1..], [sep]);
    assert Join(rest, [sep]) == lines[1] + t;
    var s := lines[0] + [sep] + lines[1] + t;
    assert Join(lines, [sep]) == s;
    assert s[..|lines[0]| + 1 + |lines[1]|] == lines[0] + [sep] + lines[1];
  }

  /** A string without the separator splits into itself alone. */
  lemma {:induction false} SplitNoSeparator(s: string, sep: char)
    requires sep !in s
    ensures Split(s, sep) == [s]
    decreases |s|
  {
    if s != [] {
      assert s[0] != sep;
      SplitNoSeparator(s[1..], sep);
      assert [s[0]] + s[1..] == s;
    }
  }

  /** Splitting a field, the separator and a remainder: the field comes first. */
  lemma {:induction false} SplitFieldThen(a: string, sep: char, t: string)
    requires sep !in a
    ensures Split(a + [sep] + t, sep) == [a] + Split(t, sep)
    decreases |a|
  {
    if a == [] {
      assert a + [sep] + t == [sep] + t;
      assert ([sep] + t)[1..] == t;
    } else {
      var s := a + [sep] + t;
      assert s[0] == a[0];
      assert s[1..] == a[1..] + [sep] + t;
      SplitFieldThen(a[1..], sep, t);
      assert [a[0]] + a[1..] == a;
    }
  }
}
