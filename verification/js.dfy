/**
 The small part of JavaScript's value semantics that the request guards
 depend on: truthiness (the `!v` test), `typeof`, `Array.prototype.includes`,
 `String.prototype.startsWith` and `String.prototype.split` with a
 one-character separator.
 */
module Js {

  datatype Option<+T> = None | Some(value: T)

  /** A JavaScript value as seen by the guards. Numbers are integers here;
      `Obj` stands for any object or array, compared by identity. */
  datatype JsValue =
    | Undefined
    | Null
    | Bool(b: bool)
    | Num(n: int)
    | NaN
    | Str(s: string)
    | Obj(id: nat)

  /** ToBoolean (section 7.1.2 of ECMA-262): the values for which `!v` is false. */
  predicate Truthy(v: JsValue)
    ensures Truthy(v) <==> v !in {Undefined, Null, Bool(false), Num(0), NaN, Str("")}
  {
    match v
    case Undefined => false
    case Null => false
    case Bool(b) => b
    case Num(n) => n != 0
    case NaN => false
    case Str(s) => s != ""
    case Obj(_) => true
  }

  /** The `typeof` operator; note that `typeof null` is "object". */
  function TypeOf(v: JsValue): (r: string)
    ensures r == "string" <==> v.Str?
    ensures r == "boolean" <==> v.Bool?
    ensures r == "undefined" <==> v.Undefined?
    ensures r == "object" <==> v.Null? || v.Obj?
  {
    match v
    case Undefined => "undefined"
    case Null => "object"
    case Bool(_) => "boolean"
    case Num(_) => "number"
    case NaN => "number"
    case Str(_) => "string"
    case Obj(_) => "object"
  }

  /** SameValueZero, the comparison `includes` uses. With integer numbers and
      objects compared by identity it coincides with value equality (NaN
      equals NaN, which is why `NaN` is a single constructor). */
  predicate SameValueZero(a: JsValue, b: JsValue)
  {
    a == b
  }

  /** `xs.includes(x)`: a left-to-right scan with SameValueZero. */
  function Includes(xs: seq<JsValue>, x: JsValue): (r: bool)
    ensures r <==> x in xs
  {
    if xs == [] then false
    else SameValueZero(xs[0], x) || Includes(xs[1..], x)
  }

  /** `s.startsWith(prefix)`. */
  predicate StartsWith(s: string, prefix: string)
    ensures StartsWith(s, prefix) <==> prefix <= s
  {
    |prefix| <= |s| && s[..|prefix|] == prefix
  }

  /** `s.split(sep)` for a one-character separator: the maximal runs between
      separators, so "" gives [""] and "a  b" gives ["a", "", "b"]. */
  function Split(s: string, sep: char): (r: seq<string>)
    ensures |r| >= 1
    ensures forall i :: 0 <= i < |r| ==> sep !in r[i]
    decreases |s|
  {
    if s == [] then [[]]
    else if s[0] == sep then [[]] + Split(s[1..], sep)
    else
      var rest := Split(s[1..], sep);
      [[s[0]] + rest[0]] + rest[1..]
  }

  /** `fields.join(sep)`, the inverse of `Split`. */
  function Join(fields: seq<string>, sep: char): (r: string)
  {
    if fields == [] then []
    else if |fields| == 1 then fields[0]
    else fields[0] + [sep] + Join(fields[1..], sep)
  }

  /** Splitting loses nothing: joining the fields back gives the input. */
  lemma {:induction false} JoinSplit(s: string, sep: char)
    ensures Join(Split(s, sep), sep) == s
    decreases |s|
  {
    if s == [] {
    } else if s[0] == sep {
      JoinSplit(s[1..], sep);
      var rest := Split(s[1..], sep);
      assert Split(s, sep) == [[]] + rest;
      assert Join([[]] + rest, sep) == [] + [sep] + Join(rest, sep);
      assert s == [sep] + s[1..];
    } else {
      JoinSplit(s[1..], sep);
      var rest := Split(s[1..], sep);
      var first := [s[0]] + rest[0];
      assert Split(s, sep) == [first] + rest[1..];
      if |rest| == 1 {
        assert Join(rest, sep) == rest[0];
        assert s == [s[0]] + s[1..];
      } else {
        assert Join(rest, sep) == rest[0] + [sep] + Join(rest[1..], sep);
        assert ([first] + rest[1..])[1..] == rest[1..];
        assert s == [s[0]] + s[1..];
      }
    }
  }

  /** The prefix of `s` before the first `c` (all of `s` when there is none). */
  function TakeUntil(s: string, c: char): (r: string)
    ensures r <= s && c !in r
    ensures |r| == |s| || s[|r|] == c
  {
    if s == [] || s[0] == c then []
    else [s[0]] + TakeUntil(s[1..], c)
  }

  /** A field followed by the separator or by nothing is exactly what
      `TakeUntil` returns. */
  lemma {:induction false} TakeUntilField(w: string, rest: string, c: char)
    requires c !in w
    requires rest == [] || rest[0] == c
    ensures TakeUntil(w + rest, c) == w
    decreases |w|
  {
    if w != [] {
      assert (w + rest)[1..] == w[1..] + rest;
      TakeUntilField(w[1..], rest, c);
    } else {
      assert w + rest == rest;
    }
  }

  /** The first field of a split is the prefix before the first separator. */
  lemma {:induction false} SplitHead(s: string, sep: char)
    ensures Split(s, sep)[0] == TakeUntil(s, sep)
    decreases |s|
  {
    if s != [] && s[0] != sep {
      SplitHead(s[1..], sep);
    }
  }

  /** A separator-free word followed by the separator is split off as the
      first field, and the rest is split on its own. */
  lemma {:induction false} SplitAfterField(w: string, t: string, sep: char)
    requires sep !in w
    ensures Split(w + [sep] + t, sep) == [w] + Split(t, sep)
    decreases |w|
  {
    var s := w + [sep] + t;
    if w == [] {
      assert s[0] == sep && s[1..] == t;
    } else {
      assert s[0] == w[0] && s[1..] == w[1..] + [sep] + t;
      SplitAfterField(w[1..], t, sep);
      assert [w[0]] + w[1..] == w;
    }
  }
}
