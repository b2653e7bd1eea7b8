/** The dynamically typed values that answers, condition operands and rule
    fields carry, with Python's `str`, `repr` and `==` on them. */
module Values {
  import opened Text

  /** `Null` is Python's None; it also stands for an answer key that is absent,
      because the engine reads answers with `dict.get`. */
  datatype Value =
    | Null
    | Bool(b: bool)
    | Int(i: int)
    | Str(s: string)
    | List(items: seq<Value>)

  /** `repr(v)`: strings are quoted, lists show the repr of their elements. */
  function Repr(v: Value): string {
    match v
    case Null => "None"
    case Bool(b) => if b then "True" else "False"
    case Int(i) => IntToString(i)
    case Str(s) => "'" + s + "'"
    case List(items) =>
      "[" + Join(seq(|items|, k requires 0 <= k < |items| => Repr(items[k])), ", ") + "]"
  }

  /** `str(v)`: a string stands for itself, every other value for its repr. */
  function ToString(v: Value): string {
    if v.Str? then v.s else Repr(v)
  }

  /** The integer value of a Python bool or int (`bool` is a subclass of `int`). */
  function IntOf(v: Value): int
    requires v.Bool? || v.Int?
  {
    if v.Int? then v.i else if v.b then 1 else 0
  }

  /** Python's `==`: `True == 1` and `False == 0`, lists compare element by
      element, values of other different types are unequal. */
  predicate PyEq(a: Value, b: Value) {
    match a
    case Null => b.Null?
    case Bool(_) => (b.Bool? || b.Int?) && IntOf(a) == IntOf(b)
    case Int(_) => (b.Bool? || b.Int?) && IntOf(a) == IntOf(b)
    case Str(s) => b.Str? && b.s == s
    case List(xs) =>
      b.List? && |xs| == |b.items| && forall k :: 0 <= k < |xs| ==> PyEq(xs[k], b.items[k])
  }

  /** Python's `x in items` on a list. */
  predicate Contains(items: seq<Value>, x: Value) {
    exists k :: 0 <= k < |items| && PyEq(items[k], x)
  }

  lemma {:induction false} PyEqReflexive(v: Value)
    ensures PyEq(v, v)
  {
    if v.List? {
      forall k | 0 <= k < |v.items|
        ensures PyEq(v.items[k], v.items[k])
      {
        PyEqReflexive(v.items[k]);
      }
    }
  }

  /** A value is in every list that holds it. */
  lemma ContainsMember(items: seq<Value>, x: Value)
    requires x in items
    ensures Contains(items, x)
  {
    var k :| 0 <= k < |items| && items[k] == x;
    PyEqReflexive(x);
  }
}
