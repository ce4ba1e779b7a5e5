/**
 Python values as the program sees them after JSON decoding: `None`, booleans, integers,
 floats (kept as exact reals), strings, lists and insertion-ordered dicts with string keys.
 */
module Json {
  import opened Wrappers
  import Strings

  datatype Value =
    | Null
    | Bool(b: bool)
    | Int(i: int)
    | Float(f: real)
    | Str(s: string)
    | List(items: seq<Value>)
    | Dict(entries: seq<(string, Value)>)

  /** An insertion-ordered dict: key/value pairs, earliest insertion first. */
  type Entries = seq<(string, Value)>

  /** Python's `bool(v)`. */
  predicate Truthy(v: Value)
  {
    match v
    case Null => false
    case Bool(b) => b
    case Int(i) => i != 0
    case Float(f) => f != 0.0
    case Str(s) => |s| > 0
    case List(items) => |items| > 0
    case Dict(entries) => |entries| > 0
  }

  /** Python's `a or b`: the first operand when truthy, else the second. */
  function Or(a: Value, b: Value): (r: Value)
    ensures Truthy(a) ==> r == a
    ensures !Truthy(a) ==> r == b
  {
    if Truthy(a) then a else b
  }

  /** The values the store accepts unchanged (`str`, `int`, `float`, `bool`). */
  predicate IsScalar(v: Value)
  {
    v.Str? || v.Int? || v.Float? || v.Bool?
  }

  function Keys(d: Entries): (ks: seq<string>)
    ensures |ks| == |d|
    ensures forall i :: 0 <= i < |d| ==> ks[i] == d[i].0
  {
    seq(|d|, i requires 0 <= i < |d| => d[i].0)
  }

  /** `d.get(k)`: the value stored under `k`, or `None`. */
  function Get(d: Entries, k: string): Option<Value>
  {
    if |d| == 0 then None
    else if d[0].0 == k then Some(d[0].1)
    else Get(d[1..], k)
  }

  /** `d.get(k, default)`. */
  function GetOr(d: Entries, k: string, default: Value): Value
  {
    Get(d, k).GetOr(default)
  }

  /** A key is present exactly when `Get` finds it. */
  lemma {:induction false} GetFindsKey(d: Entries, k: string)
    ensures Get(d, k).Some? <==> k in Keys(d)
    decreases |d|
  {
    if |d| > 0 {
      GetFindsKey(d[1..], k);
      assert Keys(d) == [d[0].0] + Keys(d[1..]);
    }
  }

  /**
   `d[k] = v`: an existing key keeps its place and takes the new value; a new key is
   appended; every other key keeps its value.
   */
  function Set(d: Entries, k: string, v: Value): (r: Entries)
    ensures Get(r, k) == Some(v)
    ensures forall k' :: k' != k ==> Get(r, k') == Get(d, k')
    decreases |d|
  {
    if |d| == 0 then [(k, v)]
    else if d[0].0 == k then
      assert ([(k, v)] + d[1..])[1..] == d[1..];
      [(k, v)] + d[1..]
    else
      var rest := Set(d[1..], k, v);
      assert ([d[0]] + rest)[1..] == rest;
      [d[0]] + rest
  }

  /** The keys of a dict with one more entry in front. */
  lemma KeysCons(x: (string, Value), rest: Entries)
    ensures Keys([x] + rest) == [x.0] + Keys(rest)
  {
    var l := [x] + rest;
    forall i | 0 <= i < |l|
      ensures Keys(l)[i] == ([x.0] + Keys(rest))[i]
    {
      if i > 0 {
        assert l[i] == rest[i - 1];
      }
    }
  }

  /** Setting a key keeps the key order, appending the key only when it is new. */
  lemma {:induction false} SetKeys(d: Entries, k: string, v: Value)
    ensures Get(d, k).Some? ==> Keys(Set(d, k, v)) == Keys(d)
    ensures Get(d, k).None? ==> Keys(Set(d, k, v)) == Keys(d) + [k]
    decreases |d|
  {
    if |d| == 0 {
      assert Keys(Set(d, k, v)) == [k];
    } else if d[0].0 == k {
      assert d == [d[0]] + d[1..];
      KeysCons(d[0], d[1..]);
      KeysCons((k, v), d[1..]);
    } else {
      SetKeys(d[1..], k, v);
      var rest := Set(d[1..], k, v);
      assert Set(d, k, v) == [d[0]] + rest;
      assert d == [d[0]] + d[1..];
      KeysCons(d[0], rest);
      KeysCons(d[0], d[1..]);
    }
  }

  /**
   Python's `str(v)`. Strings print as themselves and `None`, booleans and integers as Python
   prints them; floats, lists and dicts print through `render`, which stands for Python's
   float formatting and `repr` of containers.
   */
  function PyStr(v: Value, render: Value -> string): string
  {
    match v
    case Str(s) => s
    case Null => "None"
    case Bool(b) => if b then "True" else "False"
    case Int(i) => Strings.IntToDecimal(i)
    case _ => render(v)
  }
}
