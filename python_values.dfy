/** The Python values the blueprint code works on: bytes, the kinds of exception it can raise,
    and decoded JSON (what `json.loads` returns), together with the Python operators the code
    applies to them (`in`, subscripting with a string, iteration, `==`). */
module PyValues {
  import opened Wrappers

  newtype byte = x: int | 0 <= x < 256

  /** The exception kinds that can escape from the modelled code. */
  datatype Error =
    | IndexError          // indexing an empty string
    | ValueError          // `int()` of a non-digit, a non-ASCII base64 argument, a bad format
    | AssertionError      // a failed `assert`
    | TypeError           // an operator applied to a value of the wrong type
    | KeyError            // a missing dictionary key
    | AttributeError      // `.keys()` on something that is not a dictionary
    | Base64Error         // `binascii.Error`
    | ZlibError           // `zlib.error`
    | UnicodeDecodeError  // bytes that are not UTF-8
    | JsonDecodeError     // text that is not JSON
    | OSError             // `os.makedirs`, `os.listdir` or `os.unlink` failing
    | IOError             // Python 2's `open` failing (not a kind of OSError there)

  /** A decoded JSON value. Objects keep their keys in insertion order, as Python dictionaries do. */
  datatype Json =
    | Null
    | Bool(b: bool)
    | Int(i: int)
    | Float(f: real)
    | Str(s: string)
    | Arr(items: seq<Json>)
    | Obj(fields: seq<(string, Json)>)

  /** The keys of an object, in insertion order. */
  function Keys(fields: seq<(string, Json)>): (ks: seq<string>)
    ensures |ks| == |fields|
    ensures forall i :: 0 <= i < |fields| ==> ks[i] == fields[i].0
  {
    seq(|fields|, i requires 0 <= i < |fields| => fields[i].0)
  }

  /** The value bound to `key` (the first binding, should there be several). */
  function Lookup(fields: seq<(string, Json)>, key: string): (r: Option<Json>)
    ensures r.Some? <==> key in Keys(fields)
    ensures r.Some? ==> (key, r.value) in fields
  {
    if |fields| == 0 then None
    else if fields[0].0 == key then Some(fields[0].1)
    else
      assert Keys(fields) == [fields[0].0] + Keys(fields[1..]);
      Lookup(fields[1..], key)
  }

  /** `needle` occurs in `hay` as a contiguous substring. */
  predicate IsSubstring(needle: string, hay: string)
    decreases |hay|
  {
    needle <= hay || (|hay| > 0 && IsSubstring(needle, hay[1..]))
  }

  /** Python's `key in container` with a string `key`: key membership for a dictionary,
      element membership for a list, substring search for a string, and a TypeError for
      anything else. */
  function In(key: string, container: Json): (r: Result<bool, Error>)
    ensures container.Obj? ==> r == Ok(key in Keys(container.fields))
    ensures r.Err? <==> !(container.Obj? || container.Arr? || container.Str?)
  {
    match container
    case Obj(fields) => Ok(key in Keys(fields))
    case Arr(items) => Ok(Str(key) in items)
    case Str(s) => Ok(IsSubstring(key, s))
    case _ => Err(TypeError)
  }

  /** Python's `container[key]` with a string `key`. */
  function Subscript(container: Json, key: string): (r: Result<Json, Error>)
    ensures r.Ok? <==> container.Obj? && key in Keys(container.fields)
    ensures r.Ok? ==> (key, r.value) in container.fields
    ensures !container.Obj? ==> r == Err(TypeError)
  {
    match container
    case Obj(fields) =>
      (match Lookup(fields, key)
       case Some(v) => Ok(v)
       case None => Err(KeyError))
    case _ => Err(TypeError)
  }

  /** `key in d` is the guard of `d[key]`: on a dictionary it holds exactly when the subscript
      succeeds, and when it does not hold the subscript raises KeyError; on a list or a string
      it never protects the subscript, which raises TypeError. */
  lemma InGuardsSubscript(key: string, container: Json)
    ensures container.Obj? ==> (In(key, container) == Ok(true) <==> Subscript(container, key).Ok?)
    ensures container.Obj? && In(key, container) == Ok(false) ==> Subscript(container, key) == Err(KeyError)
    ensures container.Arr? || container.Str? ==> In(key, container).Ok? && Subscript(container, key) == Err(TypeError)
  {
    if container.Obj? && In(key, container) == Ok(false) {
      assert Lookup(container.fields, key).None?;
    }
  }

  /** The integer a value stands for in Python arithmetic and formatting (`bool` is a
      subclass of `int`); None for values on which `&` or `'{:d}'` raise a TypeError or
      ValueError. */
  function AsInt(j: Json): (r: Option<int>)
    ensures r.Some? <==> j.Int? || j.Bool?
    ensures j.Int? ==> r == Some(j.i)
  {
    match j
    case Int(i) => Some(i)
    case Bool(b) => Some(if b then 1 else 0)
    case _ => None
  }

  /** The items a Python `for` loop visits: list elements, dictionary keys, or the
      one-character strings of a string; other values are not iterable. */
  function Iterate(j: Json): (r: Result<seq<Json>, Error>)
    ensures r.Ok? <==> j.Arr? || j.Obj? || j.Str?
    ensures j.Arr? ==> r == Ok(j.items)
    ensures j.Obj? ==> |r.value| == |j.fields| && forall k :: 0 <= k < |j.fields| ==> r.value[k] == Str(Keys(j.fields)[k])
    ensures j.Str? ==> |r.value| == |j.s| && forall k :: 0 <= k < |j.s| ==> r.value[k] == Str([j.s[k]])
  {
    match j
    case Arr(items) => Ok(items)
    case Obj(fields) => Ok(seq(|fields|, k requires 0 <= k < |fields| => Str(fields[k].0)))
    case Str(s) => Ok(seq(|s|, k requires 0 <= k < |s| => Str([s[k]])))
    case _ => Err(TypeError)
  }

  /** A value `json.loads` can produce: no object has the same key twice. */
  predicate WellFormed(j: Json)
    decreases j
  {
    match j
    case Arr(items) => forall k :: 0 <= k < |items| ==> WellFormed(items[k])
    case Obj(fields) =>
      && (forall a, b :: 0 <= a < b < |fields| ==> fields[a].0 != fields[b].0)
      && (forall k :: 0 <= k < |fields| ==> WellFormed(fields[k].1))
    case _ => true
  }

  /** The numeric value of a bool, int or float, which Python's `==` compares across types. */
  function NumValue(j: Json): real
    requires j.Bool? || j.Int? || j.Float?
  {
    match j
    case Bool(b) => if b then 1.0 else 0.0
    case Int(i) => i as real
    case Float(f) => f
  }

  /** Python's `==` on decoded JSON: lists compare element by element, dictionaries compare as
      mappings (same size, and every key of `a` bound in `b` to an equal value) whatever
      their key order, and numbers compare by value. */
  predicate SameJson(a: Json, b: Json)
    decreases a
  {
    match a
    case Null => b == Null
    case Str(s) => b == Str(s)
    case Arr(xs) =>
      && b.Arr? && |xs| == |b.items|
      && forall k :: 0 <= k < |xs| ==> SameJson(xs[k], b.items[k])
    case Obj(fs) =>
      && b.Obj? && |fs| == |b.fields|
      && forall k :: 0 <= k < |fs| ==>
           Lookup(b.fields, fs[k].0).Some? && SameJson(fs[k].1, Lookup(b.fields, fs[k].0).value)
    case _ => (b.Bool? || b.Int? || b.Float?) && NumValue(a) == NumValue(b)
  }

  /** In an object without repeated keys, each key is bound to its own value. */
  lemma {:induction false} LookupDistinct(fields: seq<(string, Json)>, k: nat)
    requires k < |fields|
    requires forall a, b :: 0 <= a < b < |fields| ==> fields[a].0 != fields[b].0
    ensures Lookup(fields, fields[k].0) == Some(fields[k].1)
  {
    if k > 0 {
      LookupDistinct(fields[1..], k - 1);
    }
  }

  /** Every value `json.loads` can produce equals itself. */
  lemma {:induction false} SameJsonReflexive(j: Json)
    requires WellFormed(j)
    ensures SameJson(j, j)
    decreases j
  {
    match j
    case Arr(xs) =>
      forall k | 0 <= k < |xs| ensures SameJson(xs[k], xs[k]) {
        SameJsonReflexive(xs[k]);
      }
    case Obj(fs) =>
      forall k | 0 <= k < |fs|
        ensures Lookup(fs, fs[k].0) == Some(fs[k].1) && SameJson(fs[k].1, fs[k].1)
      {
        LookupDistinct(fs, k);
        SameJsonReflexive(fs[k].1);
      }
    case _ =>
  }
}
