/**
 The in-memory tree that xml2js produces from an XML document, and the few
 JavaScript operations the Maven task performs on it: truthiness, property
 reads, the "first element of an array" unwrapping idiom and `for ... of`.

 A node is a string, `null`, a plain object or an array. JavaScript's
 `undefined` is not a node: an absent property is a key missing from the
 object's map, and a read that yields `undefined` returns `None`.

 Every JavaScript `TypeError` the Maven task can raise on such a tree (reading a
 property of `null`/`undefined`, the `in` operator on a string, assigning a
 property on a string in strict mode, iterating something that is not
 iterable, calling `toLowerCase` on a non-string) becomes an `Err`.
 */
module JsonTree {

  datatype Option<+T> = None | Some(value: T)

  /** The cause of a JavaScript `TypeError`. */
  datatype Fault =
    | NullDereference      // `x.p` or `x[p]` with `x` null or undefined
    | InOnPrimitive        // `p in s` with `s` a string
    | AssignOnPrimitive    // `s.p = ...` with `s` a string (modules are strict)
    | NotIterable          // `for (... of x)` with `x` an object, null or undefined
    | NotAFunction         // `x.toLowerCase()` with `x` not a string

  datatype Result<+T> = Ok(value: T) | Err(fault: Fault)

  datatype Val =
    | Str(s: string)
    | Null
    | Obj(fields: map<string, Val>)
    | Arr(items: seq<Val>)

  /** JavaScript truthiness; every object and every array, even empty, is truthy. */
  predicate Truthy(v: Val) {
    match v
    case Str(s) => s != ""
    case Null => false
    case _ => true
  }

  /** Truthiness of a read that may have produced `undefined`. */
  predicate TruthyOpt(o: Option<Val>) {
    o.Some? && Truthy(o.value)
  }

  /** The object has an own property `k` holding a truthy value. */
  predicate HasTruthy(v: Val, k: string) {
    v.Obj? && k in v.fields && Truthy(v.fields[k])
  }

  /** Property names that resolve on a JavaScript prototype of a string, an
      array or a plain object, among those made only of lower-case letters. */
  predicate Inherited(k: string) {
    k in {
      "length", "constructor",
      "at", "concat", "entries", "every", "fill", "filter", "find", "flat",
      "includes", "join", "keys", "map", "pop", "push", "reduce", "reverse",
      "shift", "slice", "some", "sort", "splice", "unshift", "values", "with",
      "anchor", "big", "blink", "bold", "fixed", "fontcolor", "fontsize",
      "italics", "link", "match", "normalize", "repeat", "replace", "search",
      "small", "split", "strike", "sub", "substr", "substring", "sup", "trim"
    }
  }

  /** A property name that is never an array index and never inherited, so
      reading it from a string or an array yields `undefined`, and `k in a`
      on an array is false. */
  predicate PlainName(k: string) {
    && |k| > 0
    && (forall i :: 0 <= i < |k| ==> 'a' <= k[i] <= 'z')
    && !Inherited(k)
  }

  /** `v.k`. Only own properties of objects are modelled: every name the Maven task
      reads (`id`, `url`, `settings`, `$`, ...) is a plain, uninherited name. */
  function Get(v: Val, k: string): (r: Result<Option<Val>>)
    ensures r.Err? <==> v.Null?
    ensures r.Ok? && r.value.Some? <==> v.Obj? && k in v.fields
    ensures r.Ok? && r.value.Some? ==> r.value.value == v.fields[k]
  {
    match v
    case Null => Err(NullDereference)
    case Obj(m) => if k in m then Ok(Some(m[k])) else Ok(None)
    case _ => Ok(None)
  }

  /** `o.k` where `o` may itself be `undefined`. */
  function GetOpt(o: Option<Val>, k: string): (r: Result<Option<Val>>)
    ensures r.Err? <==> o.None? || o.value.Null?
    ensures r.Ok? && r.value.Some? <==> o.Some? && o.value.Obj? && k in o.value.fields
    ensures r.Ok? && r.value.Some? ==> r.value.value == o.value.fields[k]
  {
    match o
    case None => Err(NullDereference)
    case Some(v) => Get(v, k)
  }

  /** `x instanceof Array ? x[0] : x`; the first element of an empty array is `undefined`. */
  function Unwrap(o: Option<Val>): (r: Option<Val>)
    ensures o.Some? && o.value.Arr? ==>
              (r.Some? <==> |o.value.items| > 0) && (r.Some? ==> r.value == o.value.items[0])
    ensures !(o.Some? && o.value.Arr?) ==> r == o
  {
    match o
    case Some(Arr(xs)) => if |xs| > 0 then Some(xs[0]) else None
    case _ => o
  }

  /** The values `for (const e of x)` visits: the elements of an array, the
      one-character strings of a string's code points; objects, `null` and
      `undefined` are not iterable. */
  function Iterate(o: Option<Val>): (r: Result<seq<Val>>)
    ensures r.Err? <==> o.None? || o.value.Null? || o.value.Obj?
    ensures o.Some? && o.value.Arr? ==> r == Ok(o.value.items)
    ensures o.Some? && o.value.Str? ==>
              r.Ok? && |r.value| == |o.value.s|
              && forall i :: 0 <= i < |r.value| ==> r.value[i] == Str([o.value.s[i]])
  {
    match o
    case None => Err(NotIterable)
    case Some(Null) => Err(NotIterable)
    case Some(Obj(_)) => Err(NotIterable)
    case Some(Arr(xs)) => Ok(xs)
    case Some(Str(s)) => Ok(seq(|s|, i requires 0 <= i < |s| => Str([s[i]])))
  }

  /** The own properties of `{k: x}` when `x` may be `undefined`, which
      every later read treats as an absent property. */
  function Field(k: string, x: Option<Val>): (m: map<string, Val>)
    ensures x.None? ==> m == map[]
    ensures x.Some? ==> m.Keys == {k} && m[k] == x.value
  {
    match x
    case None => map[]
    case Some(v) => map[k := v]
  }
}
