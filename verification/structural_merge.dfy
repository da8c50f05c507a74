/**
 `addPropToJson` (Tasks/Maven/mavenutil.ts): insert `value` under the
 property `propName` of an xml2js node, coping with the fact that a repeated
 XML element becomes an array while a single one stays a scalar or an object.

 The source mutates the node in place and logs `EntryAlreadyExists` when it
 skips a duplicate; here the operation returns the updated node and a
 `duplicate` flag instead.
 */
module StructuralMerge {
  import opened JsonTree

  /** The node after an insertion, and whether the insertion was skipped as a duplicate. */
  datatype Inserted = Inserted(node: Val, duplicate: bool)

  /** The id the duplicate check compares with: `value.id`, when `value && value.id` is truthy. */
  function CheckedId(v: Val): (r: Option<Val>)
    ensures r.Some? <==> HasTruthy(v, "id")
    ensures r.Some? ==> r.value == v.fields["id"]
  {
    if HasTruthy(v, "id") then Some(v.fields["id"]) else None
  }

  /** `a === b` for two values read from trees. Strings compare by content and
      `null` equals `null`; objects and arrays compare by reference, and no
      object or array is ever shared between two places of the trees the Maven task
      builds, so two of them never compare equal here. */
  predicate StrictEquals(a: Val, b: Val) {
    (a.Str? && b.Str? && a.s == b.s) || (a.Null? && b.Null?)
  }

  /** `o` carries the id of `v`: `v.id` is a non-empty string and `o.id` is
      that string or an array holding it. */
  ghost predicate SameId(v: Val, o: Val) {
    && v.Obj? && "id" in v.fields && v.fields["id"].Str? && v.fields["id"].s != ""
    && o.Obj? && "id" in o.fields
    && (o.fields["id"] == v.fields["id"]
        || (o.fields["id"].Arr? && v.fields["id"] in o.fields["id"].items))
  }

  /** The duplicate check runs for `v` and throws on the element `o`
      (`null.id`): it throws only when `v` has a truthy id. */
  ghost predicate ThrowsOn(v: Val, o: Val) {
    HasTruthy(v, "id") && o.Null?
  }

  /** `xs.find(containsId)` throws: some element throws and no element
      before it carries the id of `v` (`find` stops at the first match). */
  ghost predicate ThrowsBeforeMatch(v: Val, xs: seq<Val>) {
    exists j :: 0 <= j < |xs| && ThrowsOn(v, xs[j]) && forall i :: 0 <= i < j ==> !SameId(v, xs[i])
  }

  /** `containsId(o)` (mavenutil.ts:74-85). */
  function ContainsId(v: Val, o: Val): (r: Result<bool>)
    ensures r.Err? <==> ThrowsOn(v, o)
    ensures r.Ok? ==> (r.value <==> SameId(v, o))
  {
    match CheckedId(v)
    case None => Ok(false)
    case Some(id) =>
      match Get(o, "id")
      case Err(f) => Err(f)
      case Ok(None) => Ok(false)
      case Ok(Some(Arr(ids))) => Ok(exists i :: 0 <= i < |ids| && StrictEquals(ids[i], id))
      case Ok(Some(x)) => Ok(StrictEquals(id, x))
  }

  /** `xs.find(containsId)`: the index of the first element that carries the
      id of `v`, stopping with the fault of the first element that throws. */
  function FindById(xs: seq<Val>, v: Val): (r: Result<Option<nat>>)
    ensures r.Ok? && r.value.Some? ==>
              && r.value.value < |xs|
              && SameId(v, xs[r.value.value])
              && forall j :: 0 <= j < r.value.value ==> !SameId(v, xs[j]) && !ThrowsOn(v, xs[j])
    ensures r == Ok(None) <==> forall j :: 0 <= j < |xs| ==> !SameId(v, xs[j]) && !ThrowsOn(v, xs[j])
    ensures r.Err? <==> ThrowsBeforeMatch(v, xs)
    decreases |xs|
  {
    if |xs| == 0 then Ok(None)
    else
      match ContainsId(v, xs[0])
      case Err(f) => Err(f)
      case Ok(true) => Ok(Some(0))
      case Ok(false) =>
        match FindById(xs[1..], v)
        case Err(f) => assert xs[1..][0] == xs[1]; Err(f)
        case Ok(None) => Ok(None)
        case Ok(Some(i)) => Ok(Some(i + 1))
  }

  /** `o[propName]` is truthy; throws on `null`. */
  function ChildTruthy(o: Val, k: string): (r: Result<bool>)
    requires PlainName(k)
    ensures r.Err? <==> o.Null?
    ensures r.Ok? ==> (r.value <==> HasTruthy(o, k))
  {
    match Get(o, k)
    case Err(f) => Err(f)
    case Ok(None) => Ok(false)
    case Ok(Some(x)) => Ok(Truthy(x))
  }

  /** `i` is the element `obj.find(o => o[propName])` returns: the first one
      with a truthy `propName` child, with no `null` before it. */
  ghost predicate FirstWithChild(xs: seq<Val>, k: string, i: int) {
    && 0 <= i < |xs|
    && HasTruthy(xs[i], k)
    && forall j :: 0 <= j < i ==> !HasTruthy(xs[j], k) && !xs[j].Null?
  }

  /** `obj.find(o => o[propName])` reaches a `null` element and throws. */
  ghost predicate NullBeforeChild(xs: seq<Val>, k: string) {
    exists j :: 0 <= j < |xs| && xs[j].Null? && forall i :: 0 <= i < j ==> !HasTruthy(xs[i], k)
  }

  /** `obj.find(o => o[propName])` over the elements of an array. */
  function FindWithChild(xs: seq<Val>, k: string): (r: Result<Option<nat>>)
    requires PlainName(k)
    ensures r.Ok? && r.value.Some? ==> FirstWithChild(xs, k, r.value.value)
    ensures r == Ok(None) <==> forall j :: 0 <= j < |xs| ==> !HasTruthy(xs[j], k) && !xs[j].Null?
    ensures r.Err? <==> NullBeforeChild(xs, k)
    ensures r.Err? ==> r == Err(NullDereference)
    decreases |xs|
  {
    if |xs| == 0 then Ok(None)
    else
      match ChildTruthy(xs[0], k)
      case Err(f) => Err(f)
      case Ok(true) => Ok(Some(0))
      case Ok(false) =>
        match FindWithChild(xs[1..], k)
        case Err(f) => assert xs[1..][0] == xs[1]; Err(f)
        case Ok(None) => Ok(None)
        case Ok(Some(i)) => Ok(Some(i + 1))
  }

  /** `n` is the object `m` with property `k` set to `x` and every other property kept. */
  ghost predicate Updated(m: map<string, Val>, n: Val, k: string, x: Val) {
    && n.Obj?
    && n.fields.Keys == m.Keys + {k}
    && n.fields[k] == x
    && forall j :: j in m && j != k ==> n.fields[j] == m[j]
  }

  /** What an insertion into the plain object `m` does (mavenutil.ts:87-102, 113-114). */
  ghost predicate ObjectInsertion(m: map<string, Val>, k: string, v: Val, r: Result<Inserted>) {
    && (k !in m ==> r.Ok? && !r.value.duplicate && Updated(m, r.value.node, k, v))
    && (k in m && !m[k].Arr? ==>
          r.Ok? && !r.value.duplicate && Updated(m, r.value.node, k, Arr([m[k], v])))
    && (k in m && m[k].Arr? ==>
          && (r.Err? <==> ThrowsBeforeMatch(v, m[k].items))
          && (r.Ok? && r.value.duplicate ==>
                r.value.node == Obj(m) && exists j :: 0 <= j < |m[k].items| && SameId(v, m[k].items[j]))
          && (r.Ok? && !r.value.duplicate ==>
                && Updated(m, r.value.node, k, Arr(m[k].items + [v]))
                && forall j :: 0 <= j < |m[k].items| ==> !SameId(v, m[k].items[j])))
  }

  /** The insertion into an object target (mavenutil.ts:87-102, 113-114). */
  function AddToObject(m: map<string, Val>, k: string, v: Val): (r: Result<Inserted>)
    ensures ObjectInsertion(m, k, v, r)
  {
    if k in m then
      match m[k]
      case Arr(ys) =>
        (match FindById(ys, v)
         case Err(f) => Err(f)
         case Ok(Some(_)) => Ok(Inserted(Obj(m), true))
         case Ok(None) => Ok(Inserted(Obj(m[k := Arr(ys + [v])]), false)))
      case e => Ok(Inserted(Obj(m[k := Arr([e, v])]), false))
    else
      Ok(Inserted(Obj(m[k := v]), false))
  }

  /** `addPropToJson(obj, propName, value)` (mavenutil.ts:62-116), returning
      the container as it is afterwards. */
  function AddProp(c: Val, k: string, v: Val): (r: Result<Inserted>)
    requires PlainName(k)
    // a falsy container is replaced by a fresh local object: nothing observable happens
    ensures !Truthy(c) ==> r == Ok(Inserted(c, false))
    // `propName in "text"` throws
    ensures c.Str? && Truthy(c) ==> r == Err(InOnPrimitive)
    // the container stays an object or an array
    ensures r.Ok? ==> (r.value.node.Obj? <==> c.Obj?) && (r.value.node.Arr? <==> c.Arr?)
    ensures c.Obj? ==> ObjectInsertion(c.fields, k, v, r)
    // an array container: the first element with a truthy `propName` child is the target
    ensures c.Arr? ==> forall i :: FirstWithChild(c.items, k, i) ==>
              && (r.Ok? <==> AddToObject(c.items[i].fields, k, v).Ok?)
              && (r.Ok? ==>
                    && r.value.node.Arr?
                    && |r.value.node.items| == |c.items|
                    && (forall j :: 0 <= j < |c.items| && j != i ==> r.value.node.items[j] == c.items[j])
                    && Ok(Inserted(r.value.node.items[i], r.value.duplicate)) == AddToObject(c.items[i].fields, k, v))
    // an array container with no such element gets a wrapper `{propName: value}` appended,
    // unless one of its own elements carries the id of `value`
    ensures c.Arr? && (forall j :: 0 <= j < |c.items| ==> !HasTruthy(c.items[j], k) && !c.items[j].Null?) ==>
              && r.Ok?
              && (r.value.duplicate <==> exists j :: 0 <= j < |c.items| && SameId(v, c.items[j]))
              && (r.value.duplicate ==> r.value.node == c)
              && (!r.value.duplicate ==> r.value.node == Arr(c.items + [Obj(map[k := v])]))
    // the search for the target throws when it reaches a `null` element
    ensures c.Arr? && NullBeforeChild(c.items, k) ==> r == Err(NullDereference)
  {
    match c
    case Null => Ok(Inserted(c, false))
    case Str(s) => if s == "" then Ok(Inserted(c, false)) else Err(InOnPrimitive)
    case Obj(m) => AddToObject(m, k, v)
    case Arr(xs) =>
      match FindWithChild(xs, k)
      case Err(f) => Err(f)
      case Ok(Some(i)) =>
        (match AddToObject(xs[i].fields, k, v)
         case Err(f) => Err(f)
         case Ok(Inserted(n, dup)) => Ok(Inserted(Arr(xs[i := n]), dup)))
      case Ok(None) =>
        match FindById(xs, v)
        case Err(f) => Err(f)
        case Ok(Some(_)) => Ok(Inserted(c, true))
        case Ok(None) => Ok(Inserted(Arr(xs + [Obj(map[k := v])]), false))
  }

  /** The elements the serializer emits for the property `k`: none when it is
      absent, one per element when it is an array, and the value itself otherwise. */
  function Entries(o: Option<Val>): seq<Val> {
    match o
    case None => []
    case Some(Arr(xs)) => xs
    case Some(x) => [x]
  }

  /** The own property `k` of `c`, or `undefined`. */
  function ChildOf(c: Val, k: string): Option<Val> {
    if c.Obj? && k in c.fields then Some(c.fields[k]) else None
  }

  /** Inserting into an object never loses a value already present: the
      emitted `k` elements gain `v` at the end, or stay as they were when the
      insertion is reported as a duplicate; every other property is kept. */
  lemma AddPropKeepsEntries(c: Val, k: string, v: Val)
    requires PlainName(k) && c.Obj? && !v.Arr?
    requires AddProp(c, k, v).Ok?
    ensures AddProp(c, k, v).value.node.Obj?
    ensures Entries(ChildOf(AddProp(c, k, v).value.node, k))
            == Entries(ChildOf(c, k)) + (if AddProp(c, k, v).value.duplicate then [] else [v])
    ensures forall j :: j in c.fields && j != k ==> AddProp(c, k, v).value.node.fields[j] == c.fields[j]
  {
  }

  /** An array container sends the value to its first element holding the
      property; when that property is a single value, it becomes a
      two-element array without any id check, even for the value itself. */
  lemma WrappedPropertyPromotedWithoutCheck(k: string, v: Val)
    requires PlainName(k) && Truthy(v) && !v.Arr?
    ensures AddProp(Arr([Obj(map[k := v])]), k, v) == Ok(Inserted(Arr([Obj(map[k := Arr([v, v])])]), false))
  {
    var m := map[k := v];
    assert FirstWithChild([Obj(m)], k, 0);
    assert m[k := Arr([v, v])] == map[k := Arr([v, v])];
    assert AddToObject(m, k, v) == Ok(Inserted(Obj(map[k := Arr([v, v])]), false));
    assert [Obj(m)][0 := Obj(map[k := Arr([v, v])])] == [Obj(map[k := Arr([v, v])])];
  }

  /** After `v` was appended to the array under `k`, inserting `v` again is
      reported as a duplicate and changes nothing. */
  lemma AppendedValueIsDuplicate(c: Val, k: string, v: Val)
    requires PlainName(k) && c.Obj? && k in c.fields && c.fields[k].Arr?
    requires HasTruthy(v, "id") && v.fields["id"].Str?
    requires AddProp(c, k, v).Ok? && !AddProp(c, k, v).value.duplicate
    ensures AddProp(AddProp(c, k, v).value.node, k, v) == Ok(Inserted(AddProp(c, k, v).value.node, true))
  {
    var n := AddProp(c, k, v).value.node;
    var ys := c.fields[k].items;
    assert n.fields[k].items == ys + [v];
    assert SameId(v, (ys + [v])[|ys|]);
    assert forall j :: 0 <= j < |ys| ==> (ys + [v])[j] == ys[j];
  }

  /** Two insertions of the same id into an object that lacks `k` both
      survive: the first sets the property and the second promotes it to a
      two-element array without any duplicate check; only a third insertion
      is caught. So at most two entries with one id accumulate. */
  lemma SameIdInsertedAtMostTwice(c: Val, k: string, v: Val)
    requires PlainName(k) && c.Obj? && k !in c.fields
    requires HasTruthy(v, "id") && v.fields["id"].Str? && !v.Arr?
    ensures AddProp(c, k, v).Ok? && !AddProp(c, k, v).value.duplicate
    ensures var c1 := AddProp(c, k, v).value.node;
            && AddProp(c1, k, v).Ok? && !AddProp(c1, k, v).value.duplicate
            && var c2 := AddProp(c1, k, v).value.node;
               && Entries(ChildOf(c2, k)) == [v, v]
               && AddProp(c2, k, v) == Ok(Inserted(c2, true))
  {
    var c1 := AddProp(c, k, v).value.node;
    var c2 := AddProp(c1, k, v).value.node;
    assert c2.fields[k] == Arr([v, v]);
    assert SameId(v, [v, v][0]);
  }
}
