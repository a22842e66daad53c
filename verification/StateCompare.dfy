/**
 * Comparing the page's state with the backend's (`verify_state`,
 * crates/victauri-core/src/verification.rs): a walk that collects every divergence, down to a
 * fixed depth, beside the plain recursive equality it should agree with.
 */
module StateCompare {
  import opened Text
  import opened KeyOrder

  const MAX_COMPARE_DEPTH: nat := 128

  /** A JSON number: an integer, or a float, whose rounding is not modelled. */
  datatype Number = Int(i: int) | Float(x: real)

  datatype State = Null | Bool(b: bool) | Num(n: Number) | Str(s: Bytes) | Arr(items: seq<State>) | Obj(members: map<Bytes, State>)

  function Abs(x: real): real { if x < 0.0 then -x else x }

  function MaxReal(x: real, y: real): real { if x <= y then y else x }

  /** Four units of relative rounding error: `4.0 * f64::EPSILON`. */
  const TOLERANCE: real := 4.0 / 4503599627370496.0

  predicate Close(x: real, y: real) { x == y || Abs(x - y) <= TOLERANCE * MaxReal(Abs(x), Abs(y)) }

  /** 2 to the 127th. */
  const FLOAT_INT_LIMIT: real := 170141183460469231731687303715884105728.0

  predicate WholeEquals(i: int, x: real) {
    x.Floor as real == x && Abs(x) < FLOAT_INT_LIMIT && x.Floor == i
  }

  predicate NumbersEqual(a: Number, b: Number) {
    match (a, b)
    case (Int(x), Int(y)) => x == y
    case (Int(i), Float(x)) => WholeEquals(i, x)
    case (Float(x), Int(i)) => WholeEquals(i, x)
    case (Float(x), Float(y)) => Close(x, y)
  }

  /** The plain equality. */
  predicate StrictlyEqual(a: State, b: State)
    decreases a
  {
    if a.Num? && b.Num? then NumbersEqual(a.n, b.n)
    else if a.Arr? && b.Arr? then
      |a.items| == |b.items| && forall i :: 0 <= i < |a.items| ==> StrictlyEqual(a.items[i], b.items[i])
    else if a.Obj? && b.Obj? then
      |a.members| == |b.members|
      && forall k :: k in a.members ==> k in b.members && StrictlyEqual(a.members[k], b.members[k])
    else a == b
  }

  // ----- The walk -----

  datatype Divergence = Divergence(path: Bytes, frontend: State, backend: State)

  function MemberPath(path: Bytes, key: Bytes): Bytes { if path == [] then key else path + ['.'] + key }

  function ItemPath(path: Bytes, i: nat): Bytes { path + ['['] + Digits(i) + [']'] }

  function RootPath(path: Bytes): Bytes { if path == [] then "$" else path }

  /** The same value, or the same number. */
  predicate SameAt(f: State, b: State) { f == b || (f.Num? && b.Num? && NumbersEqual(f.n, b.n)) }

  /** What stands at the depth limit instead of the values. */
  function TooDeep(path: Bytes): Divergence {
    Divergence(RootPath(path), Str("<max compare depth 128 exceeded>"), Null)
  }

  ghost function Compare(path: Bytes, f: State, b: State, depth: nat): seq<Divergence>
    decreases f, 2, 0
  {
    if SameAt(f, b) then []
    else if depth >= MAX_COMPARE_DEPTH then [TooDeep(path)]
    else if f.Obj? && b.Obj? then
      SortedKeys(false, f.members.Keys);
      SortedKeys(false, b.members.Keys - f.members.Keys);
      CompareMembers(path, f, b, depth, Sorted(false, f.members.Keys))
      + Missing(path, b, Sorted(false, b.members.Keys - f.members.Keys))
    else if f.Arr? && b.Arr? then CompareItems(path, f, b, depth, 0)
    else [Divergence(RootPath(path), f, b)]
  }

  /** The members of `f` in the order of `keys`, each against its partner. */
  ghost function CompareMembers(path: Bytes, f: State, b: State, depth: nat, keys: seq<Bytes>): seq<Divergence>
    requires f.Obj? && b.Obj? && forall k :: k in keys ==> k in f.members
    decreases f, 1, |keys|
  {
    if keys == [] then []
    else
      var k := keys[0];
      (if k in b.members then Compare(MemberPath(path, k), f.members[k], b.members[k], depth + 1)
       else [Divergence(MemberPath(path, k), f.members[k], Null)])
      + CompareMembers(path, f, b, depth, keys[1..])
  }

  /** Members only the backend has. */
  function Missing(path: Bytes, b: State, keys: seq<Bytes>): seq<Divergence>
    requires b.Obj? && forall k :: k in keys ==> k in b.members
  {
    if keys == [] then []
    else [Divergence(MemberPath(path, keys[0]), Null, b.members[keys[0]])] + Missing(path, b, keys[1..])
  }

  /** The items from `i` on, each against its partner. */
  ghost function CompareItems(path: Bytes, f: State, b: State, depth: nat, i: nat): seq<Divergence>
    requires f.Arr? && b.Arr?
    decreases f, 1, Max(|f.items|, |b.items|) - i
  {
    if i >= |f.items| && i >= |b.items| then []
    else
      (if i >= |b.items| then [Divergence(ItemPath(path, i), f.items[i], Null)]
       else if i >= |f.items| then [Divergence(ItemPath(path, i), Null, b.items[i])]
       else Compare(ItemPath(path, i), f.items[i], b.items[i], depth + 1))
      + CompareItems(path, f, b, depth, i + 1)
  }

  ghost predicate Passes(frontend: State, backend: State) { Compare([], frontend, backend, 0) == [] }
}
