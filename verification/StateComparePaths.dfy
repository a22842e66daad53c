/**
 * What the walk reports: exactly the places at which the two values part, each under its path,
 * with what stands there on either side.
 */
module StateComparePaths {
  import opened Text
  import opened KeyOrder
  import opened StateCompare

  /** One step into a value. */
  datatype Turn = Key(k: Bytes) | Index(i: nat)

  function Child(v: State, turn: Turn): Option<State> {
    match turn
    case Key(k) => if v.Obj? && k in v.members then Some(v.members[k]) else None
    case Index(i) => if v.Arr? && i < |v.items| then Some(v.items[i]) else None
  }

  /** What stands at the end of a way into a value. */
  function At(v: State, way: seq<Turn>): Option<State> {
    if way == [] then Some(v)
    else
      var c := Child(v, way[0]);
      if c.None? then None else At(c.value, way[1..])
  }

  predicate BothHold(f: State, b: State) { (f.Obj? && b.Obj?) || (f.Arr? && b.Arr?) }

  /**
   * The values part at the end of the way: up to there they are two objects or two arrays, and
   * not the same; there one of them has nothing, or they are not the same and not to be gone into.
   */
  predicate Part(f: State, b: State, way: seq<Turn>, depth: nat)
    decreases |way|
  {
    && !SameAt(f, b)
    && if way == [] then depth >= 128 || !BothHold(f, b)
       else
         var x, y := Child(f, way[0]), Child(b, way[0]);
         && depth < 128 && BothHold(f, b) && (x.Some? || y.Some?)
         && if x.Some? && y.Some? then Part(x.value, y.value, way[1..], depth + 1) else |way| == 1
  }

  /** The way as text, behind that of a way before it. */
  function PathOf(path: Bytes, way: seq<Turn>): Bytes
    decreases |way|
  {
    if way == [] then path
    else PathOf(match way[0]
                case Key(k) => if path == [] then k else path + ['.'] + k
                case Index(i) => path + ['['] + Digits(i) + [']'], way[1..])
  }

  /** The report on that place: the path, and what stands there, or a note in place of what lies too deep. */
  function ReportOn(path: Bytes, f: State, b: State, way: seq<Turn>, depth: nat): Divergence {
    var text, x, y := PathOf(path, way), At(f, way), At(b, way);
    if x.Some? && y.Some? then
      var at := if text == [] then "$" else text;
      if depth + |way| >= 128 then Divergence(at, Str("<max compare depth 128 exceeded>"), Null)
      else Divergence(at, x.value, y.value)
    else Divergence(text, if x.Some? then x.value else Null, if y.Some? then y.value else Null)
  }

  /** A place inside a member or an item. */
  lemma Inside(path: Bytes, inner: Bytes, f: State, b: State, turn: Turn, way: seq<Turn>, depth: nat)
    requires !SameAt(f, b) && BothHold(f, b) && depth < 128 && Child(f, turn).Some? && Child(b, turn).Some?
    requires inner == PathOf(path, [turn])
    ensures var x, y := Child(f, turn).value, Child(b, turn).value;
            && (Part(f, b, [turn] + way, depth) <==> Part(x, y, way, depth + 1))
            && ReportOn(path, f, b, [turn] + way, depth) == ReportOn(inner, x, y, way, depth + 1)
  {
    assert ([turn] + way)[1..] == way && [turn][1..] == [];
  }

  /** A member or an item that only one of them has. */
  lemma OneSided(path: Bytes, inner: Bytes, f: State, b: State, turn: Turn, depth: nat)
    requires !SameAt(f, b) && BothHold(f, b) && depth < 128 && (Child(f, turn).Some? || Child(b, turn).Some?)
    requires Child(f, turn).None? || Child(b, turn).None?
    requires inner == PathOf(path, [turn])
    ensures Part(f, b, [turn], depth)
    ensures ReportOn(path, f, b, [turn], depth)
            == Divergence(inner, if Child(f, turn).Some? then Child(f, turn).value else Null,
                          if Child(b, turn).Some? then Child(b, turn).value else Null)
  {
    assert [turn][1..] == [] && At(f, [turn]) == Child(f, turn) && At(b, [turn]) == Child(b, turn);
  }

  lemma PathSteps(path: Bytes, k: Bytes, i: nat)
    ensures MemberPath(path, k) == PathOf(path, [Key(k)]) && ItemPath(path, i) == PathOf(path, [Index(i)])
  {
  }

  // ----- Every report is of such a place -----

  lemma {:induction false} MissingSound(path: Bytes, f: State, b: State, depth: nat, keys: seq<Bytes>, d: Divergence)
    returns (way: seq<Turn>)
    requires f.Obj? && b.Obj? && !SameAt(f, b) && depth < 128
    requires forall k :: k in keys ==> k in b.members && k !in f.members
    requires d in Missing(path, b, keys)
    ensures Part(f, b, way, depth) && d == ReportOn(path, f, b, way, depth)
    decreases |keys|
  {
    PathSteps(path, keys[0], 0);
    if d == Divergence(MemberPath(path, keys[0]), Null, b.members[keys[0]]) {
      way := [Key(keys[0])];
      OneSided(path, MemberPath(path, keys[0]), f, b, Key(keys[0]), depth);
    } else {
      way := MissingSound(path, f, b, depth, keys[1..], d);
    }
  }

  lemma {:induction false} MembersSound(path: Bytes, f: State, b: State, depth: nat, keys: seq<Bytes>, d: Divergence)
    returns (way: seq<Turn>)
    requires f.Obj? && b.Obj? && !SameAt(f, b) && depth < 128 && forall k :: k in keys ==> k in f.members
    requires d in CompareMembers(path, f, b, depth, keys)
    ensures Part(f, b, way, depth) && d == ReportOn(path, f, b, way, depth)
    decreases f, 1, |keys|
  {
    var k := keys[0];
    PathSteps(path, k, 0);
    if d in CompareMembers(path, f, b, depth, keys[1..]) {
      way := MembersSound(path, f, b, depth, keys[1..], d);
    } else if k in b.members {
      var rest := CompareSound(MemberPath(path, k), f.members[k], b.members[k], depth + 1, d);
      way := [Key(k)] + rest;
      Inside(path, MemberPath(path, k), f, b, Key(k), rest, depth);
    } else {
      way := [Key(k)];
      OneSided(path, MemberPath(path, k), f, b, Key(k), depth);
    }
  }

  lemma {:induction false} ItemsSound(path: Bytes, f: State, b: State, depth: nat, i: nat, d: Divergence) returns (way: seq<Turn>)
    requires f.Arr? && b.Arr? && !SameAt(f, b) && depth < 128
    requires d in CompareItems(path, f, b, depth, i)
    ensures Part(f, b, way, depth) && d == ReportOn(path, f, b, way, depth)
    decreases f, 1, Max(|f.items|, |b.items|) - i
  {
    PathSteps(path, [], i);
    if d in CompareItems(path, f, b, depth, i + 1) {
      way := ItemsSound(path, f, b, depth, i + 1, d);
    } else if i < |f.items| && i < |b.items| {
      var rest := CompareSound(ItemPath(path, i), f.items[i], b.items[i], depth + 1, d);
      way := [Index(i)] + rest;
      Inside(path, ItemPath(path, i), f, b, Index(i), rest, depth);
    } else {
      way := [Index(i)];
      OneSided(path, ItemPath(path, i), f, b, Index(i), depth);
    }
  }

  lemma {:induction false} CompareSound(path: Bytes, f: State, b: State, depth: nat, d: Divergence) returns (way: seq<Turn>)
    requires d in Compare(path, f, b, depth)
    ensures Part(f, b, way, depth) && d == ReportOn(path, f, b, way, depth)
    decreases f, 2, 0
  {
    if depth < MAX_COMPARE_DEPTH && f.Obj? && b.Obj? {
      SortedKeys(false, f.members.Keys);
      SortedKeys(false, b.members.Keys - f.members.Keys);
      var keys, extra := Sorted(false, f.members.Keys), Sorted(false, b.members.Keys - f.members.Keys);
      if d in CompareMembers(path, f, b, depth, keys) {
        way := MembersSound(path, f, b, depth, keys, d);
      } else {
        way := MissingSound(path, f, b, depth, extra, d);
      }
    } else if depth < MAX_COMPARE_DEPTH && f.Arr? && b.Arr? {
      way := ItemsSound(path, f, b, depth, 0, d);
    } else {
      way := [];
    }
  }

  // ----- Every such place is reported -----

  lemma {:induction false} MissingComplete(path: Bytes, f: State, b: State, depth: nat, keys: seq<Bytes>, k: Bytes)
    requires f.Obj? && b.Obj? && !SameAt(f, b) && depth < 128
    requires forall j :: j in keys ==> j in b.members && j !in f.members
    requires k in keys
    ensures ReportOn(path, f, b, [Key(k)], depth) in Missing(path, b, keys)
    decreases |keys|
  {
    PathSteps(path, k, 0);
    OneSided(path, MemberPath(path, k), f, b, Key(k), depth);
    if k != keys[0] { MissingComplete(path, f, b, depth, keys[1..], k); }
  }

  lemma {:induction false} MembersComplete(path: Bytes, f: State, b: State, depth: nat, keys: seq<Bytes>, k: Bytes, way: seq<Turn>)
    requires f.Obj? && b.Obj? && depth < 128 && forall j :: j in keys ==> j in f.members
    requires k in keys && Part(f, b, [Key(k)] + way, depth)
    ensures ReportOn(path, f, b, [Key(k)] + way, depth) in CompareMembers(path, f, b, depth, keys)
    decreases f, 1, |keys|
  {
    PathSteps(path, k, 0);
    if k != keys[0] {
      MembersComplete(path, f, b, depth, keys[1..], k, way);
    } else if k in b.members {
      Inside(path, MemberPath(path, k), f, b, Key(k), way, depth);
      CompareComplete(MemberPath(path, k), f.members[k], b.members[k], depth + 1, way);
    } else {
      assert [Key(k)] + way == [Key(k)];
      OneSided(path, MemberPath(path, k), f, b, Key(k), depth);
    }
  }

  lemma {:induction false} ItemsComplete(path: Bytes, f: State, b: State, depth: nat, i: nat, j: nat, way: seq<Turn>)
    requires f.Arr? && b.Arr? && depth < 128 && i <= j
    requires Part(f, b, [Index(j)] + way, depth)
    ensures ReportOn(path, f, b, [Index(j)] + way, depth) in CompareItems(path, f, b, depth, i)
    decreases f, 1, Max(|f.items|, |b.items|) - i
  {
    PathSteps(path, [], j);
    if i < j {
      ItemsComplete(path, f, b, depth, i + 1, j, way);
    } else if j < |f.items| && j < |b.items| {
      Inside(path, ItemPath(path, j), f, b, Index(j), way, depth);
      CompareComplete(ItemPath(path, j), f.items[j], b.items[j], depth + 1, way);
    } else {
      assert [Index(j)] + way == [Index(j)];
      OneSided(path, ItemPath(path, j), f, b, Index(j), depth);
    }
  }

  lemma {:induction false} CompareComplete(path: Bytes, f: State, b: State, depth: nat, way: seq<Turn>)
    requires Part(f, b, way, depth)
    ensures ReportOn(path, f, b, way, depth) in Compare(path, f, b, depth)
    decreases f, 2, 0
  {
    if way != [] {
      assert way == [way[0]] + way[1..];
      if f.Obj? {
        SortedKeys(false, f.members.Keys);
        SortedKeys(false, b.members.Keys - f.members.Keys);
        var k := way[0].k;
        if k in f.members {
          MembersComplete(path, f, b, depth, Sorted(false, f.members.Keys), k, way[1..]);
        } else {
          assert way == [Key(k)];
          MissingComplete(path, f, b, depth, Sorted(false, b.members.Keys - f.members.Keys), k);
        }
      } else {
        ItemsComplete(path, f, b, depth, 0, way[0].i, way[1..]);
      }
    }
  }

  /** Of the whole values: what is reported is exactly what there is to report on the places where they part. */
  lemma ReportsAreTheParts(f: State, b: State, d: Divergence)
    ensures d in Compare([], f, b, 0) <==> exists way :: Part(f, b, way, 0) && d == ReportOn([], f, b, way, 0)
  {
    if d in Compare([], f, b, 0) {
      var way := CompareSound([], f, b, 0, d);
    }
    if way :| Part(f, b, way, 0) && d == ReportOn([], f, b, way, 0) {
      CompareComplete([], f, b, 0, way);
    }
  }
}
