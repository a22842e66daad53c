/** The walk passes exactly when the values are equal, the depth limit aside, and does not take sides. */
module StateCompareFacts {
  import opened Text
  import opened KeyOrder
  import opened StateCompare

  // ----- Numbers -----

  lemma NumbersSymmetric(a: Number, b: Number)
    ensures NumbersEqual(a, b) == NumbersEqual(b, a)
  {
  }

  lemma {:induction false} EqualToItself(v: State)
    ensures StrictlyEqual(v, v)
    decreases v
  {
    if v.Arr? {
      forall i | 0 <= i < |v.items| ensures StrictlyEqual(v.items[i], v.items[i]) { EqualToItself(v.items[i]); }
    } else if v.Obj? {
      forall k | k in v.members ensures StrictlyEqual(v.members[k], v.members[k]) { EqualToItself(v.members[k]); }
    }
  }

  // ----- The depth limit -----

  /** Containers at the depth limit, where the walk stops, are the same on both sides. */
  predicate SameBelow(f: State, b: State, depth: nat)
    decreases f
  {
    if (f.Arr? && b.Arr?) || (f.Obj? && b.Obj?) then
      if depth >= MAX_COMPARE_DEPTH then f == b
      else if f.Arr? then
        forall i :: 0 <= i < |f.items| && i < |b.items| ==> SameBelow(f.items[i], b.items[i], depth + 1)
      else forall k :: k in f.members && k in b.members ==> SameBelow(f.members[k], b.members[k], depth + 1)
    else true
  }

  lemma {:induction false} SameBelowItself(v: State, depth: nat)
    ensures SameBelow(v, v, depth)
    decreases v
  {
    if v.Arr? {
      forall i | 0 <= i < |v.items| ensures SameBelow(v.items[i], v.items[i], depth + 1) { SameBelowItself(v.items[i], depth + 1); }
    } else if v.Obj? {
      forall k | k in v.members ensures SameBelow(v.members[k], v.members[k], depth + 1) { SameBelowItself(v.members[k], depth + 1); }
    }
  }

  /** Every container lies above the limit. */
  predicate Shallow(v: State, depth: nat)
    decreases v
  {
    match v
    case Arr(items) => depth < MAX_COMPARE_DEPTH && forall i :: 0 <= i < |items| ==> Shallow(items[i], depth + 1)
    case Obj(members) => depth < MAX_COMPARE_DEPTH && forall k :: k in members ==> Shallow(members[k], depth + 1)
    case _ => true
  }

  lemma {:induction false} ShallowIsSame(f: State, b: State, depth: nat)
    requires Shallow(f, depth)
    ensures SameBelow(f, b, depth)
    decreases f
  {
    if f.Arr? && b.Arr? {
      forall i | 0 <= i < |f.items| && i < |b.items| ensures SameBelow(f.items[i], b.items[i], depth + 1) {
        ShallowIsSame(f.items[i], b.items[i], depth + 1);
      }
    } else if f.Obj? && b.Obj? {
      forall k | k in f.members && k in b.members ensures SameBelow(f.members[k], b.members[k], depth + 1) {
        ShallowIsSame(f.members[k], b.members[k], depth + 1);
      }
    }
  }

  // ----- Passing is being equal -----

  /** No divergence from here down. */
  ghost predicate Agrees(f: State, b: State, depth: nat) { StrictlyEqual(f, b) && SameBelow(f, b, depth) }

  lemma SameAgrees(f: State, b: State, depth: nat)
    requires SameAt(f, b)
    ensures Agrees(f, b, depth)
  {
    if f == b {
      EqualToItself(f);
      SameBelowItself(f, depth);
    }
  }

  lemma {:induction false} ItemsAgree(path: Bytes, f: State, b: State, depth: nat, i: nat)
    requires f.Arr? && b.Arr? && i <= |f.items| && i <= |b.items|
    ensures CompareItems(path, f, b, depth, i) == [] <==>
              |f.items| == |b.items| && forall j :: i <= j < |f.items| ==> Agrees(f.items[j], b.items[j], depth + 1)
    decreases f, 1, |f.items| - i
  {
    if i < |f.items| && i < |b.items| {
      ItemsAgree(path, f, b, depth, i + 1);
      CompareAgrees(ItemPath(path, i), f.items[i], b.items[i], depth + 1);
    }
  }

  lemma {:induction false} MembersAgree(path: Bytes, f: State, b: State, depth: nat, keys: seq<Bytes>)
    requires f.Obj? && b.Obj? && forall k :: k in keys ==> k in f.members
    ensures CompareMembers(path, f, b, depth, keys) == [] <==>
              forall k :: k in keys ==> k in b.members && Agrees(f.members[k], b.members[k], depth + 1)
    decreases f, 1, |keys|
  {
    if keys != [] {
      var k := keys[0];
      MembersAgree(path, f, b, depth, keys[1..]);
      if k in b.members { CompareAgrees(MemberPath(path, k), f.members[k], b.members[k], depth + 1); }
    }
  }

  lemma SameKeys(f: map<Bytes, State>, b: map<Bytes, State>)
    requires forall k :: k in f ==> k in b
    ensures |f| == |b| <==> b.Keys - f.Keys == {}
  {
    assert f.Keys <= b.Keys && |f.Keys| == |f| && |b.Keys| == |b|;
    assert b.Keys == f.Keys + (b.Keys - f.Keys);
    if b.Keys - f.Keys == {} {
      assert b.Keys == f.Keys;
    } else {
      assert |b.Keys| == |f.Keys| + |b.Keys - f.Keys|;
    }
  }

  lemma NoneMissing(path: Bytes, b: State, extra: set<Bytes>)
    requires b.Obj? && extra <= b.members.Keys
    ensures forall k :: k in Sorted(false, extra) ==> k in b.members
    ensures Missing(path, b, Sorted(false, extra)) == [] <==> extra == {}
  {
    SortedKeys(false, extra);
    if extra != {} {
      var k :| k in extra;
      assert k in Sorted(false, extra);
    }
  }

  /** Every member has an equal partner. */
  ghost predicate PartnersAgree(f: map<Bytes, State>, b: map<Bytes, State>, depth: nat) {
    forall k :: k in f ==> k in b && Agrees(f[k], b[k], depth)
  }

  lemma AgreesByMembers(f: State, b: State, depth: nat)
    requires f.Obj? && b.Obj? && depth < MAX_COMPARE_DEPTH
    ensures Agrees(f, b, depth) <==>
              PartnersAgree(f.members, b.members, depth + 1) && b.members.Keys - f.members.Keys == {}
  {
    if forall k :: k in f.members ==> k in b.members {
      SameKeys(f.members, b.members);
    }
  }

  lemma ObjectAgrees(path: Bytes, f: State, b: State, depth: nat)
    requires f.Obj? && b.Obj? && f != b && depth < MAX_COMPARE_DEPTH
    ensures Compare(path, f, b, depth) == [] <==> Agrees(f, b, depth)
    decreases f, 2, 0
  {
    var keys, extra := Sorted(false, f.members.Keys), b.members.Keys - f.members.Keys;
    SortedKeys(false, f.members.Keys);
    MembersAgree(path, f, b, depth, keys);
    NoneMissing(path, b, extra);
    AgreesByMembers(f, b, depth);
    assert Compare(path, f, b, depth)
        == CompareMembers(path, f, b, depth, keys) + Missing(path, b, Sorted(false, extra));
    assert CompareMembers(path, f, b, depth, keys) == [] <==> PartnersAgree(f.members, b.members, depth + 1);
  }

  lemma {:induction false} CompareAgrees(path: Bytes, f: State, b: State, depth: nat)
    ensures Compare(path, f, b, depth) == [] <==> Agrees(f, b, depth)
    decreases f, 3, 0
  {
    if SameAt(f, b) {
      SameAgrees(f, b, depth);
    } else if depth < MAX_COMPARE_DEPTH {
      if f.Obj? && b.Obj? {
        ObjectAgrees(path, f, b, depth);
      } else if f.Arr? && b.Arr? {
        ItemsAgree(path, f, b, depth, 0);
      }
    }
  }

  /** The check passes exactly when the values are equal and the depth limit hides nothing. */
  lemma PassesExactlyWhen(frontend: State, backend: State)
    ensures Passes(frontend, backend) <==> StrictlyEqual(frontend, backend) && SameBelow(frontend, backend, 0)
  {
    CompareAgrees([], frontend, backend, 0);
  }

  /** Equal values pass when every container lies above the limit. */
  lemma EqualValuesPass(frontend: State, backend: State)
    requires StrictlyEqual(frontend, backend) && Shallow(frontend, 0)
    ensures Passes(frontend, backend)
  {
    ShallowIsSame(frontend, backend, 0);
    PassesExactlyWhen(frontend, backend);
  }

  // ----- Below the limit equal values may fail -----

  function Nest(levels: nat, v: State): State { if levels == 0 then v else Arr([Nest(levels - 1, v)]) }

  lemma {:induction false} NestedFails(levels: nat, f: State, b: State, depth: nat)
    requires StrictlyEqual(f, b) && f != b && f.Arr? && b.Arr? && depth + levels == MAX_COMPARE_DEPTH
    ensures StrictlyEqual(Nest(levels, f), Nest(levels, b)) && !SameBelow(Nest(levels, f), Nest(levels, b), depth)
  {
    if levels > 0 {
      NestedFails(levels - 1, f, b, depth + 1);
      var nf, nb := Nest(levels, f), Nest(levels, b);
      assert nf.items[0] == Nest(levels - 1, f) && nb.items[0] == Nest(levels - 1, b);
    }
  }

  /** `5` and `5.0` in an array at the depth limit: equal, and still reported. */
  lemma DeepEqualValuesFail()
    ensures var f, b := Nest(MAX_COMPARE_DEPTH, Arr([Num(Int(5))])), Nest(MAX_COMPARE_DEPTH, Arr([Num(Float(5.0))]));
            StrictlyEqual(f, b) && !Passes(f, b)
  {
    var f, b := Arr([Num(Int(5))]), Arr([Num(Float(5.0))]);
    assert f.items[0] != b.items[0];
    NestedFails(MAX_COMPARE_DEPTH, f, b, 0);
    PassesExactlyWhen(Nest(MAX_COMPARE_DEPTH, f), Nest(MAX_COMPARE_DEPTH, b));
  }
}
