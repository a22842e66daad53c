/** Which side is called the frontend does not decide where divergences are found. */
module StateCompareSwap {
  import opened Text
  import opened KeyOrder
  import opened StateCompare
  import opened StateCompareFacts

  /** The paths of some divergences, each as often as it is reported. */
  function Paths(ds: seq<Divergence>): multiset<Bytes> {
    if ds == [] then multiset{} else multiset{ds[0].path} + Paths(ds[1..])
  }

  lemma {:induction false} PathsConcat(a: seq<Divergence>, b: seq<Divergence>)
    ensures Paths(a + b) == Paths(a) + Paths(b)
  {
    if a == [] {
      assert a + b == b;
    } else {
      assert (a + b)[1..] == a[1..] + b;
      PathsConcat(a[1..], b);
    }
  }

  lemma OnePath(d: Divergence)
    ensures Paths([d]) == multiset{d.path}
  {
    assert [d][1..] == [];
  }

  function Names(path: Bytes, keys: seq<Bytes>): multiset<Bytes> {
    if keys == [] then multiset{} else multiset{MemberPath(path, keys[0])} + Names(path, keys[1..])
  }

  lemma {:induction false} MissingPaths(path: Bytes, b: State, keys: seq<Bytes>)
    requires b.Obj? && forall k :: k in keys ==> k in b.members
    ensures Paths(Missing(path, b, keys)) == Names(path, keys)
  {
    if keys != [] {
      MissingPaths(path, b, keys[1..]);
      assert Missing(path, b, keys)[1..] == Missing(path, b, keys[1..]);
    }
  }

  /** The keys without those in the set. */
  function Others(order: seq<Bytes>, unwanted: set<Bytes>): seq<Bytes> {
    if order == [] then [] else (if order[0] in unwanted then [] else [order[0]]) + Others(order[1..], unwanted)
  }

  lemma {:induction false} OthersAreKept(order: seq<Bytes>, keys: set<Bytes>, unwanted: set<Bytes>)
    requires forall k :: k in order ==> k in keys
    ensures Others(order, unwanted) == Kept(order, keys - unwanted)
  {
    if order != [] { OthersAreKept(order[1..], keys, unwanted); }
  }

  lemma {:induction false} KeptAreIn(order: seq<Bytes>, wanted: set<Bytes>, k: Bytes)
    requires k in Kept(order, wanted)
    ensures k in order && k in wanted
  {
    if order[0] != k || order[0] !in wanted { KeptAreIn(order[1..], wanted, k); }
  }

  /** Members both have, then members only the frontend has. */
  lemma {:induction false} MembersSplit(path: Bytes, f: State, b: State, depth: nat, keys: seq<Bytes>)
    requires f.Obj? && b.Obj? && forall k :: k in keys ==> k in f.members
    requires forall k :: k in Kept(keys, b.members.Keys) ==> k in f.members
    ensures Paths(CompareMembers(path, f, b, depth, keys))
            == Paths(CompareMembers(path, f, b, depth, Kept(keys, b.members.Keys)))
               + Names(path, Others(keys, b.members.Keys))
    decreases |keys|
  {
    if keys != [] {
      var k, rest := keys[0], keys[1..];
      forall j | j in Kept(rest, b.members.Keys) ensures j in f.members { KeptAreIn(rest, b.members.Keys, j); }
      MembersSplit(path, f, b, depth, rest);
      var kept := Kept(rest, b.members.Keys);
      if k in b.members {
        var head := Compare(MemberPath(path, k), f.members[k], b.members[k], depth + 1);
        PathsConcat(head, CompareMembers(path, f, b, depth, rest));
        PathsConcat(head, CompareMembers(path, f, b, depth, kept));
        assert Kept(keys, b.members.Keys)[1..] == kept;
        assert Others(keys, b.members.Keys) == Others(rest, b.members.Keys);
      } else {
        var head := Divergence(MemberPath(path, k), f.members[k], Null);
        OnePath(head);
        PathsConcat([head], CompareMembers(path, f, b, depth, rest));
        assert Kept(keys, b.members.Keys) == kept;
        assert Others(keys, b.members.Keys)[1..] == Others(rest, b.members.Keys);
      }
    }
  }

  lemma {:induction false} SharedSwap(path: Bytes, f: State, b: State, depth: nat, keys: seq<Bytes>)
    requires f.Obj? && b.Obj? && forall k :: k in keys ==> k in f.members && k in b.members
    ensures Paths(CompareMembers(path, f, b, depth, keys)) == Paths(CompareMembers(path, b, f, depth, keys))
    decreases f, 0, |keys|
  {
    if keys != [] {
      var k, rest := keys[0], keys[1..];
      var p := MemberPath(path, k);
      SidesSwap(p, f.members[k], b.members[k], depth + 1);
      SharedSwap(path, f, b, depth, rest);
      PathsConcat(Compare(p, f.members[k], b.members[k], depth + 1), CompareMembers(path, f, b, depth, rest));
      PathsConcat(Compare(p, b.members[k], f.members[k], depth + 1), CompareMembers(path, b, f, depth, rest));
    }
  }

  lemma {:induction false} ItemsSwap(path: Bytes, f: State, b: State, depth: nat, i: nat)
    requires f.Arr? && b.Arr?
    ensures Paths(CompareItems(path, f, b, depth, i)) == Paths(CompareItems(path, b, f, depth, i))
    decreases f, 0, Max(|f.items|, |b.items|) - i
  {
    if i < |f.items| || i < |b.items| {
      var p := ItemPath(path, i);
      ItemsSwap(path, f, b, depth, i + 1);
      if i < |f.items| && i < |b.items| {
        SidesSwap(p, f.items[i], b.items[i], depth + 1);
        PathsConcat(Compare(p, f.items[i], b.items[i], depth + 1), CompareItems(path, f, b, depth, i + 1));
        PathsConcat(Compare(p, b.items[i], f.items[i], depth + 1), CompareItems(path, b, f, depth, i + 1));
      } else {
        var one := if i < |f.items| then Divergence(p, f.items[i], Null) else Divergence(p, Null, b.items[i]);
        var other := if i < |f.items| then Divergence(p, Null, f.items[i]) else Divergence(p, b.items[i], Null);
        OnePath(one);
        OnePath(other);
        PathsConcat([one], CompareItems(path, f, b, depth, i + 1));
        PathsConcat([other], CompareItems(path, b, f, depth, i + 1));
      }
    }
  }

  /** An object's paths: members of both, members of one, members of the other. */
  lemma ObjectPaths(path: Bytes, f: State, b: State, depth: nat)
    requires f.Obj? && b.Obj? && f != b && depth < MAX_COMPARE_DEPTH
    ensures var shared := Sorted(false, f.members.Keys * b.members.Keys);
            && (forall k :: k in shared ==> k in f.members && k in b.members)
            && Paths(Compare(path, f, b, depth))
               == Paths(CompareMembers(path, f, b, depth, shared))
                  + Names(path, Sorted(false, f.members.Keys - b.members.Keys))
                  + Names(path, Sorted(false, b.members.Keys - f.members.Keys))
  {
    var fk, bk := f.members.Keys, b.members.Keys;
    var keys := Sorted(false, fk);
    SortedKeys(false, fk);
    SortedKeys(false, bk - fk);
    SortedKeys(false, fk * bk);
    KeptInOrder(false, fk, bk);
    OthersAreKept(keys, fk, bk);
    KeptInOrder(false, fk, fk - bk);
    assert fk * (fk - bk) == fk - bk;
    MembersSplit(path, f, b, depth, keys);
    MissingPaths(path, b, Sorted(false, bk - fk));
    PathsConcat(CompareMembers(path, f, b, depth, keys), Missing(path, b, Sorted(false, bk - fk)));
  }

  lemma ObjectSwap(path: Bytes, f: State, b: State, depth: nat)
    requires f.Obj? && b.Obj? && f != b && depth < MAX_COMPARE_DEPTH
    ensures Paths(Compare(path, f, b, depth)) == Paths(Compare(path, b, f, depth))
    decreases f, 1, 0
  {
    ObjectPaths(path, f, b, depth);
    ObjectPaths(path, b, f, depth);
    var shared := f.members.Keys * b.members.Keys;
    assert b.members.Keys * f.members.Keys == shared;
    SharedSwap(path, f, b, depth, Sorted(false, shared));
  }

  /** The same paths, as often, with the sides swapped. */
  lemma {:induction false} SidesSwap(path: Bytes, f: State, b: State, depth: nat)
    ensures Paths(Compare(path, f, b, depth)) == Paths(Compare(path, b, f, depth))
    decreases f, 2, 0
  {
    assert SameAt(f, b) == SameAt(b, f) by {
      if f.Num? && b.Num? { NumbersSymmetric(f.n, b.n); }
    }
    if !SameAt(f, b) && depth < MAX_COMPARE_DEPTH {
      if f.Obj? && b.Obj? {
        ObjectSwap(path, f, b, depth);
      } else if f.Arr? && b.Arr? {
        ItemsSwap(path, f, b, depth, 0);
      } else {
        OnePath(Divergence(RootPath(path), f, b));
        OnePath(Divergence(RootPath(path), b, f));
      }
    }
  }
}
