/** The accumulating walk, proved against `StateCompare.Compare`. */
module StateCompareLoop {
  import opened Text
  import opened KeyOrder
  import opened StateCompare

  class Walker {
    var divergences: seq<Divergence>

    constructor ()
      ensures divergences == []
    {
      divergences := [];
    }

    method CompareValues(path: Bytes, f: State, b: State, depth: nat)
      modifies this
      ensures divergences == old(divergences) + Compare(path, f, b, depth)
      decreases f, 2
    {
      if SameAt(f, b) {
        assert divergences + [] == divergences;
        return;
      }
      if depth >= MAX_COMPARE_DEPTH {
        divergences := divergences + [TooDeep(path)];
      } else if f.Obj? && b.Obj? {
        CompareObjects(path, f, b, depth);
      } else if f.Arr? && b.Arr? {
        CompareArrays(path, f, b, depth);
      } else {
        divergences := divergences + [Divergence(RootPath(path), f, b)];
      }
    }

    method CompareArrays(path: Bytes, f: State, b: State, depth: nat)
      requires f.Arr? && b.Arr?
      modifies this
      ensures divergences == old(divergences) + CompareItems(path, f, b, depth, 0)
      decreases f, 1
    {
      ghost var start := divergences;
      var n := Max(|f.items|, |b.items|);
      for i := 0 to n
        invariant divergences + CompareItems(path, f, b, depth, i) == start + CompareItems(path, f, b, depth, 0)
      {
        ghost var before, rest := divergences, CompareItems(path, f, b, depth, i + 1);
        if i < |f.items| && i < |b.items| {
          CompareValues(ItemPath(path, i), f.items[i], b.items[i], depth + 1);
        } else if i < |f.items| {
          divergences := divergences + [Divergence(ItemPath(path, i), f.items[i], Null)];
        } else {
          divergences := divergences + [Divergence(ItemPath(path, i), Null, b.items[i])];
        }
        assert divergences + rest == before + CompareItems(path, f, b, depth, i) by {
          ConcatAssociative(before, divergences[|before|..], rest);
          assert divergences == before + divergences[|before|..];
        }
      }
      assert divergences + [] == divergences;
    }

    method CompareObjects(path: Bytes, f: State, b: State, depth: nat)
      requires f.Obj? && b.Obj? && !SameAt(f, b) && depth < MAX_COMPARE_DEPTH
      modifies this
      ensures divergences == old(divergences) + Compare(path, f, b, depth)
      decreases f, 1
    {
      SortedKeys(false, f.members.Keys);
      SortedKeys(false, b.members.Keys - f.members.Keys);
      ghost var start := divergences;
      ghost var own := CompareMembers(path, f, b, depth, Sorted(false, f.members.Keys));
      var keys := f.members.Keys;
      while keys != {}
        invariant keys <= f.members.Keys
        invariant forall k :: k in Sorted(false, keys) ==> k in f.members
        invariant divergences + CompareMembers(path, f, b, depth, Sorted(false, keys)) == start + own
        decreases |keys|
      {
        var k := NextKey(keys);
        SortedKeys(false, keys - {k});
        ghost var before, rest := divergences, CompareMembers(path, f, b, depth, Sorted(false, keys - {k}));
        assert Sorted(false, keys)[1..] == Sorted(false, keys - {k});
        if k in b.members {
          CompareValues(MemberPath(path, k), f.members[k], b.members[k], depth + 1);
        } else {
          divergences := divergences + [Divergence(MemberPath(path, k), f.members[k], Null)];
        }
        assert divergences + rest == before + CompareMembers(path, f, b, depth, Sorted(false, keys)) by {
          ConcatAssociative(before, divergences[|before|..], rest);
          assert divergences == before + divergences[|before|..];
        }
        keys := keys - {k};
      }
      assert divergences + [] == divergences;
      ReportMissing(path, b, b.members.Keys - f.members.Keys);
      ConcatAssociative(start, own, Missing(path, b, Sorted(false, b.members.Keys - f.members.Keys)));
    }

    /** The members only the backend has. */
    method ReportMissing(path: Bytes, b: State, extra: set<Bytes>)
      requires b.Obj? && extra <= b.members.Keys && forall k :: k in Sorted(false, extra) ==> k in b.members
      modifies this
      ensures divergences == old(divergences) + Missing(path, b, Sorted(false, extra))
    {
      ghost var start := divergences;
      var keys := extra;
      while keys != {}
        invariant keys <= extra
        invariant forall k :: k in Sorted(false, keys) ==> k in b.members
        invariant divergences + Missing(path, b, Sorted(false, keys)) == start + Missing(path, b, Sorted(false, extra))
        decreases |keys|
      {
        var k := NextKey(keys);
        SortedKeys(false, keys - {k});
        assert Sorted(false, keys)[1..] == Sorted(false, keys - {k});
        ConcatAssociative(divergences, [Divergence(MemberPath(path, k), Null, b.members[k])],
                          Missing(path, b, Sorted(false, keys - {k})));
        divergences := divergences + [Divergence(MemberPath(path, k), Null, b.members[k])];
        keys := keys - {k};
      }
      assert divergences + [] == divergences;
    }
  }

  /** The next key in order. */
  method NextKey(keys: set<Bytes>) returns (k: Bytes)
    requires keys != {}
    ensures k in keys && k == FirstOf(false, keys)
  {
    ghost var first := FirstOf(false, keys);
    k :| k in keys && forall j :: j in keys && j != k ==> Before(false, k, j);
    FirstIsUnique(false, k, first, keys);
  }

  /** `verify_state`. */
  method VerifyState(frontend: State, backend: State) returns (passed: bool, divergences: seq<Divergence>)
    ensures divergences == Compare([], frontend, backend, 0) && passed == Passes(frontend, backend)
  {
    var walker := new Walker();
    walker.CompareValues([], frontend, backend, 0);
    divergences := walker.divergences;
    assert [] + Compare([], frontend, backend, 0) == Compare([], frontend, backend, 0);
    passed := divergences == [];
  }
}
