/** Byte strings in the order of Rust's `str`, and the order keys of a written entry take. */
module KeyOrder {
  import opened Text

  predicate Less(a: Bytes, b: Bytes) {
    if b == [] then false
    else if a == [] then true
    else if a[0] != b[0] then a[0] < b[0]
    else Less(a[1..], b[1..])
  }

  lemma {:induction false} LessTotal(a: Bytes, b: Bytes)
    requires a != b
    ensures Less(a, b) || Less(b, a)
    decreases |a|
  {
    if a != [] && b != [] && a[0] == b[0] {
      assert a == [a[0]] + a[1..] && b == [b[0]] + b[1..];
      LessTotal(a[1..], b[1..]);
    }
  }

  lemma {:induction false} LessTransitive(a: Bytes, b: Bytes, c: Bytes)
    requires Less(a, b) && Less(b, c)
    ensures Less(a, c)
    decreases |a|
  {
    if a != [] && a[0] == b[0] && b[0] == c[0] {
      LessTransitive(a[1..], b[1..], c[1..]);
    }
  }

  /** The keys a printed object leads with; the others come after them, sorted. */
  function Rank(k: Bytes): nat {
    if k == "type" then 0
    else if k == "command" then 1
    else if k == "args" then 2
    else if k == "env" then 3
    else 4
  }

  predicate Before(ranked: bool, a: Bytes, b: Bytes) {
    if ranked && Rank(a) != Rank(b) then Rank(a) < Rank(b) else Less(a, b)
  }

  lemma BeforeTotal(ranked: bool, a: Bytes, b: Bytes)
    requires a != b
    ensures Before(ranked, a, b) || Before(ranked, b, a)
  {
    LessTotal(a, b);
  }

  lemma BeforeTransitive(ranked: bool, a: Bytes, b: Bytes, c: Bytes)
    requires Before(ranked, a, b) && Before(ranked, b, c)
    ensures Before(ranked, a, c)
  {
    if Less(a, b) && Less(b, c) { LessTransitive(a, b, c); }
  }

  predicate IsFirst(ranked: bool, k: Bytes, keys: set<Bytes>) {
    k in keys && forall j :: j in keys && j != k ==> Before(ranked, k, j)
  }

  /** Every non-empty set of keys has a first one. */
  lemma {:induction false} FirstExists(ranked: bool, keys: set<Bytes>) returns (first: Bytes)
    requires keys != {}
    ensures IsFirst(ranked, first, keys)
    decreases |keys|
  {
    var k :| k in keys;
    var rest := keys - {k};
    if rest == {} {
      first := k;
      assert keys == {k};
    } else {
      var f := FirstExists(ranked, rest);
      if Before(ranked, f, k) {
        first := f;
      } else {
        first := k;
        BeforeTotal(ranked, f, k);
        forall j | j in keys && j != k ensures Before(ranked, k, j) {
          if j != f { BeforeTransitive(ranked, k, f, j); }
        }
      }
    }
  }

  ghost function FirstOf(ranked: bool, keys: set<Bytes>): (k: Bytes)
    requires keys != {}
    ensures IsFirst(ranked, k, keys)
  {
    assert exists k :: IsFirst(ranked, k, keys) by { var k := FirstExists(ranked, keys); }
    var k :| IsFirst(ranked, k, keys);
    k
  }

  /** The keys in order: by name, or (`ranked`) with the well-known ones first. */
  ghost function Sorted(ranked: bool, keys: set<Bytes>): seq<Bytes>
    decreases |keys|
  {
    if keys == {} then []
    else
      var first := FirstOf(ranked, keys);
      [first] + Sorted(ranked, keys - {first})
  }

  predicate InOrder(ranked: bool, order: seq<Bytes>) {
    forall i, j :: 0 <= i < j < |order| ==> order[i] != order[j] && Before(ranked, order[i], order[j])
  }

  /** Each key is there exactly once, and in order. */
  lemma {:induction false} SortedKeys(ranked: bool, keys: set<Bytes>)
    ensures forall k :: k in Sorted(ranked, keys) <==> k in keys
    ensures InOrder(ranked, Sorted(ranked, keys))
    decreases |keys|
  {
    if keys != {} {
      var first := FirstOf(ranked, keys);
      SortedKeys(ranked, keys - {first});
      var rest := Sorted(ranked, keys - {first});
      forall k | k in rest ensures k != first && Before(ranked, first, k) {
        assert k in keys;
      }
      PutFirst(ranked, first, rest);
    }
  }

  lemma PutFirst(ranked: bool, first: Bytes, rest: seq<Bytes>)
    requires InOrder(ranked, rest)
    requires forall k :: k in rest ==> k != first && Before(ranked, first, k)
    ensures InOrder(ranked, [first] + rest)
  {
    var order := [first] + rest;
    forall i, j | 0 <= i < j < |order|
      ensures order[i] != order[j] && Before(ranked, order[i], order[j])
    {
      assert order[j] == rest[j - 1] && order[j] in rest;
      if i > 0 { assert order[i] == rest[i - 1]; }
    }
  }

  lemma {:induction false} LessAsymmetric(a: Bytes, b: Bytes)
    requires Less(a, b)
    ensures !Less(b, a)
    decreases |a|
  {
    if a != [] && a[0] == b[0] { LessAsymmetric(a[1..], b[1..]); }
  }

  /** There is only one first key. */
  lemma FirstIsUnique(ranked: bool, j: Bytes, k: Bytes, keys: set<Bytes>)
    requires IsFirst(ranked, j, keys) && IsFirst(ranked, k, keys)
    ensures j == k
  {
    if j != k && Less(j, k) { LessAsymmetric(j, k); }
  }

  /** The elements of a sequence that are in a set. */
  function Kept(order: seq<Bytes>, wanted: set<Bytes>): seq<Bytes> {
    if order == [] then [] else (if order[0] in wanted then [order[0]] else []) + Kept(order[1..], wanted)
  }

  /** Leaving keys out of an ordered set leaves the rest in order. */
  lemma {:induction false} KeptInOrder(ranked: bool, keys: set<Bytes>, wanted: set<Bytes>)
    ensures Kept(Sorted(ranked, keys), wanted) == Sorted(ranked, keys * wanted)
    decreases |keys|
  {
    if keys != {} {
      var first := FirstOf(ranked, keys);
      var rest := Sorted(ranked, keys - {first});
      KeptInOrder(ranked, keys - {first}, wanted);
      assert Sorted(ranked, keys)[1..] == rest;
      if first in wanted {
        var both := keys * wanted;
        FirstIsUnique(ranked, first, FirstOf(ranked, both), both);
        assert both - {first} == (keys - {first}) * wanted;
      } else {
        assert keys * wanted == (keys - {first}) * wanted;
      }
    }
  }
}
