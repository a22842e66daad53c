/** What `pretty_at` prints reads back as the value printed. */
module JsoncPrettyMeans {
  import opened Text
  import opened Json
  import opened JsonTree
  import opened JsonTreeFacts
  import opened JsoncPretty
  import KeyOrder

  /** `unit`, `base` and `nl` are whitespace. */
  predicate Layout(unit: Bytes, base: Bytes, nl: Bytes) { AllWs(unit) && AllWs(base) && AllWs(nl) }

  lemma PlainMeans(v: Value)
    requires Printable(v) && !IsContainer(v)
    ensures WellFormed(PlainNode(v)) && Denote(PlainNode(v)) == v
  {
    match v
    case Str(s) => DecodeEncode(s);
    case _ =>
  }

  lemma {:induction false} PlainItemsMean(items: seq<Value>, lead: Bytes)
    requires AllPlain(items) && AllWs(lead) && Printable(Arr(items))
    ensures ItemsOk(PlainItems(items, lead)) && DenoteItems(PlainItems(items, lead)) == items
  {
    if items != [] {
      PlainMeans(items[0]);
      PlainItemsMean(items[1..], " ");
      assert PlainItems(items, lead)[1..] == PlainItems(items[1..], " ");
      assert items == [items[0]] + items[1..];
    }
  }

  lemma {:induction false} TreeMeans(v: Value, unit: Bytes, base: Bytes, nl: Bytes)
    requires Printable(v) && Layout(unit, base, nl)
    ensures WellFormed(Tree(v, unit, base, nl)) && Denote(Tree(v, unit, base, nl)) == v
    decreases v, 2, 0
  {
    match v
    case Arr(items) =>
      if AllPlain(items) {
        PlainItemsMean(items, []);
      } else {
        LinesMean(items, unit, base, nl);
      }
    case Obj(members) => ObjectMeans(v, unit, base, nl);
    case _ => PlainMeans(v);
  }

  lemma {:induction false} LinesMean(items: seq<Value>, unit: Bytes, base: Bytes, nl: Bytes)
    requires Printable(Arr(items)) && Layout(unit, base, nl)
    ensures ItemsOk(LineItems(items, unit, base, nl)) && DenoteItems(LineItems(items, unit, base, nl)) == items
    decreases items, 1, |items|
  {
    if items != [] {
      var lines := LineItems(items, unit, base, nl);
      assert lines[1..] == LineItems(items[1..], unit, base, nl);
      TreeMeans(items[0], unit, base + unit, nl);
      LinesMean(items[1..], unit, base, nl);
      assert items == [items[0]] + items[1..];
    }
  }

  lemma ObjectMeans(v: Value, unit: Bytes, base: Bytes, nl: Bytes)
    requires v.Obj? && Printable(v) && Layout(unit, base, nl)
    ensures WellFormed(Tree(v, unit, base, nl)) && Denote(Tree(v, unit, base, nl)) == v
    decreases v, 1, 0
  {
    KeyOrder.SortedKeys(true, v.members.Keys);
    var keys := Keys(v.members);
    MembersMean(v, keys, unit, base, nl);
    HoldsAll(DenoteMembers(LineMembers(v, keys, unit, base, nl)), v.members, keys);
  }

  lemma HoldsAll(m: map<Bytes, Value>, members: map<Bytes, Value>, keys: seq<Bytes>)
    requires Holds(m, members, keys) && forall k :: k in keys <==> k in members
    ensures m == members
  {
  }

  /** The lines of some of an object's members mean those members. */
  lemma {:induction false} MembersMean(v: Value, keys: seq<Bytes>, unit: Bytes, base: Bytes, nl: Bytes)
    requires v.Obj? && Printable(v) && Layout(unit, base, nl) && forall k :: k in keys ==> k in v.members
    ensures MembersOk(LineMembers(v, keys, unit, base, nl))
    ensures Holds(DenoteMembers(LineMembers(v, keys, unit, base, nl)), v.members, keys)
    decreases v, 0, |keys|
  {
    if keys != [] {
      var lines, rest := LineMembers(v, keys, unit, base, nl), LineMembers(v, keys[1..], unit, base, nl);
      assert lines[1..] == rest;
      TreeMeans(v.members[keys[0]], unit, base + unit, nl);
      DecodeEncode(keys[0]);
      MembersMean(v, keys[1..], unit, base, nl);
      assert DenoteMembers(lines) == map[keys[0] := v.members[keys[0]]] + DenoteMembers(rest);
      OneMore(v.members, keys, DenoteMembers(rest));
    }
  }

  /** `m` holds the values of exactly these keys. */
  ghost predicate Holds(m: map<Bytes, Value>, members: map<Bytes, Value>, keys: seq<Bytes>) {
    (forall k :: k in m <==> k in keys) && forall k :: k in m ==> k in members && m[k] == members[k]
  }

  lemma OneMore(members: map<Bytes, Value>, keys: seq<Bytes>, rest: map<Bytes, Value>)
    requires keys != [] && keys[0] in members && Holds(rest, members, keys[1..])
    ensures Holds(map[keys[0] := members[keys[0]]] + rest, members, keys)
  {
    assert keys == [keys[0]] + keys[1..];
  }

  /** Printing, then reading, gives the value back and leaves what follows. */
  lemma PrettyRoundTrips(v: Value, unit: Bytes, base: Bytes, nl: Bytes, r: Bytes)
    requires Printable(v) && Layout(unit, base, nl) && Delimited(r)
    ensures var p := ReadNode(Pretty(v, unit, base, nl) + r);
            p.Ok? && p.rest == r && WellFormed(p.value) && Denote(p.value) == v
  {
    TreeMeans(v, unit, base, nl);
    PrettyWritten(v, unit, base, nl, r);
    ReadWritten(Tree(v, unit, base, nl), r);
  }

  /** As a document of its own. */
  lemma PrettyDocument(v: Value, unit: Bytes, base: Bytes, nl: Bytes, trail: Bytes)
    requires Printable(v) && Layout(unit, base, nl) && AllWs(trail)
    ensures var n := ReadDocument(Pretty(v, unit, base, nl) + trail);
            n.Some? && WellFormed(n.value) && Denote(n.value) == v
  {
    TreeMeans(v, unit, base, nl);
    PrettyWritten(v, unit, base, nl, trail);
    DocumentIsTree([], Tree(v, unit, base, nl), trail);
    var text := Write(Tree(v, unit, base, nl), trail);
    assert [] + text == text;
  }
}
