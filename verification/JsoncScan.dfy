/**
 * The scanners of crates/victauri-cli/src/jsonc.rs that find a member's value in JSON text
 * without building a tree. Each is given by what it leaves of the text; the loops over an index
 * are proved against that.
 */
module JsoncScan {
  import opened Text
  import opened Json
  import opened JsonTree
  import opened JsonTreeFacts
  import opened JsoncBlank

  function SkipWs(s: Bytes): (r: Bytes)
    ensures |r| <= |s|
  {
    if s != [] && IsAsciiWs(s[0]) then SkipWs(s[1..]) else s
  }

  /** Past a string whose opening quote came before `s`; to the end when it is not closed. */
  function SkipString(s: Bytes): (r: Bytes)
    ensures |r| <= |s|
  {
    if StringEnd(s).None? then [] else s[StringEnd(s).value + 1..]
  }

  /** Past the bracket that closes the container `depth` levels up. */
  function SkipLevels(s: Bytes, depth: nat): (r: Bytes)
    ensures |r| <= |s|
    decreases |s|
  {
    if s == [] then []
    else if s[0] == '"' then SkipLevels(SkipString(s[1..]), depth)
    else if s[0] == '{' || s[0] == '[' then SkipLevels(s[1..], depth + 1)
    else if s[0] == '}' || s[0] == ']' then
      if depth <= 1 then s[1..] else SkipLevels(s[1..], depth - 1)
    else SkipLevels(s[1..], depth)
  }

  function SkipValue(s: Bytes): (r: Bytes)
    ensures |r| <= |s|
  {
    if s == [] then s
    else if s[0] == '"' then SkipString(s[1..])
    else if s[0] == '{' || s[0] == '[' then SkipLevels(s, 0)
    else s[ScalarLength(s)..]
  }

  /** The decoded name a member starts with, if it is a string. */
  function NameAt(s: Bytes): Option<Bytes>
    requires s != []
  {
    var end := StringEnd(s[1..]);
    if end.None? then None else Decode(s[1..][..end.value])
  }

  /** From a member's name: the text from its value on. */
  function ValueAfterName(s: Bytes): (r: Option<Bytes>)
    requires s != []
    ensures r.Some? ==> |r.value| < |s|
  {
    var colon := SkipWs(SkipString(s[1..]));
    if colon == [] || colon[0] != ':' then None else Some(SkipWs(colon[1..]))
  }

  /** From a member's value: the text from the next member on. */
  function NextAfterValue(value: Bytes): (r: Bytes)
    ensures |r| <= |value|
  {
    var next := SkipWs(SkipValue(value));
    if next != [] && next[0] == ',' then SkipWs(next[1..]) else next
  }

  /** The text from the value of the last member called `key` on; `found` is the one so far. */
  function FindMember(s: Bytes, key: Bytes, found: Option<Bytes>): Option<Bytes>
    decreases |s|
  {
    if s == [] || s[0] != '"' then found
    else
      var value := ValueAfterName(s);
      if value.None? then None
      else FindMember(NextAfterValue(value.value), key, if NameAt(s) == Some(key) then value else found)
  }

  // ----- On written trees -----

  lemma {:induction false} SkipGap(g: Bytes, t: Bytes)
    requires AllWs(g) && (t == [] || !IsAsciiWs(t[0]))
    ensures SkipWs(g + t) == t
  {
    if g == [] {
      assert g + t == t;
    } else {
      assert (g + t)[1..] == g[1..] + t;
      SkipGap(g[1..], t);
    }
  }

  lemma SkipRaw(raw: Bytes, r: Bytes)
    requires Decode(raw).Some?
    ensures SkipString(raw + (['"'] + r)) == r
  {
    StringEnds(raw, r);
    assert (raw + (['"'] + r))[|raw| + 1..] == r;
  }

  /** Bytes that are neither quotes nor brackets do not count. */
  lemma {:induction false} LevelsPass(plain: Bytes, r: Bytes, depth: nat)
    requires forall i :: 0 <= i < |plain| ==> plain[i] !in ['"', '{', '[', '}', ']']
    ensures SkipLevels(plain + r, depth) == SkipLevels(r, depth)
  {
    if plain == [] {
      assert plain + r == r;
    } else {
      assert (plain + r)[1..] == plain[1..] + r;
      LevelsPass(plain[1..], r, depth);
    }
  }

  lemma LevelsPassOne(c: Byte, r: Bytes, depth: nat)
    requires c !in ['"', '{', '[', '}', ']']
    ensures SkipLevels([c] + r, depth) == SkipLevels(r, depth)
  {
    assert ([c] + r)[1..] == r;
  }

  lemma LevelsPassString(raw: Bytes, r: Bytes, depth: nat)
    requires Decode(raw).Some?
    ensures SkipLevels(['"'] + (raw + (['"'] + r)), depth) == SkipLevels(r, depth)
  {
    SkipRaw(raw, r);
    assert (['"'] + (raw + (['"'] + r)))[1..] == raw + (['"'] + r);
  }

  /** Inside a container, a whole value leaves the level as it was. */
  lemma {:induction false} LevelsPassNode(n: Node, r: Bytes, depth: nat)
    requires WellFormed(n) && depth > 0
    ensures SkipLevels(Write(n, r), depth) == SkipLevels(r, depth)
    decreases n
  {
    match n
    case Scalar(text) =>
      ScalarText(text);
      LevelsPass(text, r, depth);
    case Quoted(raw) => LevelsPassString(raw, r, depth);
    case Array(_, _) => ContainerEnds(n, r, depth);
    case Object(_, _) => ContainerEnds(n, r, depth);
  }

  /** A container is skipped through its own closing bracket, whatever it holds. */
  lemma {:induction false} ContainerEnds(n: Node, r: Bytes, depth: nat)
    requires WellFormed(n) && (n.Array? || n.Object?)
    ensures SkipLevels(Write(n, r), depth) == if depth == 0 then r else SkipLevels(r, depth)
    decreases n, 0
  {
    match n
    case Array(pad, items) =>
      LevelsPassItems(items, [']'] + r, depth + 1);
      LevelsOpen('[', pad, WriteItems(items, [']'] + r), depth);
      LevelsClose(']', r, depth);
    case Object(pad, members) =>
      LevelsPassMembers(members, ['}'] + r, depth + 1);
      LevelsOpen('{', pad, WriteMembers(members, ['}'] + r), depth);
      LevelsClose('}', r, depth);
  }

  lemma LevelsOpen(open: Byte, pad: Bytes, r: Bytes, depth: nat)
    requires (open == '[' || open == '{') && AllWs(pad)
    ensures SkipLevels([open] + (pad + r), depth) == SkipLevels(r, depth + 1)
  {
    assert ([open] + (pad + r))[1..] == pad + r;
    LevelsPass(pad, r, depth + 1);
  }

  lemma LevelsClose(close: Byte, r: Bytes, depth: nat)
    requires close == ']' || close == '}'
    ensures SkipLevels([close] + r, depth + 1) == if depth == 0 then r else SkipLevels(r, depth)
  {
    assert ([close] + r)[1..] == r;
  }

  lemma {:induction false} LevelsPassItems(items: seq<Item>, r: Bytes, depth: nat)
    requires ItemsOk(items) && depth > 0
    ensures SkipLevels(WriteItems(items, r), depth) == SkipLevels(r, depth)
    decreases items
  {
    if items != [] {
      var Item(lead, node, after) := items[0];
      var more := WriteMoreItems(items[1..], r);
      LevelsPass(lead, Write(node, after + more), depth);
      LevelsPassNode(node, after + more, depth);
      LevelsPass(after, more, depth);
      LevelsPassItems(items[1..], r, depth);
      if items[1..] != [] {
        LevelsPassOne(',', WriteItems(items[1..], r), depth);
      }
    }
  }

  lemma {:induction false} LevelsPassMembers(members: seq<Member>, r: Bytes, depth: nat)
    requires MembersOk(members) && depth > 0
    ensures SkipLevels(WriteMembers(members, r), depth) == SkipLevels(r, depth)
    decreases members
  {
    if members != [] {
      var m := members[0];
      var more := WriteMoreMembers(members[1..], r);
      var value := Write(m.node, m.after + more);
      LevelsPassKey(m, value, depth);
      LevelsPassNode(m.node, m.after + more, depth);
      LevelsPass(m.after, more, depth);
      LevelsPassMembers(members[1..], r, depth);
      if members[1..] != [] {
        LevelsPassOne(',', WriteMembers(members[1..], r), depth);
      }
    }
  }

  lemma LevelsPassColon(colon: Bytes, gap: Bytes, value: Bytes, depth: nat)
    requires AllWs(colon) && AllWs(gap)
    ensures SkipLevels(colon + ([':'] + (gap + value)), depth) == SkipLevels(value, depth)
  {
    LevelsPass(colon, [':'] + (gap + value), depth);
    LevelsPassOne(':', gap + value, depth);
    LevelsPass(gap, value, depth);
  }

  lemma LevelsPassKey(m: Member, value: Bytes, depth: nat)
    requires AllWs(m.lead) && AllWs(m.colon) && AllWs(m.gap) && Decode(m.name).Some?
    ensures SkipLevels(KeyText(m, value), depth) == SkipLevels(value, depth)
  {
    var u := m.colon + ([':'] + (m.gap + value));
    LevelsPass(m.lead, ['"'] + (m.name + (['"'] + u)), depth);
    LevelsPassString(m.name, u, depth);
    LevelsPassColon(m.colon, m.gap, value, depth);
  }

  /** `skip_value` stops exactly where a value ends. */
  lemma SkipsOneValue(n: Node, r: Bytes)
    requires WellFormed(n) && Delimited(r)
    ensures SkipValue(Write(n, r)) == r
  {
    match n
    case Scalar(text) =>
      ScalarText(text);
      ScalarEnds(text, r);
      assert (text + r)[|text|..] == r;
    case Quoted(raw) =>
      SkipRaw(raw, r);
      assert Write(n, r)[1..] == raw + (['"'] + r);
    case Array(_, _) => ContainerEnds(n, r, 0);
    case Object(_, _) => ContainerEnds(n, r, 0);
  }

  // ----- The last member of a name -----

  /** The text from the value of member `j` on. */
  function ValueText(members: seq<Member>, j: nat, r: Bytes): Bytes
    requires j < |members|
  {
    Write(members[j].node, members[j].after + WriteMoreMembers(members[j + 1..], r))
  }

  predicate Named(m: Member, key: Bytes) { Decode(m.name) == Some(key) }

  /** The index of the last member called `key`. */
  function LastNamed(members: seq<Member>, key: Bytes): (j: Option<nat>)
    ensures j.Some? ==> j.value < |members| && Named(members[j.value], key)
  {
    if members == [] then None
    else
      var j := LastNamed(members[1..], key);
      if j.Some? then Some(j.value + 1) else if Named(members[0], key) then Some(0) else None
  }

  /** No later member has that name, and none at all when there is no index. */
  lemma {:induction false} LastNamedIs(members: seq<Member>, key: Bytes, k: nat)
    requires k < |members| && (LastNamed(members, key).Some? ==> LastNamed(members, key).value < k)
    ensures !Named(members[k], key)
  {
    var rest := members[1..];
    assert LastNamed(rest, key).Some? ==> LastNamed(members, key) == Some(LastNamed(rest, key).value + 1);
    if k > 0 {
      assert rest[k - 1] == members[k];
      LastNamedIs(rest, key, k - 1);
    }
  }

  /** One turn of the search, at a member. */
  lemma FindStep(s: Bytes, name: Bytes, colon: Bytes, gap: Bytes, value: Bytes, next: Bytes, key: Bytes, found: Option<Bytes>)
    requires s == ['"'] + (name + (['"'] + (colon + ([':'] + (gap + value)))))
    requires Decode(name).Some? && AllWs(colon) && AllWs(gap)
    requires value != [] && !IsAsciiWs(value[0])
    requires SkipWs(SkipValue(value)) == next
    ensures |next| < |s|
    ensures FindMember(s, key, found)
            == FindMember(if next != [] && next[0] == ',' then SkipWs(next[1..]) else next, key,
                          if Decode(name) == Some(key) then Some(value) else found)
  {
    var u := colon + ([':'] + (gap + value));
    assert s[1..] == name + (['"'] + u);
    SkipRaw(name, u);
    SkipGap(colon, [':'] + (gap + value));
    assert ([':'] + (gap + value))[1..] == gap + value;
    SkipGap(gap, value);
    StringEnds(name, u);
    assert s[1..][..|name|] == name;
  }

  lemma NodeStartsPlain(n: Node, r: Bytes)
    requires WellFormed(n)
    ensures Write(n, r) != [] && !IsAsciiWs(Write(n, r)[0])
  {
    if n.Scalar? {
      ScalarText(n.text);
    }
  }

  /** A list of members after its first gap. */
  function FromName(members: seq<Member>, r: Bytes): Bytes
    requires members != []
  {
    WriteMembers(members, r)[|members[0].lead|..]
  }

  lemma NameFollowsGap(members: seq<Member>, r: Bytes)
    requires members != [] && MembersOk(members)
    ensures SkipWs(WriteMembers(members, r)) == FromName(members, r)
    ensures var m := members[0];
            FromName(members, r) == ['"'] + (m.name + (['"'] + (m.colon + ([':'] + (m.gap + ValueText(members, 0, r))))))
  {
    var m := members[0];
    var t := ['"'] + (m.name + (['"'] + (m.colon + ([':'] + (m.gap + ValueText(members, 0, r))))));
    assert (m.lead + t)[|m.lead|..] == t;
    SkipGap(m.lead, t);
  }

  /** The search ends with the value of the last member of that name, or with what it had. */
  lemma {:induction false} FindsLast(members: seq<Member>, r: Bytes, key: Bytes, found: Option<Bytes>)
    requires members != [] && MembersOk(members)
    ensures var j := LastNamed(members, key);
            FindMember(FromName(members, ['}'] + r), key, found)
            == if j.Some? then Some(ValueText(members, j.value, ['}'] + r)) else found
    decreases members
  {
    var m := members[0];
    var rest := members[1..];
    var tail := ['}'] + r;
    var more := WriteMoreMembers(rest, tail);
    var value := ValueText(members, 0, tail);
    NameFollowsGap(members, tail);
    NodeStartsPlain(m.node, m.after + more);
    MoreMembersStart(rest, r);
    AfterIsDelimited(m.after, more);
    SkipsOneValue(m.node, m.after + more);
    SkipGap(m.after, more);
    FindStep(FromName(members, tail), m.name, m.colon, m.gap, value, more, key, found);
    var now := if Named(m, key) then Some(value) else found;
    if rest == [] {
      assert FindMember(tail, key, now) == now;
    } else {
      assert more[1..] == WriteMembers(rest, tail);
      NameFollowsGap(rest, tail);
      FindsLast(rest, r, key, now);
      LaterValueText(members, tail, key);
    }
  }

  lemma LaterValueText(members: seq<Member>, r: Bytes, key: Bytes)
    requires |members| > 1
    ensures var j := LastNamed(members[1..], key);
            j.Some? ==> ValueText(members[1..], j.value, r) == ValueText(members, j.value + 1, r)
  {
    var j := LastNamed(members[1..], key);
    if j.Some? {
      assert members[1..][j.value + 1..] == members[j.value + 2..];
    }
  }
}
