/**
 * Strict JSON text as a tree that keeps every gap, and the reader of that text (RFC 8259, as
 * `serde_json::from_str` accepts it). Writing a tree and reading text are inverse to each other.
 */
module JsonTree {
  import opened Text
  import opened Json

  /** A value with its text: strings as written between their quotes, gaps as they are. */
  datatype Node =
    | Scalar(text: Bytes)
    | Quoted(raw: Bytes)
    | Array(pad: Bytes, items: seq<Item>)
    | Object(pad: Bytes, members: seq<Member>)

  datatype Item = Item(lead: Bytes, node: Node, after: Bytes)

  datatype Member = Member(lead: Bytes, name: Bytes, colon: Bytes, gap: Bytes, node: Node, after: Bytes)

  // ----- Writing -----

  /** The text of `n`, followed by `r`. */
  function Write(n: Node, r: Bytes): Bytes
    decreases n
  {
    match n
    case Scalar(text) => text + r
    case Quoted(raw) => ['"'] + (raw + (['"'] + r))
    case Array(pad, items) => ['['] + (pad + WriteItems(items, [']'] + r))
    case Object(pad, members) => ['{'] + (pad + WriteMembers(members, ['}'] + r))
  }

  function WriteItems(items: seq<Item>, r: Bytes): Bytes
    decreases items, 0
  {
    if items == [] then r
    else items[0].lead + Write(items[0].node, items[0].after + WriteMoreItems(items[1..], r))
  }

  /** Further items, each after its comma. */
  function WriteMoreItems(items: seq<Item>, r: Bytes): Bytes
    decreases items, 1
  {
    if items == [] then r else [','] + WriteItems(items, r)
  }

  function WriteMembers(members: seq<Member>, r: Bytes): Bytes
    decreases members, 0
  {
    if members == [] then r
    else
      KeyText(members[0], Write(members[0].node, members[0].after + WriteMoreMembers(members[1..], r)))
  }

  /** A member's name, colon and gaps, followed by `value`. */
  function KeyText(m: Member, value: Bytes): Bytes {
    m.lead + (['"'] + (m.name + (['"'] + (m.colon + ([':'] + (m.gap + value))))))
  }

  function WriteMoreMembers(members: seq<Member>, r: Bytes): Bytes
    decreases members, 1
  {
    if members == [] then r else [','] + WriteMembers(members, r)
  }

  /** Gaps are whitespace, strings decode, scalars are scalars. */
  predicate WellFormed(n: Node)
    decreases n
  {
    match n
    case Scalar(text) => IsScalar(text)
    case Quoted(raw) => Decode(raw).Some?
    case Array(pad, items) => AllWs(pad) && (items != [] ==> pad == []) && ItemsOk(items)
    case Object(pad, members) => AllWs(pad) && (members != [] ==> pad == []) && MembersOk(members)
  }

  predicate ItemsOk(items: seq<Item>)
    decreases items
  {
    items != [] ==>
      AllWs(items[0].lead) && AllWs(items[0].after) && WellFormed(items[0].node) && ItemsOk(items[1..])
  }

  predicate MembersOk(members: seq<Member>)
    decreases members
  {
    members != [] ==>
      var m := members[0];
      AllWs(m.lead) && AllWs(m.colon) && AllWs(m.gap) && AllWs(m.after) && Decode(m.name).Some?
      && WellFormed(m.node) && MembersOk(members[1..])
  }

  // ----- Meaning -----

  function Denote(n: Node): Value
    requires WellFormed(n)
    decreases n
  {
    match n
    case Scalar(text) => ScalarValue(text)
    case Quoted(raw) => Str(Decode(raw).value)
    case Array(_, items) => Arr(DenoteItems(items))
    case Object(_, members) => Obj(DenoteMembers(members))
  }

  function DenoteItems(items: seq<Item>): seq<Value>
    requires ItemsOk(items)
    decreases items
  {
    if items == [] then [] else [Denote(items[0].node)] + DenoteItems(items[1..])
  }

  /** Of members with one name, the last counts. */
  function DenoteMembers(members: seq<Member>): map<Bytes, Value>
    requires MembersOk(members)
    decreases members
  {
    if members == [] then map[]
    else map[Decode(members[0].name).value := Denote(members[0].node)] + DenoteMembers(members[1..])
  }

  // ----- Reading -----

  datatype Parse<+T> = Fail | Ok(value: T, rest: Bytes)

  /** How many whitespace characters `s` starts with. */
  function Gap(s: Bytes): (n: nat)
    ensures n <= |s|
  {
    if s != [] && IsWs(s[0]) then 1 + Gap(s[1..]) else 0
  }

  /** Where a string ends: the first quote that no backslash escapes. */
  function StringEnd(s: Bytes): (n: Option<nat>)
    ensures n.Some? ==> n.value < |s|
    decreases |s|
  {
    if s == [] then None
    else if s[0] == '"' then Some(0)
    else
      var size := if s[0] == '\\' then 2 else 1;
      if |s| < size then None
      else
        var n := StringEnd(s[size..]);
        if n.None? then None else Some(n.value + size)
  }

  /** A character that ends a scalar. */
  predicate IsDelimiter(c: Byte) {
    c == ',' || c == '}' || c == ']' || IsWs(c) || c == '\U{000C}'
  }

  function ScalarLength(s: Bytes): (n: nat)
    ensures n <= |s|
  {
    if s == [] || IsDelimiter(s[0]) then 0 else 1 + ScalarLength(s[1..])
  }

  function ReadNode(s: Bytes): (p: Parse<Node>)
    ensures p.Ok? ==> |p.rest| < |s|
    decreases |s|, 0
  {
    if s == [] then Fail
    else if s[0] == '"' then
      var end := StringEnd(s[1..]);
      if end.None? || Decode(s[1..][..end.value]).None? then Fail
      else Ok(Quoted(s[1..][..end.value]), s[1..][end.value + 1..])
    else if s[0] == '[' then
      var t := s[1..];
      var g := Gap(t);
      if g < |t| && t[g] == ']' then Ok(Array(t[..g], []), t[g + 1..])
      else
        var p := ReadItems(t);
        if p.Fail? then Fail else Ok(Array([], p.value), p.rest)
    else if s[0] == '{' then
      var t := s[1..];
      var g := Gap(t);
      if g < |t| && t[g] == '}' then Ok(Object(t[..g], []), t[g + 1..])
      else
        var p := ReadMembers(t);
        if p.Fail? then Fail else Ok(Object([], p.value), p.rest)
    else
      var n := ScalarLength(s);
      if n > 0 && IsScalar(s[..n]) then Ok(Scalar(s[..n]), s[n..]) else Fail
  }

  /** Items up to and with the closing bracket. */
  function ReadItems(s: Bytes): (p: Parse<seq<Item>>)
    ensures p.Ok? ==> |p.rest| < |s|
    decreases |s|, 1
  {
    var g := Gap(s);
    var p := ReadNode(s[g..]);
    if p.Fail? then Fail
    else
      var h := Gap(p.rest);
      var item := Item(s[..g], p.value, p.rest[..h]);
      var u := p.rest[h..];
      if u == [] then Fail
      else if u[0] == ']' then Ok([item], u[1..])
      else if u[0] == ',' then
        var more := ReadItems(u[1..]);
        if more.Fail? then Fail else Ok([item] + more.value, more.rest)
      else Fail
  }

  /** One member's name, its colon and the gaps around it. */
  datatype Key = Key(lead: Bytes, name: Bytes, colon: Bytes, gap: Bytes)

  /** A member's name, with the gap before it. */
  function ReadName(s: Bytes): (p: Parse<(Bytes, Bytes)>)
    ensures p.Ok? ==> |p.rest| < |s|
  {
    var g := Gap(s);
    var t := s[g..];
    if t == [] || t[0] != '"' then Fail
    else
      var end := StringEnd(t[1..]);
      if end.None? || Decode(t[1..][..end.value]).None? then Fail
      else Ok((s[..g], t[1..][..end.value]), t[1..][end.value + 1..])
  }

  /** The colon after a name, with the gaps before and after it. */
  function ReadColon(u: Bytes): (p: Parse<(Bytes, Bytes)>)
    ensures p.Ok? ==> |p.rest| < |u|
  {
    var h := Gap(u);
    if h == |u| || u[h] != ':' then Fail
    else
      var v := u[h + 1..];
      Ok((u[..h], v[..Gap(v)]), v[Gap(v)..])
  }

  function ReadKey(s: Bytes): (p: Parse<Key>)
    ensures p.Ok? ==> |p.rest| < |s|
  {
    var n := ReadName(s);
    if n.Fail? then Fail
    else
      var c := ReadColon(n.rest);
      if c.Fail? then Fail else Ok(Key(n.value.0, n.value.1, c.value.0, c.value.1), c.rest)
  }

  /** Members up to and with the closing brace. */
  function ReadMembers(s: Bytes): (p: Parse<seq<Member>>)
    ensures p.Ok? ==> |p.rest| < |s|
    decreases |s|, 1
  {
    var key := ReadKey(s);
    if key.Fail? then Fail
    else
      var p := ReadNode(key.rest);
      if p.Fail? then Fail
      else
        var h := Gap(p.rest);
        var Key(lead, name, colon, gap) := key.value;
        var member := Member(lead, name, colon, gap, p.value, p.rest[..h]);
        var u := p.rest[h..];
        if u == [] then Fail
        else if u[0] == '}' then Ok([member], u[1..])
        else if u[0] == ',' then
          var more := ReadMembers(u[1..]);
          if more.Fail? then Fail else Ok([member] + more.value, more.rest)
        else Fail
  }

  /** The tree of a whole document, between its first gap and its last. */
  function ReadDocument(s: Bytes): Option<Node> {
    var p := ReadNode(s[Gap(s)..]);
    if p.Ok? && Gap(p.rest) == |p.rest| then Some(p.value) else None
  }
}
