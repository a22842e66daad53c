/**
 * `insert_server` (crates/victauri-cli/src/jsonc.rs): one entry put into a JSONC document by
 * editing its text in one place, and taken back unless the edited text means the old document
 * with that entry added.
 */
module JsoncInsert {
  import opened Text
  import opened Json
  import opened JsonTreeFacts
  import opened JsoncBlank
  import opened JsoncScan
  import opened JsoncPretty
  import opened Whitespace

  datatype Refusal = NotJson | TopLevelNotObject | KeyNotObject | UnexpectedShape | Unverified

  datatype JsonMerge = Wrote(text: Bytes) | AlreadyPresent | Refused(why: Refusal)

  // ----- Indentation -----

  /** The spaces and tabs at the start. */
  function Indent(s: Bytes): (r: Bytes)
    ensures r <= s && AllWs(r)
  {
    if s != [] && (s[0] == ' ' || s[0] == '\t') then [s[0]] + Indent(s[1..]) else []
  }

  /** The unit is read off the first line with an indentation and a text. `s` begins with a whole line. */
  function IndentUnit(s: Bytes): (r: Bytes)
    ensures AllWs(r)
    decreases |s|
  {
    var n := LineLength(s);
    var line := if n < |s| && n > 0 && s[n - 1] == '\r' then s[..n - 1] else s[..n];
    var ws := Indent(line);
    if ws == [] || |ws| == |line| then
      if n == |s| then "  " else IndentUnit(s[n + 1..])
    else if ws[0] == '\t' then "\t" else ws
  }

  function DetectIndent(text: Bytes): (r: Bytes)
    ensures AllWs(r)
  {
    var n := LineLength(text);
    if n == |text| then "  " else IndentUnit(text[n + 1..])
  }

  /** Where the line that holds the end of `s` starts. */
  function LineStart(s: Bytes): (n: nat)
    ensures n <= |s|
  {
    if s == [] then 0 else if s[|s| - 1] == '\n' then |s| else LineStart(s[..|s| - 1])
  }

  function LineIndent(text: Bytes, pos: nat): (r: Bytes)
    requires pos <= |text|
    ensures AllWs(r)
  {
    Indent(text[LineStart(text[..pos])..])
  }

  predicate HasCrLf(s: Bytes) { exists i :: 0 <= i < |s| - 1 && s[i] == '\r' && s[i + 1] == '\n' }

  ghost function LineBreak(text: Bytes): (r: Bytes)
    ensures AllWs(r)
  {
    if HasCrLf(text) then "\r\n" else "\n"
  }

  // ----- The splice -----

  /** A member on its line: `"key": value`. */
  function Line(member: Bytes, key: Bytes, value: Bytes): Bytes { member + Quote(key) + ": " + value }

  /** Where the first significant byte after `open` is. */
  function Inside(b: Bytes, open: nat): (after: nat)
    requires open < |b|
    ensures open < after <= |b|
  {
    |b| - |SkipWs(b[open + 1..])|
  }

  predicate IsEmptyAt(b: Bytes, open: nat)
    requires open < |b|
  {
    Inside(b, open) < |b| && b[Inside(b, open)] == '}'
  }

  /** The text with `"key": value` as the first member of the object that opens at `open`. */
  ghost function NewText(text: Bytes, open: nat, key: Bytes, value: Value): Bytes
    requires open < |text| == |Blank(text)|
  {
    var nl, unit, base := LineBreak(text), DetectIndent(text), LineIndent(text, open);
    var line := Line(base + unit, key, Pretty(value, unit, base + unit, nl));
    var after := Inside(Blank(text), open);
    if IsEmptyAt(Blank(text), open) then
      text[..open + 1] + (TrimEnd(text[open + 1..after]) + (nl + (line + ((nl + base) + text[after..]))))
    else text[..open + 1] + (nl + (line + ([','] + text[open + 1..])))
  }

  // ----- The operation -----

  /** The document plus the one entry. */
  function Plus(root: map<Bytes, Value>, key: Bytes, name: Bytes, entry: Value): Value {
    var servers := if key in root && root[key].Obj? then root[key].members else map[];
    Obj(root[key := Obj(servers[name := entry])])
  }

  /** Where the entry goes: the object at `open`, as the member `key`: `value`. */
  datatype Site = Site(open: nat, key: Bytes, value: Value)

  /** The text from the value of the root's last member `key` on. */
  function ServersText(b: Bytes, key: Bytes): Option<Bytes> {
    var root := SkipWs(b);
    if root == [] then None else FindMember(SkipWs(root[1..]), key, None)
  }

  /** The value of the last member `key` if it is there, else the root. */
  function FindSite(b: Bytes, key: Bytes, name: Bytes, entry: Value): Option<Site> {
    SiteFor(|b|, |SkipWs(b)|, ServersText(b, key), key, name, entry)
  }

  function SiteFor(size: nat, root: nat, found: Option<Bytes>, key: Bytes, name: Bytes, entry: Value): Option<Site> {
    if found.None? then if root <= size then Some(Site(size - root, key, Obj(map[name := entry]))) else None
    else if found.value != [] && found.value[0] == '{' && |found.value| <= size then
      Some(Site(size - |found.value|, name, entry))
    else None
  }

  /** The new text, if it reads as it should. (Every site lies inside the text: see `InsertOutcome`.) */
  ghost function Splice(bom: Bytes, text: Bytes, root: map<Bytes, Value>, key: Bytes, name: Bytes, entry: Value): JsonMerge
  {
    BlankLength(text);
    var site := FindSite(Blank(text), key, name, entry);
    if site.None? || site.value.open >= |text| then Refused(UnexpectedShape)
    else
      var text' := NewText(text, site.value.open, site.value.key, site.value.value);
      if Meaning(Blank(text')) == Some(Plus(root, key, name, entry)) then Wrote(bom + text') else Refused(Unverified)
  }

  ghost function Fresh(key: Bytes, name: Bytes, entry: Value): JsonMerge {
    Wrote(Pretty(Obj(map[key := Obj(map[name := entry])]), "  ", [], "\n") + "\n")
  }

  const BOM: Bytes := ['\U{00EF}', '\U{00BB}', '\U{00BF}']

  function Bom(raw: Bytes): (r: Bytes)
    ensures r <= raw
  {
    if BOM <= raw then BOM else []
  }

  ghost function InsertServer(existing: Option<Bytes>, key: Bytes, name: Bytes, entry: Value): JsonMerge {
    if existing.None? then Fresh(key, name, entry)
    else
      var raw := existing.value;
      var text := raw[|Bom(raw)|..];
      if TrimEnd(text) == [] then Fresh(key, name, entry)
      else
        var doc := Meaning(Blank(text));
        if doc.None? then Refused(NotJson)
        else if !doc.value.Obj? then Refused(TopLevelNotObject)
        else
          var root := doc.value.members;
          if key in root && !root[key].Obj? then Refused(KeyNotObject)
          else if key in root && name in root[key].members then AlreadyPresent
          else Splice(Bom(raw), text, root, key, name, entry)
  }
}
