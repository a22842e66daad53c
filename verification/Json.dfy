/**
 * JSON values, and the two lexical forms with structure of their own: strings and scalars
 * (RFC 8259, sections 6 and 7, as `serde_json` reads and writes them).
 */
module Json {
  import opened Text

  /**
   * A JSON value. A number is its text; a string is its decoded UTF-8 bytes; of members with
   * one name an object keeps the last.
   */
  datatype Value =
    | Null
    | Bool(b: bool)
    | Num(text: Bytes)
    | Str(s: Bytes)
    | Arr(items: seq<Value>)
    | Obj(members: map<Bytes, Value>)

  /** The four JSON whitespace characters. */
  predicate IsWs(c: Byte) { c == ' ' || c == '\t' || c == '\n' || c == '\r' }

  predicate AllWs(s: Bytes) { forall i :: 0 <= i < |s| ==> IsWs(s[i]) }

  // ----- Scalars -----

  predicate IsDigit(c: Byte) { '0' <= c <= '9' }

  /** What is left after the leading digits. */
  function AfterDigits(s: Bytes): (r: Bytes)
    ensures |r| <= |s|
  {
    if s != [] && IsDigit(s[0]) then AfterDigits(s[1..]) else s
  }

  /** An integer part: `0`, or digits that do not start with it. */
  function AfterInt(s: Bytes): Option<Bytes> {
    if s == [] || !IsDigit(s[0]) then None
    else if s[0] == '0' then Some(s[1..])
    else Some(AfterDigits(s))
  }

  function AfterFraction(s: Bytes): Option<Bytes> {
    if s == [] || s[0] != '.' then Some(s)
    else if |s| > 1 && IsDigit(s[1]) then Some(AfterDigits(s[1..])) else None
  }

  function AfterExponent(s: Bytes): Option<Bytes> {
    if s == [] || (s[0] != 'e' && s[0] != 'E') then Some(s)
    else
      var t := if |s| > 1 && (s[1] == '+' || s[1] == '-') then s[2..] else s[1..];
      if t != [] && IsDigit(t[0]) then Some(AfterDigits(t)) else None
  }

  predicate IsNumber(s: Bytes) {
    var t := if s != [] && s[0] == '-' then s[1..] else s;
    var i := AfterInt(t);
    i.Some? &&
    var f := AfterFraction(i.value);
    f.Some? && AfterExponent(f.value) == Some([])
  }

  /** `null`, `true`, `false` or a number. */
  predicate IsScalar(s: Bytes) {
    s == "null" || s == "true" || s == "false" || IsNumber(s)
  }

  function ScalarValue(s: Bytes): Value {
    if s == "null" then Null
    else if s == "true" then Bool(true)
    else if s == "false" then Bool(false)
    else Num(s)
  }

  /** The characters scalars are made of. */
  predicate IsScalarChar(c: Byte) {
    IsDigit(c) || c == '-' || c == '+' || c == '.' || c in "eEnultrfas"
  }

  predicate ScalarChars(s: Bytes) { forall i :: 0 <= i < |s| ==> IsScalarChar(s[i]) }

  lemma {:induction false} DigitsAreScalar(s: Bytes)
    requires ScalarChars(AfterDigits(s))
    ensures ScalarChars(s)
  {
    if s != [] && IsDigit(s[0]) {
      DigitsAreScalar(s[1..]);
      assert s == [s[0]] + s[1..];
    }
  }

  lemma TailScalar(s: Bytes)
    requires s != [] && IsScalarChar(s[0]) && ScalarChars(s[1..])
    ensures ScalarChars(s)
  {
    assert s == [s[0]] + s[1..];
  }

  lemma ExponentIsScalar(s: Bytes)
    requires AfterExponent(s) == Some([])
    ensures ScalarChars(s)
  {
    if s != [] {
      var t := if |s| > 1 && (s[1] == '+' || s[1] == '-') then s[2..] else s[1..];
      DigitsAreScalar(t);
      if |s| > 1 && (s[1] == '+' || s[1] == '-') {
        assert s[1..][1..] == t;
        TailScalar(s[1..]);
      }
      TailScalar(s);
    }
  }

  lemma FractionIsScalar(s: Bytes)
    requires AfterFraction(s).Some? && ScalarChars(AfterFraction(s).value)
    ensures ScalarChars(s)
  {
    if s != [] && s[0] == '.' {
      DigitsAreScalar(s[1..]);
      TailScalar(s);
    }
  }

  lemma IntIsScalar(s: Bytes)
    requires AfterInt(s).Some? && ScalarChars(AfterInt(s).value)
    ensures ScalarChars(s) && s != []
  {
    if s[0] == '0' {
      TailScalar(s);
    } else {
      DigitsAreScalar(s);
    }
  }

  /** A scalar is not empty and holds nothing that means something to JSON's structure. */
  lemma ScalarText(s: Bytes)
    requires IsScalar(s)
    ensures s != [] && ScalarChars(s)
  {
    if IsNumber(s) {
      var t := if s[0] == '-' then s[1..] else s;
      var i := AfterInt(t).value;
      ExponentIsScalar(AfterFraction(i).value);
      FractionIsScalar(i);
      IntIsScalar(t);
      if s[0] == '-' {
        TailScalar(s);
      }
    }
  }

  // ----- Strings -----

  function HexValue(c: Byte): Option<nat> {
    if '0' <= c <= '9' then Some(c as int - '0' as int)
    else if 'a' <= c <= 'f' then Some(c as int - 'a' as int + 10)
    else if 'A' <= c <= 'F' then Some(c as int - 'A' as int + 10)
    else None
  }

  /** The code unit of the four hex digits at the start of `s`. */
  function Hex4(s: Bytes): (u: Option<nat>)
    ensures u.Some? ==> |s| >= 4 && u.value < 0x10000
  {
    if |s| < 4 then None
    else
      var a, b, c, d := HexValue(s[0]), HexValue(s[1]), HexValue(s[2]), HexValue(s[3]);
      if a.None? || b.None? || c.None? || d.None? then None
      else Some(a.value * 4096 + b.value * 256 + c.value * 16 + d.value)
  }

  /** The UTF-8 bytes of a code point. */
  function Utf8(code: nat): Bytes
    requires code < 0x110000
  {
    if code < 0x80 then [code as char]
    else if code < 0x800 then [(0xC0 + code / 64) as char, (0x80 + code % 64) as char]
    else if code < 0x10000 then
      [(0xE0 + code / 4096) as char, (0x80 + code / 64 % 64) as char, (0x80 + code % 64) as char]
    else
      [(0xF0 + code / 262144) as char, (0x80 + code / 4096 % 64) as char,
       (0x80 + code / 64 % 64) as char, (0x80 + code % 64) as char]
  }

  /** What one escape stands for, and how many bytes it takes, its backslash included. */
  datatype Escape = BadEscape | Escape(bytes: Bytes, size: nat)

  /** `\uXXXX`: a code unit, or with a second such escape after it a surrogate pair. */
  function ReadUnicode(raw: Bytes): (e: Escape)
    requires |raw| >= 2
    ensures e.Escape? ==> 2 <= e.size <= |raw|
  {
    var unit := Hex4(raw[2..]);
    if unit.None? then BadEscape
    else if unit.value < 0xD800 || unit.value >= 0xE000 then Escape(Utf8(unit.value), 6)
    else if unit.value >= 0xDC00 || |raw| < 12 || raw[6] != '\\' || raw[7] != 'u' then BadEscape
    else
      var low := Hex4(raw[8..]);
      if low.None? || low.value < 0xDC00 || low.value >= 0xE000 then BadEscape
      else Escape(Utf8(0x10000 + (unit.value - 0xD800) * 0x400 + (low.value - 0xDC00)), 12)
  }

  /** The escape at the start of `raw`, whose first byte is the backslash. */
  function ReadEscape(raw: Bytes): (e: Escape)
    ensures e.Escape? ==> 2 <= e.size <= |raw|
  {
    if |raw| < 2 then BadEscape
    else
      match raw[1]
      case '"' => Escape(['"'], 2)
      case '\\' => Escape(['\\'], 2)
      case '/' => Escape(['/'], 2)
      case 'b' => Escape(['\U{0008}'], 2)
      case 'f' => Escape(['\U{000C}'], 2)
      case 'n' => Escape(['\n'], 2)
      case 'r' => Escape(['\r'], 2)
      case 't' => Escape(['\t'], 2)
      case 'u' => ReadUnicode(raw)
      case _ => BadEscape
  }

  /** The text between the quotes of a string, decoded; `None` if it is not a string's text. */
  function Decode(raw: Bytes): Option<Bytes>
    decreases |raw|
  {
    if raw == [] then Some([])
    else if raw[0] == '\\' then
      var e := ReadEscape(raw);
      if e.BadEscape? then None
      else
        var rest := Decode(raw[e.size..]);
        if rest.None? then None else Some(e.bytes + rest.value)
    else if raw[0] == '"' || raw[0] < ' ' then None
    else
      var rest := Decode(raw[1..]);
      if rest.None? then None else Some([raw[0]] + rest.value)
  }

  function HexDigit(n: nat): Byte
    requires n < 16
  {
    if n < 10 then ('0' as int + n) as char else ('a' as int + n - 10) as char
  }

  /** How `serde_json` writes one byte of a string. */
  function EncodeByte(c: Byte): Bytes {
    match c
    case '"' => ['\\', '"']
    case '\\' => ['\\', '\\']
    case '\U{0008}' => ['\\', 'b']
    case '\U{000C}' => ['\\', 'f']
    case '\n' => ['\\', 'n']
    case '\r' => ['\\', 'r']
    case '\t' => ['\\', 't']
    case _ =>
      if c < ' ' then ['\\', 'u', '0', '0', HexDigit(c as int / 16), HexDigit(c as int % 16)] else [c]
  }

  function Encode(s: Bytes): Bytes {
    if s == [] then [] else EncodeByte(s[0]) + Encode(s[1..])
  }

  /** Reading one written byte gives it back. */
  lemma EncodedByte(c: Byte, rest: Bytes)
    ensures var raw := EncodeByte(c) + rest;
            if EncodeByte(c) == [c] then c != '\\' && c != '"' && c >= ' ' && raw[0] == c && raw[1..] == rest
            else raw[0] == '\\' && ReadEscape(raw).Escape? && ReadEscape(raw).bytes == [c]
                 && raw[ReadEscape(raw).size..] == rest
  {
    var raw := EncodeByte(c) + rest;
    if c < ' ' && EncodeByte(c) != [c] && |EncodeByte(c)| == 6 {
      assert raw[2..][..4] == ['0', '0', HexDigit(c as int / 16), HexDigit(c as int % 16)];
      assert Hex4(raw[2..]) == Some(c as int);
    }
  }

  /** A written string reads back as itself. */
  lemma {:induction false} DecodeEncode(s: Bytes)
    ensures Decode(Encode(s)) == Some(s)
  {
    if s != [] {
      EncodedByte(s[0], Encode(s[1..]));
      DecodeEncode(s[1..]);
      assert s == [s[0]] + s[1..];
    }
  }
}
