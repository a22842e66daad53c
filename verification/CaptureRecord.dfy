/** The records the launcher writes (crates/victauri-cli/src/run.rs): one line of JSON each. */
module CaptureRecord {
  import opened Text
  import opened Json
  import opened JsonTree
  import opened JsonTreeFacts
  import opened CaptureFile
  import opened CaptureSplit
  import opened JsonSplice

  /** stderr lines carried on the exit record. */
  const EXIT_TAIL_LINES: nat := 12

  /** What is put behind a line that was cut. */
  const TRUNCATED: Bytes := ['\U{00E2}', '\U{0080}', '\U{00A6}'] + "[truncated]"

  /** Milliseconds since the epoch are a 64-bit number. */
  const MAX_TIME: nat := 0xFFFF_FFFF_FFFF_FFFF

  datatype Stream = Out | Err

  function StreamName(s: Stream): Bytes { if s == Out then "out" else "err" }

  // ----- Stored text -----

  /** The last character boundary at or before `cut`. */
  function CharBoundary(text: Bytes, cut: nat): (n: nat)
    requires cut < |text|
    ensures n <= cut
  {
    if cut == 0 || !('\U{0080}' <= text[cut] <= '\U{00BF}') then cut else CharBoundary(text, cut - 1)
  }

  /** A line as it is stored: cut at a character boundary when it is too long. */
  function Stored(text: Bytes): (r: Bytes)
    ensures |r| <= MAX_LINE_BYTES + |TRUNCATED|
  {
    if |text| > MAX_LINE_BYTES then text[..CharBoundary(text, MAX_LINE_BYTES)] + TRUNCATED else text
  }

  // ----- Numbers -----

  predicate AllDigits(s: Bytes) { forall i :: 0 <= i < |s| ==> IsDigit(s[i]) }

  lemma {:induction false} DigitsAre(n: nat)
    ensures AllDigits(Digits(n)) && Digits(n) != [] && (n > 0 ==> Digits(n)[0] != '0')
  {
    if n >= 10 { DigitsAre(n / 10); }
  }

  lemma {:induction false} DigitsEnd(s: Bytes)
    requires AllDigits(s)
    ensures AfterDigits(s) == []
  {
    if s != [] { DigitsEnd(s[1..]); }
  }

  lemma DigitsAreNumber(n: nat)
    ensures IsNumber(Digits(n))
  {
    DigitsAre(n);
    var s := Digits(n);
    if n == 0 {
      assert s[1..] == [];
    } else {
      DigitsEnd(s);
    }
  }

  function Power10(k: nat): nat { if k == 0 then 1 else 10 * Power10(k - 1) }

  lemma {:induction false} DigitsLength(n: nat, k: nat)
    requires k > 0 && n < Power10(k)
    ensures |Digits(n)| <= k
  {
    if n >= 10 {
      assert k > 1;
      DigitsLength(n / 10, k - 1);
    }
  }

  lemma TimeLength(t: nat)
    requires t <= MAX_TIME
    ensures |Digits(t)| <= 20
  {
    assert Power10(10) == 10_000_000_000 by {
      assert Power10(5) == 100_000 by { assert Power10(3) == 1000; }
      assert Power10(8) == 100_000_000 by { assert Power10(6) == 1_000_000; }
    }
    assert Power10(20) == 100_000_000_000_000_000_000 by {
      assert Power10(13) == 10_000_000_000_000;
      assert Power10(16) == 10_000_000_000_000_000;
      assert Power10(18) == 1_000_000_000_000_000_000;
    }
    DigitsLength(t, 20);
  }

  // ----- Records -----

  function Named(name: Bytes, node: Node): Member { Member([], name, [], [], node, []) }

  function StringNode(s: Bytes): Node { Quoted(Encode(s)) }

  function TailItems(tail: seq<Bytes>): seq<Item> {
    if tail == [] then [] else [Item([], StringNode(tail[0]), [])] + TailItems(tail[1..])
  }

  function LineMembers(t: nat, s: Stream, text: Bytes): seq<Member> {
    [Named("l", StringNode(text)), Named("s", StringNode(StreamName(s))), Named("t", Scalar(Digits(t)))]
  }

  function ExitMembers(t: nat, summary: Bytes, tail: seq<Bytes>): seq<Member> {
    [Named("l", StringNode(summary)), Named("s", StringNode("exit")), Named("t", Scalar(Digits(t))),
     Named("tail", Array([], TailItems(tail)))]
  }

  /** One line of a stream. */
  function LineRecord(t: nat, s: Stream, text: Bytes): Bytes { Write(Object([], LineMembers(t, s, text)), ['\n']) }

  /** How the app ended, and its last stderr lines. */
  function ExitRecord(t: nat, summary: Bytes, tail: seq<Bytes>): Bytes {
    Write(Object([], ExitMembers(t, summary, tail)), ['\n'])
  }

  // ----- They read back -----

  lemma PlainName(name: Bytes)
    requires name == "l" || name == "s" || name == "t" || name == "tail"
    ensures Decode(name) == Some(name)
  {
    if name == "tail" {
      assert name[1..] == "ail" && "ail"[1..] == "il" && "il"[1..] == "l";
      assert "l"[1..] == "";
      assert ['l'] + [] == "l" && ['i'] + "l" == "il" && ['a'] + "il" == "ail" && ['t'] + "ail" == "tail";
    } else {
      assert name[1..] == [];
      assert [name[0]] + [] == name;
    }
  }

  lemma OneMember(name: Bytes, node: Node, value: Value, rest: seq<Member>)
    requires MembersOk(rest) && WellFormed(node) && Denote(node) == value && Decode(name) == Some(name)
    ensures MembersOk([Named(name, node)] + rest)
    ensures DenoteMembers([Named(name, node)] + rest) == map[name := value] + DenoteMembers(rest)
  {
    assert ([Named(name, node)] + rest)[1..] == rest;
  }

  lemma StringMeans(s: Bytes)
    ensures WellFormed(StringNode(s)) && Denote(StringNode(s)) == Str(s)
  {
    DecodeEncode(s);
  }

  lemma NumberMeans(t: nat)
    ensures WellFormed(Scalar(Digits(t))) && Denote(Scalar(Digits(t))) == Num(Digits(t))
  {
    DigitsAreNumber(t);
    DigitsAre(t);
  }

  /** The fields every record has, and what more there is. */
  function Fields(t: nat, name: Bytes, text: Bytes, more: map<Bytes, Value>): map<Bytes, Value> {
    map["l" := Str(text)] + (map["s" := Str(name)] + (map["t" := Num(Digits(t))] + more))
  }

  /** The first three members, whatever follows them. */
  lemma MembersMean(t: nat, name: Bytes, text: Bytes, rest: seq<Member>)
    requires MembersOk(rest)
    ensures var first := [Named("l", StringNode(text)), Named("s", StringNode(name)), Named("t", Scalar(Digits(t)))];
            && MembersOk(first + rest)
            && DenoteMembers(first + rest) == Fields(t, name, text, DenoteMembers(rest))
  {
    PlainName("l");
    PlainName("s");
    PlainName("t");
    StringMeans(text);
    StringMeans(name);
    NumberMeans(t);
    var l, s, c := Named("l", StringNode(text)), Named("s", StringNode(name)), Named("t", Scalar(Digits(t)));
    OneMember("t", Scalar(Digits(t)), Num(Digits(t)), rest);
    OneMember("s", StringNode(name), Str(name), [c] + rest);
    OneMember("l", StringNode(text), Str(text), [s] + ([c] + rest));
    assert [l, s, c] + rest == [l] + ([s] + ([c] + rest));
  }

  lemma MeaningOf(n: Node)
    requires WellFormed(n)
    ensures Meaning(Write(n, ['\n'])) == Some(Denote(n))
  {
    DocumentIsTree([], n, ['\n']);
    var text := Write(n, ['\n']);
    assert [] + text == text;
  }

  /** A line's record reads as its stream, its text and its time. */
  lemma LineReads(t: nat, s: Stream, text: Bytes)
    ensures Meaning(LineRecord(t, s, text)) == Some(Obj(Fields(t, StreamName(s), text, map[])))
  {
    MembersMean(t, StreamName(s), text, []);
    var members := LineMembers(t, s, text);
    assert members + [] == members;
    assert DenoteMembers([]) == map[];
    MeaningOf(Object([], members));
  }

  function Strings(tail: seq<Bytes>): seq<Value> { if tail == [] then [] else [Str(tail[0])] + Strings(tail[1..]) }

  lemma {:induction false} TailMeans(tail: seq<Bytes>)
    ensures ItemsOk(TailItems(tail)) && DenoteItems(TailItems(tail)) == Strings(tail)
  {
    if tail != [] {
      TailMeans(tail[1..]);
      StringMeans(tail[0]);
      assert TailItems(tail)[1..] == TailItems(tail[1..]);
    }
  }

  lemma LastMember(tail: seq<Bytes>)
    ensures var last := [Named("tail", Array([], TailItems(tail)))];
            MembersOk(last) && DenoteMembers(last) == map["tail" := Arr(Strings(tail))]
  {
    TailMeans(tail);
    PlainName("tail");
    var node := Array([], TailItems(tail));
    OneMember("tail", node, Arr(Strings(tail)), []);
    assert [Named("tail", node)] + [] == [Named("tail", node)] && DenoteMembers([]) == map[];
    assert map["tail" := Arr(Strings(tail))] + map[] == map["tail" := Arr(Strings(tail))];
  }

  /** The exit record reads as the summary, its time and the last stderr lines in order. */
  lemma ExitReads(t: nat, summary: Bytes, tail: seq<Bytes>)
    ensures Meaning(ExitRecord(t, summary, tail))
            == Some(Obj(Fields(t, "exit", summary, map["tail" := Arr(Strings(tail))])))
  {
    var last := Named("tail", Array([], TailItems(tail)));
    LastMember(tail);
    MembersMean(t, "exit", summary, [last]);
    var members := ExitMembers(t, summary, tail);
    assert members == [members[0], members[1], members[2]] + [last];
    MeaningOf(Object([], members));
  }

  // ----- They are single lines, and short enough to be read whole -----

  /** No newline, and at most `n` bytes. */
  predicate OneLine(s: Bytes, n: nat) { '\n' !in s && |s| <= n }

  /** A string takes at most six bytes for each of its own. */
  lemma {:induction false} EncodeOneLine(s: Bytes)
    ensures OneLine(Encode(s), 6 * |s|)
  {
    if s != [] { EncodeOneLine(s[1..]); }
  }

  lemma StringOneLine(s: Bytes, r: Bytes, n: nat)
    requires OneLine(r, n)
    ensures OneLine(Write(StringNode(s), r), 6 * |s| + 2 + n)
  {
    EncodeOneLine(s);
  }

  lemma NamedOneLine(name: Bytes, node: Node, rest: seq<Member>, r: Bytes, n: nat)
    requires '\n' !in name && OneLine(Write(node, WriteMoreMembers(rest, r)), n)
    ensures OneLine(WriteMembers([Named(name, node)] + rest, r), |name| + 3 + n)
    ensures OneLine(WriteMoreMembers([Named(name, node)] + rest, r), |name| + 4 + n)
  {
    var more := WriteMoreMembers(rest, r);
    assert ([Named(name, node)] + rest)[1..] == rest && [] + more == more;
  }

  lemma NumberOneLine(t: nat, r: Bytes, n: nat)
    requires t <= MAX_TIME && OneLine(r, n)
    ensures OneLine(Write(Scalar(Digits(t)), r), 20 + n)
  {
    DigitsAre(t);
    TimeLength(t);
  }

  lemma {:induction false} TailOneLine(tail: seq<Bytes>, r: Bytes, n: nat, size: nat)
    requires OneLine(r, n) && forall i :: 0 <= i < |tail| ==> |tail[i]| <= size
    ensures OneLine(WriteItems(TailItems(tail), r), |tail| * (6 * size + 3) + n)
    ensures OneLine(WriteMoreItems(TailItems(tail), r), |tail| * (6 * size + 3) + n + 1)
  {
    if tail != [] {
      var rest := tail[1..];
      TailOneLine(rest, r, n, size);
      assert TailItems(tail)[1..] == TailItems(rest);
      var more := WriteMoreItems(TailItems(rest), r);
      assert [] + more == more;
      var k := |rest| * (6 * size + 3) + n;
      assert OneLine(more, if rest == [] then n else k + 1);
      StringOneLine(tail[0], more, k + 1);
      assert |tail| * (6 * size + 3) == |rest| * (6 * size + 3) + (6 * size + 3);
    }
  }

  lemma {:induction false} FirstThree(t: nat, name: Bytes, text: Bytes, rest: seq<Member>, n: nat)
    requires t <= MAX_TIME && OneLine(WriteMoreMembers(rest, ['}']), n)
    ensures var m := [Named("l", StringNode(text)), Named("s", StringNode(name)), Named("t", Scalar(Digits(t)))] + rest;
            OneLine(WriteMembers(m, ['}']), 6 * |text| + 6 * |name| + n + 40)
  {
    var l, s, c := Named("l", StringNode(text)), Named("s", StringNode(name)), Named("t", Scalar(Digits(t)));
    NumberOneLine(t, WriteMoreMembers(rest, ['}']), n);
    NamedOneLine("t", Scalar(Digits(t)), rest, ['}'], n + 20);
    StringOneLine(name, WriteMoreMembers([c] + rest, ['}']), n + 25);
    NamedOneLine("s", StringNode(name), [c] + rest, ['}'], 6 * |name| + n + 27);
    StringOneLine(text, WriteMoreMembers([s] + ([c] + rest), ['}']), 6 * |name| + n + 32);
    NamedOneLine("l", StringNode(text), [s] + ([c] + rest), ['}'], 6 * |text| + 6 * |name| + n + 34);
    assert [l, s, c] + rest == [l] + ([s] + ([c] + rest));
  }

  lemma WholeRecord(members: seq<Member>, n: nat)
    requires OneLine(WriteMembers(members, ['}']), n)
    ensures var r := Write(Object([], members), ['\n']); IsRecord(r) && |r| <= n + 2
  {
    MembersAppend(members, ['}'], ['\n']);
    var body := WriteMembers(members, ['}']);
    assert Write(Object([], members), ['\n']) == (['{'] + body) + ['\n'];
  }

  /** A line's record is one line, and far shorter than what the reader takes at once. */
  lemma LineIsRecord(t: nat, s: Stream, text: Bytes)
    requires t <= MAX_TIME && |text| <= MAX_LINE_BYTES + |TRUNCATED|
    ensures IsRecord(LineRecord(t, s, text)) && |LineRecord(t, s, text)| <= MAX_RECORD < MAX_READ
  {
    FirstThree(t, StreamName(s), text, [], 1);
    assert LineMembers(t, s, text) + [] == LineMembers(t, s, text);
    WholeRecord(LineMembers(t, s, text), 6 * |text| + 6 * |StreamName(s)| + 41);
  }

  /** The longest record of a line, and the longest exit record. */
  const MAX_RECORD: nat := 6 * (MAX_LINE_BYTES + 14) + 64
  const MAX_EXIT: nat := 6 * MAX_LINE_BYTES + EXIT_TAIL_LINES * (6 * (MAX_LINE_BYTES + 14) + 3) + 128

  /** So is the exit record, with all its lines. */
  lemma ExitIsRecord(t: nat, summary: Bytes, tail: seq<Bytes>)
    requires t <= MAX_TIME && |summary| <= MAX_LINE_BYTES && |tail| <= EXIT_TAIL_LINES
    requires forall i :: 0 <= i < |tail| ==> |tail[i]| <= MAX_LINE_BYTES + |TRUNCATED|
    ensures IsRecord(ExitRecord(t, summary, tail)) && |ExitRecord(t, summary, tail)| <= MAX_EXIT < MAX_READ
  {
    var node := Array([], TailItems(tail));
    var size := MAX_LINE_BYTES + 14;
    TailOneLine(tail, [']'] + ['}'], 2, size);
    var n := EXIT_TAIL_LINES * (6 * size + 3) + 2;
    assert |tail| * (6 * size + 3) <= EXIT_TAIL_LINES * (6 * size + 3);
    assert Write(node, ['}']) == ['['] + WriteItems(TailItems(tail), [']'] + ['}']) by {
      assert [] + WriteItems(TailItems(tail), [']'] + ['}']) == WriteItems(TailItems(tail), [']'] + ['}']);
    }
    NamedOneLine("tail", node, [], ['}'], n + 1);
    assert [Named("tail", node)] + [] == [Named("tail", node)];
    FirstThree(t, "exit", summary, [Named("tail", node)], n + 9);
    var members := ExitMembers(t, summary, tail);
    assert members == [members[0], members[1], members[2]] + [Named("tail", node)];
    WholeRecord(members, 6 * |summary| + 6 * 4 + n + 49);
  }
}
