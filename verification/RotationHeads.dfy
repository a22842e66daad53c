/** What a head shows of the records the launcher writes. */
module RotationHeads {
  import opened Text
  import opened Json
  import opened JsonTree
  import opened CaptureFile
  import opened CaptureRecord
  import opened JsonSplice
  import opened Rotation

  /** A line's record up to the end of its text, which does not depend on the time. */
  function Front(text: Bytes): Bytes { ['{'] + KeyText(Named("l", StringNode(text)), Write(StringNode(text), [])) }

  /** The rest of it. */
  function Back(t: nat, s: Stream): Bytes {
    WriteMoreMembers([Named("s", StringNode(StreamName(s))), Named("t", Scalar(Digits(t)))], ['}'] + ['\n'])
  }

  lemma RecordIsBoth(t: nat, s: Stream, text: Bytes)
    ensures LineRecord(t, s, text) == Front(text) + Back(t, s)
  {
    var members := LineMembers(t, s, text);
    assert members[1..] == [Named("s", StringNode(StreamName(s))), Named("t", Scalar(Digits(t)))];
    var value := Write(StringNode(text), []);
    assert [] + Back(t, s) == Back(t, s);
    WriteAppends(StringNode(text), [], Back(t, s));
    KeyAppends(members[0], value, Back(t, s));
    var all := WriteMembers(members, ['}'] + ['\n']);
    assert all == KeyText(members[0], value) + Back(t, s);
    assert [] + all == all;
    ConcatAssociative(['{'], KeyText(members[0], value), Back(t, s));
  }

  /** A further member, and what follows it. */
  lemma MoreWritten(name: Bytes, node: Node, rest: seq<Member>, r: Bytes)
    ensures WriteMoreMembers([Named(name, node)] + rest, r)
            == [','] + KeyText(Named(name, node), Write(node, WriteMoreMembers(rest, r)))
  {
    var more := WriteMoreMembers(rest, r);
    assert ([Named(name, node)] + rest)[1..] == rest && [] + more == more;
  }

  lemma BackLength(t: nat, s: Stream)
    ensures |Back(t, s)| == 14 + |Encode(StreamName(s))| + |Digits(t)|
  {
    var name, last := StringNode(StreamName(s)), Scalar(Digits(t));
    var end := ['}'] + ['\n'];
    MoreWritten("t", last, [], end);
    assert [Named("t", last)] + [] == [Named("t", last)];
    var tail := WriteMoreMembers([Named("t", last)], end);
    assert |tail| == 7 + |Digits(t)|;
    MoreWritten("s", name, [Named("t", last)], end);
    assert [Named("s", name)] + [Named("t", last)] == [Named("s", name), Named("t", last)];
  }

  /** How long a record is depends only on the text and the number of digits of the time. */
  lemma RecordLength(t: nat, s: Stream, text: Bytes)
    ensures |LineRecord(t, s, text)| == |Front(text)| + 14 + |Encode(StreamName(s))| + |Digits(t)|
  {
    RecordIsBoth(t, s, text);
    BackLength(t, s);
  }

  /** Two records of one long line have one head, whatever their times, and one length. */
  lemma LongLinesShareHead(t: nat, u: nat, s: Stream, text: Bytes)
    requires |Encode(text)| >= CAPTURE_HEAD_BYTES && |Digits(t)| == |Digits(u)|
    ensures HeadOf(LineRecord(t, s, text)) == HeadOf(LineRecord(u, s, text))
    ensures |LineRecord(t, s, text)| == |LineRecord(u, s, text)|
  {
    RecordIsBoth(t, s, text);
    RecordIsBoth(u, s, text);
    BackLength(t, s);
    BackLength(u, s);
    var front := Front(text);
    assert |front| >= CAPTURE_HEAD_BYTES;
    forall x: Bytes ensures HeadOf(front + x) == front[..CAPTURE_HEAD_BYTES] {
    }
  }

  /** Records of different texts differ, whatever their times. */
  lemma TextsTellApart(t: nat, u: nat, s: Stream, x: Bytes, y: Bytes)
    requires x != y
    ensures LineRecord(t, s, x) != LineRecord(u, s, y)
  {
    LineReads(t, s, x);
    LineReads(u, s, y);
    var a, b := Fields(t, StreamName(s), x, map[]), Fields(u, StreamName(s), y, map[]);
    assert a["l"] == Str(x) && b["l"] == Str(y);
  }
}
