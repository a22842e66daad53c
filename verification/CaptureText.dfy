/**
 * What the records of a capture say: read back as JSON, they hold the text of each line, whole or
 * cut where its last whole character within the limit ends.
 */
module CaptureText {
  import opened Text
  import opened Whitespace
  import Utf8Text
  import opened Json
  import opened JsonTreeFacts
  import opened CaptureSplit
  import opened CaptureRecord
  import opened CaptureModel
  import opened CaptureTheorems
  import opened CaptureComplete
  import opened CaptureLog
  import Followed = CaptureFollowed
  import Rotation
  import RotationTheorems

  // ----- The text of one line -----

  /** The longest prefix of whole characters within the limit, no more than three bytes short of it. */
  ghost predicate LongestWhole(text: Bytes, n: nat)
    requires MAX_LINE_BYTES < |text|
  {
    && MAX_LINE_BYTES - 4 < n <= MAX_LINE_BYTES && Utf8Text.IsUtf8(text[..n])
    && forall m :: n < m <= MAX_LINE_BYTES ==> !Utf8Text.IsUtf8(text[..m])
  }

  /** What is kept of a text: all of it, or as much as fits and a mark. The mark is U+2026 and a word. */
  ghost predicate KeptAs(text: Bytes, kept: Bytes) {
    if |text| <= MAX_LINE_BYTES then kept == text
    else exists n: nat ::
      && n <= MAX_LINE_BYTES && kept == text[..n] + (['\U{00E2}', '\U{0080}', '\U{00A6}'] + "[truncated]")
      && (Utf8Text.IsUtf8(text) ==> LongestWhole(text, n))
  }

  lemma {:induction false} BoundaryFound(text: Bytes, cut: nat)
    requires cut < |text|
    ensures var n := CharBoundary(text, cut);
            && (n > 0 ==> !Utf8Text.IsContinuation(text[n]))
            && forall m :: n < m <= cut ==> Utf8Text.IsContinuation(text[m])
  {
    if cut > 0 && Utf8Text.IsContinuation(text[cut]) { BoundaryFound(text, cut - 1); }
  }

  lemma CutIsLongest(text: Bytes)
    requires Utf8Text.IsUtf8(text) && |text| > MAX_LINE_BYTES
    ensures LongestWhole(text, CharBoundary(text, MAX_LINE_BYTES))
  {
    var n := CharBoundary(text, MAX_LINE_BYTES);
    BoundaryFound(text, MAX_LINE_BYTES);
    Utf8Text.BoundaryIff(text, n);
    if n == 0 { assert text[..0] == []; }
    forall m | n < m <= MAX_LINE_BYTES ensures !Utf8Text.IsUtf8(text[..m]) {
      Utf8Text.BoundaryIff(text, m);
    }
    Utf8Text.BoundaryIsNear(text, MAX_LINE_BYTES - 3);
  }

  lemma StoredIsKept(text: Bytes)
    ensures KeptAs(text, Stored(text))
  {
    if |text| > MAX_LINE_BYTES {
      var n := CharBoundary(text, MAX_LINE_BYTES);
      if Utf8Text.IsUtf8(text) { CutIsLongest(text); }
      assert Stored(text) == text[..n] + (['\U{00E2}', '\U{0080}', '\U{00A6}'] + "[truncated]");
    }
  }

  // ----- What a record says -----

  /** Read as JSON, the record is of that source and has that text and time. */
  ghost predicate Says(record: Bytes, source: Bytes, text: Bytes, time: nat) {
    var v := Meaning(record);
    && v.Some? && v.value.Obj?
    && var m := v.value.members;
       && "l" in m && m["l"] == Str(text) && "s" in m && m["s"] == Str(source) && "t" in m && m["t"] == Num(Digits(time))
  }

  lemma NamesDiffer()
    ensures var l: Bytes, s: Bytes, t: Bytes, tail: Bytes := "l", "s", "t", "tail";
            l != s && l != t && s != t && l != tail && s != tail && t != tail
    ensures var o: Bytes, e: Bytes, x: Bytes := "out", "err", "exit"; o != e && o != x && e != x
  {
    var l: Bytes, s: Bytes, t: Bytes, tail: Bytes := "l", "s", "t", "tail";
    assert l[0] == 'l' && s[0] == 's' && t[0] == 't' && |tail| == 4;
    var o: Bytes, e: Bytes, x: Bytes := "out", "err", "exit";
    assert o[0] == 'o' && e[1] == 'r' && x[1] == 'x';
  }

  lemma LineSays(t: nat, stream: Stream, text: Bytes)
    ensures Says(LineRecord(t, stream, text), StreamName(stream), text, t)
  {
    LineReads(t, stream, text);
    NamesDiffer();
  }

  lemma ExitSays(t: nat, summary: Bytes, tail: seq<Bytes>)
    ensures Says(ExitRecord(t, summary, tail), "exit", summary, t)
    ensures var m := Meaning(ExitRecord(t, summary, tail)).value.members; "tail" in m && m["tail"] == Arr(Strings(tail))
  {
    ExitReads(t, summary, tail);
    NamesDiffer();
  }

  /** The record of an entry: a line's text as it is kept, or how the app ended. */
  ghost predicate Tells(record: Bytes, entry: Entry, env: Env, time: nat) {
    match entry
    case Line(stream, f) =>
      exists text :: KeptAs(env.clean(f.bytes), text) && Says(record, if stream == Out then "out" else "err", text, time)
    case Final(summary, tail) =>
      && Says(record, "exit", summary, time)
      && var m := Meaning(record).value.members; "tail" in m && m["tail"] == Arr(Strings(tail))
  }

  lemma EntryTells(env: Env, tick: nat, entry: Entry)
    ensures Tells(EntryRecord(env, tick, entry), entry, env, env.now(tick))
  {
    match entry
    case Line(stream, f) =>
      StoredIsKept(env.clean(f.bytes));
      LineSays(env.now(tick), stream, Stored(env.clean(f.bytes)));
    case Final(summary, tail) => ExitSays(env.now(tick), summary, tail);
  }

  lemma {:induction false} WrittenAt(record: (nat, Entry) -> Bytes, tick: nat, entries: seq<Entry>, k: nat)
    requires k < |entries| == |CaptureLog.Written(record, tick, entries)|
    ensures CaptureLog.Written(record, tick, entries)[k] == record(tick + k, entries[k])
    decreases |entries|
  {
    if k > 0 { WrittenAt(record, tick + 1, entries[1..], k - 1); }
  }

  lemma {:induction false} WrittenLength(record: (nat, Entry) -> Bytes, tick: nat, entries: seq<Entry>)
    ensures |CaptureLog.Written(record, tick, entries)| == |entries|
    decreases |entries|
  {
    if entries != [] { WrittenLength(record, tick + 1, entries[1..]); }
  }

  lemma WrittenTells(env: Env, tick: nat, entries: seq<Entry>, k: nat)
    requires k < |entries|
    ensures |CaptureLog.Written(RecordIn(env), tick, entries)| == |entries|
    ensures Tells(CaptureLog.Written(RecordIn(env), tick, entries)[k], entries[k], env, env.now(tick + k))
  {
    hide Tells;
    WrittenLength(RecordIn(env), tick, entries);
    WrittenAt(RecordIn(env), tick, entries, k);
    EntryTells(env, tick + k, entries[k]);
  }

  /**
   * While writes succeed and the capture has not stopped, the k-th new record of the history,
   * read back, has the stream, the time and the text of the k-th entry of the run.
   */
  lemma HistoryTells(s: State, env: Env, events: seq<Event>, k: nat)
    requires WritesSucceed(env) && !Run(s, env, events).sink.stopped && k < |Entries(s, env, events)|
    ensures var before, after := History(s.sink), History(Run(s, env, events).sink);
            && |after| == |before| + |Entries(s, env, events)|
            && Tells(after[|before| + k], Entries(s, env, events)[k], env, env.now(s.sink.tick + k))
  {
    hide Tells, RecordIn, Entries, Run, History;
    InputIsWritten(s, env, events, Out);
    WrittenTells(env, s.sink.tick, Entries(s, env, events), k);
  }

  // ----- The exit record -----

  /** The texts kept of these lines, without the blank ones. */
  ghost predicate KeptLines(env: Env, frags: seq<Fragment>, texts: seq<Bytes>) {
    if frags == [] then texts == []
    else exists text ::
      && KeptAs(env.clean(frags[0].bytes), text)
      && if TrimEnd(text) == [] then KeptLines(env, frags[1..], texts)
         else texts != [] && texts[0] == text && KeptLines(env, frags[1..], texts[1..])
  }

  lemma {:induction false} ErrTextsAreKept(env: Env, frags: seq<Fragment>)
    ensures KeptLines(env, frags, ErrTexts(env, Err, frags))
  {
    if frags != [] {
      var text, rest := Stored(env.clean(frags[0].bytes)), ErrTexts(env, Err, frags[1..]);
      StoredIsKept(env.clean(frags[0].bytes));
      ErrTextsAreKept(env, frags[1..]);
      assert [] + rest == rest && ([text] + rest)[1..] == rest;
    }
  }

  /** The exit record's tail: the texts kept of the last twelve lines of stderr that are not blank. */
  lemma ExitTells(s: State, env: Env, events: seq<Event>, summary: Bytes) returns (texts: seq<Bytes>)
    requires s.sink.recentErr == [] && !Flushed(Flushed(Run(s, env, events), env, Out), env, Err).sink.stopped
    ensures KeptLines(env, ErrAtExit(events, s.err), texts)
    ensures var records := RecordsBy(Run(s, env, events), env, Exits(summary));
            && records != []
            && var v := Meaning(records[|records| - 1]);
               v.Some? && v.value.Obj? && "tail" in v.value.members
               && v.value.members["tail"] == Arr(Strings(texts[Max(0, |texts| - 12)..]))
  {
    texts := ErrTexts(env, Err, ErrAtExit(events, s.err));
    ErrTextsAreKept(env, ErrAtExit(events, s.err));
    ExitCarriesLast(s, env, events, summary);
    var at := Run(s, env, events);
    ExitSays(env.now(Flushed(Flushed(at, env, Out), env, Err).sink.tick), summary, Last(texts));
    assert Last(texts) == texts[Max(0, |texts| - 12)..];
  }

  // ----- The streams, read back -----

  /** The texts of the records of one stream. */
  ghost function SaidBy(records: seq<Bytes>, stream: Stream): seq<Bytes> {
    if records == [] then [] else SaidIn(records[0], if stream == Out then "out" else "err") + SaidBy(records[1..], stream)
  }

  ghost function SaidIn(record: Bytes, source: Bytes): seq<Bytes> {
    var v := Meaning(record);
    if v.Some? && v.value.Obj? && "s" in v.value.members && v.value.members["s"] == Str(source)
       && "l" in v.value.members && v.value.members["l"].Str?
    then [v.value.members["l"].s] else []
  }

  lemma SaysIn(record: Bytes, source: Bytes, text: Bytes, time: nat, asked: Bytes)
    requires Says(record, source, text, time)
    ensures SaidIn(record, asked) == if asked == source then [text] else []
  {
  }

  /** No escape sequences, and valid UTF-8: a line is its text. */
  ghost predicate Plain(env: Env) { forall line :: env.clean(line) == line }

  function Texts(frags: seq<Fragment>): seq<Bytes> { if frags == [] then [] else [frags[0].bytes] + Texts(frags[1..]) }

  predicate Short(frags: seq<Fragment>) {
    forall i :: 0 <= i < |frags| ==> |frags[i].bytes| <= MAX_LINE_BYTES && '\n' !in frags[i].bytes
  }

  lemma EntrySaid(env: Env, tick: nat, entry: Entry, stream: Stream)
    requires Plain(env) && Short(OfStream([entry], stream))
    ensures SaidIn(EntryRecord(env, tick, entry), if stream == Out then "out" else "err") == Texts(OfStream([entry], stream))
  {
    NamesDiffer();
    assert [entry][1..] == [];
    var time := env.now(tick);
    match entry
    case Line(from, f) =>
      var kept := Stored(env.clean(f.bytes));
      StoredIsKept(env.clean(f.bytes));
      LineSays(time, from, kept);
      SaysIn(EntryRecord(env, tick, entry), StreamName(from), kept, time, if stream == Out then "out" else "err");
      if from == stream { assert OfStream([entry], stream) == [f] && [f][1..] == []; }
    case Final(summary, tail) =>
      ExitSays(time, summary, tail);
      SaysIn(EntryRecord(env, tick, entry), "exit", summary, time, if stream == Out then "out" else "err");
  }

  lemma {:induction false} TextsConcat(a: seq<Fragment>, b: seq<Fragment>)
    ensures Texts(a + b) == Texts(a) + Texts(b)
  {
    if a == [] {
      assert a + b == b;
    } else {
      assert (a + b)[1..] == a[1..] + b;
      TextsConcat(a[1..], b);
    }
  }

  lemma {:induction false} WrittenSaid(env: Env, tick: nat, entries: seq<Entry>, stream: Stream)
    requires Plain(env) && Short(OfStream(entries, stream))
    ensures SaidBy(CaptureLog.Written(RecordIn(env), tick, entries), stream) == Texts(OfStream(entries, stream))
    decreases |entries|
  {
    hide Plain, EntryRecord, SaidIn;
    if entries != [] {
      var first, rest := OfStream([entries[0]], stream), OfStream(entries[1..], stream);
      OfStreamConcat([entries[0]], entries[1..], stream);
      assert [entries[0]] + entries[1..] == entries;
      assert Short(first) && Short(rest) by { ShortParts(first, rest); }
      EntrySaid(env, tick, entries[0], stream);
      WrittenSaid(env, tick + 1, entries[1..], stream);
      TextsConcat(first, rest);
      SaidFirst(EntryRecord(env, tick, entries[0]), CaptureLog.Written(RecordIn(env), tick + 1, entries[1..]), stream);
    }
  }

  lemma SaidFirst(record: Bytes, rest: seq<Bytes>, stream: Stream)
    ensures SaidBy([record] + rest, stream) == SaidIn(record, if stream == Out then "out" else "err") + SaidBy(rest, stream)
  {
    assert ([record] + rest)[1..] == rest;
  }

  lemma ShortParts(a: seq<Fragment>, b: seq<Fragment>)
    ensures Short(a + b) <==> Short(a) && Short(b)
  {
    if Short(a + b) {
      forall i | 0 <= i < |a| ensures |a[i].bytes| <= MAX_LINE_BYTES && '\n' !in a[i].bytes { assert (a + b)[i] == a[i]; }
      forall i | 0 <= i < |b| ensures |b[i].bytes| <= MAX_LINE_BYTES && '\n' !in b[i].bytes { assert (a + b)[|a| + i] == b[i]; }
    }
  }

  /** What is pending is part of one line, and not a full part. */
  predicate PartOfLine(p: Bytes) { |p| < MAX_LINE_BYTES && '\n' !in p }

  lemma HandedByShort(e: Event, stream: Stream, p: Bytes)
    requires PartOfLine(p)
    ensures Short(HandedBy(e, stream, p)) && PartOfLine(PendingAfter(e, stream, p))
  {
    if e.Chunk? {
      SplitOk(p, e.bytes);
      assert forall i :: 0 <= i < |Split(p, e.bytes)| ==> FragmentOk(Split(p, e.bytes)[i]);
    }
  }

  lemma {:induction false} HandedShort(events: seq<Event>, stream: Stream, p: Bytes)
    requires PartOfLine(p)
    ensures Short(Handed(events, stream, p))
    decreases |events|
  {
    if events != [] {
      HandedByShort(events[0], stream, p);
      HandedShort(events[1..], stream, PendingAfter(events[0], stream, p));
      ShortParts(HandedBy(events[0], stream, p), Handed(events[1..], stream, PendingAfter(events[0], stream, p)));
    }
  }

  /** The bytes that are no line breaks. */
  function WithoutBreaks(s: Bytes): Bytes {
    if s == [] then [] else (if s[0] == '\n' then [] else [s[0]]) + WithoutBreaks(s[1..])
  }

  lemma {:induction false} WithoutBreaksConcat(a: Bytes, b: Bytes)
    ensures WithoutBreaks(a + b) == WithoutBreaks(a) + WithoutBreaks(b)
  {
    if a == [] {
      assert a + b == b;
    } else {
      assert (a + b)[1..] == a[1..] + b;
      WithoutBreaksConcat(a[1..], b);
    }
  }

  lemma {:induction false} NoBreaks(s: Bytes)
    requires '\n' !in s
    ensures WithoutBreaks(s) == s
  {
    if s != [] { NoBreaks(s[1..]); }
  }

  lemma OnePlain(line: Bytes, end: Bytes, more: Bytes)
    requires '\n' !in line && (end == [] || end == ['\n'])
    ensures WithoutBreaks(line + (end + more)) == line + WithoutBreaks(more)
  {
    NoBreaks(line);
    WithoutBreaksConcat(line, end + more);
    if end == [] {
      assert end + more == more;
    } else {
      assert (end + more)[0] == '\n' && (end + more)[1..] == more;
      assert [] + WithoutBreaks(more) == WithoutBreaks(more);
    }
  }

  lemma {:induction false} RebuildPlain(frags: seq<Fragment>)
    requires Short(frags)
    ensures WithoutBreaks(Rebuild(frags)) == Flatten(Texts(frags))
  {
    if frags != [] {
      RebuildPlain(frags[1..]);
      OnePlain(frags[0].bytes, if frags[0].ended then ['\n'] else [], Rebuild(frags[1..]));
      assert Texts(frags)[1..] == Texts(frags[1..]);
    }
  }

  /**
   * Of plain lines: what the new records of a stream say, one after another, and what is still
   * pending, is the stream's input without its line breaks.
   */
  lemma StreamReadsBack(s: State, env: Env, events: seq<Event>, stream: Stream)
    requires WritesSucceed(env) && !Run(s, env, events).sink.stopped && Plain(env)
    requires PartOfLine(Pending(s, stream))
    ensures var entries, end := Entries(s, env, events), Run(s, env, events);
            Flatten(SaidBy(CaptureLog.Written(RecordIn(env), s.sink.tick, entries), stream)) + Pending(end, stream)
            == WithoutBreaks(Pending(s, stream) + Input(events, stream))
  {
    var entries, end := Entries(s, env, events), Run(s, env, events);
    var frags := OfStream(entries, stream);
    InputIsWritten(s, env, events, stream);
    EntriesAreHanded(s, env, events, stream);
    HandedShort(events, stream, Pending(s, stream));
    WrittenSaid(env, s.sink.tick, entries, stream);
    RebuildPlain(frags);
    WithoutBreaksConcat(Rebuild(frags), Pending(end, stream));
    PendingOfRun(s, env, events, stream);
    LastIsPart(events, stream, Pending(s, stream));
    NoBreaks(Pending(end, stream));
  }

  lemma {:induction false} LastIsPart(events: seq<Event>, stream: Stream, p: Bytes)
    requires PartOfLine(p)
    ensures PartOfLine(LastPending(events, stream, p))
    decreases |events|
  {
    if events != [] {
      HandedByShort(events[0], stream, p);
      LastIsPart(events[1..], stream, PendingAfter(events[0], stream, p));
    }
  }

  // ----- And as the follower prints them -----

  /** The follower and the launcher run side by side, and nothing fails. */
  ghost predicate Together(r: Followed.Protocol, actions: seq<Rotation.Action>, s: State, env: Env, events: seq<Event>) {
    && RotationTheorems.Attached(r) && RotationTheorems.Legal(r, actions) && Followed.Shows(r, s.sink.disk)
    && Followed.LauncherSteps(actions) == Followed.RunSteps(s, env, events)
    && Timely(env) && Bounded(s.sink, false) && OneExit(events, false)
    && WritesSucceed(env) && !Run(s, env, events).sink.stopped
  }

  /** The record at a place among all that was written: an earlier one, or that of an entry. */
  ghost predicate InPlace(record: Bytes, at: nat, before: seq<Bytes>, entries: seq<Entry>, env: Env, tick: nat) {
    if at < |before| then record == before[at]
    else at - |before| < |entries| && Tells(record, entries[at - |before|], env, env.now(tick + (at - |before|)))
  }

  lemma SecondAt(a: seq<Bytes>, b: seq<Bytes>, at: nat)
    requires at < |a + b|
    ensures if at < |a| then (a + b)[at] == a[at] else at - |a| < |b| && (a + b)[at] == b[at - |a|]
  {
  }

  lemma AllInPlace(env: Env, tick: nat, before: seq<Bytes>, entries: seq<Entry>, added: seq<Bytes>, record: Bytes, at: nat)
    requires added == CaptureLog.Written(RecordIn(env), tick, entries)
    requires at < |before + added| && record == (before + added)[at]
    ensures InPlace(record, at, before, entries, env, tick)
  {
    hide Tells, RecordIn;
    SecondAt(before, added, at);
    WrittenLength(RecordIn(env), tick, entries);
    if at >= |before| { WrittenTells(env, tick, entries, at - |before|); }
  }

  lemma StretchAt(part: seq<Bytes>, all: seq<Bytes>, from: nat, i: nat)
    requires RotationTheorems.IsStretch(part, all, from) && i < |part|
    ensures from + i < |all| && part[i] == all[from + i]
  {
  }

  /** What was printed, if nothing was reported lost, in its place among all that was written. */
  lemma PrintedIsStretch(r: Followed.Protocol, actions: seq<Rotation.Action>, s: State, env: Env, events: seq<Event>)
    returns (printed: seq<Bytes>, before: seq<Bytes>, added: seq<Bytes>, from: nat)
    requires Together(r, actions, s, env, events) && RotationTheorems.Possible(r, actions)
    requires var polls := RotationTheorems.Run(r, actions).polls; forall j :: 0 <= j < |polls| ==> !polls[j].lost
    ensures printed == RotationTheorems.Emitted(RotationTheorems.Run(r, actions).polls) && from == Rotation.Position(r)
    ensures before == History(s.sink) && added == CaptureLog.Written(RecordIn(env), s.sink.tick, Entries(s, env, events))
    ensures RotationTheorems.IsStretch(printed, before + added, from)
  {
    printed, from := RotationTheorems.Emitted(RotationTheorems.Run(r, actions).polls), Rotation.Position(r);
    before, added := History(s.sink), CaptureLog.Written(RecordIn(env), s.sink.tick, Entries(s, env, events));
    hide RecordIn, CaptureLog.Written, Entries, Run, History, RotationTheorems.IsStretch, RotationTheorems.Run,
      RotationTheorems.Emitted, RotationTheorems.Attached, RotationTheorems.Legal, Rotation.Position, Followed.Shows,
      Followed.LauncherSteps, Followed.RunSteps, Bounded, OneExit, Timely, WritesSucceed;
    Followed.PrintedIsInput(r, actions, s, env, events, Out);
  }

  /**
   * If no poll reports a loss, the i-th record the follower prints is an earlier one, or has the
   * stream, the time and the text of the entry of the run in its place.
   */
  lemma PrintedTells(r: Followed.Protocol, actions: seq<Rotation.Action>, s: State, env: Env, events: seq<Event>, i: nat)
    requires Together(r, actions, s, env, events) && RotationTheorems.Possible(r, actions)
    requires var polls := RotationTheorems.Run(r, actions).polls;
             i < |RotationTheorems.Emitted(polls)| && forall j :: 0 <= j < |polls| ==> !polls[j].lost
    ensures InPlace(RotationTheorems.Emitted(RotationTheorems.Run(r, actions).polls)[i], Rotation.Position(r) + i,
                    History(s.sink), Entries(s, env, events), env, s.sink.tick)
  {
    hide *;
    var printed, before, added, from := PrintedIsStretch(r, actions, s, env, events);
    StretchAt(printed, before + added, from, i);
    AllInPlace(env, s.sink.tick, before, Entries(s, env, events), added, printed[i], from + i);
  }

  /**
   * End to end, of plain lines: a follower that attached at the end, was told of no loss and has
   * printed as many records as were written since, has printed each stream, but for its line
   * breaks and what is still pending.
   */
  lemma PrintedReadsBack(r: Followed.Protocol, actions: seq<Rotation.Action>, s: State, env: Env, events: seq<Event>, stream: Stream)
    requires Together(r, actions, s, env, events) && Plain(env) && PartOfLine(Pending(s, stream))
    requires RotationTheorems.Possible(r, actions) && Rotation.Position(r) == |History(s.sink)|
    requires var polls := RotationTheorems.Run(r, actions).polls;
             |RotationTheorems.Emitted(polls)| == |Entries(s, env, events)| && forall j :: 0 <= j < |polls| ==> !polls[j].lost
    ensures var printed := RotationTheorems.Emitted(RotationTheorems.Run(r, actions).polls);
            Flatten(SaidBy(printed, stream)) + Pending(Run(s, env, events), stream)
            == WithoutBreaks(Pending(s, stream) + Input(events, stream))
  {
    hide SaidBy, RecordIn, Entries, Run, History, RotationTheorems.Run, RotationTheorems.Emitted, RotationTheorems.Attached,
      RotationTheorems.Legal, Rotation.Position, Followed.Shows, Followed.LauncherSteps, Followed.RunSteps, Bounded, OneExit,
      WithoutBreaks;
    Followed.PrintedIsInput(r, actions, s, env, events, stream);
    StreamReadsBack(s, env, events, stream);
    var before, added := History(s.sink), CaptureLog.Written(RecordIn(env), s.sink.tick, Entries(s, env, events));
    WrittenLength(RecordIn(env), s.sink.tick, Entries(s, env, events));
    assert (before + added)[|before|..|before| + |added|] == added;
  }
}
