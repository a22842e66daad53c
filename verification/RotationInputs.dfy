/** Runs of the launcher that break one assumption on rotation each, and lose lines without a word. */
module RotationInputs {
  import opened Text
  import opened Json
  import opened CaptureFile
  import opened CaptureRecord
  import opened CaptureModel
  import CaptureDisk
  import opened CaptureTheorems
  import opened CaptureComplete
  import opened CaptureFollowed
  import opened Rotation
  import opened RotationLimits
  import opened RotationHeads
  import opened RotationLines

  /** The files of a capture that rotated: `.jsonl.1`, and the one being written. */
  function Two(moved: seq<Bytes>, rs: seq<Bytes>): Disk { Disk([File(OLD, moved)], File(Current, rs)) }

  lemma FirstRotation(d: Disk, a: Answers)
    requires d.aside == [] && d.file.name == Current && a.renames && a.opens
    ensures Rotated(d, a) == Two(d.file.records, [])
  {
    OneUnnamed(d.file, OLD);
  }

  lemma NewFileIs(full: Writer, env: Env, next: Bytes, size: nat, moved: seq<Bytes>)
    requires Rotated(full.sink.disk, env.rotation(full.sink.tick)) == Two(moved, [])
    ensures InNewFile(full, env, next, size).sink.disk == Two(moved, [LineAt(env, full.sink.tick, next)])
  {
  }

  /** A writer that just started its second file. */
  predicate JustRotated(t: Writer, moved: seq<Bytes>, r: Bytes) {
    t.sink.disk == Two(moved, [r]) && t.out == [] && !t.sink.stopped && t.sink.written <= MAX_RECORD
  }

  /** One more line goes into that file. */
  lemma OneMoreLine(s: Writer, env: Env, events: seq<Event>, t: Writer, z: Bytes, size: nat, moved: seq<Bytes>, r: Bytes, tick: nat)
    requires JustRotated(t, moved, r) && t == CaptureTheorems.Run(s, env, events) && WritesSucceed(env) && Sized(env, z, size)
    requires tick == t.sink.tick
    ensures CaptureTheorems.Run(s, env, events + [LineEvent(z)]).sink.disk == Two(moved, [r] + [LineAt(env, tick, z)])
  {
    LineFits(t, env, z, size);
    RunThenOne(s, env, events, LineEvent(z));
  }

  /** Lines until `next` opens the second file. */
  lemma FirstFileFills(s: Writer, env: Env, x: Bytes, size: nat, next: Bytes, longer: nat, rs: seq<Bytes>) returns (n: nat, t: Writer)
    requires s.sink.disk == Disk([], File(Current, rs)) && s.out == [] && !s.sink.stopped
    requires WritesSucceed(env) && CaptureDisk.Cooperates(env) && Sized(env, x, size) && Sized(env, next, longer) && size <= longer
    ensures t == CaptureTheorems.Run(s, env, Lines(x, n) + [LineEvent(next)]) && t.sink.tick == s.sink.tick + n + 1
    ensures JustRotated(t, rs + LinesAt(env, s.sink.tick, x, n), LineAt(env, s.sink.tick + n, next))
    ensures n == 0 ==> s.sink.written + longer > MAX_CAPTURE_BYTES
  {
    hide LineAt;
    var full;
    n, full := FillsAndRotates(s, env, x, size, next, longer);
    FirstRotation(full.sink.disk, env.rotation(full.sink.tick));
    NewFileIs(full, env, next, longer, full.sink.disk.file.records);
    t := InNewFile(full, env, next, longer);
  }

  /** Where the protocol is led when the writer ends with two files. */
  lemma LeadsToTwo(r: Protocol, s: Writer, env: Env, events: seq<Event>, moved: seq<Bytes>, rs: seq<Bytes>)
    requires Alone(r) && Shows(r, s.sink.disk) && Bounded(s.sink, false) && Timely(env) && OnlyChunks(events)
    requires CaptureTheorems.Run(s, env, events).sink.disk == Two(moved, rs)
    ensures Leads(r, RunSteps(s, env, events), [moved, rs], Some(0))
  {
    TwoFiles(File(OLD, moved), File(Current, rs));
    LauncherLeads(r, s, env, events, Two(moved, rs));
  }

  // ----- Equal heads -----

  /** Writes and rotations succeed, and times fit in 64 bits. */
  ghost predicate Well(env: Env) { WritesSucceed(env) && Timely(env) && CaptureDisk.Cooperates(env) }

  /** So many lines, the long line once more, and one after it. */
  function Repeating(text: Bytes, x: Bytes, z: Bytes, n: nat): seq<Event> { Lines(x, n) + [LineEvent(text)] + [LineEvent(z)] }

  /** The record of the long line, when it was written first, and a capture that holds it. */
  function FirstOf(env: Env, start: nat, text: Bytes): Bytes { LineRecord(start, Out, TextOf(env, text)) }

  function Holding(r: Bytes): Disk { Disk([], File(Current, [r])) }

  /** A file filled with lines, and the files that another line, or two, opened. */
  function Filled(rs: seq<Bytes>, env: Env, tick: nat, x: Bytes, n: nat): seq<Bytes> { rs + LinesAt(env, tick, x, n) }

  function Opened(env: Env, tick: nat, z: Bytes): seq<Bytes> { [LineAt(env, tick, z)] }

  function OpenedByTwo(env: Env, tick: nat, text: Bytes, z: Bytes): seq<Bytes> { [LineAt(env, tick, text)] + [LineAt(env, tick + 1, z)] }

  /** What the launcher writes: the long line opens the second file. */
  lemma RepeatedFiles(s: Writer, env: Env, text: Bytes, longer: nat, x: Bytes, size: nat, z: Bytes, last: nat, first: Bytes)
    returns (n: nat)
    requires s.sink.disk == Holding(first) && s.out == [] && !s.sink.stopped
    requires Well(env) && Sized(env, text, longer) && Sized(env, x, size) && Sized(env, z, last) && size <= longer
    ensures CaptureTheorems.Run(s, env, Repeating(text, x, z, n)).sink.disk
            == Two([first] + LinesAt(env, s.sink.tick, x, n), [LineAt(env, s.sink.tick + n, text)] + [LineAt(env, s.sink.tick + n + 1, z)])
  {
    hide LineAt;
    var t;
    n, t := FirstFileFills(s, env, x, size, text, longer, [first]);
    OneMoreLine(s, env, Lines(x, n) + [LineEvent(text)], t, z, last, [first] + LinesAt(env, s.sink.tick, x, n),
                LineAt(env, s.sink.tick + n, text), s.sink.tick + n + 1);
  }

  lemma HoldingIsShown(r: Bytes)
    requires AllRecords([r]) && |r| <= MAX_RECORD
    ensures Shows(After([r]), Holding(r)) && Alone(After([r]))
  {
    OneFile(Holding(r).file);
    assert IsRecord([r][0]);
    OneRecord(r);
  }

  lemma RepeatingIsChunks(text: Bytes, x: Bytes, z: Bytes, n: nat)
    ensures OnlyChunks(Repeating(text, x, z, n))
  {
    LinesAreChunks(x, n);
  }

  /** Where that leads a follower that had read only the first record. */
  lemma RepeatedLeads(s: Writer, env: Env, text: Bytes, longer: nat, x: Bytes, size: nat, z: Bytes, last: nat, first: Bytes)
    returns (n: nat)
    requires Begun(s, Holding(first))
    requires Well(env) && AllRecords([first]) && |first| <= MAX_RECORD
    requires Sized(env, text, longer) && Sized(env, x, size) && Sized(env, z, last) && size <= longer
    ensures Leads(After([first]), RunSteps(s, env, Repeating(text, x, z, n)),
                  [Filled([first], env, s.sink.tick, x, n), OpenedByTwo(env, s.sink.tick + n, text, z)], Some(0))
  {
    n := RepeatedFiles(s, env, text, longer, x, size, z, last, first);
    HoldingIsShown(first);
    RepeatingIsChunks(text, x, z, n);
    LeadsToTwo(After([first]), s, env, Repeating(text, x, z, n), Filled([first], env, s.sink.tick, x, n),
               OpenedByTwo(env, s.sink.tick + n, text, z));
  }

  /** A first record, others, one with the same head, and one unlike any of them. */
  predicate Confusable(first: Bytes, bs: seq<Bytes>, again: Bytes, c: Bytes) {
    && AllRecords([first]) && AllRecords(bs) && AllRecords([again]) && AllRecords([c])
    && HeadOf(again) == HeadOf(first) && |again| == |first|
    && NotAmong(c, [first]) && NotAmong(c, bs) && NotAmong(c, [again])
  }

  lemma SilentWithEqualHeads(first: Bytes, bs: seq<Bytes>, again: Bytes, c: Bytes, steps: seq<Action>)
    requires Confusable(first, bs, again, c)
    requires Leads(After([first]), steps, [[first] + bs, [again] + [c]], Some(0))
    ensures LosesSilently(After([first]), steps + POLL + READ)
  {
    assert IsRecord([first][0]) && IsRecord([again][0]);
    OneRecord(first);
    OneRecord(again);
    EqualHeadsLoseSilently([first], bs, [again], c, steps);
  }

  /** The last line's record is none of the others. */
  lemma NoneIsLast(env: Env, start: nat, tick: nat, text: Bytes, x: Bytes, z: Bytes, n: nat)
    requires TextOf(env, z) != TextOf(env, x) && TextOf(env, z) != TextOf(env, text)
    ensures var c := LineAt(env, tick + n + 1, z);
            && NotAmong(c, [FirstOf(env, start, text)]) && NotAmong(c, LinesAt(env, tick, x, n))
            && NotAmong(c, [LineAt(env, tick + n, text)])
  {
    var t := env.now(tick + n + 1);
    TextsTellApart(t, start, Out, TextOf(env, z), TextOf(env, text));
    TextsTellApart(t, env.now(tick + n), Out, TextOf(env, z), TextOf(env, text));
    OtherLines(env, tick, x, n, tick + n + 1, z);
  }

  /** The long line was first written at `start`, with a record as long as any later one. */
  predicate FirstWritten(env: Env, start: nat, text: Bytes, longer: nat) {
    start <= MAX_TIME && |Encode(TextOf(env, text))| >= CAPTURE_HEAD_BYTES && |FirstOf(env, start, text)| == longer <= MAX_RECORD
  }

  /** Its two records share their head and their length. */
  lemma SameHeads(env: Env, start: nat, tick: nat, text: Bytes, longer: nat)
    requires FirstWritten(env, start, text, longer) && Sized(env, text, longer)
    ensures var first, again := FirstOf(env, start, text), LineAt(env, tick, text);
            HeadOf(again) == HeadOf(first) && |again| == |first| && AllRecords([first])
  {
    RecordLength(start, Out, TextOf(env, text));
    RecordLength(env.now(tick), Out, TextOf(env, text));
    assert |LineAt(env, tick, text)| == longer;
    LongLinesShareHead(start, env.now(tick), Out, TextOf(env, text));
    LineIsRecord(start, Out, TextOf(env, text));
  }

  lemma LinesConfuse(env: Env, start: nat, tick: nat, text: Bytes, longer: nat, x: Bytes, z: Bytes, n: nat)
    requires Timely(env) && FirstWritten(env, start, text, longer) && Sized(env, text, longer)
    requires TextOf(env, z) != TextOf(env, x) && TextOf(env, z) != TextOf(env, text)
    ensures Confusable(FirstOf(env, start, text), LinesAt(env, tick, x, n), LineAt(env, tick + n, text), LineAt(env, tick + n + 1, z))
  {
    SameHeads(env, start, tick + n, text, longer);
    SuchLinesAreRecords(env, tick, x, n);
    LineOk(env, tick + n, text);
    LineOk(env, tick + n + 1, z);
    NoneIsLast(env, start, tick, text, x, z, n);
  }

  lemma RepeatedSkips(env: Env, start: nat, tick: nat, text: Bytes, longer: nat, x: Bytes, z: Bytes, n: nat, steps: seq<Action>)
    requires Timely(env) && FirstWritten(env, start, text, longer) && Sized(env, text, longer)
    requires TextOf(env, z) != TextOf(env, x) && TextOf(env, z) != TextOf(env, text)
    requires var first := FirstOf(env, start, text);
             Leads(After([first]), steps, [Filled([first], env, tick, x, n), OpenedByTwo(env, tick + n, text, z)], Some(0))
    ensures LosesSilently(After([FirstOf(env, start, text)]), steps + POLL + READ)
  {
    LinesConfuse(env, start, tick, text, longer, x, z, n);
    SilentWithEqualHeads(FirstOf(env, start, text), LinesAt(env, tick, x, n), LineAt(env, tick + n, text), LineAt(env, tick + n + 1, z), steps);
  }

  /**
   * A long line, `n` other lines, the same long line and one more: for some `n` the second long
   * line opens the next file, and a follower that last read when the first was written takes that
   * file for the one it knows. Of all that came between it prints nothing, and says nothing.
   */
  lemma RepeatedLineLosesSilently(s: Writer, env: Env, start: nat, text: Bytes, longer: nat, x: Bytes, size: nat, z: Bytes, last: nat)
    returns (n: nat)
    requires Well(env) && Begun(s, Holding(FirstOf(env, start, text))) && FirstWritten(env, start, text, longer)
    requires Sized(env, text, longer) && Sized(env, x, size) && Sized(env, z, last) && size <= longer
    requires TextOf(env, z) != TextOf(env, x) && TextOf(env, z) != TextOf(env, text)
    ensures LosesSilently(After([FirstOf(env, start, text)]), RunSteps(s, env, Repeating(text, x, z, n)) + POLL + READ)
  {
    hide LineAt, RunSteps, CaptureTheorems.Run, LosesSilently;
    SameHeads(env, start, 0, text, longer);
    n := RepeatedLeads(s, env, text, longer, x, size, z, last, FirstOf(env, start, text));
    RepeatedSkips(env, start, s.sink.tick, text, longer, x, z, n, RunSteps(s, env, Repeating(text, x, z, n)));
  }

  // ----- A head not seen yet -----

  const EMPTY: Disk := Disk([], File(Current, []))

  lemma EmptyIsShown()
    ensures Shows(UNSEEN, EMPTY) && Alone(UNSEEN)
  {
    OneFile(EMPTY.file);
  }

  lemma LinesThenOneAreChunks(x: Bytes, z: Bytes, n: nat)
    ensures OnlyChunks(Lines(x, n) + [LineEvent(z)])
  {
    LinesAreChunks(x, n);
  }

  /** A new capture filled with lines until another opens the second file. */
  lemma UnseenLeads(s: Writer, env: Env, x: Bytes, size: nat, z: Bytes, last: nat) returns (n: nat)
    requires Well(env) && Begun(s, EMPTY) && s.sink.written == 0
    requires Sized(env, x, size) && Sized(env, z, last) && size <= last
    ensures n > 0
    ensures Leads(UNSEEN, RunSteps(s, env, Lines(x, n) + [LineEvent(z)]),
                  [Filled([], env, s.sink.tick, x, n), Opened(env, s.sink.tick + n, z)], Some(0))
  {
    var t;
    n, t := FirstFileFills(s, env, x, size, z, last, []);
    EmptyIsShown();
    LinesThenOneAreChunks(x, z, n);
    LeadsToTwo(UNSEEN, s, env, Lines(x, n) + [LineEvent(z)], Filled([], env, s.sink.tick, x, n), Opened(env, s.sink.tick + n, z));
  }

  lemma LinesAreLines(env: Env, tick: nat, x: Bytes, n: nat, z: Bytes)
    requires n > 0 && TextOf(env, z) != TextOf(env, x)
    ensures [] + LinesAt(env, tick, x, n) != [] && NotAmong(LineAt(env, tick + n, z), [] + LinesAt(env, tick, x, n))
  {
    hide LineAt;
    assert [] + LinesAt(env, tick, x, n) == LinesAt(env, tick, x, n);
    OtherLines(env, tick, x, n, tick + n, z);
  }

  lemma UnseenSkips(env: Env, tick: nat, x: Bytes, z: Bytes, n: nat, steps: seq<Action>)
    requires Timely(env) && n > 0 && TextOf(env, z) != TextOf(env, x)
    requires Leads(UNSEEN, steps, [Filled([], env, tick, x, n), Opened(env, tick + n, z)], Some(0))
    ensures LosesSilently(UNSEEN, steps + POLL + READ)
  {
    hide LineAt;
    LinesAreLines(env, tick, x, n, z);
    LineOk(env, tick + n, z);
    UnknownHeadLosesSilently(Filled([], env, tick, x, n), LineAt(env, tick + n, z), steps);
  }

  /**
   * A follower attaches to an empty capture, and the launcher fills that file before the first
   * poll: the poll starts with the next file, and the whole first one is skipped without a word.
   */
  lemma FirstFileLostSilently(s: Writer, env: Env, x: Bytes, size: nat, z: Bytes, last: nat) returns (n: nat)
    requires Well(env) && Begun(s, EMPTY) && s.sink.written == 0
    requires Sized(env, x, size) && Sized(env, z, last) && size <= last && TextOf(env, z) != TextOf(env, x)
    ensures LosesSilently(UNSEEN, RunSteps(s, env, Lines(x, n) + [LineEvent(z)]) + POLL + READ)
  {
    hide LineAt, RunSteps, CaptureTheorems.Run, LosesSilently;
    n := UnseenLeads(s, env, x, size, z, last);
    UnseenSkips(env, s.sink.tick, x, z, n, RunSteps(s, env, Lines(x, n) + [LineEvent(z)]));
  }

  // ----- A left-over `.jsonl.1` -----

  /** `.jsonl.1` can neither be removed nor replaced, so full files get a name with the time. */
  ghost predicate Stuck(env: Env) {
    forall i :: var a := env.rotation(i);
      !a.removes && !a.renames && a.renamesAside && a.stamp != OLD.suffix && a.opens
  }

  /** The files when the one being written is moved past a left-over `.jsonl.1`. */
  function Three(first: seq<Bytes>, second: seq<Bytes>, stamp: nat, r: Bytes): Disk {
    Disk([File(OLD, first), File(Name.Moved(stamp), second)], File(Current, [r]))
  }

  lemma RotatesAside(full: Writer, env: Env, next: Bytes, size: nat, first: seq<Bytes>, second: seq<Bytes>)
    requires full.sink.disk == Two(first, second) && Stuck(env)
    ensures InNewFile(full, env, next, size).sink.disk
            == Three(first, second, env.rotation(full.sink.tick).stamp, LineAt(env, full.sink.tick, next))
  {
    OneUnnamed(File(OLD, first), Name.Moved(env.rotation(full.sink.tick).stamp));
  }

  /** Lines until another opens a third file. */
  lemma SecondFileFills(s: Writer, env: Env, x: Bytes, size: nat, z: Bytes, last: nat, first: seq<Bytes>, second: seq<Bytes>)
    returns (n: nat, stamp: nat)
    requires s.sink.disk == Two(first, second) && s.out == [] && !s.sink.stopped
    requires WritesSucceed(env) && Stuck(env) && Sized(env, x, size) && Sized(env, z, last) && size <= last
    ensures CaptureTheorems.Run(s, env, Lines(x, n) + [LineEvent(z)]).sink.disk
            == Three(first, second + LinesAt(env, s.sink.tick, x, n), stamp, LineAt(env, s.sink.tick + n, z))
  {
    hide LineAt, LinesAt, Sized, CaptureTheorems.Run, InNewFile;
    var full;
    n, full := FillsAndRotates(s, env, x, size, z, last);
    stamp := env.rotation(full.sink.tick).stamp;
    RotatesAside(full, env, z, last, first, full.sink.disk.file.records);
  }

  /** Two files of a capture, the first fully read, as `Behind` has them. */
  predicate Leftover(rs: seq<Bytes>, bs: seq<Bytes>) {
    rs != [] && AllRecords(rs) && bs != [] && AllRecords(bs) && HeadsDisagree(rs[0], bs[0])
  }

  lemma BehindIsShown(rs: seq<Bytes>, bs: seq<Bytes>)
    requires Leftover(rs, bs)
    ensures Shows(Behind(rs, bs), Two(rs, bs)) && Alone(Behind(rs, bs))
  {
    TwoFiles(File(OLD, rs), File(Current, bs));
  }

  lemma AsideLeads(s: Writer, env: Env, x: Bytes, size: nat, z: Bytes, last: nat, rs: seq<Bytes>, bs: seq<Bytes>) returns (n: nat)
    requires Leftover(rs, bs) && Begun(s, Two(rs, bs)) && Timely(env)
    requires WritesSucceed(env) && Stuck(env) && Sized(env, x, size) && Sized(env, z, last) && size <= last
    ensures Leads(Behind(rs, bs), RunSteps(s, env, Lines(x, n) + [LineEvent(z)]),
                  [rs, Filled(bs, env, s.sink.tick, x, n), Opened(env, s.sink.tick + n, z)], Some(0))
  {
    var stamp;
    n, stamp := SecondFileFills(s, env, x, size, z, last, rs, bs);
    var second, c := bs + LinesAt(env, s.sink.tick, x, n), LineAt(env, s.sink.tick + n, z);
    BehindIsShown(rs, bs);
    LinesThenOneAreChunks(x, z, n);
    ThreeFiles(File(OLD, rs), File(Name.Moved(stamp), second), File(Current, [c]));
    LauncherLeads(Behind(rs, bs), s, env, Lines(x, n) + [LineEvent(z)], Three(rs, second, stamp, c));
  }

  lemma NotAmongBoth(c: Bytes, a: seq<Bytes>, b: seq<Bytes>)
    requires NotAmong(c, a) && NotAmong(c, b)
    ensures NotAmong(c, a + b)
  {
  }

  /** The last line's record is none of those, and shows another head than the first. */
  ghost predicate Unlike(env: Env, z: Bytes, rs: seq<Bytes>, bs: seq<Bytes>)
    requires rs != []
  {
    forall i: nat :: var c := LineAt(env, i, z); NotAmong(c, rs) && NotAmong(c, bs) && HeadsDisagree(rs[0], c)
  }

  lemma AsideSkips(env: Env, tick: nat, x: Bytes, z: Bytes, rs: seq<Bytes>, bs: seq<Bytes>, n: nat, steps: seq<Action>)
    requires Timely(env) && TextOf(env, z) != TextOf(env, x) && Leftover(rs, bs) && Unlike(env, z, rs, bs)
    requires Leads(Behind(rs, bs), steps, [rs, Filled(bs, env, tick, x, n), Opened(env, tick + n, z)], Some(0))
    ensures LosesSilently(Behind(rs, bs), steps + (LOOK + DRAIN + READ))
  {
    hide LineAt, RunSteps;
    var c := LineAt(env, tick + n, z);
    OtherLines(env, tick, x, n, tick + n, z);
    NotAmongBoth(c, bs, LinesAt(env, tick, x, n));
    LineOk(env, tick + n, z);
    LeftoverOldLosesSilently(rs, bs, LinesAt(env, tick, x, n), c, steps);
  }

  /**
   * The follower has read all of `rs`, which is `.jsonl.1` and stays it; the launcher fills the
   * file after it and gives that one a name with the time. The poll finds `rs` drained and goes on
   * to the newest file: the one between is skipped without a word.
   */
  lemma FileAsideLostSilently(s: Writer, env: Env, x: Bytes, size: nat, z: Bytes, last: nat, rs: seq<Bytes>, bs: seq<Bytes>) returns (n: nat)
    requires WritesSucceed(env) && Timely(env) && Stuck(env) && Begun(s, Two(rs, bs))
    requires Sized(env, x, size) && Sized(env, z, last) && size <= last && TextOf(env, z) != TextOf(env, x)
    requires Leftover(rs, bs) && Unlike(env, z, rs, bs)
    ensures LosesSilently(Behind(rs, bs), RunSteps(s, env, Lines(x, n) + [LineEvent(z)]) + (LOOK + DRAIN + READ))
  {
    hide LineAt, RunSteps, CaptureTheorems.Run, LosesSilently;
    n := AsideLeads(s, env, x, size, z, last, rs, bs);
    AsideSkips(env, s.sink.tick, x, z, rs, bs, n, RunSteps(s, env, Lines(x, n) + [LineEvent(z)]));
  }
}
