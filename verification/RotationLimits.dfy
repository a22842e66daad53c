/**
 * Why each assumption on rotation is there: without it, records can be skipped and no poll says
 * so. Each limit is stated for every way in which the launcher gets to the files in question;
 * `RotationInputs` has runs of the launcher that get there.
 */
module RotationLimits {
  import opened Text
  import opened CaptureFile
  import opened Rotation
  import opened RotationProof
  import opened RotationTheorems

  const READ: seq<Action> := [Measure, ReadFile]

  /** The end of a poll that has settled on a file with one record after the cursor's offset. */
  lemma ReadsLast(s: State, f: nat, k: nat)
    requires WellFormed(s) && s.reader == Settled(f, false)
    requires AllRecords(s.gens[f]) && k + 1 == |s.gens[f]|
    requires s.cursor.offset == |Flatten(s.gens[f][..k])|
    ensures Possible(s, READ)
    ensures Run(s, READ).polls == s.polls + [Poll([s.gens[f][k]], false)]
    ensures Run(s, READ).gens == s.gens
  {
    FlattenSplit(s.gens[f], k);
    RunThen(s, [], Measure);
    assert [] + [Measure] == [Measure];
    var m := Run(s, [Measure]);
    var n := ReadAtBoundary(s.gens[f], m.reader.len, k);
    assert s.gens[f][k..k + n] == [s.gens[f][k]];
    RunThen(s, [Measure], ReadFile);
    assert [Measure] + [ReadFile] == READ;
  }

  /** A record that stands at the end of what was written can be returned from nowhere else. */
  lemma SkipIsSilent(written: seq<Bytes>, origin: nat, rec: Bytes)
    requires origin < |written| - 1
    requires forall i :: 0 <= i < |written| - 1 ==> written[i] != rec
    ensures forall starts: seq<nat> :: !Faithful([Poll([rec], false)], starts, written, origin)
  {
    var polls := [Poll([rec], false)];
    forall starts: seq<nat> ensures !Faithful(polls, starts, written, origin) {
      if |starts| == 1 {
        var at := starts[0];
        if at + 1 <= |written| && [rec] == written[at..at + 1] {
          assert written[at] == rec;
        }
        assert !PollFaithful(polls, starts, written, origin, 0);
      }
    }
  }

  lemma WrittenTwo(x: seq<Bytes>, y: seq<Bytes>)
    ensures Flatten([x, y]) == x + y
  {
    assert Flatten([x, y][1..]) == y + Flatten([]);
  }

  /** A run whose outcome no placement of the polls can explain without an unreported gap. */
  ghost predicate LosesSilently(s: State, actions: seq<Action>) {
    && Attached(s)
    && Possible(s, actions)
    && var t := Run(s, actions);
       forall starts: seq<nat> :: !Faithful(t.polls, starts, Written(t), Position(s))
  }

  /** A run that ends by returning a record past one never returned loses silently. */
  lemma ConcludesSilently(s: State, actions: seq<Action>, written: seq<Bytes>, rec: Bytes)
    requires Attached(s) && Possible(s, actions)
    requires Run(s, actions).polls == [Poll([rec], false)] && Written(Run(s, actions)) == written
    requires Position(s) < |written| - 1
    requires forall i :: 0 <= i < |written| - 1 ==> written[i] != rec
    ensures LosesSilently(s, actions)
  {
    SkipIsSilent(written, Position(s), rec);
  }

  lemma OneRecord(r: Bytes)
    requires IsRecord(r)
    ensures Flatten([r]) == r
    ensures [r][..1] == [r] && Flatten([r][..0]) == []
  {
    assert Flatten([r]) == r + Flatten([]);
  }

  /** A follower at the end of the only file, which holds `rs`. */
  function After(rs: seq<Bytes>): State {
    State([rs], Some(0), None, Writing, Cursor(|Flatten(rs)|, HeadOf(Flatten(rs))), Between, [], 0, |rs|, [])
  }

  lemma AfterIsAttached(rs: seq<Bytes>)
    requires rs != [] && AllRecords(rs)
    ensures Attached(After(rs)) && Position(After(rs)) == |rs|
  {
    assert rs[..|rs|] == rs && [rs][..0] == [];
    FirstRecordIsPrefix(rs);
  }

  /** The launcher's steps that leave it between two operations with these files, the last under the capture's name. */
  predicate Leads(s: State, steps: seq<Action>, files: seq<seq<Bytes>>, rotated: Option<nat>) {
    files != [] && Possible(s, steps) && Run(s, steps) == s.(gens := files, current := Some(|files| - 1), rotated := rotated, phase := Writing)
  }

  const POLL: seq<Action> := [OpenCurrent(true), ReadHead(true)]

  /** The start of a poll that takes the current file, of generation `f`, for its own. */
  lemma TakesForSame(s: State, f: nat)
    requires WellFormed(s) && s.reader.Between? && s.current == Some(f)
    requires SameCapture(s.cursor.head, HeadOf(Content(s, f)))
    ensures Possible(s, POLL)
    ensures var t := Run(s, POLL);
            && t == s.(reader := Settled(f, false), cursor := t.cursor)
            && t.cursor.offset == s.cursor.offset
  {
    RunThen(s, [], OpenCurrent(true));
    assert [] + [OpenCurrent(true)] == [OpenCurrent(true)];
    RunThen(s, [OpenCurrent(true)], ReadHead(true));
    assert [OpenCurrent(true)] + [ReadHead(true)] == POLL;
  }

  /** A file that starts with as many bytes and the same head as what was read. */
  lemma HeadIsSame(rs: Bytes, rs2: Bytes, more: Bytes)
    requires rs2 != [] && HeadOf(rs2) == HeadOf(rs) && |rs2| == |rs|
    ensures SameCapture(HeadOf(rs), HeadOf(rs2 + more))
  {
    var seen, now := HeadOf(rs), HeadOf(rs2 + more);
    assert |seen| == |HeadOf(rs2)| <= |now|;
    assert now[..|seen|] == HeadOf(rs2);
  }

  lemma NonEmpty(rs: seq<Bytes>)
    requires rs != [] && AllRecords(rs)
    ensures Flatten(rs) != []
  {
    FirstRecordIsPrefix(rs);
  }

  /** The record is none of these. */
  predicate NotAmong(c: Bytes, rs: seq<Bytes>) { forall i :: 0 <= i < |rs| ==> rs[i] != c }

  /**
   * The file being read, with `bs` still unread, is rotated away, and the new one starts with as
   * many bytes as were read and with the same head: the follower takes it for the one it was
   * reading, so `bs` and `rs2` are skipped without a word.
   */
  lemma EqualHeadsLoseSilently(rs: seq<Bytes>, bs: seq<Bytes>, rs2: seq<Bytes>, c: Bytes, steps: seq<Action>)
    requires rs != [] && AllRecords(rs) && AllRecords(bs) && rs2 != [] && AllRecords(rs2) && AllRecords([c])
    requires HeadOf(Flatten(rs2)) == HeadOf(Flatten(rs)) && |Flatten(rs2)| == |Flatten(rs)|
    requires NotAmong(c, rs) && NotAmong(c, bs) && NotAmong(c, rs2)
    requires Leads(After(rs), steps, [rs + bs, rs2 + [c]], Some(0))
    ensures LosesSilently(After(rs), steps + POLL + READ)
  {
    NonEmpty(rs2);
    FlattenConcat(rs2, [c]);
    assert (rs2 + [c])[..|rs2|] == rs2 && (rs2 + [c])[|rs2|] == c;
    HeadIsSame(Flatten(rs), Flatten(rs2), Flatten([c]));
    TakesAndReads(After(rs), steps, 1, |rs2|);
    WrittenTwo(rs + bs, rs2 + [c]);
    AfterIsAttached(rs);
    ConcludesSilently(After(rs), steps + POLL + READ, (rs + bs) + (rs2 + [c]), c);
  }

  /** A poll that takes the current file for its own and reads the one record past the offset. */
  lemma TakesAndReads(s: State, before: seq<Action>, f: nat, k: nat)
    requires Possible(s, before)
    requires var two := Run(s, before);
             && WellFormed(two) && two.reader.Between? && two.current == Some(f)
             && SameCapture(two.cursor.head, HeadOf(Content(two, f)))
             && AllRecords(two.gens[f]) && k + 1 == |two.gens[f]|
             && two.cursor.offset == |Flatten(two.gens[f][..k])|
    ensures Possible(s, before + POLL + READ)
    ensures var two := Run(s, before);
            var t := Run(s, before + POLL + READ);
            t.polls == two.polls + [Poll([two.gens[f][k]], false)] && t.gens == two.gens
  {
    var two := Run(s, before);
    TakesForSame(two, f);
    RunConcat(s, before, POLL);
    ReadsLast(Run(two, POLL), f, k);
    RunConcat(s, before + POLL, READ);
  }

  /** A follower that attached to an empty capture, and so knows no head. */
  const UNSEEN: State := State([[]], Some(0), None, Writing, Cursor(0, []), Between, [], 0, 0, [])

  /**
   * A rotation before the follower has seen the head of the file it attached to: any file fits,
   * so the new one is read from its start and all of `rs` is skipped without a word.
   */
  lemma UnknownHeadLosesSilently(rs: seq<Bytes>, c: Bytes, steps: seq<Action>)
    requires rs != [] && AllRecords([c]) && NotAmong(c, rs)
    requires Leads(UNSEEN, steps, [rs, [c]], Some(0))
    ensures LosesSilently(UNSEEN, steps + POLL + READ)
  {
    assert IsRecord([c][0]);
    OneRecord(c);
    TakesAndReads(UNSEEN, steps, 1, 0);
    WrittenTwo(rs, [c]);
    assert UNSEEN.gens[..0] == [];
    ConcludesSilently(UNSEEN, steps + POLL + READ, rs + [c], c);
  }

  /** A follower that has read all of the rotated file, `rs`, with `bs` in the capture. */
  function Behind(rs: seq<Bytes>, bs: seq<Bytes>): State {
    State([rs, bs], Some(1), Some(0), Writing, Cursor(|Flatten(rs)|, HeadOf(Flatten(rs))), Between, [], 0, |rs|, [])
  }

  lemma BehindIsAttached(rs: seq<Bytes>, bs: seq<Bytes>)
    requires rs != [] && AllRecords(rs) && bs != [] && AllRecords(bs) && HeadsDisagree(rs[0], bs[0])
    ensures Attached(Behind(rs, bs)) && Position(Behind(rs, bs)) == |rs|
  {
    assert rs[..|rs|] == rs && [rs, bs][..0] == [];
    FirstRecordIsPrefix(rs);
  }

  const LOOK: seq<Action> := [OpenCurrent(true), ReadHead(true), OpenOld(true)]
  const DRAIN: seq<Action> := [ReadOldHead(true), MeasureOld, ReadOld]

  /** The start of a poll that does not know the current file, and opens the rotated one. */
  lemma Looks(s: State, f: nat)
    requires WellFormed(s) && s.reader.Between? && s.current == Some(f) && s.rotated == Some(s.at)
    requires !SameCapture(s.cursor.head, HeadOf(Content(s, f)))
    ensures Possible(s, LOOK)
    ensures Run(s, LOOK) == s.(reader := OpenedRotated(f, HeadOf(Content(s, f)), s.at))
  {
    var p: seq<Action> := [];
    RunThen(s, p, OpenCurrent(true));
    p := p + [OpenCurrent(true)];
    RunThen(s, p, ReadHead(true));
    p := p + [ReadHead(true)];
    RunThen(s, p, OpenOld(true));
    assert p + [OpenOld(true)] == LOOK;
  }

  /** Its own file, under `.jsonl.1`, is drained: the poll moves on. */
  lemma Drains(s: State, f: nat, head: Bytes)
    requires WellFormed(s) && s.reader == OpenedRotated(f, head, s.at) && head != []
    requires AllRecords(s.gens[s.at]) && s.done == |s.gens[s.at]| && s.cursor.offset == |Content(s, s.at)|
    requires SameCapture(s.cursor.head, HeadOf(Content(s, s.at)))
    ensures Possible(s, DRAIN)
    ensures Run(s, DRAIN) == s.(cursor := Cursor(0, head), at := f, done := 0, reader := Settled(f, false))
  {
    assert s.gens[s.at][..s.done] == s.gens[s.at];
    var p: seq<Action> := [];
    RunThen(s, p, ReadOldHead(true));
    p := p + [ReadOldHead(true)];
    RunThen(s, p, MeasureOld);
    p := p + [MeasureOld];
    var n := ReadAtBoundary(s.gens[s.at], |Content(s, s.at)|, s.done);
    RunThen(s, p, ReadOld);
    assert p + [ReadOld] == DRAIN;
  }

  lemma TellsApart(rs: seq<Bytes>, c: Bytes)
    requires rs != [] && HeadsDisagree(rs[0], c)
    ensures !SameCapture(HeadOf(Flatten(rs)), HeadOf(c))
  {
    FirstRecordIsPrefix(rs);
    var i :| 0 <= i < |rs[0]| && i < |c| && i < CAPTURE_HEAD_BYTES && rs[0][i] != c[i];
    assert HeadOf(Flatten(rs))[i] == rs[0][i] && HeadOf(c)[i] == c[i];
  }

  lemma OwnHead(rs: seq<Bytes>)
    requires rs != [] && AllRecords(rs)
    ensures SameCapture(HeadOf(Flatten(rs)), HeadOf(Flatten(rs)))
  {
    NonEmpty(rs);
  }

  /** The poll of the third example: it finds `rs` drained and goes on to `c`. */
  lemma SkipsWholeFile(three: State, rs: seq<Bytes>, bs: seq<Bytes>, more: seq<Bytes>, c: Bytes)
    requires rs != [] && AllRecords(rs) && AllRecords([c]) && HeadsDisagree(rs[0], c)
    requires three == Behind(rs, bs).(gens := [rs, more, [c]], current := Some(2))
    ensures Possible(three, LOOK + DRAIN + READ)
    ensures var t := Run(three, LOOK + DRAIN + READ); t.polls == [Poll([c], false)] && t.gens == three.gens
  {
    assert IsRecord([c][0]);
    OneRecord(c);
    TellsApart(rs, c);
    OwnHead(rs);
    Looks(three, 2);
    var looked := Run(three, LOOK);
    Drains(looked, 2, HeadOf(c));
    RunConcat(three, LOOK, DRAIN);
    ReadsLast(Run(looked, DRAIN), 2, 0);
    RunConcat(three, LOOK + DRAIN, READ);
  }

  /**
   * `.jsonl.1` cannot be removed and the full file goes to a timestamped name: the follower
   * finds its own file drained and moves on past a whole file, `bs` and what followed, without a word.
   */
  lemma LeftoverOldLosesSilently(rs: seq<Bytes>, bs: seq<Bytes>, more: seq<Bytes>, c: Bytes, steps: seq<Action>)
    requires rs != [] && AllRecords(rs) && bs != [] && AllRecords(bs) && AllRecords([c])
    requires HeadsDisagree(rs[0], bs[0]) && HeadsDisagree(rs[0], c)
    requires NotAmong(c, rs) && NotAmong(c, bs + more)
    requires Leads(Behind(rs, bs), steps, [rs, bs + more, [c]], Some(0))
    ensures LosesSilently(Behind(rs, bs), steps + (LOOK + DRAIN + READ))
  {
    var s := Behind(rs, bs);
    SkipsWholeFile(Run(s, steps), rs, bs, bs + more, c);
    RunConcat(s, steps, LOOK + DRAIN + READ);
    BehindIsAttached(rs, bs);
    WrittenTwo(bs + more, [c]);
    assert [rs, bs + more, [c]][1..] == [bs + more, [c]];
    ConcludesSilently(s, steps + (LOOK + DRAIN + READ), rs + ((bs + more) + [c]), c);
  }
}
