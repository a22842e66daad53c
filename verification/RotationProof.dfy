/** Every step of the launcher and of the follower keeps the rotation invariant. */
module RotationProof {
  import opened Text
  import opened CaptureFile
  import opened Rotation

  // ----- Heads tell generations apart -----

  lemma FirstRecordIsPrefix(rs: seq<Bytes>)
    requires rs != []
    ensures rs[0] <= Flatten(rs)
  {
  }

  /** The head of the cursor's own generation is recognised. */
  lemma OwnHeadMatches(s: State, seen: Bytes)
    requires WellFormed(s) && HeadSeen(s, s.at, seen)
    ensures SameCapture(seen, HeadOf(Content(s, s.at)))
  {
  }

  /** The head of any other generation is not. */
  lemma OtherHeadDiffers(s: State, f: nat)
    requires WellFormed(s) && RecordsOk(s) && CursorOk(s)
    requires f < |s.gens| && f != s.at && s.cursor.head != []
    ensures !SameCapture(s.cursor.head, HeadOf(Content(s, f)))
  {
    var seen, now := s.cursor.head, HeadOf(Content(s, f));
    if s.gens[f] != [] {
      var a, b := s.gens[s.at][0], s.gens[f][0];
      FirstRecordIsPrefix(s.gens[s.at]);
      FirstRecordIsPrefix(s.gens[f]);
      assert HeadsDisagree(a, b) || HeadsDisagree(b, a) by {
        if s.at < f { assert HeadsDisagree(a, b); } else { assert HeadsDisagree(b, a); }
      }
      var i :| 0 <= i < |a| && i < |b| && i < CAPTURE_HEAD_BYTES && a[i] != b[i];
      assert seen[i] == a[i] && now[i] == b[i];
    }
  }

  lemma CurrentHeadIsSeen(s: State, g: nat)
    requires g < |s.gens|
    ensures HeadSeen(s, g, HeadOf(Content(s, g)))
  {
    if s.gens[g] != [] {
      FirstRecordIsPrefix(s.gens[g]);
    }
  }

  // ----- Polls and positions -----

  /** What was faithful stays so when more is written. */
  lemma FaithfulGrows(polls: seq<Poll>, starts: seq<nat>, written: seq<Bytes>, more: seq<Bytes>, origin: nat)
    requires Faithful(polls, starts, written, origin)
    requires written <= more
    ensures Faithful(polls, starts, more, origin)
  {
    forall i | 0 <= i < |polls| ensures PollFaithful(polls, starts, more, origin, i) {
      assert PollFaithful(polls, starts, written, origin, i);
    }
  }

  /** One more poll is faithful when it continues where the last one ended, or says otherwise. */
  lemma FaithfulExtends(polls: seq<Poll>, starts: seq<nat>, written: seq<Bytes>, origin: nat, poll: Poll, start: nat)
    requires Faithful(polls, starts, written, origin)
    requires start + |poll.lines| <= |written|
    requires poll.lines == written[start..start + |poll.lines|]
    requires Reached(polls, starts, origin, |polls|) <= start
    requires Reached(polls, starts, origin, |polls|) < start ==> poll.lost
    ensures Faithful(polls + [poll], starts + [start], written, origin)
    ensures Reached(polls + [poll], starts + [start], origin, |polls| + 1) == start + |poll.lines|
  {
    var ps, ss := polls + [poll], starts + [start];
    forall i | 0 <= i < |ps| ensures PollFaithful(ps, ss, written, origin, i) {
      if i < |polls| {
        assert PollFaithful(polls, starts, written, origin, i);
      }
    }
  }

  /** The records from the cursor's position on are the ones of its generation. */
  lemma WrittenAtPosition(gens: seq<seq<Bytes>>, at: nat, done: nat, n: nat)
    requires at < |gens| && done + n <= |gens[at]|
    ensures var p := |Flatten(gens[..at])| + done;
            p + n <= |Flatten(gens)| && Flatten(gens)[p..p + n] == gens[at][done..done + n]
  {
    FlattenSplit(gens, at);
    assert Flatten(gens[at..]) == gens[at] + Flatten(gens[at..][1..]);
  }

  /** The end of one generation is the start of the next. */
  lemma NextGenerationStarts(gens: seq<seq<Bytes>>, at: nat)
    requires at < |gens|
    ensures |Flatten(gens[..at])| + |gens[at]| == |Flatten(gens[..at + 1])|
  {
    FlattenNext(gens, at);
  }

  lemma PositionsGrow<T>(gens: seq<seq<T>>, a: nat, b: nat)
    requires a <= b <= |gens|
    ensures |Flatten(gens[..a])| <= |Flatten(gens[..b])|
  {
    FlattenSplit(gens[..b], a);
    assert gens[..b][..a] == gens[..a];
  }

  // ----- Launcher steps -----

  lemma ContentGrows(rs: seq<Bytes>, more: seq<Bytes>)
    requires rs <= more
    ensures Flatten(rs) <= Flatten(more)
    ensures HeadOf(Flatten(rs)) <= HeadOf(Flatten(more))
  {
    FlattenSplit(more, |rs|);
    assert more[..|rs|] == rs;
  }

  /** `t` differs from `s` only in files: some grew, and some are new. */
  predicate FilesGrow(s: State, t: State) {
    && |s.gens| <= |t.gens|
    && (forall g :: 0 <= g < |s.gens| ==> s.gens[g] <= t.gens[g])
    && t == s.(gens := t.gens, current := t.current, phase := t.phase)
  }

  lemma HeadSeenGrows(s: State, t: State, g: nat, head: Bytes)
    requires FilesGrow(s, t) && g < |s.gens| && HeadSeen(s, g, head)
    ensures HeadSeen(t, g, head)
  {
    ContentGrows(s.gens[g], t.gens[g]);
    if s.gens[g] != [] {
      assert t.gens[g][0] == s.gens[g][0];
    }
  }

  /** A poll under way sees files grow and keeps its bearings. */
  lemma ReaderGrows(s: State, t: State)
    requires WellFormed(s) && ReaderOk(s) && FilesGrow(s, t)
    ensures ReaderExists(t)
    ensures GenerationExists(t, t.current) ==> WellFormed(t) && ReaderOk(t)
  {
    match s.reader
    case HeadsDiffer(f, head) => HeadSeenGrows(s, t, f, head);
    case OpenedRotated(f, head, r) => HeadSeenGrows(s, t, f, head);
    case SameRotated(f, head, r) => HeadSeenGrows(s, t, f, head);
    case MeasuredRotated(f, head, r, len) =>
      HeadSeenGrows(s, t, f, head);
      ContentGrows(s.gens[r], t.gens[r]);
    case Measured(f, _, len) => ContentGrows(s.gens[f], t.gens[f]);
    case _ =>
  }

  lemma CursorGrows(s: State, t: State)
    requires WellFormed(s) && CursorOk(s) && FilesGrow(s, t)
    requires s.cursor.head == [] ==> |t.gens| == |s.gens| && t.current == s.current
    ensures CursorOk(t)
  {
    HeadSeenGrows(s, t, s.at, s.cursor.head);
    assert t.gens[s.at][..s.done] == s.gens[s.at][..s.done];
  }

  lemma AppendToLast(gens: seq<seq<Bytes>>, rec: Bytes)
    requires gens != []
    ensures var last := |gens| - 1;
            Flatten(gens[last := gens[last] + [rec]]) == Flatten(gens) + [rec]
  {
    var last := |gens| - 1;
    var init, more := gens[..last], gens[last] + [rec];
    FlattenConcat(init, [gens[last]]);
    assert init + [gens[last]] == gens;
    FlattenConcat(init, [more]);
    assert init + [more] == gens[last := more];
    assert Flatten([gens[last]]) == gens[last] + Flatten([]);
    assert Flatten([more]) == more + Flatten([]);
    ConcatAssociative(Flatten(init), gens[last], [rec]);
  }

  lemma AppendKeepsRecords(s: State, rec: Bytes)
    requires WellFormed(s) && RecordsOk(s) && Enabled(s, Append(rec)) && FreshHead(s, Append(rec))
    ensures RecordsOk(Step(s, Append(rec)))
  {
    var t := Step(s, Append(rec));
    var last := Last(s);
    forall g, h | 0 <= g < h < |t.gens| && t.gens[g] != [] && t.gens[h] != []
      ensures HeadsDisagree(t.gens[g][0], t.gens[h][0])
    {
      assert t.gens[g] == s.gens[g];
      if h == last && s.gens[last] != [] {
        assert t.gens[h][0] == s.gens[h][0];
      }
    }
  }

  lemma AppendKeeps(s: State, rec: Bytes, origin: nat)
    requires Inv(s, origin) && Enabled(s, Append(rec)) && Assumed(s, Append(rec))
    ensures Inv(Step(s, Append(rec)), origin)
  {
    var t := Step(s, Append(rec));
    AppendKeepsRecords(s, rec);
    ReaderGrows(s, t);
    CursorGrows(s, t);
    AppendToLast(s.gens, rec);
    FaithfulGrows(s.polls, s.starts, Written(s), Written(t), origin);
    assert t.gens[..s.at] == s.gens[..s.at];
  }

  lemma CreateKeeps(s: State, origin: nat)
    requires Inv(s, origin) && Enabled(s, Create)
    ensures Inv(Step(s, Create), origin)
  {
    var t := Step(s, Create);
    ReaderGrows(s, t);
    CursorGrows(s, t);
    FlattenConcat(s.gens, [[]]);
    assert Written(t) == Written(s);
    assert t.gens[..s.at] == s.gens[..s.at];
  }

  /** `t` differs from `s` only in which generation has which name. */
  predicate OnlyNames(s: State, t: State) {
    t == s.(current := t.current, rotated := t.rotated, phase := t.phase)
  }

  lemma NamesDoNotMatter(s: State, t: State, origin: nat)
    requires Inv(s, origin) && OnlyNames(s, t)
    requires GenerationExists(t, t.current) && GenerationExists(t, t.rotated)
    ensures WellFormed(t) && ReaderOk(t) && RecordsOk(t)
    ensures Faithful(t.polls, t.starts, Written(t), origin) && Pending(t, origin)
  {
  }

  /** Removing and renaming keep the invariant. */
  lemma NamingKeeps(s: State, a: Action, origin: nat)
    requires Inv(s, origin) && Enabled(s, a) && Assumed(s, a)
    requires a.RemoveOld? || a.RenameToOld? || a.RenameAside? || a.RenameFails? || a.CreateFails?
    ensures Inv(Step(s, a), origin)
  {
    var t := Step(s, a);
    NamesDoNotMatter(s, t, origin);
  }

  // ----- Follower steps -----

  /** A poll that finds nothing new returns nothing, and nothing moves. */
  lemma EmptyReturnKeeps(s: State, origin: nat)
    requires Inv(s, origin) && !s.reader.Settled? && !s.reader.Measured?
    ensures Inv(Return(s, [], false), origin)
  {
    WrittenAtPosition(s.gens, s.at, s.done, 0);
    FaithfulExtends(s.polls, s.starts, Written(s), origin, Poll([], false), Position(s));
  }

  /** Moving on skips nothing when the old file is drained, and is reported when it is not. */
  lemma MoveOnKeeps(s: State, file: nat, head: Bytes, lost: bool, origin: nat)
    requires Inv(s, origin) && !s.reader.Settled? && !s.reader.Measured?
    requires s.at < file < |s.gens| && HeadSeen(s, file, head)
    requires !lost ==> file == s.at + 1 && s.done == |s.gens[s.at]|
    ensures Inv(MoveOn(s, file, head, lost), origin)
  {
    if head == [] {
      EmptyReturnKeeps(s, origin);
    } else {
      NextGenerationStarts(s.gens, s.at);
      PositionsGrow(s.gens, s.at + 1, file);
      var t := MoveOn(s, file, head, lost);
      assert t.gens[file][..0] == [];
      assert CursorOk(t);
    }
  }

  /** The state after a poll returns the next `n` records. */
  function AfterLines(s: State, n: nat, lost: bool): State
    requires s.at < |s.gens| && s.done + n <= |s.gens[s.at]|
  {
    var rs := s.gens[s.at];
    Return(s, rs[s.done..s.done + n], lost).(cursor := s.cursor.(offset := |Flatten(rs[..s.done + n])|))
  }

  lemma LinesAreFaithful(s: State, n: nat, lost: bool, origin: nat)
    requires Inv(s, origin) && s.done + n <= |s.gens[s.at]|
    requires Reached(s.polls, s.starts, origin, |s.polls|) < Position(s) ==> lost
    ensures var t := AfterLines(s, n, lost);
            Faithful(t.polls, t.starts, Written(t), origin) && Pending(t, origin)
  {
    WrittenAtPosition(s.gens, s.at, s.done, n);
    FaithfulExtends(s.polls, s.starts, Written(s), origin,
                    Poll(s.gens[s.at][s.done..s.done + n], lost), Position(s));
  }

  /** Returning the next `n` records keeps the invariant. */
  lemma LinesReturnKeeps(s: State, n: nat, lost: bool, origin: nat)
    requires Inv(s, origin) && s.done + n <= |s.gens[s.at]|
    requires Reached(s.polls, s.starts, origin, |s.polls|) < Position(s) ==> lost
    ensures Inv(AfterLines(s, n, lost), origin)
  {
    LinesAreFaithful(s, n, lost, origin);
  }

  lemma RecordsTakeSpace(rs: seq<Bytes>, k: nat, n: nat)
    requires AllRecords(rs) && k + n <= |rs| && n > 0
    ensures |Flatten(rs[..k])| < |Flatten(rs[..k + n])|
  {
    FlattenNext(rs, k);
    assert IsRecord(rs[k]);
    PositionsGrow(rs, k + 1, k + n);
  }

  /** A read continues exactly where the cursor stands, and stands still only at the end. */
  lemma ReadKeeps(s: State, len: nat, lost: bool, origin: nat)
    requires Inv(s, origin)
    requires s.cursor.offset <= len <= |Content(s, s.at)|
    requires Reached(s.polls, s.starts, origin, |s.polls|) < Position(s) ==> lost
    ensures var (lines, next) := ReadFrom(Content(s, s.at), len, Some(s.cursor.offset));
            && Inv(Return(s, lines, lost).(cursor := s.cursor.(offset := next)), origin)
            && (next == s.cursor.offset ==> s.done == |s.gens[s.at]|)
  {
    var n := ReadsOn(s, len, origin);
    LinesReturnKeeps(s, n, lost, origin);
  }

  /** What a read returns is the records that follow. */
  lemma ReadsOn(s: State, len: nat, origin: nat) returns (n: nat)
    requires Inv(s, origin)
    requires s.cursor.offset <= len <= |Content(s, s.at)|
    ensures s.done + n <= |s.gens[s.at]|
    ensures ReadFrom(Content(s, s.at), len, Some(s.cursor.offset))
            == (s.gens[s.at][s.done..s.done + n], |Flatten(s.gens[s.at][..s.done + n])|)
    ensures |Flatten(s.gens[s.at][..s.done + n])| == s.cursor.offset ==> s.done == |s.gens[s.at]|
  {
    var rs := s.gens[s.at];
    n := ReadAtBoundary(rs, len, s.done);
    if n > 0 {
      RecordsTakeSpace(rs, s.done, n);
    }
  }

  lemma HeadKeeps(s: State, ok: bool, origin: nat)
    requires Inv(s, origin) && Enabled(s, ReadHead(ok))
    ensures Inv(Step(s, ReadHead(ok)), origin)
  {
    var f := s.reader.file;
    if !ok {
      EmptyReturnKeeps(s, origin);
    } else {
      CurrentHeadIsSeen(s, f);
      if f == s.at {
        OwnHeadMatches(s, s.cursor.head);
        HeadLengthens(s, HeadOf(Content(s, f)), origin);
      } else {
        OtherHeadDiffers(s, f);
      }
    }
  }

  /** Taking up a longer head of the same file loses nothing. */
  lemma HeadLengthens(s: State, head: Bytes, origin: nat)
    requires Inv(s, origin) && s.reader == OpenedFile(s.at) && HeadSeen(s, s.at, head)
    ensures Inv(s.(reader := Settled(s.at, false),
                   cursor := if |head| > |s.cursor.head| then s.cursor.(head := head) else s.cursor), origin)
  {
  }

  lemma OpenOldKeeps(s: State, ok: bool, origin: nat)
    requires Inv(s, origin) && Enabled(s, OpenOld(ok))
    ensures Inv(Step(s, OpenOld(ok)), origin)
  {
    if !ok { MoveOnKeeps(s, s.reader.file, s.reader.head, true, origin); }
  }

  lemma OldHeadKeeps(s: State, ok: bool, origin: nat)
    requires Inv(s, origin) && Enabled(s, ReadOldHead(ok))
    ensures Inv(Step(s, ReadOldHead(ok)), origin)
  {
    var r := s.reader.rotated;
    if !(ok && SameCapture(s.cursor.head, HeadOf(Content(s, r)))) {
      MoveOnKeeps(s, s.reader.file, s.reader.head, true, origin);
    } else if r != s.at {
      OtherHeadDiffers(s, r);
    }
  }

  lemma MeasureOldKeeps(s: State, origin: nat)
    requires Inv(s, origin) && Enabled(s, MeasureOld)
    ensures Inv(Step(s, MeasureOld), origin)
  {
    OffsetWithin(s);
  }

  lemma OffsetWithin(s: State)
    requires WellFormed(s) && CursorOk(s)
    ensures s.cursor.offset <= |Content(s, s.at)|
  {
    FlattenSplit(s.gens[s.at], s.done);
  }

  lemma ReadOldKeeps(s: State, origin: nat)
    requires Inv(s, origin) && Enabled(s, ReadOld)
    ensures Inv(Step(s, ReadOld), origin)
  {
    var MeasuredRotated(f, head, r, len) := s.reader;
    ReadKeeps(s, len, false, origin);
    var (_, next) := ReadFrom(Content(s, r), len, Some(s.cursor.offset));
    if next == s.cursor.offset {
      MoveOnKeeps(s, f, head, false, origin);
    }
  }

  /** Every step, of either program, keeps the invariant. */
  lemma StepKeeps(s: State, a: Action, origin: nat)
    requires Inv(s, origin) && Enabled(s, a) && Assumed(s, a)
    ensures Inv(Step(s, a), origin)
  {
    match a
    case Append(rec) => AppendKeeps(s, rec, origin);
    case Create => CreateKeeps(s, origin);
    case OpenCurrent(ok) => if !ok { EmptyReturnKeeps(s, origin); } else { OpenKeeps(s, origin); }
    case ReadHead(ok) => HeadKeeps(s, ok, origin);
    case OpenOld(ok) => OpenOldKeeps(s, ok, origin);
    case ReadOldHead(ok) => OldHeadKeeps(s, ok, origin);
    case MeasureOld => MeasureOldKeeps(s, origin);
    case ReadOld => ReadOldKeeps(s, origin);
    case Measure => OffsetWithin(s); MeasureKeeps(s, origin);
    case ReadFile => ReadKeeps(s, s.reader.len, s.reader.lost, origin);
    case _ => NamingKeeps(s, a, origin);
  }

  lemma OpenKeeps(s: State, origin: nat)
    requires Inv(s, origin) && Enabled(s, OpenCurrent(true))
    ensures Inv(Step(s, OpenCurrent(true)), origin)
  {
  }

  lemma MeasureKeeps(s: State, origin: nat)
    requires Inv(s, origin) && Enabled(s, Measure) && s.cursor.offset <= |Content(s, s.at)|
    ensures Inv(Step(s, Measure), origin)
  {
  }
}
