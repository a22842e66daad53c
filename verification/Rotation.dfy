/**
 * One launcher writing and rotating a console capture, and one follower polling it, in any
 * interleaving of their file-system steps.
 *
 * The launcher (crates/victauri-cli/src/run.rs) appends whole records to the newest generation
 * of the capture; to rotate it removes `.jsonl.1`, renames the capture to that name (or, failing
 * that, to a timestamped one) and creates a new file. The follower
 * (crates/victauri-cli/src/logs.rs) opens the capture, reads its head, and when that is not the
 * head its cursor knows, looks at `.jsonl.1` before it moves on.
 */
module Rotation {
  import opened Text
  import opened CaptureFile

  /** The follower's place in a capture, with the head of the file the place is in. */
  datatype Cursor = Cursor(offset: nat, head: Bytes)

  /** What one poll returned: its lines, and whether it said that lines were lost. */
  datatype Poll = Poll(lines: seq<Bytes>, lost: bool)

  /** Between two steps of `rotate`: nothing under way, `.jsonl.1` removed, or the file moved. */
  datatype Phase = Writing | Removed | Moved

  /** Where the follower is inside one poll. Generations are named by their index. */
  datatype Reader =
    | Between
    | OpenedFile(file: nat)
    | HeadsDiffer(file: nat, head: Bytes)
    | OpenedRotated(file: nat, head: Bytes, rotated: nat)
    | SameRotated(file: nat, head: Bytes, rotated: nat)
    | MeasuredRotated(file: nat, head: Bytes, rotated: nat, len: nat)
    | Settled(file: nat, lost: bool)
    | Measured(file: nat, lost: bool, len: nat)

  /**
   * The file system, both programs, and three history variables: the generation and the number
   * of its records the cursor stands for (`at`, `done`), and where each poll's lines start in
   * everything ever written (`starts`).
   */
  datatype State = State(
    gens: seq<seq<Bytes>>,
    current: Option<nat>,
    rotated: Option<nat>,
    phase: Phase,
    cursor: Cursor,
    reader: Reader,
    polls: seq<Poll>,
    at: nat,
    done: nat,
    starts: seq<nat>)

  datatype Action =
    | Append(rec: Bytes)
    | RemoveOld(ok: bool)
    | RenameToOld
    | RenameAside
    | RenameFails
    | Create
    | CreateFails
    | OpenCurrent(ok: bool)
    | ReadHead(ok: bool)
    | OpenOld(ok: bool)
    | ReadOldHead(ok: bool)
    | MeasureOld
    | ReadOld
    | Measure
    | ReadFile

  function Last(s: State): nat
    requires s.gens != []
  {
    |s.gens| - 1
  }

  function Content(s: State, g: nat): Bytes
    requires g < |s.gens|
  {
    Flatten(s.gens[g])
  }

  function HeadOf(content: Bytes): Bytes {
    content[..Min(CAPTURE_HEAD_BYTES, |content|)]
  }

  /**
   * Two heads that may belong to one file: equal up to the end of the shorter. Before a head was
   * seen any file will do; after that, an empty one will not.
   */
  predicate SameCapture(seen: Bytes, now: Bytes) {
    seen == [] ||
    var n := Min(|seen|, |now|);
    n > 0 && seen[..n] == now[..n]
  }

  /** Everything the launcher wrote, oldest first. */
  function Written(s: State): seq<Bytes> {
    Flatten(s.gens)
  }

  /** How many records precede the follower's position. */
  function Position(s: State): nat
    requires s.at <= |s.gens|
  {
    |Flatten(s.gens[..s.at])| + s.done
  }

  // ----- Steps -----

  predicate GenerationExists(s: State, g: Option<nat>) {
    g.Some? ==> g.value < |s.gens|
  }

  predicate ReaderExists(s: State) {
    match s.reader
    case Between => true
    case OpenedFile(f) => f < |s.gens|
    case HeadsDiffer(f, _) => f < |s.gens|
    case OpenedRotated(f, _, r) => f < |s.gens| && r < |s.gens|
    case SameRotated(f, _, r) => f < |s.gens| && r < |s.gens|
    case MeasuredRotated(f, _, r, len) => f < |s.gens| && r < |s.gens| && len <= |Content(s, r)|
    case Settled(f, _) => f < |s.gens|
    case Measured(f, _, len) => f < |s.gens| && len <= |Content(s, f)|
  }

  /** Names and handles refer to generations that exist. */
  predicate WellFormed(s: State) {
    && s.gens != []
    && GenerationExists(s, s.current)
    && GenerationExists(s, s.rotated)
    && s.at < |s.gens|
    && ReaderExists(s)
  }

  predicate Enabled(s: State, a: Action) {
    match a
    case Append(rec) => s.phase == Writing && IsRecord(rec) && |rec| <= MAX_READ
    case RemoveOld(_) => s.phase == Writing
    case RenameToOld => s.phase == Removed && s.current.Some?
    case RenameAside => s.phase == Removed && s.current.Some?
    case RenameFails => s.phase == Removed
    case Create => s.phase == Moved
    case CreateFails => s.phase == Moved
    case OpenCurrent(ok) => s.reader.Between? && (ok ==> s.current.Some?)
    case ReadHead(_) => s.reader.OpenedFile?
    case OpenOld(ok) => s.reader.HeadsDiffer? && (ok ==> s.rotated.Some?)
    case ReadOldHead(_) => s.reader.OpenedRotated?
    case MeasureOld => s.reader.SameRotated?
    case ReadOld => s.reader.MeasuredRotated?
    case Measure => s.reader.Settled?
    case ReadFile => s.reader.Measured?
  }

  /** A poll returns: its lines follow the position the cursor stands for. */
  function Return(s: State, lines: seq<Bytes>, lost: bool): State
    requires s.at <= |s.gens|
  {
    s.(reader := Between,
       polls := s.polls + [Poll(lines, lost)],
       starts := s.starts + [Position(s)],
       done := s.done + |lines|)
  }

  /**
   * There is nothing more to get from `.jsonl.1`: go on with the capture that was opened first.
   * As long as that has no head, a cursor could not name it, and the poll returns nothing.
   */
  function MoveOn(s: State, file: nat, head: Bytes, lost: bool): State
    requires s.at <= |s.gens|
  {
    if head == [] then Return(s, [], false)
    else s.(cursor := Cursor(0, head), at := file, done := 0, reader := Settled(file, lost))
  }

  function Step(s: State, a: Action): State
    requires WellFormed(s) && Enabled(s, a)
  {
    match a
    case Append(rec) => s.(gens := s.gens[Last(s) := s.gens[Last(s)] + [rec]])
    case RemoveOld(ok) => s.(rotated := if ok then None else s.rotated, phase := Removed)
    case RenameToOld => s.(rotated := s.current, current := None, phase := Moved)
    case RenameAside => s.(current := None, phase := Moved)
    case RenameFails => s.(phase := Writing)
    case Create => s.(gens := s.gens + [[]], current := Some(|s.gens|), phase := Writing)
    case CreateFails => s.(phase := Writing)
    case OpenCurrent(ok) =>
      if ok then s.(reader := OpenedFile(s.current.value)) else Return(s, [], false)
    case ReadHead(ok) =>
      var f := s.reader.file;
      var head := HeadOf(Content(s, f));
      if !ok then Return(s, [], false)
      else if !SameCapture(s.cursor.head, head) then s.(reader := HeadsDiffer(f, head))
      else
        s.(reader := Settled(f, false),
           cursor := if |head| > |s.cursor.head| then s.cursor.(head := head) else s.cursor)
    case OpenOld(ok) =>
      var HeadsDiffer(f, head) := s.reader;
      if ok then s.(reader := OpenedRotated(f, head, s.rotated.value)) else MoveOn(s, f, head, true)
    case ReadOldHead(ok) =>
      var OpenedRotated(f, head, r) := s.reader;
      if ok && SameCapture(s.cursor.head, HeadOf(Content(s, r)))
      then s.(reader := SameRotated(f, head, r)) else MoveOn(s, f, head, true)
    case MeasureOld =>
      var SameRotated(f, head, r) := s.reader;
      s.(reader := MeasuredRotated(f, head, r, |Content(s, r)|))
    case ReadOld =>
      var MeasuredRotated(f, head, r, len) := s.reader;
      var (lines, next) := ReadFrom(Content(s, r), len, Some(s.cursor.offset));
      if next != s.cursor.offset
      then Return(s, lines, false).(cursor := s.cursor.(offset := next))
      else MoveOn(s, f, head, false)
    case Measure =>
      var Settled(f, lost) := s.reader;
      s.(reader := Measured(f, lost, |Content(s, f)|))
    case ReadFile =>
      var Measured(f, lost, len) := s.reader;
      var (lines, next) := ReadFrom(Content(s, f), len, Some(s.cursor.offset));
      Return(s, lines, lost).(cursor := s.cursor.(offset := next))
  }

  // ----- What is assumed of the environment -----

  /** The two records differ somewhere in the part of a file that a head shows. */
  predicate HeadsDisagree(a: Bytes, b: Bytes) {
    exists i :: 0 <= i < |a| && i < |b| && i < CAPTURE_HEAD_BYTES && a[i] != b[i]
  }

  /** A new file's first record has a head no other file has. */
  predicate FreshHead(s: State, a: Action)
    requires WellFormed(s)
  {
    a.Append? && s.gens[Last(s)] == [] ==>
      forall g :: 0 <= g < Last(s) && s.gens[g] != [] ==> HeadsDisagree(s.gens[g][0], a.rec)
  }

  /** No rotation before the follower has seen the head of the file it attached to. */
  predicate HeadKnown(s: State, a: Action) {
    a.RenameToOld? || a.RenameAside? ==> s.cursor.head != []
  }

  /** The timestamped name is used only when no `.jsonl.1` was left in place. */
  predicate OldGone(s: State, a: Action) {
    a.RenameAside? ==> s.rotated.None?
  }

  predicate Assumed(s: State, a: Action)
    requires WellFormed(s)
  {
    FreshHead(s, a) && HeadKnown(s, a) && OldGone(s, a)
  }

  // ----- The invariant -----

  /** `.jsonl.1` is the generation before the newest, or the newest while it has no other name. */
  predicate NamesOk(s: State)
    requires s.gens != []
  {
    && (s.current.Some? ==> s.current.value == Last(s))
    && (s.phase == Moved ==> s.current.None?)
    && (s.rotated.Some? && s.current.Some? ==> s.rotated.value + 1 == Last(s))
    && (s.rotated.Some? && s.current.None? ==> s.rotated.value == Last(s))
  }

  predicate RecordsOk(s: State) {
    && (forall g :: 0 <= g < |s.gens| ==> AllRecords(s.gens[g]))
    && (forall g, h :: 0 <= g < h < |s.gens| && s.gens[g] != [] && s.gens[h] != [] ==>
          HeadsDisagree(s.gens[g][0], s.gens[h][0]))
  }

  /** A head read from generation `g`, at some time up to now. */
  predicate HeadSeen(s: State, g: nat, head: Bytes)
    requires g < |s.gens|
  {
    && head <= HeadOf(Content(s, g))
    && (head != [] ==> s.gens[g] != [] && |head| >= Min(CAPTURE_HEAD_BYTES, |s.gens[g][0]|))
  }

  /** The cursor stands at a record boundary of generation `at`, whose head it carries. */
  predicate CursorOk(s: State)
    requires s.at < |s.gens|
  {
    && s.done <= |s.gens[s.at]|
    && s.cursor.offset == |Flatten(s.gens[s.at][..s.done])|
    && HeadSeen(s, s.at, s.cursor.head)
    && (s.cursor.head == [] ==> s.at == Last(s) && s.current == Some(s.at))
  }

  predicate ReaderOk(s: State)
    requires WellFormed(s)
  {
    match s.reader
    case Between => true
    case OpenedFile(f) => f >= s.at && (s.cursor.head == [] ==> f == s.at)
    case HeadsDiffer(f, head) => f > s.at && HeadSeen(s, f, head)
    case OpenedRotated(f, head, r) => f > s.at && HeadSeen(s, f, head) && (r == s.at ==> f == s.at + 1)
    case SameRotated(f, head, r) => r == s.at && f == s.at + 1 && HeadSeen(s, f, head)
    case MeasuredRotated(f, head, r, len) =>
      r == s.at && f == s.at + 1 && HeadSeen(s, f, head) && s.cursor.offset <= len
    case Settled(f, _) => f == s.at
    case Measured(f, _, len) => f == s.at && s.cursor.offset <= len
  }

  /** Where poll `i - 1` ended, or where the follower attached. */
  function Reached(polls: seq<Poll>, starts: seq<nat>, origin: nat, i: nat): nat
    requires i <= |polls| == |starts|
  {
    if i == 0 then origin else starts[i - 1] + |polls[i - 1].lines|
  }

  /** Poll `i` returned consecutive records as written, not before where the last poll ended. */
  predicate PollFaithful(polls: seq<Poll>, starts: seq<nat>, written: seq<Bytes>, origin: nat, i: nat)
    requires i < |polls| == |starts|
  {
    var start, end := starts[i], starts[i] + |polls[i].lines|;
    && end <= |written|
    && polls[i].lines == written[start..end]
    && Reached(polls, starts, origin, i) <= start
    && (Reached(polls, starts, origin, i) < start ==> polls[i].lost)
  }

  /**
   * Each poll's lines are consecutive records as written, in order and never repeated; between
   * two polls nothing is skipped, except by a poll that said so.
   */
  predicate Faithful(polls: seq<Poll>, starts: seq<nat>, written: seq<Bytes>, origin: nat) {
    && |polls| == |starts|
    && forall i :: 0 <= i < |polls| ==> PollFaithful(polls, starts, written, origin, i)
  }

  /** During a poll that moved on, the position may be ahead of what was reported. */
  predicate Pending(s: State, origin: nat)
    requires s.at <= |s.gens| && |s.polls| == |s.starts|
  {
    var reached := Reached(s.polls, s.starts, origin, |s.polls|);
    && reached <= Position(s)
    && (reached < Position(s) ==> (s.reader.Settled? || s.reader.Measured?) && s.reader.lost)
  }

  predicate Inv(s: State, origin: nat) {
    && WellFormed(s)
    && RecordsOk(s)
    && NamesOk(s)
    && CursorOk(s)
    && ReaderOk(s)
    && Faithful(s.polls, s.starts, Written(s), origin)
    && Pending(s, origin)
  }
}
