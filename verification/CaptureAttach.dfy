/** What the first read of a capture shows: its whole records from the first one that starts inside the window. */
module CaptureAttach {
  import opened Text
  import opened CaptureFile

  /** The record that holds byte `at`: it starts there or before, and ends after. */
  lemma {:induction false} RecordAround(rs: seq<Bytes>, at: nat) returns (k: nat)
    requires AllRecords(rs) && at < |Flatten(rs)|
    ensures k < |rs| && |Flatten(rs[..k])| <= at < |Flatten(rs[..k + 1])|
    decreases |rs|
  {
    if at < |rs[0]| {
      k := 0;
      assert rs[..0] == [] && rs[..1] == [rs[0]] && [rs[0]][1..] == [];
    } else {
      assert AllRecords(rs[1..]);
      var m := RecordAround(rs[1..], at - |rs[0]|);
      k := m + 1;
      assert rs[..k] == [rs[0]] + rs[1..][..m] && rs[..k + 1] == [rs[0]] + rs[1..][..m + 1];
      FlattenConcat([rs[0]], rs[1..][..m]);
      FlattenConcat([rs[0]], rs[1..][..m + 1]);
      assert [rs[0]][1..] == [];
    }
  }

  /** The bytes of the records from `i` to before `j`. */
  lemma Between(rs: seq<Bytes>, i: nat, j: nat)
    requires i <= j <= |rs|
    ensures |Flatten(rs[..i])| + |Flatten(rs[i..j])| == |Flatten(rs[..j])| <= |Flatten(rs)|
    ensures Flatten(rs)[|Flatten(rs[..i])|..|Flatten(rs[..j])|] == Flatten(rs[i..j])
  {
    FlattenRun(rs, i, j - i);
    FlattenSplit(rs, j);
  }

  /** Whole records are read as they are. */
  lemma {:induction false} WholeRecords(rs: seq<Bytes>)
    requires AllRecords(rs)
    ensures CompleteLines(Flatten(rs)) == rs
  {
    if rs != [] {
      var first, rest := rs[0], Flatten(rs[1..]);
      assert IsRecord(first) && AllRecords(rs[1..]);
      WholeRecords(rs[1..]);
      LineFirst(first, rest);
    }
  }

  lemma LineFirst(first: Bytes, rest: Bytes)
    requires IsRecord(first)
    ensures CompleteLines(first + rest) == [first] + CompleteLines(rest)
  {
    var n := |first| - 1;
    assert (first + rest)[..n] == first[..n] && (first + rest)[n] == '\n';
    FirstIs(first + rest, n);
    assert (first + rest)[..n + 1] == first && (first + rest)[n + 1..] == rest;
  }

  /** From inside a record, the first newline is its own. */
  lemma NewlineOf(record: Bytes, from: nat, rest: Bytes)
    requires IsRecord(record) && from < |record|
    ensures FirstNewline(record[from..] + rest) == |record| - 1 - from
  {
    FirstIs(record[from..] + rest, |record| - 1 - from);
  }

  /** A window that starts inside record `k` and ends with record `j - 1`. */
  lemma WindowParts(rs: seq<Bytes>, start: nat, k: nat, j: nat)
    requires AllRecords(rs) && k < j <= |rs| && |Flatten(rs[..k])| <= start < |Flatten(rs[..k + 1])|
    ensures start <= |Flatten(rs[..j])| <= |Flatten(rs)|
    ensures start - |Flatten(rs[..k])| < |rs[k]|
    ensures Flatten(rs)[start..|Flatten(rs[..j])|] == rs[k][start - |Flatten(rs[..k])|..] + Flatten(rs[k + 1..j])
  {
    Between(rs, k, j);
    Between(rs, k + 1, j);
    Between(rs, k, k + 1);
    assert rs[k..j] == [rs[k]] + rs[k + 1..j];
    FlattenConcat([rs[k]], rs[k + 1..j]);
    assert rs[k..k + 1] == [rs[k]] && [rs[k]][1..] == [];
    var from, all := start - |Flatten(rs[..k])|, Flatten(rs);
    assert all[start..|Flatten(rs[..j])|] == all[|Flatten(rs[..k])|..|Flatten(rs[..j])|][from..];
  }

  /** What is read behind the first newline of such a window. */
  lemma WindowReads(record: Bytes, from: nat, rest: seq<Bytes>)
    requires IsRecord(record) && AllRecords(rest) && from < |record|
    ensures var buf := record[from..] + Flatten(rest);
            var skip := FirstNewline(buf) + 1;
            skip <= |buf| && CompleteLines(buf[skip..]) == rest && Consumed(buf[skip..]) == |Flatten(rest)|
  {
    var buf := record[from..] + Flatten(rest);
    NewlineOf(record, from, Flatten(rest));
    assert buf[|record| - from..] == Flatten(rest);
    WholeRecords(rest);
    CompleteLinesCover(Flatten(rest));
  }

  /**
   * The first read of a capture longer than `MAX_READ` shows exactly the records that start after
   * the first byte of the last `MAX_READ` bytes, through the end that was measured.
   */
  lemma TailReadShows(rs: seq<Bytes>, j: nat) returns (i: nat)
    requires AllRecords(rs) && j <= |rs| && |Flatten(rs[..j])| > MAX_READ
    ensures |Flatten(rs[..j])| <= |Flatten(rs)| && 0 < i <= j
    ensures var start := |Flatten(rs[..j])| - MAX_READ; |Flatten(rs[..i - 1])| <= start < |Flatten(rs[..i])|
    ensures ReadFrom(Flatten(rs), |Flatten(rs[..j])|, None) == (rs[i..j], |Flatten(rs[..j])|)
  {
    FlattenSplit(rs, j);
    var len := |Flatten(rs[..j])|;
    var start := len - MAX_READ;
    var k := RecordAround(rs, start);
    i := k + 1;
    if k >= j { Between(rs, j, k); }
    WindowParts(rs, start, k, j);
    var from, rest := start - |Flatten(rs[..k])|, rs[i..j];
    assert IsRecord(rs[k]) && AllRecords(rest);
    WindowReads(rs[k], from, rest);
    assert WindowAt(Flatten(rs), start) == rs[k][from..] + Flatten(rest);
    Between(rs, i, j);
    ReadsTail(Flatten(rs), len, rest);
  }

  lemma ReadsTail(file: Bytes, len: nat, rest: seq<Bytes>)
    requires MAX_READ < len <= |file|
    requires var buf := WindowAt(file, len - MAX_READ);
             var skip := FirstNewline(buf) + 1;
             skip <= |buf| && CompleteLines(buf[skip..]) == rest && Consumed(buf[skip..]) == |buf| - skip
    ensures ReadFrom(file, len, None) == (rest, len)
  {
    hide FirstNewline, CompleteLines, Consumed;
  }

  /** The first read of a shorter one shows its records from the first on, as many as one window takes. */
  lemma FirstReadShows(rs: seq<Bytes>, len: nat) returns (n: nat)
    requires AllRecords(rs) && len <= Min(MAX_READ, |Flatten(rs)|)
    ensures n <= |rs| && |Flatten(rs[..n])| <= MAX_READ && (n < |rs| ==> |Flatten(rs[..n + 1])| > MAX_READ)
    ensures ReadFrom(Flatten(rs), len, None) == (rs[..n], |Flatten(rs[..n])|)
  {
    n := Fits(rs, MAX_READ);
    FitsIs(rs, MAX_READ);
    LinesOfWindow(rs, MAX_READ);
    var buf := WindowAt(Flatten(rs), 0);
    assert buf == Flatten(rs)[..Min(MAX_READ, |Flatten(rs)|)] && buf[0..] == buf;
    CompleteLinesCover(buf);
  }
}
