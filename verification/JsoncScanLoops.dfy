/** The scanners as the loops over an index they are, proved against `JsoncScan`. */
module JsoncScanLoops {
  import opened Text
  import opened JsonTree
  import opened JsoncBlank
  import opened JsoncScan

  method SkipWsFrom(b: Bytes, from: nat) returns (i: nat)
    requires from <= |b|
    ensures from <= i <= |b| && b[i..] == SkipWs(b[from..])
  {
    i := from;
    while i < |b| && IsAsciiWs(b[i])
      invariant from <= i <= |b|
      invariant SkipWs(b[i..]) == SkipWs(b[from..])
    {
      assert b[i..][1..] == b[i + 1..];
      i := i + 1;
    }
  }

  /** One turn of the string loop. */
  lemma StringStep(b: Bytes, i: nat)
    requires i < |b|
    ensures b[i] == '"' ==> SkipString(b[i..]) == b[i + 1..]
    ensures b[i] != '"' ==>
              var size := if b[i] == '\\' then 2 else 1;
              SkipString(b[i..]) == if i + size <= |b| then SkipString(b[i + size..]) else []
  {
    var s := b[i..];
    if b[i] != '"' {
      var size := if b[i] == '\\' then 2 else 1;
      if i + size <= |b| {
        assert s[size..] == b[i + size..];
        var n := StringEnd(b[i + size..]);
        if n.Some? {
          assert s[n.value + size + 1..] == b[i + size..][n.value + 1..];
        }
      }
    }
  }

  method SkipStringFrom(b: Bytes, from: nat) returns (i: nat)
    requires from < |b| && b[from] == '"'
    ensures from < i <= |b| && b[i..] == SkipString(b[from + 1..])
  {
    i := from + 1;
    while i < |b|
      invariant from < i <= |b| + 1
      invariant i <= |b| ==> SkipString(b[i..]) == SkipString(b[from + 1..])
      invariant i > |b| ==> SkipString(b[from + 1..]) == []
    {
      StringStep(b, i);
      if b[i] == '\\' {
        i := i + 2;
      } else if b[i] == '"' {
        return i + 1;
      } else {
        i := i + 1;
      }
    }
    assert i == |b| ==> SkipString(b[i..]) == [];
    i := |b|;
  }

  method SkipValueFrom(b: Bytes, from: nat) returns (j: nat)
    requires from <= |b|
    ensures from <= j <= |b| && b[j..] == SkipValue(b[from..])
  {
    if from < |b| && b[from] == '"' {
      assert b[from..][1..] == b[from + 1..];
      j := SkipStringFrom(b, from);
    } else if from < |b| && (b[from] == '{' || b[from] == '[') {
      j := SkipContainerFrom(b, from);
    } else {
      j := from;
      while j < |b| && !IsDelimiter(b[j])
        invariant from <= j <= |b|
        invariant j - from + ScalarLength(b[j..]) == ScalarLength(b[from..])
      {
        assert b[j..][1..] == b[j + 1..];
        j := j + 1;
      }
      assert b[from..][j - from..] == b[j..];
    }
  }

  method SkipContainerFrom(b: Bytes, from: nat) returns (j: nat)
    requires from < |b| && (b[from] == '{' || b[from] == '[')
    ensures from <= j <= |b| && b[j..] == SkipLevels(b[from..], 0)
  {
    var depth := 0;
    j := from;
    while j < |b|
      invariant from <= j <= |b|
      invariant depth >= 0 && (depth == 0 ==> j == from)
      invariant SkipLevels(b[j..], depth) == SkipLevels(b[from..], 0)
    {
      assert b[j..][1..] == b[j + 1..];
      if b[j] == '"' {
        j := SkipStringFrom(b, j);
        continue;
      } else if b[j] == '{' || b[j] == '[' {
        depth := depth + 1;
      } else if b[j] == '}' || b[j] == ']' {
        depth := depth - 1;
        if depth == 0 {
          return j + 1;
        }
      }
      j := j + 1;
    }
  }

  /** Where the value of the member named at `start` starts. */
  method ValueOf(b: Bytes, start: nat) returns (value: Option<nat>)
    requires start < |b| && b[start] == '"'
    ensures value.Some? == ValueAfterName(b[start..]).Some?
    ensures value.Some? ==> start < value.value <= |b| && ValueAfterName(b[start..]) == Some(b[value.value..])
  {
    assert b[start..][1..] == b[start + 1..];
    var end := SkipStringFrom(b, start);
    var i := SkipWsFrom(b, end);
    if i == |b| || b[i] != ':' {
      return None;
    }
    assert b[i..][1..] == b[i + 1..];
    i := SkipWsFrom(b, i + 1);
    return Some(i);
  }

  /** Where the member after the value at `value` starts. */
  method NextMember(b: Bytes, value: nat) returns (i: nat)
    requires value <= |b|
    ensures value <= i <= |b| && b[i..] == NextAfterValue(b[value..])
  {
    var after := SkipValueFrom(b, value);
    i := SkipWsFrom(b, after);
    if i < |b| && b[i] == ',' {
      assert b[i..][1..] == b[i + 1..];
      i := SkipWsFrom(b, i + 1);
    }
  }

  /** `member_value_offset`: where the value of the last member called `key` starts. */
  method MemberValueOffset(b: Bytes, open: nat, key: Bytes) returns (found: Option<nat>)
    requires open < |b|
    ensures var text := FindMember(SkipWs(b[open + 1..]), key, None);
            && found.Some? == text.Some?
            && (found.Some? ==> open < found.value <= |b| && b[found.value..] == text.value)
  {
    var i := SkipWsFrom(b, open + 1);
    ghost var want := FindMember(b[i..], key, None);
    found := None;
    while i < |b| && b[i] == '"'
      invariant open < i <= |b|
      invariant found.Some? ==> open < found.value <= |b|
      invariant FindMember(b[i..], key, if found.None? then None else Some(b[found.value..])) == want
      decreases |b| - i
    {
      var value := ValueOf(b, i);
      if value.None? {
        return None;
      }
      if NameAt(b[i..]) == Some(key) {
        found := value;
      }
      i := NextMember(b, value.value);
    }
  }
}
