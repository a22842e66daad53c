/** Byte strings and the small sequence vocabulary shared by every component. */
module Text {

  /**
   * One byte, written as the character with that code. Codes from 128 up are the bytes of
   * multi-byte characters; nothing here depends on an upper limit.
   */
  type Byte = char

  type Bytes = seq<Byte>

  datatype Option<+T> = None | Some(value: T)

  function Min(a: int, b: int): int { if a <= b then a else b }

  function Max(a: int, b: int): int { if a <= b then b else a }

  function Digit(n: nat): Byte
    requires n < 10
  {
    ('0' as int + n) as char
  }

  /** A number in decimal. */
  function Digits(n: nat): Bytes {
    if n < 10 then [Digit(n)] else Digits(n / 10) + [Digit(n % 10)]
  }

  /** The parts one after another. */
  function Flatten<T>(parts: seq<seq<T>>): seq<T> {
    if parts == [] then [] else parts[0] + Flatten(parts[1..])
  }

  lemma {:induction false} FlattenConcat<T>(a: seq<seq<T>>, b: seq<seq<T>>)
    ensures Flatten(a + b) == Flatten(a) + Flatten(b)
  {
    if a == [] {
      assert a + b == b;
    } else {
      assert (a + b)[1..] == a[1..] + b;
      FlattenConcat(a[1..], b);
    }
  }

  lemma ConcatAssociative<T>(a: seq<T>, b: seq<T>, c: seq<T>)
    ensures a + (b + c) == (a + b) + c
  {
  }

  /** Concatenation nests to the right. */
  lemma NestRight<T>(a: seq<T>, b: seq<T>, c: seq<T>, d: seq<T>, e: seq<T>, f: seq<T>)
    ensures a + b + c + d + e + f == a + (b + (c + (d + (e + f))))
    ensures a + b + c + d + e == a + (b + (c + (d + e)))
    ensures a + b + c + d == a + (b + (c + d))
    ensures a + b + c == a + (b + c)
  {
  }

  /** Flattening splits at any part boundary. */
  lemma FlattenSplit<T>(parts: seq<seq<T>>, k: nat)
    requires k <= |parts|
    ensures Flatten(parts) == Flatten(parts[..k]) + Flatten(parts[k..])
  {
    FlattenConcat(parts[..k], parts[k..]);
    assert parts == parts[..k] + parts[k..];
  }

  /** A run of parts adds exactly its own elements. */
  lemma FlattenRun<T>(parts: seq<seq<T>>, k: nat, n: nat)
    requires k + n <= |parts|
    ensures Flatten(parts[..k + n]) == Flatten(parts[..k]) + Flatten(parts[k..k + n])
  {
    FlattenConcat(parts[..k], parts[k..k + n]);
    assert parts[..k + n] == parts[..k] + parts[k..k + n];
  }

  /** One more part adds exactly its own elements. */
  lemma FlattenNext<T>(parts: seq<seq<T>>, k: nat)
    requires k < |parts|
    ensures Flatten(parts[..k + 1]) == Flatten(parts[..k]) + parts[k]
  {
    FlattenConcat(parts[..k], [parts[k]]);
    assert parts[..k + 1] == parts[..k] + [parts[k]];
    assert Flatten([parts[k]]) == parts[k] + Flatten([]);
  }
}
