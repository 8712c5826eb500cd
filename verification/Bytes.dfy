/** Bytes, C strings and the few sequence helpers that several components share. */
module Bytes {

  type byte = x: int | 0 <= x < 256

  const NUL: byte := 0
  const CR: byte := 13
  const SPACE: byte := 32
  const QUOTE: byte := 34
  const BACKSLASH: byte := 92

  /** Repeats one byte. */
  function Rep(c: byte, n: nat): (r: seq<byte>)
    ensures |r| == n
    ensures forall i :: 0 <= i < n ==> r[i] == c
  {
    seq(n, _ => c)
  }

  /** The C string that starts at index i of a buffer: everything before the next NUL. */
  function CStringAt(b: seq<byte>, i: nat): (r: seq<byte>)
    requires i <= |b|
    ensures |r| <= |b| - i && r == b[i..i + |r|]
    ensures NUL !in r
    ensures i + |r| < |b| ==> b[i + |r|] == NUL
    decreases |b| - i
  {
    if i == |b| || b[i] == NUL then [] else [b[i]] + CStringAt(b, i + 1)
  }

  /** A C string is determined by where its first NUL is. */
  lemma CStringIs(b: seq<byte>, i: nat, j: nat)
    requires i <= j < |b| && b[j] == NUL && NUL !in b[i..j]
    ensures CStringAt(b, i) == b[i..j]
    decreases j - i
  {
    if i < j {
      assert b[i] == b[i..j][0];
      assert b[i + 1..j] == b[i..j][1..];
      CStringIs(b, i + 1, j);
    }
  }
}
