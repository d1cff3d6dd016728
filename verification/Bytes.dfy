/** Bytes and the slices of byte strings. */
module Bytes {
  type Byte = x: int | 0 <= x < 256

  /** 2 to the 32nd: what a 32-bit field cannot hold. */
  const WORD: nat := 0x1_0000_0000

  /** How much the validator decodes in one step. */
  const DECODE_CHUNK_BYTES: nat := 4 * 1024 * 1024

  function Min(a: int, b: int): int {
    if a < b then a else b
  }

  function Max(a: int, b: int): int {
    if a < b then b else a
  }

  /** -n % m: what is missing to the next multiple. */
  function Padding(n: nat, m: nat): nat
    requires m > 0
  {
    (m - n % m) % m
  }

  /** The character of a hexadecimal digit. */
  function HexDigit(d: nat): Byte
    requires d < 16
  {
    if d < 10 then 48 + d else 87 + d
  }

  function Zeros(n: nat): (r: seq<Byte>)
    ensures |r| == n
  {
    seq(n, i => 0)
  }

  /** Python's s[lo:hi] for 0 <= lo <= hi: both bounds are clipped to the length. */
  function Slice<T>(s: seq<T>, lo: nat, hi: nat): (r: seq<T>)
    requires lo <= hi
    ensures |r| == Min(hi, |s|) - Min(lo, |s|)
    ensures forall i | 0 <= i < |r| :: r[i] == s[lo + i]
  {
    s[Min(lo, |s|)..Min(hi, |s|)]
  }

  /** Python's s[-n:] for n > 0. */
  function Last<T>(s: seq<T>, n: nat): (r: seq<T>)
    ensures |r| == Min(n, |s|) && r == s[|s| - |r|..]
  {
    s[|s| - Min(n, |s|)..]
  }

  lemma JoinSlices<T>(s: seq<T>, a: nat, b: nat, c: nat)
    requires a <= b <= c
    ensures Slice(s, a, b) + Slice(s, b, c) == Slice(s, a, c)
  {
  }

  lemma SliceOfSlice<T>(s: seq<T>, base: nat, end: nat, i: nat, j: nat)
    requires base <= end <= |s| && i <= j && base + j <= end
    ensures s[base..end][i..j] == s[base + i..base + j]
  {
    var part := s[base..end];
    assert forall k | 0 <= k < |part| :: part[k] == s[base + k];
    forall k | 0 <= k < j - i ensures part[i..j][k] == s[base + i..base + j][k] {
      assert part[i..j][k] == part[i + k];
    }
  }
}
