/** Bytes, and C strings without their NUL. */
module Strings {
  newtype Byte = b: int | 0 <= b < 256

  type Bytes = seq<Byte>

  const NUL: Byte := 0
  const NEWLINE: Byte := 10
  const RETURN: Byte := 13
  const SPACE: Byte := 32
  const STAR: Byte := 42
  const SLASH: Byte := 47
  const COLON: Byte := 58
  const QUESTION: Byte := 63
  const BACKSLASH: Byte := 92
  const LOWER_N: Byte := 110
  const BAR: Byte := 124

  lemma Regroup(a: Bytes, b: Bytes, c: Bytes)
    ensures (a + b) + c == a + (b + c)
  {
  }

  lemma FirstAndRest<T>(s: seq<T>)
    requires s != []
    ensures s == [s[0]] + s[1..]
  {
  }

  lemma InPrepended<T>(c: T, rest: seq<T>, y: T)
    ensures y in [c] + rest <==> y == c || y in rest
  {
    assert y in rest ==> ([c] + rest)[1..] == rest;
  }

  lemma Suffix<T>(s: seq<T>, p: nat, n: nat)
    requires p + n <= |s|
    ensures s[p..][..n] == s[p..p + n] && s[p..][n..] == s[p + n..]
  {
  }

  // ----- Sizes of four bytes, the highest byte first -----

  const SIZE_LIMIT := 0x1_0000_0000

  function SizeBytes(n: nat): (r: Bytes)
    requires n < SIZE_LIMIT
    ensures |r| == 4
  {
    var n1, n2, n3 := HigherBytes(n), HigherBytes(HigherBytes(n)), HigherBytes(HigherBytes(HigherBytes(n)));
    [n3 as Byte, LowByte(n2), LowByte(n1), LowByte(n)]
  }

  function LowByte(n: nat): Byte {
    (n % 0x100) as Byte
  }

  function HigherBytes(n: nat): (q: nat)
    ensures n == q * 0x100 + LowByte(n) as nat
  {
    n / 0x100
  }

  function SizeOf(r: Bytes): nat
    requires |r| == 4
  {
    AppendByte(AppendByte(AppendByte(r[0] as nat, r[1]), r[2]), r[3])
  }

  function AppendByte(hi: nat, lo: Byte): (n: nat)
    ensures HigherBytes(n) == hi && LowByte(n) == lo
  {
    hi * 0x100 + lo as nat
  }

  lemma SizeReads(n: nat)
    requires n < SIZE_LIMIT
    ensures SizeOf(SizeBytes(n)) == n
  {
    hide LowByte, HigherBytes;
  }

  lemma SizePrints(r: Bytes)
    requires |r| == 4
    ensures SizeOf(r) < SIZE_LIMIT && SizeBytes(SizeOf(r)) == r
  {
    hide LowByte, HigherBytes;
  }

  /** The highest byte counts most. */
  lemma SizeValue(r: Bytes)
    requires |r| == 4
    ensures SizeOf(r) == r[0] as nat * 0x100_0000 + r[1] as nat * 0x1_0000 + r[2] as nat * 0x100 + r[3] as nat
  {
    hide LowByte, HigherBytes;
  }
}
