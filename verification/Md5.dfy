/** MD5 over a message that arrives in pieces (RFC 1321), with the block transform as a parameter. */
module Md5 {
  import opened Integers
  import opened Strings

  datatype Digest4 = Digest4(a: nat, b: nat, c: nat, d: nat)

  type Transform = (Digest4, Bytes) -> Digest4

  const W32 := 0x1_0000_0000
  const W64 := 0x1_0000_0000_0000_0000

  // ----- Specification: sections 3.1 to 3.5 of RFC 1321 -----

  const INITIAL := Digest4(0x67452301, 0xefcdab89, 0x98badcfe, 0x10325476)

  /** The n low-order bytes of x, least significant first. */
  function LittleEndian(x: nat, n: nat): (r: Bytes)
    ensures |r| == n
  {
    if n == 0 then [] else [(x % 256) as Byte] + LittleEndian(x / 256, n - 1)
  }

  function Zeros(n: nat): (r: Bytes)
    ensures |r| == n && forall i | 0 <= i < n :: r[i] == 0
  {
    seq(n, _ => 0)
  }

  /** One bit, zeros up to 56 modulo 64 bytes, then the length in bits modulo 2^64, low-order word first. */
  function Padded(message: Bytes): Bytes {
    message + Tail(|message|)
  }

  function Tail(n: nat): Bytes {
    var bits := (8 * n) % W64;
    [0x80] + Zeros(ZeroCount(n)) + LittleEndian(bits % W32, 4) + LittleEndian(bits / W32, 4)
  }

  function Fold(f: Transform, s: Digest4, data: Bytes): Digest4
    decreases |data|
  {
    if |data| < 64 then s else Fold(f, f(s, data[..64]), data[64..])
  }

  function Output(s: Digest4): Bytes {
    LittleEndian(s.a, 4) + LittleEndian(s.b, 4) + LittleEndian(s.c, 4) + LittleEndian(s.d, 4)
  }

  function DigestOf(f: Transform, message: Bytes): Bytes {
    Output(Fold(f, INITIAL, Padded(message)))
  }

  /** The byte of x that counts units. */
  function ByteOf(x: nat, unit: nat): Byte
    requires unit > 0
  {
    var q: nat := x / unit;
    (q % 256) as Byte
  }

  lemma QuotientTwice(x: nat, unit: nat)
    requires unit > 0
    ensures x / 256 / unit == x / (256 * unit)
  {
    var y := x / 256;
    Divide(x, 256);
    Divide(y, unit);
    var q, r := y / unit, y % unit;
    assert 256 * (unit * q) == (256 * unit) * q;
    DivisionUnique(x, 256 * unit, q, 256 * r + x % 256);
  }

  lemma HigherByte(x: nat, unit: nat)
    requires unit > 0
    ensures ByteOf(x / 256, unit) == ByteOf(x, 256 * unit)
  {
    QuotientTwice(x, unit);
  }

  lemma FourBytes(x: nat)
    ensures LittleEndian(x, 4) == [ByteOf(x, 1), ByteOf(x, 0x100), ByteOf(x, 0x1_0000), ByteOf(x, 0x100_0000)]
  {
    var y: nat := x / 256;
    var z: nat := y / 256;
    var w: nat := z / 256;
    HigherByte(x, 1);
    HigherByte(x, 0x100);
    HigherByte(x, 0x1_0000);
    HigherByte(y, 1);
    HigherByte(y, 0x100);
    HigherByte(z, 1);
    FirstByte(x);
    FirstByte(y);
    FirstByte(z);
    FirstByte(w);
    hide ByteOf;
    assert LittleEndian(w, 1) == [ByteOf(w, 1)] + LittleEndian(w / 256, 0);
    assert LittleEndian(z, 2) == [ByteOf(z, 1)] + LittleEndian(w, 1);
    assert LittleEndian(y, 3) == [ByteOf(y, 1)] + LittleEndian(z, 2);
    assert LittleEndian(x, 4) == [ByteOf(x, 1)] + LittleEndian(y, 3);
  }

  lemma FirstByte(x: nat)
    ensures ByteOf(x, 1) == (x % 256) as Byte
  {
  }

  /** The zeros between the first byte of padding and the counter. */
  function ZeroCount(n: nat): (z: nat)
    ensures z < 64
  {
    (55 - n) % 64
  }

  lemma ZerosFillUp(n: nat)
    ensures (n + 1 + ZeroCount(n) + 8) % 64 == 0
  {
    Divide(55 - n, 64);
    DivisionUnique(n + 1 + ZeroCount(n) + 8, 64, 1 - (55 - n) / 64, 0);
  }

  lemma ZerosInBlock(r: nat)
    requires r < 64
    ensures ZeroCount(r) == if r > 55 then 63 - r + 56 else 55 - r
  {
    if r > 55 {
      DivisionUnique(55 - r, 64, -1, 55 - r + 64);
    }
  }

  lemma ZerosJoin(m: nat, n: nat)
    ensures Zeros(m) + Zeros(n) == Zeros(m + n)
  {
  }

  lemma ZerosByRest(n: nat)
    ensures ZeroCount(n) == ZeroCount(n % 64)
  {
    Divide(n, 64);
    ModPlusMultiple(55 - n, 64, n / 64);
  }

  lemma PaddedToBlocks(message: Bytes)
    ensures |Padded(message)| % 64 == 0
  {
    ZerosFillUp(|message|);
    hide LittleEndian, ZeroCount;
  }

  lemma {:induction false} FoldSplit(f: Transform, s: Digest4, x: Bytes, y: Bytes)
    requires |x| % 64 == 0
    ensures Fold(f, s, x + y) == Fold(f, Fold(f, s, x), y)
    decreases |x|
  {
    if x == [] {
      assert x + y == y;
    } else {
      assert (x + y)[..64] == x[..64] && (x + y)[64..] == x[64..] + y;
      FoldSplit(f, f(s, x[..64]), x[64..], y);
    }
  }

  lemma FoldBlock(f: Transform, s: Digest4, x: Bytes, block: Bytes)
    requires |x| % 64 == 0 && |block| == 64
    ensures Fold(f, s, x + block) == f(Fold(f, s, x), block)
  {
    FoldSplit(f, s, x, block);
    assert block[..64] == block && block[64..] == [];
  }

  // ----- The 64-bit counter in two words -----

  function Low(total: nat): nat {
    (8 * total) % W32
  }

  function High(total: nat): nat {
    (8 * total) / W32 % W32
  }

  lemma CounterValue(total: nat)
    ensures (8 * total) % W64 % W32 == Low(total) && (8 * total) % W64 / W32 == High(total)
  {
    var x := 8 * total;
    var q, r := x / W64, x % W64;
    Divide(x, W64);
    var high, low := r / W32, r % W32;
    Divide(r, W32);
    DivisionUnique(x, W32, W32 * q + high, low);
    DivisionUnique(W32 * q + high, W32, q, high);
  }

  lemma TailFromCounter(total: nat)
    ensures Tail(total) == [0x80] + Zeros(ZeroCount(total)) + LittleEndian(Low(total), 4) + LittleEndian(High(total), 4)
  {
    hide Low, High, LittleEndian, Zeros;
    CounterValue(total);
  }

  /** Adding len bytes: the low word wraps, and the carry and the high bits of the length go to the high word. */
  lemma CounterStep(total: nat, len: nat, t: nat, low: nat)
    requires t == Low(total) && low == (t + (len * 8) % W32) % W32
    ensures low == Low(total + len)
    ensures ((if low < t then (High(total) + 1) % W32 else High(total)) + len / 0x2000_0000) % W32 == High(total + len)
  {
    var h, l := len / 0x2000_0000, len % 0x2000_0000;
    var u := 8 * total / W32;
    Divide(len, 0x2000_0000);
    Divide(8 * total, W32);
    DivisionUnique(8 * len, W32, h, 8 * l);
    var carry := if t + 8 * l < W32 then 0 else 1;
    var low' := t + 8 * l - W32 * carry;
    DivisionUnique(t + 8 * l, W32, carry, low');
    DivisionUnique(8 * (total + len), W32, u + h + carry, low');
    HighStep(u, h, carry);
  }

  lemma HighStep(u: nat, h: nat, carry: nat)
    requires carry <= 1
    ensures ((if carry == 1 then (u % W32 + 1) % W32 else u % W32) + h) % W32 == (u + h + carry) % W32
  {
    Divide(u, W32);
    Divide(u % W32 + 1, W32);
    if carry == 1 {
      ModPlusMultiple((u % W32 + 1) % W32 + h, W32, u / W32 + (u % W32 + 1) / W32);
    } else {
      ModPlusMultiple(u % W32 + h, W32, u / W32);
    }
  }

  lemma CountInBlock(total: nat)
    ensures Low(total) / 8 % 64 == total % 64
  {
    var u := 8 * total / W32;
    Divide(8 * total, W32);
    var w := total - 0x2000_0000 * u;
    DivisionUnique(Low(total), 8, w, 0);
    ModPlusMultiple(w, 64, 0x80_0000 * u);
  }

  class MD5Context {
    const transform: Transform
    const input: array<Byte>  // the block under way
    var buf: Digest4
    var bits0: nat
    var bits1: nat
    ghost var message: Bytes  // everything passed to MD5Update

    ghost predicate Valid()
      reads this, input
    {
      var r := |message| % 64;
      && input.Length == 64
      && bits0 == Low(|message|) && bits1 == High(|message|)
      && buf == Fold(transform, INITIAL, message[..|message|-r])
      && input[..r] == message[|message|-r..]
    }

    /** MD5Init. */
    constructor (transform: Transform)
      ensures Valid() && message == [] && fresh(input) && this.transform == transform
    {
      this.transform := transform;
      input := new Byte[64];
      buf := Digest4(0x67452301, 0xefcdab89, 0x98badcfe, 0x10325476);
      bits0, bits1 := 0, 0;
      message := [];
    }

    method Memcpy(at: nat, data: Bytes)
      requires at + |data| <= input.Length
      modifies input
      ensures input[..at] == old(input[..at]) && input[at..at+|data|] == data
      ensures input[at+|data|..] == old(input[at+|data|..])
    {
      for i := 0 to |data|
        invariant input[..at] == old(input[..at]) && input[at..at+i] == data[..i]
        invariant input[at+i..] == old(input[at+i..])
      {
        input[at+i] := data[i];
        assert input[at+i+1..] == old(input[at+i..])[1..];
      }
    }

    /** Counts the bits of len more bytes; the result is the number of bytes in the block so far. */
    method AddBits(len: nat) returns (t: nat)
      requires bits0 == Low(|message|) && bits1 == High(|message|) && len < W32
      modifies `bits0, `bits1
      ensures bits0 == Low(|message| + len) && bits1 == High(|message| + len)
      ensures t == |message| % 64
    {
      hide Low, High;
      t := bits0;
      CounterStep(|message|, len, t, (t + (len * 8) % W32) % W32);
      CountInBlock(|message|);
      bits0 := (t + (len * 8) % W32) % W32;
      if bits0 < t {
        bits1 := (bits1 + 1) % W32;
      }
      bits1 := (bits1 + len / 0x2000_0000) % W32;
      t := t / 8 % 64;
    }

    /** buf has taken in the first p bytes of m, and rest is what follows. */
    ghost predicate TakenIn(m: Bytes, rest: Bytes)
      reads `buf
    {
      var p := |m| - |rest|;
      0 <= p && p % 64 == 0 && m[p..] == rest && buf == Fold(transform, INITIAL, m[..p])
    }

    lemma TakenInMore(m: Bytes, rest: Bytes, tail: Bytes)
      requires TakenIn(m, rest)
      ensures TakenIn(m + tail, rest + tail)
    {
      hide Fold;
      assert (m + tail)[|m|-|rest|..] == rest + tail;
      assert (m + tail)[..|m|-|rest|] == m[..|m|-|rest|];
    }

    /** MD5Transform on the block in the buffer, which continues m. */
    method TransformInput(ghost m: Bytes, ghost block: Bytes, ghost rest: Bytes)
      requires TakenIn(m, block + rest) && input.Length == 64 && input[..] == block
      modifies `buf
      ensures TakenIn(m, rest)
    {
      ghost var p := |m| - |block + rest|;
      assert m[p..] == block + rest;
      assert m[..p+64] == m[..p] + block && m[p+64..] == rest;
      FoldBlock(transform, INITIAL, m[..p], block);
      buf := transform(buf, input[..]);
    }

    /** Folds the whole blocks of data into the state; fewer than 64 bytes are left over. */
    method AddChunks(ghost m: Bytes, data: Bytes) returns (ghost rest: Bytes)
      requires TakenIn(m, data) && input.Length == 64
      modifies `buf, input
      ensures TakenIn(m, rest) && |rest| < 64 && input[..|rest|] == rest
    {
      hide Fold;
      var data' := data;
      while |data'| >= 64
        invariant TakenIn(m, data')
        decreases |data'|
      {
        Memcpy(0, data'[..64]);
        assert input[..] == data'[..64] && data' == data'[..64] + data'[64..];
        TransformInput(m, data'[..64], data'[64..]);
        data' := data'[64..];
      }
      Memcpy(0, data');
      rest := data';
      assert input[..|rest|] == rest;
    }

    lemma Settled(m: Bytes, rest: Bytes)
      requires TakenIn(m, rest) && |rest| < 64 && message == m
      requires input.Length == 64 && input[..|rest|] == rest
      requires bits0 == Low(|m|) && bits1 == High(|m|)
      ensures Valid()
    {
      hide Fold, Low, High;
      assert |rest| == |m| % 64;
    }

    /** Adds the bytes to the message, in whatever pieces they come. */
    method MD5Update(data: Bytes)
      requires Valid() && |data| < W32
      modifies this, input
      ensures Valid() && message == old(message) + data
    {
      ghost var m := message + data;
      ghost var begun := Opened();
      hide Fold, Low, High, Valid, TakenIn;
      var t := AddBits(|data|);
      TakenInMore(message, begun, data);
      message := m;
      var data' := data;
      if t != 0 {
        var room := 64 - t;
        if |data| < room {
          Memcpy(t, data);
          assert input[..t+|data|] == input[..t] + input[t..t+|data|];
          Settled(m, begun + data);
          return;
        }
        Memcpy(t, data[..room]);
        ghost var block := begun + data[..room];
        assert input[..] == input[..t] + input[t..t+room];
        assert data == data[..room] + data[room..];
        Regroup(begun, data[..room], data[room..]);
        TransformInput(m, block, data[room..]);
        data' := data[room..];
      } else {
        assert begun + data == data;
      }
      ghost var rest := AddChunks(m, data');
      Settled(m, rest);
    }

    /** What of the message is still in the buffer. */
    lemma Opened() returns (begun: Bytes)
      requires Valid()
      ensures input.Length == 64 && bits0 == Low(|message|) && bits1 == High(|message|)
      ensures |begun| == |message| % 64 && input[..|begun|] == begun && TakenIn(message, begun)
    {
      hide Fold, Low, High;
      var r := |message| % 64;
      Divide(|message|, 64);
      begun := message[|message|-r..];
      DivisionUnique(|message| - r, 64, |message| / 64, 0);
    }

    method PutU32(data: nat, addr: nat)
      requires data < W32 && addr + 4 <= input.Length
      modifies input
      ensures input[..] == old(input[..addr]) + LittleEndian(data, 4) + old(input[addr+4..])
    {
      hide LittleEndian;
      input[addr] := ByteOf(data, 1);
      input[addr+1] := ByteOf(data, 0x100);
      input[addr+2] := ByteOf(data, 0x1_0000);
      input[addr+3] := ByteOf(data, 0x100_0000);
      FourBytes(data);
      hide ByteOf;
    }

    /** The first byte of padding and zeros up to byte 56, through a second block if the first one is too full. */
    method Pad(r: nat, ghost m: Bytes, ghost rest: Bytes, ghost counter: Bytes)
      requires input.Length == 64 && r < 64 && input[..r] == rest && |rest| == r && |counter| == 8
      requires TakenIn(m, rest + [0x80] + Zeros(ZeroCount(r)) + counter)
      modifies `buf, input
      ensures TakenIn(m, input[..56] + counter)
    {
      hide Fold, Zeros, ZeroCount;
      input[r] := 0x80;
      assert input[..r + 1] == rest + [0x80];
      var count := 64 - 1 - r;
      ZerosInBlock(r);
      if count < 8 {
        Memcpy(r + 1, Zeros(count));
        ghost var block := rest + [0x80] + Zeros(count);
        assert input[..] == block;
        ZerosJoin(count, 56);
        Regroup(rest + [0x80], Zeros(count), Zeros(56));
        Regroup(block, Zeros(56), counter);
        TransformInput(m, block, Zeros(56) + counter);
        Memcpy(0, Zeros(56));
        assert input[..56] == Zeros(56);
      } else {
        Memcpy(r + 1, Zeros(count - 8));
        assert input[..56] == rest + [0x80] + Zeros(count - 8);
      }
    }

    method PutCounter()
      requires input.Length == 64 && bits0 < W32 && bits1 < W32
      modifies input
      ensures input[..] == old(input[..56]) + (LittleEndian(bits0, 4) + LittleEndian(bits1, 4))
    {
      hide LittleEndian;
      ghost var front := input[..56];
      PutU32(bits0, 56);
      assert input[..60] == front + LittleEndian(bits0, 4);
      PutU32(bits1, 60);
      assert input[..] == front + LittleEndian(bits0, 4) + LittleEndian(bits1, 4);
    }

    /** The padded message starts with what the buffer and the state hold. */
    lemma StartPadding(r: nat, rest: Bytes, counter: Bytes)
      requires Valid() && r == |message| % 64 && rest == message[|message|-r..]
      requires counter == LittleEndian(bits0, 4) + LittleEndian(bits1, 4)
      ensures TakenIn(Padded(message), rest + [0x80] + Zeros(ZeroCount(r)) + counter)
    {
      hide Fold, Low, High, LittleEndian, Zeros, Tail;
      var n := |message|;
      TailFromCounter(n);
      TakenInMore(message, rest, Tail(n));
      ZerosByRest(n);
      assert rest + Tail(n) == rest + [0x80] + Zeros(ZeroCount(r)) + counter;
    }

    lemma WordsInRange(n: nat)
      ensures Low(n) < W32 && High(n) < W32
    {
    }

    /** Pads the message and returns the digest; the context is erased. */
    method MD5Final() returns (digest: Bytes)
      requires Valid()
      modifies this, input
      ensures digest == DigestOf(transform, old(message))
    {
      hide Fold, Low, High, LittleEndian, Zeros, Padded, Output;
      ghost var m := Padded(message);
      CountInBlock(|message|);
      WordsInRange(|message|);
      var count := bits0 / 8 % 64;
      ghost var rest := message[|message|-count..];
      ghost var counter := LittleEndian(bits0, 4) + LittleEndian(bits1, 4);
      StartPadding(count, rest, counter);
      Pad(count, m, rest, counter);
      ghost var front := input[..56];
      PutCounter();
      assert front + counter == input[..] + [];
      TransformInput(m, input[..], []);
      assert m[..|m|] == m;
      digest := Output(buf);
      buf := Digest4(0, 0, 0, 0);
      bits0, bits1 := 0, 0;
      Memcpy(0, Zeros(64));
    }
  }

  function Flatten(parts: seq<Bytes>): Bytes {
    if parts == [] then [] else Flatten(parts[..|parts|-1]) + parts[|parts|-1]
  }

  /** However a message is cut into pieces, the digest is that of the whole message. */
  method DigestOfParts(transform: Transform, parts: seq<Bytes>) returns (digest: Bytes)
    requires forall p | p in parts :: |p| < W32
    ensures digest == DigestOf(transform, Flatten(parts))
  {
    var ctx := new MD5Context(transform);
    for i := 0 to |parts|
      invariant ctx.Valid() && ctx.message == Flatten(parts[..i])
    {
      ctx.MD5Update(parts[i]);
      assert parts[..i+1][..i] == parts[..i];
    }
    assert parts[..|parts|] == parts;
    digest := ctx.MD5Final();
  }

  // ----- What the digest is, byte by byte -----

  /** What byte k of a number counts, from the lowest. */
  function Unit(k: nat): (u: nat)
    ensures u > 0
  {
    if k == 0 then 1 else 0x100 * Unit(k - 1)
  }

  lemma {:induction false} LittleEndianAt(x: nat, n: nat, k: nat)
    requires k < n
    ensures LittleEndian(x, n)[k] as nat == x / Unit(k) % 0x100
  {
    if k > 0 {
      LittleEndianAt(x / 0x100, n - 1, k - 1);
      QuotientTwice(x, Unit(k - 1));
    }
  }

  /** The low and the high bytes of a number. */
  lemma {:induction false} LittleEndianSplits(x: nat, m: nat, n: nat, low: nat, high: nat)
    requires x == Unit(m) * high + low && low < Unit(m)
    ensures LittleEndian(low, m) + LittleEndian(high, n) == LittleEndian(x, m + n)
  {
    if m > 0 {
      var u, q, r := Unit(m - 1), low / 0x100, low % 0x100;
      Divide(low, 0x100);
      LowerUnits(x, u, high, q, r);
      LittleEndianSplits(x / 0x100, m - 1, n, q, high);
    }
  }

  lemma LowerUnits(x: nat, u: nat, high: nat, q: nat, r: nat)
    requires x == (0x100 * u) * high + (0x100 * q + r) && r < 0x100 && 0x100 * q + r < 0x100 * u
    ensures x / 0x100 == u * high + q && x % 0x100 == r && q < u
  {
    assert (0x100 * u) * high == 0x100 * (u * high);
    DivisionUnique(x, 0x100, u * high + q, r);
  }

  /** The states between the blocks. */
  ghost predicate Chain(f: Transform, states: seq<Digest4>, data: Bytes) {
    && |data| == 64 * (|states| - 1)
    && forall b | 0 <= b < |states| - 1 :: states[b+1] == f(states[b], data[64 * b..64 * b + 64])
  }

  lemma {:induction false} ChainIsFold(f: Transform, states: seq<Digest4>, data: Bytes)
    requires states != [] && Chain(f, states, data)
    ensures Fold(f, states[0], data) == states[|states|-1]
  {
    if |states| > 1 {
      var more, rest := states[1..], data[64..];
      forall b | 0 <= b < |more| - 1
        ensures more[b+1] == f(more[b], rest[64 * b..64 * b + 64])
      {
        assert rest[64 * b..64 * b + 64] == data[64 * (b + 1)..64 * (b + 1) + 64];
      }
      ChainIsFold(f, more, rest);
    }
  }

  /** The padding of sections 3.1 and 3.2 of RFC 1321: one bit, as few zeros as fill up the blocks, and the number of
      bits in eight bytes, the lowest first. */
  ghost predicate IsPadded(message: Bytes, padded: Bytes) {
    var n, m := |message|, |padded|;
    && m % 64 == 0 && n + 9 <= m < n + 9 + 64
    && padded[..n] == message && padded[n] == 0x80
    && (forall k | n < k < m - 8 :: padded[k] == 0)
    && (forall k | 0 <= k < 8 :: padded[m - 8 + k] as nat == 8 * n % 0x1_0000_0000_0000_0000 / Unit(k) % 0x100)
  }

  function BitCount(n: nat): Bytes {
    LittleEndian(8 * n % 0x1_0000_0000_0000_0000, 8)
  }

  lemma BitCountAt(n: nat, count: Bytes)
    ensures count == BitCount(n) <==>
            |count| == 8 && forall k | 0 <= k < 8 ::
              count[k] as nat == 8 * n % 0x1_0000_0000_0000_0000 / Unit(k) % 0x100
  {
    hide LittleEndian, Unit;
    forall k | 0 <= k < 8
      ensures BitCount(n)[k] as nat == 8 * n % 0x1_0000_0000_0000_0000 / Unit(k) % 0x100
    {
      LittleEndianAt(8 * n % 0x1_0000_0000_0000_0000, 8, k);
    }
  }

  lemma TailIs(n: nat)
    ensures Tail(n) == [0x80] + Zeros(ZeroCount(n)) + BitCount(n)
  {
    hide LittleEndian, Unit, ZeroCount;
    var bits := (8 * n) % W64;
    Divide(bits, W32);
    FourUnits();
    LittleEndianSplits(bits, 4, 4, bits % W32, bits / W32);
    Regroup([0x80] + Zeros(ZeroCount(n)), LittleEndian(bits % W32, 4), LittleEndian(bits / W32, 4));
  }

  lemma FourUnits()
    ensures Unit(4) == W32
  {
    assert Unit(2) == 0x1_0000;
  }

  lemma PaddedHolds(message: Bytes)
    ensures IsPadded(message, Padded(message))
  {
    hide Tail, Unit, ZeroCount, BitCount;
    var n, padded := |message|, Padded(message);
    TailIs(n);
    ZerosFillUp(n);
    BitCountAt(n, BitCount(n));
    var m := n + 9 + ZeroCount(n);
    assert padded == message + [0x80] + Zeros(ZeroCount(n)) + BitCount(n) && |padded| == m;
    forall k | 0 <= k < 8
      ensures padded[m - 8 + k] as nat == 8 * n % 0x1_0000_0000_0000_0000 / Unit(k) % 0x100
    {
      assert padded[m - 8 + k] == BitCount(n)[k];
    }
  }

  lemma PaddedTail(message: Bytes, padded: Bytes)
    requires IsPadded(message, padded)
    ensures padded[|message|..] == Tail(|message|)
  {
    hide Tail, Unit, ZeroCount, BitCount;
    var n, m := |message|, |padded|;
    TailIs(n);
    ZerosFillUp(n);
    BitCountAt(n, padded[m-8..]);
    SameBlocks(m, n + 9 + ZeroCount(n), n + 9);
    assert padded[n+1..m-8] == Zeros(ZeroCount(n));
    assert padded[n..] == [padded[n]] + padded[n+1..m-8] + padded[m-8..];
  }

  /** There is exactly one such padding. */
  lemma PaddedIsPadding(message: Bytes, padded: Bytes)
    ensures IsPadded(message, padded) <==> padded == Padded(message)
  {
    PaddedHolds(message);
    hide IsPadded, Tail;
    if IsPadded(message, padded) {
      PaddedTail(message, padded);
      PaddedStarts(message, padded);
      assert padded == padded[..|message|] + padded[|message|..];
    }
  }

  lemma PaddedStarts(message: Bytes, padded: Bytes)
    requires IsPadded(message, padded)
    ensures |message| <= |padded| && padded[..|message|] == message
  {
  }

  lemma SameBlocks(x: nat, y: nat, least: nat)
    requires x % 64 == 0 && y % 64 == 0 && least <= x < least + 64 && least <= y < least + 64
    ensures x == y
  {
  }

  /**
   The digest of a message: from the four numbers of section 3.3 of RFC 1321, each block of the padded message takes
   one state to the next, and the words of the last state follow one another, each with its lowest byte first.
   */
  lemma DigestMeans(f: Transform, message: Bytes, padded: Bytes, states: seq<Digest4>)
    requires IsPadded(message, padded)
    requires states != [] && Chain(f, states, padded)
    requires states[0] == Digest4(0x6745_2301, 0xefcd_ab89, 0x98ba_dcfe, 0x1032_5476)
    ensures var digest, last := DigestOf(f, message), states[|states|-1];
            |digest| == 16 &&
            forall k | 0 <= k < 4 ::
              && digest[k] as nat == last.a / Unit(k) % 0x100
              && digest[4 + k] as nat == last.b / Unit(k) % 0x100
              && digest[8 + k] as nat == last.c / Unit(k) % 0x100
              && digest[12 + k] as nat == last.d / Unit(k) % 0x100
  {
    PaddedIsPadding(message, padded);
    ChainIsFold(f, states, padded);
    var last := states[|states|-1];
    hide Fold, Padded, LittleEndian, Unit;
    forall k | 0 <= k < 4
      ensures LittleEndian(last.a, 4)[k] as nat == last.a / Unit(k) % 0x100
      ensures LittleEndian(last.b, 4)[k] as nat == last.b / Unit(k) % 0x100
      ensures LittleEndian(last.c, 4)[k] as nat == last.c / Unit(k) % 0x100
      ensures LittleEndian(last.d, 4)[k] as nat == last.d / Unit(k) % 0x100
    {
      LittleEndianAt(last.a, 4, k);
      LittleEndianAt(last.b, 4, k);
      LittleEndianAt(last.c, 4, k);
      LittleEndianAt(last.d, 4, k);
    }
  }
}
