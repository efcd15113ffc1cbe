/** Random access to a dictzip file: chunks inflated on demand, five of them cached. */
module DictZip {
  import opened Strings
  import opened Recency

  const DICT_CACHE_SIZE := 5

  datatype DictType = DICT_TEXT | DICT_GZIP | DICT_DZIP | DICT_UNKNOWN

  datatype DictCache = DictCache(chunk: int, inBuffer: Bytes, stamp: int, count: nat)

  /** What a read yields: bytes, nothing for the other types, or an access past the chunk table. */
  datatype ReadResult = Copied(bytes: Bytes) | Untouched | PastChunkTable

  function SumOf(chunks: seq<nat>, n: nat): nat
    requires n <= |chunks|
  {
    if n == 0 then 0 else SumOf(chunks, n - 1) + chunks[n-1]
  }

  lemma {:induction false} SumMonotone(chunks: seq<nat>, m: nat, n: nat)
    requires m <= n <= |chunks|
    ensures SumOf(chunks, m) <= SumOf(chunks, n)
    decreases n
  {
    if m < n {
      SumMonotone(chunks, m, n - 1);
    }
  }

  class DictData {
    const kind: DictType
    const mapped: Bytes                // the file in memory
    const inflate: Bytes -> Bytes      // of one chunk
    const headerLength: nat
    const chunkLength: nat
    const chunks: seq<nat>             // compressed sizes
    const offsets: array<nat>
    const cache: array<DictCache>
    var stamp: int
    ghost var history: seq<int>        // the chunks accessed so far

    /** Chunk i of the text. */
    ghost function Content(i: nat): Bytes
      requires Layout() && i < |chunks|
    {
      SumMonotone(chunks, i + 1, |chunks|);
      inflate(mapped[headerLength + 1 + SumOf(chunks, i)..headerLength + 1 + SumOf(chunks, i + 1)])
    }

    /** The first n chunks of the text. */
    ghost function Text(n: nat): Bytes
      requires Layout() && n <= |chunks|
    {
      if n == 0 then [] else Text(n - 1) + Content(n - 1)
    }

    ghost predicate Layout() {
      chunkLength > 0 && headerLength + 1 + SumOf(chunks, |chunks|) <= |mapped|
    }

    /** All chunks but the last are full. */
    ghost predicate Regular() {
      Layout() && forall i | 0 <= i < |chunks| ::
        |Content(i)| <= chunkLength && (i < |chunks| - 1 ==> |Content(i)| == chunkLength)
    }

    ghost predicate OffsetsValid()
      reads offsets
    {
      Regular() && offsets.Length == |chunks|
      && forall i | 0 <= i < |chunks| :: offsets[i] == headerLength + 1 + SumOf(chunks, i)
    }

    /** A slot is empty or holds the chunk it is marked with. */
    ghost predicate SlotValid(c: DictCache)
      requires Layout()
    {
      if c.chunk == -1 then c.stamp == -1
      else 0 <= c.chunk < |chunks| && c.inBuffer == Content(c.chunk) && c.count == |c.inBuffer| && c.stamp >= 0
    }

    /** order lists the slots in use, the most recently used first; they hold the chunks of recent. */
    ghost predicate Ordered(s: seq<DictCache>, recent: seq<int>, order: seq<nat>, stamp: int) {
      && |s| == DICT_CACHE_SIZE
      && |order| == (if |recent| < DICT_CACHE_SIZE then |recent| else DICT_CACHE_SIZE)
      && (forall k | 0 <= k < |order| :: order[k] < |s| && s[order[k]].chunk == recent[k] && s[order[k]].stamp <= stamp)
      && (forall k, l | 0 <= k < l < |order| :: s[order[k]].stamp > s[order[l]].stamp)
      && (forall j | 0 <= j < |s| && j !in order :: s[j].chunk == -1)
    }

    ghost predicate CacheValid(s: seq<DictCache>, recent: seq<int>, stamp: int)
      requires Layout()
    {
      && stamp >= 0 && Distinct(recent) && -1 !in recent
      && (forall j | 0 <= j < |s| :: SlotValid(s[j]))
      && exists order :: Ordered(s, recent, order, stamp)
    }

    ghost predicate Valid()
      reads this, offsets, cache
    {
      OffsetsValid() && CacheValid(cache[..], MostRecent(history), stamp)
    }

    /** open: the offsets are the sums of the chunk sizes, and the cache is empty. */
    constructor (kind: DictType, mapped: Bytes, inflate: Bytes -> Bytes, headerLength: nat, chunkLength: nat,
                 chunks: seq<nat>)
      requires chunkLength > 0 && headerLength + 1 + SumOf(chunks, |chunks|) <= |mapped|
      ensures this.kind == kind && this.mapped == mapped && this.inflate == inflate
      ensures this.headerLength == headerLength && this.chunkLength == chunkLength && this.chunks == chunks
      ensures Layout() && (Regular() ==> Valid()) && history == [] && stamp == 0 && fresh(offsets) && fresh(cache)
    {
      this.kind, this.mapped, this.inflate := kind, mapped, inflate;
      this.headerLength, this.chunkLength, this.chunks := headerLength, chunkLength, chunks;
      offsets := new nat[|chunks|](_ => 0);
      cache := new DictCache[DICT_CACHE_SIZE](_ => DictCache(-1, [], -1, 0));
      stamp := 0;
      history := [];
      new;
      ghost var empty := cache[..];
      var offset := headerLength + 1;
      for i := 0 to |chunks|
        invariant offset == headerLength + 1 + SumOf(chunks, i)
        invariant forall k | 0 <= k < i :: offsets[k] == headerLength + 1 + SumOf(chunks, k)
        invariant cache[..] == empty && history == [] && stamp == 0
      {
        offsets[i] := offset;
        offset := offset + chunks[i];
      }
      if Regular() {
        assert Ordered(cache[..], [], [], 0);
      }
    }

    // ----- One chunk through the cache -----

    /** The slot that holds chunk i, or else the first of those with the smallest stamp. */
    method FindSlot(i: nat) returns (found: bool, target: nat)
      requires cache.Length == DICT_CACHE_SIZE
      requires forall j | 0 <= j < DICT_CACHE_SIZE :: cache[j].stamp < INT_MAX
      ensures target < DICT_CACHE_SIZE
      ensures found ==> cache[target].chunk == i
      ensures !found ==>
                forall j | 0 <= j < DICT_CACHE_SIZE :: cache[j].chunk != i && cache[target].stamp <= cache[j].stamp
    {
      found := false;
      target := 0;
      var lastStamp := INT_MAX;
      for j := 0 to DICT_CACHE_SIZE
        invariant target < DICT_CACHE_SIZE
        invariant forall k | 0 <= k < j :: cache[k].chunk != i && lastStamp <= cache[k].stamp
        invariant j > 0 ==> lastStamp == cache[target].stamp
        invariant j == 0 ==> lastStamp == INT_MAX
      {
        if cache[j].chunk == i {
          return true, j;
        }
        if cache[j].stamp < lastStamp {
          lastStamp := cache[j].stamp;
          target := j;
        }
      }
    }

    lemma SlotsDiffer(s: seq<DictCache>, recent: seq<int>, order: seq<nat>, stamp: int)
      requires Ordered(s, recent, order, stamp)
      ensures forall k, l | 0 <= k < l < |order| :: order[k] != order[l]
    {
      forall k, l | 0 <= k < l < |order|
        ensures order[k] != order[l]
      {
        assert s[order[k]].stamp > s[order[l]].stamp;
      }
    }

    /** A chunk that is found becomes the most recent one in its slot. */
    lemma HitOrdered(s: seq<DictCache>, recent: seq<int>, order: seq<nat>, a: nat, stamp: int, s': seq<DictCache>)
      requires Ordered(s, recent, order, stamp) && Distinct(recent) && a < |order|
      requires s' == s[order[a] := s[order[a]].(stamp := stamp + 1)]
      ensures Ordered(s', Touch(recent, recent[a]), ToFront(order, a), stamp + 1)
    {
      WithoutAt(recent, a);
      SlotsDiffer(s, recent, order, stamp);
      assert Touch(recent, recent[a]) == ToFront(recent, a);
      HitSlots(s, recent, order, a, stamp, s');
      var order' := ToFront(order, a);
      forall j | 0 <= j < |s| && j !in order'
        ensures s'[j].chunk == -1
      {
        ToFrontSame(order, a, j);
      }
    }

    lemma HitSlots(s: seq<DictCache>, recent: seq<int>, order: seq<nat>, a: nat, stamp: int, s': seq<DictCache>)
      requires Ordered(s, recent, order, stamp) && a < |order|
      requires forall k, l | 0 <= k < l < |order| :: order[k] != order[l]
      requires s' == s[order[a] := s[order[a]].(stamp := stamp + 1)]
      ensures forall k | 0 <= k < |order| :: var j := ToFront(order, a)[k];
                j < |s'| && s'[j].chunk == ToFront(recent, a)[k] && s'[j].stamp <= stamp + 1
      ensures forall k, l | 0 <= k < l < |order| :: s'[ToFront(order, a)[k]].stamp > s'[ToFront(order, a)[l]].stamp
    {
      ToFrontAt(order, a);
      ToFrontAt(recent, a);
      forall k | 0 <= k < |order| && k != a
        ensures s'[order[k]] == s[order[k]]
      {
      }
      forall k, l | 0 <= k < l < |order|
        ensures s'[ToFront(order, a)[k]].stamp > s'[ToFront(order, a)[l]].stamp
      {
        var l' := if l <= a then l - 1 else l;
        assert ToFront(order, a)[l] == order[l'] && l' != a;
        if k > 0 {
          var k' := if k <= a then k - 1 else k;
          assert ToFront(order, a)[k] == order[k'] && k' != a && k' < l';
        }
      }
    }

    /** A chunk that is not found takes an empty slot, or that of the least recent chunk. */
    lemma MissOrdered(s: seq<DictCache>, recent: seq<int>, order: seq<nat>, target: nat, i: int, stamp: int,
                      s': seq<DictCache>)
      requires Ordered(s, recent, order, stamp) && Distinct(recent) && target < |s|
      requires i !in recent[..|order|]
      requires if |order| < DICT_CACHE_SIZE then target !in order else target == order[DICT_CACHE_SIZE-1]
      requires |s'| == |s| && s' == s[target := s'[target]] && s'[target].chunk == i && s'[target].stamp == stamp + 1
      ensures Ordered(s', Touch(recent, i),
                      [target] + order[..if |order| < DICT_CACHE_SIZE then |order| else DICT_CACHE_SIZE - 1],
                      stamp + 1)
    {
      hide Touch, Distinct, Content, SlotValid;
      var n := if |order| < DICT_CACHE_SIZE then |order| else DICT_CACHE_SIZE - 1;
      var order', recent' := [target] + order[..n], Touch(recent, i);
      TouchFront(recent, i, |order|);
      MissSize(s, recent, order, stamp, i);
      assert |order'| == n + 1 && order'[0] == target;
      assert forall k | 0 <= k < n :: order'[k+1] == order[k];
      StillThere(s, recent, order, stamp, target, s', n);
      MissSlots(s, recent, order, n, target, stamp, s', recent', order');
      MissRest(s, recent, order, target, stamp, s', n);
    }

    lemma MissSize(s: seq<DictCache>, recent: seq<int>, order: seq<nat>, stamp: int, i: int)
      requires Ordered(s, recent, order, stamp) && |Touch(recent, i)| > |order|
      requires |recent| == |order| ==> |Touch(recent, i)| == |order| + 1
      ensures var n := if |order| < DICT_CACHE_SIZE then |order| else DICT_CACHE_SIZE - 1;
              n + 1 == if |Touch(recent, i)| < DICT_CACHE_SIZE then |Touch(recent, i)| else DICT_CACHE_SIZE
    {
      hide Touch, Content, SlotValid;
    }

    lemma StillThere(s: seq<DictCache>, recent: seq<int>, order: seq<nat>, stamp: int, target: nat,
                     s': seq<DictCache>, n: nat)
      requires Ordered(s, recent, order, stamp) && target < |s| == |s'| && n <= |order|
      requires forall j | 0 <= j < |s| && j != target :: s'[j] == s[j]
      requires if n == |order| then target !in order else n == |order| - 1 && target == order[n]
      ensures forall k | 0 <= k < n :: order[k] < |s| && s'[order[k]] == s[order[k]]
    {
      SlotsDiffer(s, recent, order, stamp);
    }

    lemma MissSlots(s: seq<DictCache>, recent: seq<int>, order: seq<nat>, n: nat, target: nat, stamp: int,
                    s': seq<DictCache>,
                    recent': seq<int>, order': seq<nat>)
      requires Ordered(s, recent, order, stamp) && n <= |order| && target < |s| == |s'| && |recent'| > n
      requires forall k | 0 <= k < n :: order[k] < |s'| && s'[order[k]] == s[order[k]]
      requires s'[target].stamp == stamp + 1 && s'[target].chunk == recent'[0]
      requires |order'| == n + 1 && order'[0] == target && forall k | 0 <= k < n :: order'[k+1] == order[k]
      requires forall k | 0 <= k < n :: recent'[k+1] == recent[k]
      ensures forall k | 0 <= k < |order'| ::
                order'[k] < |s'| && s'[order'[k]].chunk == recent'[k] && s'[order'[k]].stamp <= stamp + 1
      ensures forall k, l | 0 <= k < l < |order'| :: s'[order'[k]].stamp > s'[order'[l]].stamp
    {
      forall k | 0 <= k < |order'|
        ensures order'[k] < |s'| && s'[order'[k]].chunk == recent'[k] && s'[order'[k]].stamp <= stamp + 1
      {
        if k > 0 {
          assert order'[(k-1)+1] == order[k-1] && recent'[(k-1)+1] == recent[k-1];
        }
      }
      forall k, l | 0 <= k < l < |order'|
        ensures s'[order'[k]].stamp > s'[order'[l]].stamp
      {
        assert order'[(l-1)+1] == order[l-1];
        if k > 0 {
          assert order'[(k-1)+1] == order[k-1];
        }
      }
    }

    lemma MissRest(s: seq<DictCache>, recent: seq<int>, order: seq<nat>, target: nat, stamp: int,
                   s': seq<DictCache>, n: nat)
      requires Ordered(s, recent, order, stamp) && target < |s| == |s'| && n <= |order|
      requires n < |order| ==> n == |order| - 1 && order[n] == target
      requires forall j | 0 <= j < |s| && j != target :: s'[j] == s[j]
      ensures forall j | 0 <= j < |s| && j !in [target] + order[..n] :: s'[j].chunk == -1
    {
      forall j | 0 <= j < |s| && j !in [target] + order[..n]
        ensures s'[j].chunk == -1
      {
        assert j != ([target] + order[..n])[0];
        assert forall k | 0 <= k < n :: order[k] == ([target] + order[..n])[k+1];
        assert j !in order;
      }
    }

    /** With fewer than five chunks some slot is empty, and with five none is: which slot is replaced. */
    lemma Victim(s: seq<DictCache>, recent: seq<int>, order: seq<nat>, stamp: int, target: nat)
      requires Layout() && Ordered(s, recent, order, stamp) && -1 !in recent && target < |s|
      requires forall j | 0 <= j < |s| :: SlotValid(s[j]) && s[target].stamp <= s[j].stamp
      ensures if |order| < DICT_CACHE_SIZE then target !in order else target == order[DICT_CACHE_SIZE-1]
    {
      hide Content;
      SlotsDiffer(s, recent, order, stamp);
      Pigeonholes(order, DICT_CACHE_SIZE);
      if |order| < DICT_CACHE_SIZE {
        var j: nat :| j < DICT_CACHE_SIZE && j !in order;
        assert SlotValid(s[j]) && SlotValid(s[target]) && s[j].stamp == -1;
        assert forall k | 0 <= k < |order| :: recent[k] in recent && s[order[k]].chunk != -1;
      } else {
        assert forall k | 0 <= k < |order| - 1 :: s[order[k]].stamp > s[order[|order|-1]].stamp;
        assert target in Below(DICT_CACHE_SIZE) && target in order;
      }
    }

    lemma SlotOf(s: seq<DictCache>, recent: seq<int>, order: seq<nat>, stamp: int, target: nat) returns (a: nat)
      requires Ordered(s, recent, order, stamp) && target < |s| && s[target].chunk != -1
      ensures a < |order| && order[a] == target && recent[a] == s[target].chunk
    {
      a :| 0 <= a < |order| && order[a] == target;
    }

    lemma NotCached(s: seq<DictCache>, recent: seq<int>, order: seq<nat>, stamp: int, i: int)
      requires Ordered(s, recent, order, stamp) && forall j | 0 <= j < |s| :: s[j].chunk != i
      ensures i !in recent[..|order|]
    {
      forall k | 0 <= k < |order|
        ensures recent[k] != i
      {
        assert s[order[k]].chunk == recent[k];
      }
    }

    /** The state after slot target has become c, the most recent one. */
    lemma Renewed(s: seq<DictCache>, recent: seq<int>, order: seq<nat>, target: nat, c: DictCache,
                  s': seq<DictCache>, stamp: int)
      requires Layout() && stamp >= 0 && Distinct(recent) && -1 !in recent && c.chunk != -1
      requires |s| == |s'| && target < |s| && s' == s[target := c]
      requires (forall j | 0 <= j < |s| :: SlotValid(s[j])) && SlotValid(c)
      requires Ordered(s', Touch(recent, c.chunk), order, stamp)
      ensures CacheValid(s', Touch(recent, c.chunk), stamp)
    {
      hide Content;
      TouchKeeps(recent, c.chunk);
    }

    method Hit(i: nat, target: nat)
      requires Valid() && i < |chunks| && target < cache.Length && cache[target].chunk == i
      modifies `stamp, cache
      ensures OffsetsValid() && CacheValid(cache[..], Touch(MostRecent(history), i), stamp)
      ensures cache[target].inBuffer == Content(i) && stamp == old(stamp) + 1
    {
      hide Content, MostRecent;
      ghost var s, recent := cache[..], MostRecent(history);
      ghost var order :| Ordered(s, recent, order, stamp);
      ghost var a := SlotOf(s, recent, order, stamp, target);
      stamp := stamp + 1;
      cache[target] := cache[target].(stamp := stamp);
      HitOrdered(s, recent, order, a, stamp - 1, cache[..]);
      Renewed(s, recent, ToFront(order, a), target, cache[target], cache[..], stamp);
    }

    method Inflate(i: nat) returns (content: Bytes)
      requires OffsetsValid() && i < |chunks|
      ensures content == Content(i)
    {
      hide Content;
      ContentIs(i);
      content := inflate(mapped[offsets[i]..offsets[i] + chunks[i]]);
    }

    /** The replaced slot, as sequences. */
    lemma Replaced(s: seq<DictCache>, recent: seq<int>, stamp: int, target: nat, c: DictCache, s': seq<DictCache>)
      requires Layout() && CacheValid(s, recent, stamp) && target < |s| && |s'| == |s|
      requires forall j | 0 <= j < |s| :: s[j].chunk != c.chunk && s[target].stamp <= s[j].stamp
      requires s' == s[target := c] && SlotValid(c) && c.chunk != -1 && c.stamp == stamp + 1
      ensures CacheValid(s', Touch(recent, c.chunk), stamp + 1)
    {
      hide Content, Distinct, Touch, SlotValid, Ordered;
      var order :| Ordered(s, recent, order, stamp);
      Victim(s, recent, order, stamp, target);
      NotCached(s, recent, order, stamp, c.chunk);
      MissOrdered(s, recent, order, target, c.chunk, stamp, s');
      var n := if |order| < DICT_CACHE_SIZE then |order| else DICT_CACHE_SIZE - 1;
      Renewed(s, recent, [target] + order[..n], target, c, s', stamp + 1);
    }

    method Miss(i: nat, target: nat)
      requires Valid() && i < |chunks| && target < cache.Length
      requires forall j | 0 <= j < cache.Length :: cache[j].chunk != i && cache[target].stamp <= cache[j].stamp
      modifies `stamp, cache
      ensures OffsetsValid() && CacheValid(cache[..], Touch(MostRecent(history), i), stamp)
      ensures cache[target].inBuffer == Content(i) && stamp == old(stamp) + 1
    {
      hide Content, MostRecent, CacheValid;
      ghost var s := cache[..];
      var content := Inflate(i);
      StampsBelowLimit();
      StampPositive();
      stamp := stamp + 1;
      cache[target] := DictCache(i, content, stamp, |content|);
      Replaced(s, MostRecent(history), stamp - 1, target, cache[target], cache[..]);
    }

    lemma StampPositive()
      requires Valid()
      ensures stamp >= 0
    {
      hide Content, MostRecent, OffsetsValid;
    }

    /** The content of chunk i, through the cache. */
    method Access(i: nat) returns (inBuffer: Bytes)
      requires Valid() && i < |chunks| && stamp < INT_MAX
      modifies this, cache
      ensures Valid() && history == old(history) + [i] && stamp == old(stamp) + 1
      ensures inBuffer == Content(i)
    {
      hide Content, MostRecent, OffsetsValid, CacheValid;
      StampsBelowLimit();
      var found, target := FindSlot(i);
      if found {
        Hit(i, target);
      } else {
        Miss(i, target);
      }
      MostRecentAppend(history, i);
      history := history + [i];
      inBuffer := cache[target].inBuffer;
    }

    // ----- Reading -----

    lemma {:induction false} TextLength(n: nat)
      requires Regular() && n <= |chunks|
      ensures |Text(n)| <= n * chunkLength && (n < |chunks| ==> |Text(n)| == n * chunkLength)
    {
      hide Content;
      if n > 0 {
        TextLength(n - 1);
        NextMultiple(n - 1, chunkLength);
      }
    }

    lemma {:induction false} TextPrefix(m: nat, n: nat)
      requires Layout() && m <= n <= |chunks|
      ensures |Text(m)| <= |Text(n)| && Text(n)[..|Text(m)|] == Text(m)
      decreases n
    {
      if m < n {
        TextPrefix(m, n - 1);
      }
    }

    /** What the loop copies of chunk i. */
    function Piece(inBuffer: Bytes, i: nat, firstChunk: nat, firstOffset: nat, lastChunk: nat, lastOffset: nat): Bytes
      requires i == firstChunk ==> firstOffset <= |inBuffer| && (i == lastChunk ==> firstOffset <= lastOffset)
      requires if i == lastChunk then lastOffset <= |inBuffer| else chunkLength <= |inBuffer|
      requires firstOffset <= chunkLength
    {
      if i == firstChunk then
        if i == lastChunk then inBuffer[firstOffset..lastOffset] else inBuffer[firstOffset..chunkLength]
      else if i == lastChunk then inBuffer[..lastOffset]
      else inBuffer[..chunkLength]
    }

    /** What must be copied of the text T + C, when C is chunk i. */
    lemma PieceOf(T: Bytes, C: Bytes, start: nat, end: nat, i: nat, fc: nat, fo: nat, lc: nat, lo: nat)
      requires fo < chunkLength && lo < chunkLength && fc <= i <= lc
      requires if i == fc then start == |T| + fo else start <= |T|
      requires if i == lc then start <= end == |T| + lo <= |T| + |C| else |C| == chunkLength
      ensures i == fc == lc ==> fo <= lo
      ensures start <= |T| + |C|
      ensures var soFar := if i == fc then [] else T[start..];
              soFar + Piece(C, i, fc, fo, lc, lo) == if i == lc then (T + C)[start..end] else (T + C)[start..]
    {
    }

    /** The part of the text from start that chunk i brings. */
    lemma PieceExtends(start: nat, end: nat, i: nat, fc: nat, fo: nat, lc: nat, lo: nat)
      requires Regular() && i < |chunks| && start <= end <= |Text(|chunks|)|
      requires start == fc * chunkLength + fo && fo < chunkLength && end == lc * chunkLength + lo && lo < chunkLength
      requires fc <= i <= lc
      ensures i > fc ==> start <= |Text(i)|
      ensures i == fc == lc ==> fo <= lo
      ensures if i == lc then fo < chunkLength && lo <= |Content(i)| else |Content(i)| == chunkLength
      ensures start <= |Text(i + 1)|
      ensures var soFar := if i == fc then [] else Text(i)[start..];
              soFar + Piece(Content(i), i, fc, fo, lc, lo)
              == if i == lc then Text(|chunks|)[start..end] else Text(i + 1)[start..]
    {
      hide Content, Piece;
      var T, C := TextSplit(i);
      Multiples(fc, i, chunkLength);
      Multiples(i, lc, chunkLength);
      hide Text, Regular;
      if i == lc {
        SliceOfPrefix(Text(|chunks|), T + C, start, end);
      }
      PieceOf(T, C, start, end, i, fc, fo, lc, lo);
    }

    lemma TextSplit(i: nat) returns (T: Bytes, C: Bytes)
      requires Regular() && i < |chunks|
      ensures T == Text(i) && C == Content(i) && Text(i + 1) == T + C
      ensures |T| == i * chunkLength && |C| <= chunkLength
      ensures |C| == chunkLength || |Text(|chunks|)| == |T| + |C|
      ensures |T| + |C| <= |Text(|chunks|)| && Text(|chunks|)[..|T + C|] == T + C
    {
      hide Content;
      TextLength(i);
      TextPrefix(i + 1, |chunks|);
      T, C := Text(i), Content(i);
    }

    /** The chunks from first to the one before limit, in order. */
    function Run(first: nat, limit: nat): seq<int> {
      if limit <= first then [] else Run(first, limit - 1) + [limit - 1]
    }

    function ChunkOf(x: nat): (q: nat)
      requires Layout()
    {
      x / chunkLength
    }

    /** A read returns the bytes of the text, whatever was read before; only when it ends with a last chunk
        that is full does it go on to the entry after the last. */
    method Read(start: nat, size: nat) returns (r: ReadResult)
      requires Valid()
      requires kind == DICT_TEXT ==> start + size <= |mapped|
      requires kind == DICT_DZIP ==> start + size <= |Text(|chunks|)|
      requires kind == DICT_DZIP ==> stamp + (ChunkOf(start + size) - ChunkOf(start) + 1) <= INT_MAX
      modifies this, cache
      ensures Valid()
      ensures kind == DICT_TEXT ==> r == Copied(mapped[start..start + size])
      ensures kind == DICT_GZIP || kind == DICT_UNKNOWN ==> r == Untouched
      ensures kind == DICT_DZIP ==> r == if ChunkOf(start + size) < |chunks|
                                         then Copied(Text(|chunks|)[start..start + size]) else PastChunkTable
      ensures kind != DICT_DZIP ==> history == old(history)
      ensures r.Copied? && kind == DICT_DZIP ==>
                history == old(history) + Run(ChunkOf(start), ChunkOf(start + size) + 1)
    {
      hide Content, MostRecent, CacheValid, Text;
      match kind
      case DICT_TEXT => return Copied(mapped[start..start + size]);
      case DICT_GZIP => return Untouched;
      case DICT_UNKNOWN => return Untouched;
      case DICT_DZIP => r := ReadChunks(start, start + size);
    }

    method ReadChunks(start: nat, end: nat) returns (r: ReadResult)
      requires Valid() && start <= end <= |Text(|chunks|)|
      requires stamp + (ChunkOf(end) - ChunkOf(start) + 1) <= INT_MAX
      modifies this, cache
      ensures Valid()
      ensures r == if ChunkOf(end) < |chunks| then Copied(Text(|chunks|)[start..end]) else PastChunkTable
      ensures r.Copied? ==> history == old(history) + Run(ChunkOf(start), ChunkOf(end) + 1)
    {
      hide Content, MostRecent, CacheValid, Text, Piece;
      var firstChunk, lastChunk := ChunkOf(start), ChunkOf(end);
      var firstOffset, lastOffset := start - firstChunk * chunkLength, end - lastChunk * chunkLength;
      Quotient(start, chunkLength);
      Quotient(end, chunkLength);
      InOrder(start, end, chunkLength);
      var pt: Bytes := [];
      for i := firstChunk to lastChunk + 1
        invariant Valid() && stamp == old(stamp) + (i - firstChunk) && i - 1 < |chunks| + firstChunk
        invariant history == old(history) + Run(firstChunk, i)
        invariant i > firstChunk ==> i <= |chunks|
        invariant i == firstChunk ==> pt == []
        invariant firstChunk < i <= lastChunk ==> start <= |Text(i)| && pt == Text(i)[start..]
        invariant i == lastChunk + 1 ==> pt == Text(|chunks|)[start..end]
      {
        if i >= |chunks| {
          return PastChunkTable;
        }
        var inBuffer := Access(i);
        PieceExtends(start, end, i, firstChunk, firstOffset, lastChunk, lastOffset);
        pt := pt + Piece(inBuffer, i, firstChunk, firstOffset, lastChunk, lastOffset);
        assert Run(firstChunk, i + 1) == Run(firstChunk, i) + [i];
      }
      return Copied(pt);
    }

    lemma CachedOnce(s: seq<DictCache>, recent: seq<int>, order: seq<nat>, stamp: int)
      requires Ordered(s, recent, order, stamp) && Distinct(recent)
      ensures forall j, k | 0 <= j < k < |s| && s[j].chunk != -1 :: s[j].chunk != s[k].chunk
    {
      forall j: nat, k: nat | j < k < |s| && s[j].chunk != -1
        ensures s[j].chunk != s[k].chunk
      {
        if s[k].chunk != -1 {
          var a := SlotOf(s, recent, order, stamp, j);
          var b := SlotOf(s, recent, order, stamp, k);
        }
      }
    }

    lemma CachedIsFront(s: seq<DictCache>, recent: seq<int>, order: seq<nat>, stamp: int, c: int)
      requires Ordered(s, recent, order, stamp) && c != -1
      ensures (exists j | 0 <= j < |s| :: s[j].chunk == c) <==>
              exists k | 0 <= k < |recent| && k < DICT_CACHE_SIZE :: recent[k] == c
    {
      if j :| 0 <= j < |s| && s[j].chunk == c {
        var k := SlotOf(s, recent, order, stamp, j);
      }
      if k :| 0 <= k < |recent| && k < DICT_CACHE_SIZE && recent[k] == c {
        assert s[order[k]].chunk == c;
      }
    }

    /** The slots hold the five chunks used most recently: chunk c is cached exactly if it was accessed and
        fewer than five other chunks have been accessed since. */
    lemma CachedAreMostRecent(c: int)
      requires Valid() && c != -1
      ensures (exists j | 0 <= j < cache.Length :: cache[j].chunk == c)
              <==> c in history && |UsedSince(history, c)| < 5
      ensures forall j, k | 0 <= j < k < cache.Length && cache[j].chunk != -1 :: cache[j].chunk != cache[k].chunk
    {
      hide Content, OffsetsValid, Touch, SlotValid, Ordered, UsedSince;
      var s, recent := cache[..], MostRecent(history);
      var order :| Ordered(s, recent, order, stamp);
      hide MostRecent;
      assert forall j | 0 <= j < cache.Length :: cache[j] == s[j];
      CachedOnce(s, recent, order, stamp);
      CachedIsFront(s, recent, order, stamp, c);
      MostRecentDistinct(history);
      if c in history {
        var p := PlaceIsDistance(history, c);
        assert forall k | 0 <= k < |recent| && recent[k] == c :: k == p;
      }
    }

    /** Reading past the chunk table is reading to the end of a text of full chunks. */
    lemma PastTheTable(start: nat, size: nat)
      requires Regular() && start + size <= |Text(|chunks|)|
      ensures (start + size) / chunkLength >= |chunks| <==> start + size == |chunks| * chunkLength
    {
      hide Content, Text;
      TextLength(|chunks|);
      Quotient(start + size, chunkLength);
      Multiples((start + size) / chunkLength, |chunks|, chunkLength);
      Multiples(|chunks|, (start + size) / chunkLength, chunkLength);
    }

    /** The file was put together from these compressed chunks, behind its header. */
    ghost predicate PutTogether(header: Bytes, parts: seq<Bytes>, trailer: Bytes) {
      && |header| == headerLength + 1 && |parts| == |chunks|
      && (forall i | 0 <= i < |parts| :: |parts[i]| == chunks[i])
      && mapped == header + Joined(parts) + trailer
    }

    lemma {:induction false} JoinedSize(parts: seq<Bytes>, n: nat)
      requires n <= |parts| == |chunks| && forall i | 0 <= i < |parts| :: |parts[i]| == chunks[i]
      ensures |Joined(parts[..n])| == SumOf(chunks, n)
    {
      if n > 0 {
        JoinedSize(parts, n - 1);
        assert parts[..n][..n-1] == parts[..n-1];
      }
    }

    lemma PartIsContent(header: Bytes, parts: seq<Bytes>, trailer: Bytes, i: nat)
      requires Layout() && PutTogether(header, parts, trailer) && i < |chunks|
      ensures Content(i) == inflate(parts[i])
    {
      JoinedSize(parts, i);
      JoinedSize(parts, i + 1);
      JoinedPrefix(parts, i + 1);
      ContentIs(i);
      assert parts[..i+1][..i] == parts[..i];
      var x, y := Joined(parts[..i]), Joined(parts[..i+1]);
      assert y == x + parts[i];
      var o := headerLength + 1 + |x|;
      assert mapped[o..o + chunks[i]] == Joined(parts)[|x|..|x| + chunks[i]] == y[|x|..] == parts[i];
    }

    /** Then the text is what the chunks inflate to, one after the other. */
    lemma {:induction false} TextIsInflated(header: Bytes, parts: seq<Bytes>, trailer: Bytes, n: nat)
      requires Layout() && PutTogether(header, parts, trailer) && n <= |chunks|
      ensures |Inflated(inflate, parts)| == |parts| && Text(n) == Joined(Inflated(inflate, parts)[..n])
    {
      if n > 0 {
        TextIsInflated(header, parts, trailer, n - 1);
        PartIsContent(header, parts, trailer, n - 1);
        var contents := Inflated(inflate, parts);
        assert contents[..n][..n-1] == contents[..n-1];
      }
    }

    lemma ContentIs(i: nat)
      requires Layout() && i < |chunks|
      ensures SumOf(chunks, i + 1) <= SumOf(chunks, |chunks|)
      ensures var o := headerLength + 1 + SumOf(chunks, i); Content(i) == inflate(mapped[o..o + chunks[i]])
    {
      SumMonotone(chunks, i + 1, |chunks|);
    }

    lemma StampsBelowLimit()
      requires Valid()
      ensures cache.Length == DICT_CACHE_SIZE && forall j | 0 <= j < cache.Length :: cache[j].stamp <= stamp
    {
      hide Content, MostRecent, Distinct;
      var order :| Ordered(cache[..], MostRecent(history), order, stamp);
      BelowLimit(cache[..], MostRecent(history), order, stamp);
      assert forall j | 0 <= j < cache.Length :: cache[j] == cache[..][j];
    }

    lemma BelowLimit(s: seq<DictCache>, recent: seq<int>, order: seq<nat>, stamp: int)
      requires Layout() && stamp >= 0 && Ordered(s, recent, order, stamp) && forall j | 0 <= j < |s| :: SlotValid(s[j])
      ensures forall j | 0 <= j < |s| :: s[j].stamp <= stamp
    {
      hide Content;
      forall j | 0 <= j < |s|
        ensures s[j].stamp <= stamp
      {
        assert SlotValid(s[j]);
        if j in order {
          var k :| 0 <= k < |order| && order[k] == j;
        }
      }
    }
  }

  function Joined(parts: seq<Bytes>): Bytes {
    if parts == [] then [] else Joined(parts[..|parts|-1]) + parts[|parts|-1]
  }

  function Inflated(inflate: Bytes -> Bytes, parts: seq<Bytes>): (r: seq<Bytes>)
    ensures |r| == |parts| && forall i | 0 <= i < |r| :: r[i] == inflate(parts[i])
  {
    seq(|parts|, i requires 0 <= i < |parts| => inflate(parts[i]))
  }

  lemma {:induction false} JoinedPrefix(parts: seq<Bytes>, n: nat)
    requires n <= |parts|
    ensures Joined(parts[..n]) <= Joined(parts)
  {
    if n == |parts| {
      assert parts[..n] == parts;
    } else {
      JoinedPrefix(parts[..|parts|-1], n);
      assert parts[..|parts|-1][..n] == parts[..n];
    }
  }

  /** The smallest text that is read past its table: one full chunk of one byte. */
  method OneFullChunk() returns (r: ReadResult)
    ensures r == PastChunkTable
  {
    var d := new DictData(DICT_DZIP, [0, 7], bytes => bytes, 0, 1, [1]);
    assert SumOf([1], 0) == 0 && SumOf([1], 1) == 1;
    assert d.Content(0) == [7];
    assert d.Regular();
    assert d.Text(1) == d.Text(0) + [7];
    r := d.Read(0, 1);
  }

  lemma SliceOfPrefix(s: Bytes, p: Bytes, start: nat, end: nat)
    requires |p| <= |s| && s[..|p|] == p && start <= end <= |p|
    ensures s[start..end] == p[start..end]
  {
    assert s[..|p|][start..end] == s[start..end];
  }

  lemma NextMultiple(n: nat, d: nat)
    ensures (n + 1) * d == n * d + d
  {
  }

  lemma {:induction false} Multiples(m: nat, n: nat, d: nat)
    ensures m < n ==> m * d + d <= n * d
  {
    if m < n {
      NextMultiple(n - 1, d);
      Multiples(m, n - 1, d);
    }
  }

  lemma Quotient(x: nat, d: nat)
    requires d > 0
    ensures x / d * d <= x < x / d * d + d
  {
  }

  lemma InOrder(x: nat, y: nat, d: nat)
    requires d > 0 && x <= y
    ensures x / d <= y / d
  {
    Quotient(x, d);
    Quotient(y, d);
    Multiples(y / d, x / d, d);
  }

  function ToFront<T>(s: seq<T>, a: nat): (r: seq<T>)
    requires a < |s|
    ensures |r| == |s|
  {
    [s[a]] + (s[..a] + s[a+1..])
  }

  lemma MostRecentAppend(history: seq<int>, i: int)
    ensures MostRecent(history + [i]) == Touch(MostRecent(history), i)
  {
    assert (history + [i])[..|history|] == history;
  }

  lemma TouchKeeps(s: seq<int>, i: int)
    requires Distinct(s) && -1 !in s && i != -1
    ensures Distinct(Touch(s, i)) && -1 !in Touch(s, i)
  {
    TouchDistinct(s, i);
  }

  lemma ToFrontAt<T>(s: seq<T>, a: nat)
    requires a < |s|
    ensures forall k | 0 <= k < |s| :: ToFront(s, a)[k] == s[if k == 0 then a else if k <= a then k - 1 else k]
  {
  }

  lemma ToFrontSame<T>(s: seq<T>, a: nat, x: T)
    requires a < |s|
    ensures x in ToFront(s, a) <==> x in s
  {
    assert s == s[..a] + [s[a]] + s[a+1..];
  }

  /** Touching an item that is not among the first n keeps these in place behind it. */
  lemma TouchFront(s: seq<int>, c: int, n: nat)
    requires Distinct(s) && n <= |s| && c !in s[..n]
    ensures |Touch(s, c)| > n && Touch(s, c)[0] == c
    ensures forall k | 0 <= k < n :: Touch(s, c)[k+1] == s[k]
    ensures |s| == n ==> |Touch(s, c)| == n + 1
  {
    if c in s {
      var r :| 0 <= r < |s| && s[r] == c;
      assert forall k | 0 <= k < n :: s[..n][k] == s[k];
      WithoutAt(s, r);
    } else {
      WithoutAbsent(s, c);
    }
  }

  const INT_MAX := 0x7fff_ffff

  function Below(n: nat): (r: set<nat>)
    ensures forall j: nat :: j in r <==> j < n
  {
    if n == 0 then {} else Below(n - 1) + {n - 1}
  }

  function Entries(order: seq<nat>): (r: set<nat>)
    ensures forall j :: j in r <==> j in order
  {
    if order == [] then {} else {order[0]} + Entries(order[1..])
  }

  /** Fewer than n different numbers below n leave one out; n of them leave none. */
  lemma Pigeonholes(order: seq<nat>, n: nat)
    requires forall k | 0 <= k < |order| :: order[k] < n
    requires forall k, l | 0 <= k < l < |order| :: order[k] != order[l]
    ensures |order| < n ==> exists j: nat :: j < n && j !in order
    ensures |order| == n ==> forall j | j in Below(n) :: j in order
  {
    CountDistinct(order);
    CountBelow(n);
    assert Entries(order) <= Below(n);
    SubsetSize(Entries(order), Below(n));
    if |order| < n {
      assert Entries(order) != Below(n);
      var j :| j in Below(n) && j !in Entries(order);
    }
  }

  lemma {:induction false} CountDistinct(order: seq<nat>)
    requires forall k, l | 0 <= k < l < |order| :: order[k] != order[l]
    ensures |Entries(order)| == |order|
  {
    if order != [] {
      var rest := order[1..];
      forall k, l | 0 <= k < l < |rest|
        ensures rest[k] != rest[l]
      {
        assert order[k+1] != order[l+1];
      }
      CountDistinct(rest);
      assert order[0] !in rest;
    }
  }

  lemma {:induction false} CountBelow(n: nat)
    ensures |Below(n)| == n
  {
    if n > 0 {
      CountBelow(n - 1);
      var s: set<nat> := Below(n - 1);
      assert n - 1 !in s;
      assert |s + {n - 1}| == |s| + 1;
    }
  }

  lemma SubsetSize<T>(x: set<T>, y: set<T>)
    requires x <= y
    ensures |x| <= |y| && (|x| == |y| ==> x == y)
  {
    assert y == x + (y - x);
  }
}
