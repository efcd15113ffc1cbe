/** The index file: records of a NUL-terminated key, an offset and a size in network byte order. */
module IndexFile {
  import opened Strings
  import opened Words

  datatype Entry = Entry(key: Word, off: nat, size: nat)

  const ENTR_PER_PAGE := 32
  const MAX_INDEX_KEY_SIZE := 256

  /** The position of the first NUL from p on, or the end. */
  function StrEnd(buf: Bytes, p: nat): (e: nat)
    ensures p <= e && (p <= |buf| ==> e <= |buf|)
    ensures e < |buf| ==> buf[e] == 0
    ensures forall k | p <= k < e && k < |buf| :: buf[k] != 0
    decreases |buf| - p
  {
    if p >= |buf| then p else if buf[p] == 0 then p else StrEnd(buf, p + 1)
  }

  function Uint32(buf: Bytes, p: nat): nat
    requires p + 4 <= |buf|
  {
    SizeOf(buf[p..p+4])
  }

  /** The first position after the record at p. */
  function After(buf: Bytes, p: nat): nat {
    StrEnd(buf, p) + 9
  }

  function Record(buf: Bytes, p: nat): Entry
    requires p <= |buf| && After(buf, p) <= |buf|
  {
    var e := StrEnd(buf, p);
    Entry(buf[p..e], Uint32(buf, e + 1), Uint32(buf, e + 5))
  }

  /** Where record i starts, found by scanning from the front. */
  function Start(buf: Bytes, i: nat): nat {
    if i == 0 then 0 else After(buf, Start(buf, i - 1))
  }

  /** The file holds wc records. */
  ghost predicate Complete(buf: Bytes, wc: nat) {
    forall i | 0 <= i < wc :: Start(buf, i) <= |buf| && After(buf, Start(buf, i)) <= |buf|
  }

  /** What scanning the whole buffer yields. */
  function Parse(buf: Bytes, wc: nat): (entries: seq<Entry>)
    requires Complete(buf, wc)
    ensures |entries| == wc
  {
    seq(wc, i requires 0 <= i < wc => Record(buf, Start(buf, i)))
  }

  function Keys(entries: seq<Entry>): (keys: seq<Word>)
    ensures |keys| == |entries|
  {
    seq(|entries|, i requires 0 <= i < |entries| => entries[i].key)
  }

  lemma {:induction false} StartMonotone(buf: Bytes, i: nat, j: nat)
    requires i <= j
    ensures Start(buf, i) <= Start(buf, j)
    ensures i < j ==> After(buf, Start(buf, i)) <= Start(buf, j)
    decreases j
  {
    if i < j {
      StartMonotone(buf, i, j - 1);
    }
  }

  lemma StartsAtZero(buf: Bytes)
    ensures Start(buf, 0) == 0
  {
  }

  lemma ParseAt(buf: Bytes, wc: nat, i: nat)
    requires Complete(buf, wc) && i < wc
    ensures Start(buf, i) <= |buf| && Start(buf, i + 1) == After(buf, Start(buf, i)) <= |buf|
    ensures Parse(buf, wc)[i] == Record(buf, Start(buf, i))
  {
  }

  /** A record reads the same in any window of the file that contains it. */
  lemma {:induction false} WindowEnd(buf: Bytes, lo: nat, hi: nat, p: nat)
    requires lo <= p <= hi <= |buf| && StrEnd(buf, p) < hi
    ensures StrEnd(buf[lo..hi], p - lo) == StrEnd(buf, p) - lo
    decreases hi - p
  {
    if buf[p] != 0 {
      WindowEnd(buf, lo, hi, p + 1);
    }
  }

  lemma Slices(buf: Bytes, lo: nat, hi: nat, a: nat, b: nat)
    requires lo <= hi <= |buf| && a <= b <= hi - lo
    ensures buf[lo..hi][a..b] == buf[lo+a..lo+b]
  {
    var x, y := buf[lo..hi][a..b], buf[lo+a..lo+b];
    forall k | 0 <= k < b - a
      ensures x[k] == y[k]
    {
      assert x[k] == buf[lo..hi][a+k] == buf[lo+a+k];
    }
    assert x == y;
  }

  lemma WindowNumber(buf: Bytes, lo: nat, hi: nat, p: nat)
    requires lo <= p && p + 4 <= hi <= |buf|
    ensures Uint32(buf[lo..hi], p - lo) == Uint32(buf, p)
  {
    hide SizeOf;
    Slices(buf, lo, hi, p - lo, p - lo + 4);
  }

  lemma WindowRecord(buf: Bytes, lo: nat, hi: nat, p: nat)
    requires lo <= p && After(buf, p) <= hi <= |buf|
    ensures p <= hi && After(buf[lo..hi], p - lo) == After(buf, p) - lo
    ensures Record(buf[lo..hi], p - lo) == Record(buf, p)
  {
    WindowEnd(buf, lo, hi, p);
    var e := StrEnd(buf, p);
    hide StrEnd, Uint32, SizeOf;
    WindowNumber(buf, lo, hi, e + 1);
    WindowNumber(buf, lo, hi, e + 5);
    Slices(buf, lo, hi, p - lo, e - lo);
    var w := buf[lo..hi];
    assert w[p-lo..e-lo] == buf[p..e];
  }

  // ----- Files as they are written -----

  /** A key that a record can hold, and numbers of 32 bits. */
  predicate Writable(e: Entry) {
    NUL !in e.key && e.off < SIZE_LIMIT && e.size < SIZE_LIMIT
  }

  /** The key with its NUL, then offset and size, the highest byte first. */
  function Written(e: Entry): Bytes
    requires Writable(e)
  {
    e.key + [NUL] + SizeBytes(e.off) + SizeBytes(e.size)
  }

  function WrittenFile(entries: seq<Entry>): Bytes
    requires forall i | 0 <= i < |entries| :: Writable(entries[i])
  {
    if entries == [] then [] else WrittenFile(entries[..|entries|-1]) + Written(entries[|entries|-1])
  }

  lemma {:induction false} EndOfKey(buf: Bytes, p: nat, n: nat)
    requires p + n < |buf| && buf[p+n] == NUL && forall k | p <= k < p + n :: buf[k] != NUL
    ensures StrEnd(buf, p) == p + n
    decreases n
  {
    if n > 0 {
      EndOfKey(buf, p + 1, n - 1);
    }
  }

  /** A record is read as it was written, whatever stands around it. */
  lemma RecordReads(before: Bytes, e: Entry, rest: Bytes)
    requires Writable(e)
    ensures var buf := before + Written(e) + rest;
            After(buf, |before|) == |before + Written(e)| && Record(buf, |before|) == e
  {
    var buf, p, n := before + Written(e) + rest, |before|, |e.key|;
    assert buf[p..p+n] == e.key && buf[p+n] == NUL;
    assert buf[p+n+1..p+n+5] == SizeBytes(e.off) && buf[p+n+5..p+n+9] == SizeBytes(e.size);
    forall k | p <= k < p + n
      ensures buf[k] != NUL
    {
      assert buf[k] == e.key[k-p];
    }
    EndOfKey(buf, p, n);
    SizeReads(e.off);
    SizeReads(e.size);
  }

  lemma RecordAsWritten(entries: seq<Entry>, rest: Bytes, i: nat)
    requires i < |entries| && forall k | 0 <= k < |entries| :: Writable(entries[k])
    ensures var buf, p := WrittenFile(entries) + rest, |WrittenFile(entries[..i])|;
            p <= |buf| && After(buf, p) == |WrittenFile(entries[..i+1])| <= |buf| && Record(buf, p) == entries[i]
  {
    var tail := RestWritten(entries, rest, i);
    RecordReads(WrittenFile(entries[..i]), entries[i], tail);
    assert entries[..i+1][..i] == entries[..i];
  }

  lemma {:induction false} StartsAsWritten(entries: seq<Entry>, rest: Bytes, i: nat)
    requires i <= |entries| && forall k | 0 <= k < |entries| :: Writable(entries[k])
    ensures Start(WrittenFile(entries) + rest, i) == |WrittenFile(entries[..i])|
  {
    hide Writable, Written, After;
    if i == 0 {
      assert WrittenFile([]) == [];
    } else {
      StartsAsWritten(entries, rest, i - 1);
      RecordAsWritten(entries, rest, i - 1);
    }
  }

  lemma {:induction false} PrefixWritten(entries: seq<Entry>, i: nat)
    requires i <= |entries| && forall k | 0 <= k < |entries| :: Writable(entries[k])
    ensures WrittenFile(entries[..i]) <= WrittenFile(entries)
  {
    if i == |entries| {
      assert entries[..i] == entries;
    } else {
      PrefixWritten(entries[..|entries|-1], i);
      assert entries[..|entries|-1][..i] == entries[..i];
    }
  }

  /** What stands behind record i. */
  lemma RestWritten(entries: seq<Entry>, rest: Bytes, i: nat) returns (tail: Bytes)
    requires i < |entries| && forall k | 0 <= k < |entries| :: Writable(entries[k])
    ensures WrittenFile(entries) + rest == WrittenFile(entries[..i]) + Written(entries[i]) + tail
  {
    PrefixWritten(entries, i + 1);
    assert entries[..i+1][..i] == entries[..i];
    var x := WrittenFile(entries[..i+1]);
    tail := WrittenFile(entries)[|x|..] + rest;
  }

  /** An index file is read as the entries it was written from, whatever stands behind them. */
  lemma WrittenIsParsed(entries: seq<Entry>, rest: Bytes)
    requires forall i | 0 <= i < |entries| :: Writable(entries[i])
    ensures var buf := WrittenFile(entries) + rest;
            Complete(buf, |entries|) && Parse(buf, |entries|) == entries
  {
    forall i | 0 <= i < |entries|
      ensures var buf := WrittenFile(entries) + rest;
              Start(buf, i) <= |buf| && After(buf, Start(buf, i)) <= |buf| && Record(buf, Start(buf, i)) == entries[i]
    {
      StartsAsWritten(entries, rest, i);
      RecordAsWritten(entries, rest, i);
    }
  }
}
