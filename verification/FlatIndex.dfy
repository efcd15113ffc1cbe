/** The flat index: the whole file in memory, and one pointer per record. */
module FlatIndex {
  import opened Strings
  import opened Words
  import opened WordList
  import opened IndexFile

  class WordlistIndex {
    const idxdatabuf: Bytes
    const wordcount: nat
    const wordlist: array<nat>   // where the keys start
    var wordentry_offset: nat
    var wordentry_size: nat

    ghost predicate Valid()
      reads wordlist
    {
      && wordcount > 0 && Complete(idxdatabuf, wordcount) && wordlist.Length == wordcount + 1
      && forall i | 0 <= i <= wordcount :: wordlist[i] == Start(idxdatabuf, i)
    }

    function Entries(): (entries: seq<Entry>)
      requires Complete(idxdatabuf, wordcount)
      ensures |entries| == wordcount
    {
      Parse(idxdatabuf, wordcount)
    }

    /** load. */
    constructor (file: Bytes, wc: nat)
      requires wc > 0 && Complete(file, wc)
      ensures Valid() && idxdatabuf == file && wordcount == wc
    {
      idxdatabuf, wordcount := file, wc;
      wordlist := new nat[wc + 1](_ => 0);
      wordentry_offset, wordentry_size := 0, 0;
      new;
      FillList();
    }

    method FillList()
      requires Complete(idxdatabuf, wordcount) && wordlist.Length == wordcount + 1
      modifies wordlist
      ensures forall i | 0 <= i <= wordcount :: wordlist[i] == Start(idxdatabuf, i)
    {
      hide Complete, StrEnd, Start, Parse;
      StartsAtZero(idxdatabuf);
      var p1 := 0;
      for i := 0 to wordcount
        invariant p1 == Start(idxdatabuf, i) && forall k | 0 <= k < i :: wordlist[k] == Start(idxdatabuf, k)
      {
        ParseAt(idxdatabuf, wordcount, i);
        wordlist[i] := p1;
        p1 := p1 + (StrEnd(idxdatabuf, p1) - p1) + 1 + 2 * 4;
      }
      wordlist[wordcount] := p1;
    }

    method GetKey(idx: nat) returns (key: Word)
      requires Valid() && idx < wordcount
      ensures key == Entries()[idx].key
    {
      hide Complete, StrEnd, Start;
      ParseAt(idxdatabuf, wordcount, idx);
      var p := wordlist[idx];
      key := idxdatabuf[p..StrEnd(idxdatabuf, p)];
    }

    method GetKeyAndData(idx: nat) returns (key: Word)
      requires Valid() && idx < wordcount
      modifies this`wordentry_offset, this`wordentry_size
      ensures Entry(key, wordentry_offset, wordentry_size) == Entries()[idx]
    {
      hide Complete, StrEnd, Start, Uint32, Parse;
      ParseAt(idxdatabuf, wordcount, idx);
      var p1 := StrEnd(idxdatabuf, wordlist[idx]) + 1;
      wordentry_offset := Uint32(idxdatabuf, p1);
      p1 := p1 + 4;
      wordentry_size := Uint32(idxdatabuf, p1);
      key := GetKey(idx);
    }

    method Lookup(cmp: Comparator, pm: PrefixMatch, str: Word) returns (found: bool, idx: int, idx_suggest: int)
      requires Valid() && TotalOrder(cmp) && Sorted(cmp, Keys(Entries()))
      ensures Located(cmp, Keys(Entries()), str, found, idx)
      ensures idx_suggest == Suggestion(pm, str, Keys(Entries()), found, idx)
    {
      hide TotalOrder, Sorted, Complete, Start, StrEnd;
      found, idx, idx_suggest := FlatLookup(cmp, pm, Keys(Entries()), str);
    }
  }
}
