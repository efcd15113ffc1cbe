/** The paged index: an offset table with one entry per 32 records, and one cached page. */
module PagedIndex {
  import opened Strings
  import opened Words
  import opened WordList
  import opened IndexFile

  /** Records on page p of an index of wc records. */
  function PageCount(wc: nat, p: nat): nat
    requires wc > 0
  {
    if p == (wc - 1) / ENTR_PER_PAGE && wc % ENTR_PER_PAGE != 0 then wc % ENTR_PER_PAGE else ENTR_PER_PAGE
  }

  function FirstOf(wc: nat, p: nat): nat {
    if p * ENTR_PER_PAGE < wc then p * ENTR_PER_PAGE else wc
  }

  lemma PageBounds(wc: nat, p: nat)
    requires wc > 0 && p <= (wc - 1) / 32
    ensures FirstOf(wc, p) == p * 32
    ensures FirstOf(wc, p + 1) == p * 32 + PageCount(wc, p) <= wc
    ensures 0 < PageCount(wc, p) <= 32
  {
  }

  class OffsetIndex {
    const file: Bytes
    const wordcount: nat
    const npages: nat
    const wordoffset: array<nat>
    const entries: array<Entry>  // of the cached page; stale beyond its count
    ghost const flat: seq<Entry>  // the records, scanned from the front
    var page_idx: int
    var wordentry_offset: nat
    var wordentry_size: nat
    var first: Word
    var last: Word
    var middle: Word
    var real_last: Word

    ghost predicate Shape() {
      && wordcount > 0 && Complete(file, wordcount) && flat == Parse(file, wordcount)
      && (forall i | 0 <= i < wordcount :: |flat[i].key| < MAX_INDEX_KEY_SIZE)
      && npages == (wordcount - 1) / ENTR_PER_PAGE + 2
      && wordoffset.Length == npages && entries.Length == ENTR_PER_PAGE
    }

    ghost predicate TableValid()
      reads wordoffset
    {
      Shape() && forall p | 0 <= p < npages :: wordoffset[p] == Start(file, FirstOf(wordcount, p))
    }

    ghost predicate PageValid()
      reads `page_idx, entries
    {
      page_idx == -1 ||
      (0 <= page_idx <= npages - 2 && Shape()
       && forall k | 0 <= k < PageCount(wordcount, page_idx) ::
            page_idx * ENTR_PER_PAGE + k < wordcount && entries[k] == flat[page_idx * ENTR_PER_PAGE + k])
    }

    ghost function FirstKey(p: nat): Word
      requires Shape() && p <= npages - 2
    {
      PageBounds(wordcount, p);
      flat[p * ENTR_PER_PAGE].key
    }

    ghost predicate Valid()
      reads this, wordoffset, entries
    {
      && TableValid() && PageValid()
      && first == FirstKey(0) && last == FirstKey(npages - 2) && middle == FirstKey((npages - 2) / 2)
      && real_last == flat[wordcount-1].key
    }

    /** load: one scan of the buffer fills the offset table, then the boundary keys are read. */
    constructor (file: Bytes, wc: nat)
      requires wc > 0 && Complete(file, wc)
      requires forall i | 0 <= i < wc :: |Parse(file, wc)[i].key| < MAX_INDEX_KEY_SIZE
      ensures Valid() && this.file == file && this.wordcount == wc && flat == Parse(file, wc)
    {
      this.file, this.wordcount, this.flat := file, wc, Parse(file, wc);
      npages := (wc - 1) / ENTR_PER_PAGE + 2;
      wordoffset := new nat[(wc - 1) / ENTR_PER_PAGE + 2](_ => 0);
      entries := new Entry[ENTR_PER_PAGE](_ => Entry([], 0, 0));
      page_idx := -1;
      wordentry_offset, wordentry_size := 0, 0;
      first, last, middle, real_last := [], [], [], [];
      new;
      hide Complete, Parse;
      FillTable();
      ReadBoundaryKeys();
    }

    method ReadBoundaryKeys()
      requires TableValid() && PageValid()
      modifies this, entries
      ensures Valid()
    {
      hide Complete, Parse, Start;
      first := ReadFirstOnPageKey(0);
      last := ReadFirstOnPageKey(npages - 2);
      middle := ReadFirstOnPageKey((npages - 2) / 2);
      real_last := GetKey(wordcount - 1);
    }

    method FillTable()
      requires Shape()
      modifies wordoffset
      ensures TableValid()
    {
      hide Complete, Parse, StrEnd, Record, Start;
      ParseAt(file, wordcount, 0);
      StartsAtZero(file);
      var p1, j := 0, 0;
      for i := 0 to wordcount
        invariant p1 == Start(file, i) && i <= j * ENTR_PER_PAGE < i + ENTR_PER_PAGE
        invariant forall p | 0 <= p < j :: wordoffset[p] == Start(file, p * ENTR_PER_PAGE)
      {
        ParseAt(file, wordcount, i);
        var index_size := StrEnd(file, p1) - p1 + 1 + 8;
        if i % ENTR_PER_PAGE == 0 {
          wordoffset[j] := p1;
          j := j + 1;
        }
        p1 := p1 + index_size;
      }
      wordoffset[j] := p1;
    }

    /** Record k of page p lies in the bytes of the page. */
    lemma RecordInPage(p: nat, k: nat)
      requires TableValid() && p <= npages - 2 && k < PageCount(wordcount, p)
      ensures var i := p * ENTR_PER_PAGE + k;
              && i < wordcount && flat[i] == Record(file, Start(file, i))
              && wordoffset[p] <= Start(file, i)
              && After(file, Start(file, i)) == Start(file, i + 1) <= wordoffset[p+1] <= |file|
    {
      hide StrEnd, Record, Start, Complete, Parse, After;
      PageBounds(wordcount, p);
      var a, b := FirstOf(wordcount, p), FirstOf(wordcount, p + 1);
      StartMonotone(file, a, a + k);
      StartMonotone(file, a + k + 1, b);
      ParseAt(file, wordcount, a + k);
      ParseAt(file, wordcount, b - 1);
    }

    /** The first key of a page, read through a buffer of at most 264 bytes. */
    method ReadFirstOnPageKey(page: nat) returns (key: Word)
      requires TableValid() && page <= npages - 2
      ensures key == FirstKey(page)
    {
      hide Complete, Parse, Start, StrEnd;
      PageBounds(wordcount, page);
      RecordInPage(page, 0);
      var off := wordoffset[page];
      var page_size := wordoffset[page+1] - off;
      var minsize := 256 + 8;
      if page_size < minsize {
        minsize := page_size;
      }
      WindowEnd(file, off, off + minsize, off);
      var wordentry_buf := file[off..off+minsize];
      key := wordentry_buf[..StrEnd(wordentry_buf, 0)];
    }

    method Fill(data: Bytes, nent: nat, page: nat)
      requires TableValid() && page <= npages - 2 && nent == PageCount(wordcount, page)
      requires wordoffset[page] <= wordoffset[page+1] <= |file| && data == file[wordoffset[page]..wordoffset[page+1]]
      modifies this`page_idx, entries
      ensures page_idx == page && PageValid()
    {
      hide Complete, Parse, Start, StrEnd, Record, Uint32, After;
      page_idx := page;
      PageBounds(wordcount, page);
      RecordInPage(page, 0);
      ghost var base := page * ENTR_PER_PAGE;
      assert wordoffset[page] == Start(file, base);
      var p := 0;
      for i := 0 to nent
        invariant page_idx == page && p + wordoffset[page] == Start(file, base + i)
        invariant forall k | 0 <= k < i :: base + k < wordcount && entries[k] == flat[base + k]
      {
        RecordInPage(page, i);
        WindowRecord(file, wordoffset[page], wordoffset[page+1], p + wordoffset[page]);
        var e: Entry;
        e, p := ReadRecord(data, p);
        entries[i] := e;
      }
    }

    /** One record through the moving pointer p. */
    method ReadRecord(data: Bytes, p0: nat) returns (e: Entry, p: nat)
      requires p0 <= |data| && After(data, p0) <= |data|
      ensures e == Record(data, p0) && p == After(data, p0)
    {
      hide StrEnd;
      p := p0;
      var len := StrEnd(data, p) - p;
      var keystr := data[p..p+len];
      p := p + len + 1;
      var off := Uint32(data, p);
      p := p + 4;
      var size := Uint32(data, p);
      p := p + 4;
      e := Entry(keystr, off, size);
    }

    method LoadPage(page: nat) returns (nentr: nat)
      requires TableValid() && PageValid() && page <= npages - 2
      modifies this`page_idx, entries
      ensures nentr == PageCount(wordcount, page) && page_idx == page && PageValid()
    {
      hide Complete, Parse, Start;
      nentr := ENTR_PER_PAGE;
      if page == npages - 2 {
        nentr := wordcount % ENTR_PER_PAGE;
        if nentr == 0 {
          nentr := ENTR_PER_PAGE;
        }
      }
      if page != page_idx {
        RecordInPage(page, 0);
        var page_data := file[wordoffset[page]..wordoffset[page+1]];
        Fill(page_data, nentr, page);
      }
    }

    /** After any sequence of page loads, the record that scanning the whole file finds. */
    method GetKey(idx: nat) returns (key: Word)
      requires TableValid() && PageValid() && idx < wordcount
      modifies this`page_idx, this`wordentry_offset, this`wordentry_size, entries
      ensures PageValid() && page_idx == idx / ENTR_PER_PAGE
      ensures Entry(key, wordentry_offset, wordentry_size) == flat[idx]
    {
      hide Complete, Parse, Start;
      var nentr := LoadPage(idx / ENTR_PER_PAGE);
      var idx_in_page := idx % ENTR_PER_PAGE;
      assert idx / ENTR_PER_PAGE * ENTR_PER_PAGE + idx_in_page == idx;
      PageBounds(wordcount, idx / ENTR_PER_PAGE);
      var e := entries[idx_in_page];
      assert e == flat[idx];
      wordentry_offset := e.off;
      wordentry_size := e.size;
      key := e.key;
    }

    // ----- Lookup in two stages: among the first keys of the pages, then on one page -----

    ghost function Keys(): (keys: seq<Word>)
      ensures |keys| == |flat|
    {
      IndexFile.Keys(flat)
    }

    method GetFirstOnPageKey(page: nat) returns (key: Word)
      requires Valid() && page <= npages - 2
      ensures key == FirstKey(page)
    {
      hide Complete, Parse, Start;
      var middle_idx := (npages - 2) / 2;
      if page < middle_idx {
        if page == 0 {
          return first;
        }
        key := ReadFirstOnPageKey(page);
      } else if page > middle_idx {
        if page == npages - 2 {
          return last;
        }
        key := ReadFirstOnPageKey(page);
      } else {
        key := middle;
      }
    }

    lemma FirstKeyIsKey(page: nat)
      requires Shape() && page <= npages - 2
      ensures page * ENTR_PER_PAGE < wordcount == |Keys()| && FirstKey(page) == Keys()[page * ENTR_PER_PAGE]
    {
      PageBounds(wordcount, page);
    }

    /** The page whose first key is str, or the last page whose first key is smaller. */
    method LookupPage(cmp: Comparator, str: Word) returns (found: bool, page: nat)
      requires Valid() && TotalOrder(cmp) && Sorted(cmp, Keys()) && cmp(str, Keys()[0]) >= 0
      ensures page <= npages - 2 && page * ENTR_PER_PAGE < wordcount
      ensures found ==> Keys()[page * ENTR_PER_PAGE] == str
      ensures !found ==> cmp(Keys()[page * ENTR_PER_PAGE], str) < 0
      ensures !found && page < npages - 2 ==>
                (page + 1) * ENTR_PER_PAGE < wordcount && cmp(Keys()[(page + 1) * ENTR_PER_PAGE], str) > 0
    {
      hide Complete, Parse, Start, Keys, FirstKey, Sorted, TotalOrder, PageValid;
      FirstKeyIsKey(0);
      OrderSigns(cmp, str, Keys()[0]);
      var iFrom, iTo := 0, npages - 2;
      while iFrom <= iTo
        invariant 0 <= iFrom <= iTo + 1 <= npages - 1
        invariant iFrom > 0 ==>
                    (iFrom - 1) * ENTR_PER_PAGE < wordcount && cmp(Keys()[(iFrom - 1) * ENTR_PER_PAGE], str) < 0
        invariant iTo < npages - 2 ==>
                    (iTo + 1) * ENTR_PER_PAGE < wordcount && cmp(Keys()[(iTo + 1) * ENTR_PER_PAGE], str) > 0
      {
        var iThisIndex := (iFrom + iTo) / 2;
        var key := GetFirstOnPageKey(iThisIndex);
        FirstKeyIsKey(iThisIndex);
        var cmpint := cmp(str, key);
        OrderSigns(cmp, str, key);
        if cmpint > 0 {
          iFrom := iThisIndex + 1;
        } else if cmpint < 0 {
          iTo := iThisIndex - 1;
        } else {
          return true, iThisIndex;
        }
      }
      return false, iTo;
    }

    lemma EntryIsKey(k: nat)
      requires PageValid() && 0 <= page_idx <= npages - 2 && k < PageCount(wordcount, page_idx)
      ensures Shape() && k < ENTR_PER_PAGE && page_idx * ENTR_PER_PAGE + k < wordcount
      ensures entries[k].key == Keys()[page_idx * ENTR_PER_PAGE + k]
    {
      PageBounds(wordcount, page_idx);
    }

    /** The place of str on the loaded page, whose first key is known to be smaller. */
    method LookupInPage(cmp: Comparator, str: Word, page: nat, nentr: nat) returns (found: bool, i: nat)
      requires PageValid() && Shape() && page_idx == page <= npages - 2 && nentr == PageCount(wordcount, page)
      requires TotalOrder(cmp) && Sorted(cmp, Keys())
      requires page * ENTR_PER_PAGE + nentr <= wordcount && nentr > 0
      requires cmp(Keys()[page * ENTR_PER_PAGE], str) < 0
      ensures found ==> i < nentr && Keys()[page * ENTR_PER_PAGE + i] == str
      ensures !found ==> 1 <= i <= nentr && cmp(Keys()[page * ENTR_PER_PAGE + i - 1], str) < 0
      ensures !found && i < nentr ==> cmp(Keys()[page * ENTR_PER_PAGE + i], str) > 0
    {
      hide Complete, Parse, Start, Sorted, TotalOrder, PageValid, TableValid, Keys;
      var iFrom, iTo := 1, nentr - 1;
      while iFrom <= iTo
        invariant 1 <= iFrom <= iTo + 1 <= nentr
        invariant cmp(Keys()[page * ENTR_PER_PAGE + iFrom - 1], str) < 0
        invariant iTo + 1 < nentr ==> cmp(Keys()[page * ENTR_PER_PAGE + iTo + 1], str) > 0
      {
        var iThisIndex := (iFrom + iTo) / 2;
        EntryIsKey(iThisIndex);
        var cmpint := cmp(str, entries[iThisIndex].key);
        OrderSigns(cmp, str, entries[iThisIndex].key);
        if cmpint > 0 {
          iFrom := iThisIndex + 1;
        } else if cmpint < 0 {
          iTo := iThisIndex - 1;
        } else {
          return true, iThisIndex;
        }
      }
      return false, iFrom;
    }

    /** The walk back over the pages; `best` need not belong to the word at i. */
    method WalkBackPaged(pm: PrefixMatch, str: Word, i: nat, best0: nat) returns (idx_suggest: int)
      requires TableValid() && PageValid() && 0 < i < wordcount
      requires page_idx == (i - 1) / ENTR_PER_PAGE
      modifies `page_idx, entries
      ensures TableValid() && PageValid()
      ensures idx_suggest == SuggestFrom(pm, str, Keys(), i, best0)
    {
      hide Complete, Parse, Start, PageValid, TableValid, Keys;
      TableGivesShape();
      idx_suggest := i;
      var best := best0;
      while idx_suggest - 1 >= 0
        invariant 0 <= idx_suggest <= i && TableValid() && PageValid()
        invariant page_idx == (idx_suggest - 1) / ENTR_PER_PAGE || idx_suggest % ENTR_PER_PAGE == 0
        invariant SuggestFrom(pm, str, Keys(), idx_suggest, best) == SuggestFrom(pm, str, Keys(), i, best0)
      {
        var iTo := idx_suggest - 1;
        TableGivesShape();
        if idx_suggest % ENTR_PER_PAGE == 0 {
          var nentr := LoadPage(iTo / ENTR_PER_PAGE);
        }
        InPage(iTo);
        EntryIsKey(iTo % ENTR_PER_PAGE);
        var back := pm(str, entries[iTo % ENTR_PER_PAGE].key);
        if back == 0 || back < best {
          return;
        }
        best := back;
        idx_suggest := iTo;
      }
    }

    lemma TableGivesShape()
      requires TableValid()
      ensures Shape() && wordcount == |Keys()|
    {
    }

    lemma InPage(i: nat)
      requires Shape() && i < wordcount
      ensures i / ENTR_PER_PAGE <= npages - 2
      ensures i % ENTR_PER_PAGE < PageCount(wordcount, i / ENTR_PER_PAGE)
      ensures i / ENTR_PER_PAGE * ENTR_PER_PAGE + i % ENTR_PER_PAGE == i
    {
      PageBounds(wordcount, i / ENTR_PER_PAGE);
    }

    method Lookup(cmp: Comparator, pm: PrefixMatch, str: Word) returns (found: bool, idx: int, idx_suggest: int)
      requires Valid() && TotalOrder(cmp) && Sorted(cmp, Keys())
      modifies `page_idx, entries
      ensures Valid()
      ensures Located(cmp, Keys(), str, found, idx)
      ensures idx_suggest == PagedSuggestion(pm, str, Keys(), found, idx)
    {
      hide Complete, Parse, Start, Keys, Sorted, TotalOrder, PageValid;
      TableGivesShape();
      FirstKeyIsKey(0);
      LastIsKey();
      OrderSigns(cmp, str, first);
      OrderSigns(cmp, str, real_last);
      if cmp(str, first) < 0 {
        AfterAll(cmp, Keys(), str, 0);
        NotFound(cmp, Keys(), str, 0);
        return false, 0, 0;
      } else if cmp(str, real_last) > 0 {
        BeforeAll(cmp, Keys(), str, wordcount - 1);
        NotFound(cmp, Keys(), str, wordcount);
        return false, INVALID_INDEX, wordcount - 1;
      }
      var page;
      found, page := LookupPage(cmp, str);
      idx := page * ENTR_PER_PAGE;
      idx_suggest := idx;
      if !found {
        found, idx, idx_suggest := LookupOnPage(cmp, pm, str, page);
      }
    }

    lemma LastIsKey()
      requires Valid()
      ensures wordcount == |Keys()| > 0 && real_last == Keys()[wordcount-1]
    {
    }

    /** The second stage: on a page whose first key is smaller than str. */
    method LookupOnPage(cmp: Comparator, pm: PrefixMatch, str: Word, page: nat)
      returns (found: bool, idx: int, idx_suggest: int)
      requires TableValid() && PageValid() && TotalOrder(cmp) && Sorted(cmp, Keys())
      requires page <= npages - 2 && page * ENTR_PER_PAGE < wordcount == |Keys()|
      requires cmp(str, Keys()[wordcount-1]) <= 0
      requires cmp(Keys()[page * ENTR_PER_PAGE], str) < 0
      requires page < npages - 2 ==>
                 (page + 1) * ENTR_PER_PAGE < wordcount && cmp(Keys()[(page + 1) * ENTR_PER_PAGE], str) > 0
      modifies `page_idx, entries
      ensures TableValid() && PageValid()
      ensures Located(cmp, Keys(), str, found, idx)
      ensures idx_suggest == PagedSuggestion(pm, str, Keys(), found, idx)
    {
      hide Complete, Parse, Start, Keys, Sorted, TotalOrder, PageValid, SuggestFrom;
      TableGivesShape();
      PageBounds(wordcount, page);
      OrderSigns(cmp, str, Keys()[wordcount-1]);
      var netr := LoadPage(page);
      var i;
      found, i := LookupInPage(cmp, str, page, netr);
      idx := page * ENTR_PER_PAGE + i;
      idx_suggest := idx;
      if !found {
        if i == netr && page == npages - 2 {
          assert false;
        }
        LocatedBetween(cmp, Keys(), str, idx);
        EntryIsKey(if i == ENTR_PER_PAGE then 0 else i);
        var best := pm(str, entries[idx_suggest % ENTR_PER_PAGE].key);
        idx_suggest := WalkBackPaged(pm, str, idx, best);
      }
    }
  }

  /**
   The suggestion of the paged lookup. The word it starts from is looked up on the page of the word
   before it, which is the wrong page when the insertion index starts a new one.
   */
  function PagedSuggestion(pm: PrefixMatch, str: Word, list: seq<Word>, found: bool, idx: int): int
    requires idx == INVALID_INDEX || 0 <= idx < |list|
  {
    if idx == INVALID_INDEX then |list| - 1
    else if found || idx == 0 then idx
    else SuggestFrom(pm, str, list, idx, pm(str, list[if idx % ENTR_PER_PAGE == 0 then idx - ENTR_PER_PAGE else idx]))
  }

  lemma LocatedIsUnique(cmp: Comparator, list: seq<Word>, str: Word, found: bool, idx: int, found': bool, idx': int)
    requires TotalOrder(cmp)
    requires Located(cmp, list, str, found, idx) && Located(cmp, list, str, found', idx')
    ensures found == found'
    ensures (forall i, j | 0 <= i < j < |list| :: list[i] != list[j]) || !found ==> idx == idx'
  {
    assert !found && idx != INVALID_INDEX ==> cmp(list[idx], str) > 0;
    assert !found && idx' != INVALID_INDEX ==> cmp(list[idx'], str) > 0;
  }

  /**
   The paged and the flat lookup of one word. They agree on whether it is there, and on its index
   unless it is there more than once. They agree on the suggestion of an absent word unless its place
   starts a page and exactly one of the two starting values lets the walk take its first step back.
   */
  lemma LookupsAgree(cmp: Comparator, pm: PrefixMatch, list: seq<Word>, str: Word,
                     found: bool, idx: int, suggest: int, found': bool, idx': int, suggest': int)
    requires TotalOrder(cmp) && |list| > 0
    requires Located(cmp, list, str, found, idx) && suggest == Suggestion(pm, str, list, found, idx)
    requires Located(cmp, list, str, found', idx') && suggest' == PagedSuggestion(pm, str, list, found', idx')
    ensures found == found'
    ensures (forall i, j | 0 <= i < j < |list| :: list[i] != list[j]) ==> idx == idx' && (found ==> suggest == suggest')
    ensures !found ==>
              idx == idx' &&
              (suggest == suggest' <==>
               idx <= 0 || idx % 32 != 0
               || var q := pm(str, list[idx-1]);
                  q == 0 || (q < pm(str, list[idx]) <==> q < pm(str, list[idx - 32])))
  {
    LocatedIsUnique(cmp, list, str, found, idx, found', idx');
  }

  // ----- An index on which the suggestions differ -----

  function CommonPrefix(a: Word, b: Word): nat {
    if a == [] || b == [] || a[0] != b[0] then 0 else 1 + CommonPrefix(a[1..], b[1..])
  }

  /** Thirty-one words from "aaa" to "abo", then "bb", and on the next page "bcde". */
  function Sample(): seq<Word> {
    seq(33, i requires 0 <= i < 33 => if i < 31 then [97, (97 + i / 16) as Byte, (97 + i % 16) as Byte]
                 else if i == 31 then [98, 98] else [98, 99, 100, 101])
  }

  /** Looking up "bcd", the flat lookup suggests "bcde" and the paged one "bb". */
  lemma SuggestionsDiffer()
    ensures var list, str := Sample(), [98, 99, 100];
            && Sorted(StardictStrcmp(), list)
            && Located(StardictStrcmp(), list, str, false, 32)
            && Suggestion(CommonPrefix, str, list, false, 32) == 32
            && PagedSuggestion(CommonPrefix, str, list, false, 32) != 32
  {
    hide StardictStrcmp, CommonPrefix, Suggestion, PagedSuggestion;
    var list, str: Word := Sample(), [98, 99, 100];
    forall i, j | 0 <= i < j < 33
      ensures StardictStrcmp()(list[i], list[j]) <= 0
    {
      SmallLetters(list[i], list[j], if j < 31 then if i / 16 == j / 16 then 2 else 1 else if i == 31 then 1 else 0);
    }
    forall i | 0 <= i < 32
      ensures StardictStrcmp()(list[i], str) < 0
    {
      SmallLetters(list[i], str, if i < 31 then 0 else 1);
    }
    assert str == list[32][..3];
    SmallLetters(str, list[32], 3);
    assert forall i | 0 <= i < 33 :: list[i] != str;
    SampleSuggestions();
  }

  lemma SampleSuggestions()
    ensures Suggestion(CommonPrefix, [98, 99, 100], Sample(), false, 32) == 32
    ensures PagedSuggestion(CommonPrefix, [98, 99, 100], Sample(), false, 32) != 32
  {
    hide SuggestFrom;
    var list, str: Word := Sample(), [98, 99, 100];
    SamplePrefixes();
    WalkStep(CommonPrefix, str, list, 32, 3);
    WalkStep(CommonPrefix, str, list, 32, 0);
  }

  lemma WalkStep(pm: PrefixMatch, str: Word, list: seq<Word>, i: nat, best: nat)
    requires 0 < i < |list|
    ensures var back := pm(str, list[i-1]);
            if back == 0 || back < best then SuggestFrom(pm, str, list, i, best) == i
            else SuggestFrom(pm, str, list, i, best) < i
  {
  }

  lemma SamplePrefixes()
    ensures CommonPrefix([98, 99, 100], Sample()[0]) == 0
    ensures CommonPrefix([98, 99, 100], Sample()[31]) == 1
    ensures CommonPrefix([98, 99, 100], Sample()[32]) == 3
  {
    var str: Word := [98, 99, 100];
    assert str[1..] == [99, 100] && str[1..][1..] == [100] && str[1..][1..][1..] == [];
    assert Sample()[31][1..] == [98];
    assert Sample()[32][1..] == [99, 100, 101] && Sample()[32][1..][1..] == [100, 101];
    assert Sample()[32][1..][1..][1..] == [101];
  }
}
