/** One sorted word list: binary search, and cursors that skip runs of equal words. */
module WordList {
  import opened Words

  const INVALID_INDEX := -100
  const UNSET_INDEX := -1

  /** The words from a cursor on. */
  ghost function Ahead(list: seq<Word>, pos: int): set<Word> {
    set k | 0 <= pos <= k < |list| :: list[k]
  }

  /** The words before the run that a cursor points into; past the end these are all words. */
  ghost function Behind(list: seq<Word>, pos: int): set<Word> {
    if pos == INVALID_INDEX then set k | 0 <= k < |list| :: list[k]
    else set k | 0 <= k < pos < |list| && list[k] != list[pos] :: list[k]
  }

  ghost predicate IsLeast(cmp: Comparator, w: Word, s: set<Word>) {
    w in s && forall v | v in s :: cmp(w, v) <= 0
  }

  ghost predicate IsGreatest(cmp: Comparator, w: Word, s: set<Word>) {
    w in s && forall v | v in s :: cmp(v, w) <= 0
  }

  lemma OrderSigns(cmp: Comparator, a: Word, b: Word)
    requires TotalOrder(cmp)
    ensures cmp(a, b) > 0 <==> cmp(b, a) < 0
    ensures cmp(a, b) < 0 <==> cmp(b, a) > 0
    ensures cmp(a, b) == 0 <==> a == b
  {
  }

  lemma Ordered(cmp: Comparator, list: seq<Word>, i: int, j: int)
    requires TotalOrder(cmp) && Sorted(cmp, list) && 0 <= i <= j < |list|
    ensures cmp(list[i], list[j]) <= 0 && cmp(list[j], list[i]) >= 0
  {
    assert cmp(list[i], list[i]) == 0;
  }

  /** The word under the cursor is the least one ahead. */
  lemma HeadIsLeast(cmp: Comparator, list: seq<Word>, pos: int)
    requires TotalOrder(cmp) && Sorted(cmp, list) && 0 <= pos < |list|
    ensures IsLeast(cmp, list[pos], Ahead(list, pos))
  {
    forall v | v in Ahead(list, pos)
      ensures cmp(list[pos], v) <= 0
    {
      var k :| pos <= k < |list| && list[k] == v;
      Ordered(cmp, list, pos, k);
    }
  }

  // ----- Lookup -----

  /** What every lookup promises about its index: at the word if it is there, else where it belongs. */
  ghost predicate Located(cmp: Comparator, list: seq<Word>, w: Word, found: bool, idx: int) {
    && (found <==> w in list)
    && (idx == INVALID_INDEX || 0 <= idx < |list|)
    && (found ==> idx != INVALID_INDEX && list[idx] == w)
    && (!found && idx == INVALID_INDEX ==> forall i | 0 <= i < |list| :: cmp(list[i], w) < 0)
    && (!found && idx != INVALID_INDEX ==>
          (forall i | 0 <= i < idx :: cmp(list[i], w) < 0) && (forall i | idx <= i < |list| :: cmp(list[i], w) > 0))
  }

  lemma LocatedSide(cmp: Comparator, list: seq<Word>, w: Word, found: bool, idx: int, k: int)
    requires TotalOrder(cmp) && Sorted(cmp, list) && Located(cmp, list, w, found, idx) && 0 <= k < |list|
    ensures cmp(list[k], w) >= 0 <==> list[k] in Ahead(list, idx)
    ensures cmp(list[k], w) < 0 <==> list[k] in Behind(list, idx)
  {
    if idx != INVALID_INDEX {
      if k <= idx {
        Ordered(cmp, list, k, idx);
      } else {
        Ordered(cmp, list, idx, k);
      }
      forall i | idx <= i < |list| && list[i] == list[k]
        ensures cmp(list[k], w) >= 0
      {
        Ordered(cmp, list, idx, i);
      }
    }
  }

  /** Everything not below w lies ahead of the located index, everything below w behind it. */
  lemma LocatedSplits(cmp: Comparator, list: seq<Word>, w: Word, found: bool, idx: int)
    requires TotalOrder(cmp) && Sorted(cmp, list) && Located(cmp, list, w, found, idx)
    ensures Ahead(list, idx) == set k | 0 <= k < |list| && cmp(list[k], w) >= 0 :: list[k]
    ensures Behind(list, idx) == set k | 0 <= k < |list| && cmp(list[k], w) < 0 :: list[k]
  {
    forall k | 0 <= k < |list|
      ensures cmp(list[k], w) >= 0 <==> list[k] in Ahead(list, idx)
      ensures cmp(list[k], w) < 0 <==> list[k] in Behind(list, idx)
    {
      LocatedSide(cmp, list, w, found, idx, k);
    }
  }

  /** How far two words agree; the source compares lower-cased characters. */
  type PrefixMatch = (Word, Word) -> nat

  /** Walks back from i while the words agree with str at least as far as before. */
  function SuggestFrom(pm: PrefixMatch, str: Word, list: seq<Word>, i: nat, best: nat): (r: nat)
    requires i < |list|
    ensures r <= i
  {
    if i == 0 then 0
    else
      var back := pm(str, list[i-1]);
      if back == 0 || back < best then i else SuggestFrom(pm, str, list, i - 1, back)
  }

  function Suggestion(pm: PrefixMatch, str: Word, list: seq<Word>, found: bool, idx: int): int
    requires idx == INVALID_INDEX || 0 <= idx < |list|
  {
    if idx == INVALID_INDEX then |list| - 1
    else if found then idx
    else SuggestFrom(pm, str, list, idx, pm(str, list[idx]))
  }

  /** The suggestion agrees with str at least as far as every word it passed, and the word before it does not. */
  lemma {:induction false} SuggestionIsBest(pm: PrefixMatch, str: Word, list: seq<Word>, i: nat)
    requires i < |list|
    ensures var r := SuggestFrom(pm, str, list, i, pm(str, list[i]));
            && (forall k | r <= k <= i :: pm(str, list[k]) <= pm(str, list[r]))
            && (r > 0 ==> pm(str, list[r-1]) == 0 || pm(str, list[r-1]) < pm(str, list[r]))
  {
    if i > 0 {
      var back := pm(str, list[i-1]);
      if back != 0 && back >= pm(str, list[i]) {
        SuggestionIsBest(pm, str, list, i - 1);
      }
    }
  }

  /** What a lookup in a sorted list suggests: the word itself, or the last word if all are smaller, or else a word at
      or before the place of the missing one that no word in between beats. */
  lemma SuggestionMeans(cmp: Comparator, pm: PrefixMatch, list: seq<Word>, str: Word, found: bool, idx: int)
    requires list != [] && Located(cmp, list, str, found, idx)
    ensures var r := Suggestion(pm, str, list, found, idx);
            && 0 <= r < |list|
            && (str in list ==> list[r] == str)
            && (str !in list && idx == INVALID_INDEX ==> r == |list| - 1)
            && (str !in list && idx != INVALID_INDEX ==>
                  && r <= idx && (forall k | r <= k <= idx :: pm(str, list[k]) <= pm(str, list[r]))
                  && (r > 0 ==> pm(str, list[r-1]) == 0 || pm(str, list[r-1]) < pm(str, list[r])))
  {
    if !found && idx != INVALID_INDEX {
      SuggestionIsBest(pm, str, list, idx);
    }
  }

  lemma BeforeAll(cmp: Comparator, list: seq<Word>, w: Word, i: int)
    requires TotalOrder(cmp) && Sorted(cmp, list) && 0 <= i < |list| && cmp(w, list[i]) > 0
    ensures forall k | 0 <= k <= i :: cmp(list[k], w) < 0
  {
    forall k | 0 <= k <= i
      ensures cmp(list[k], w) < 0
    {
      Ordered(cmp, list, k, i);
    }
  }

  lemma AfterAll(cmp: Comparator, list: seq<Word>, w: Word, i: int)
    requires TotalOrder(cmp) && Sorted(cmp, list) && 0 <= i < |list| && cmp(w, list[i]) < 0
    ensures forall k | i <= k < |list| :: cmp(list[k], w) > 0
  {
    forall k | i <= k < |list|
      ensures cmp(list[k], w) > 0
    {
      Ordered(cmp, list, i, k);
    }
  }

  /** Where a search ends, in whatever order the comparison is: at the word, or just between what compares as
      smaller and what compares as larger. */
  ghost predicate Between(cmp: Comparator, list: seq<Word>, str: Word, found: bool, idx: int) {
    if found then 0 <= idx < |list| && cmp(str, list[idx]) == 0
    else if idx == INVALID_INDEX then |list| > 0 && cmp(str, list[|list|-1]) > 0
    else 0 <= idx < |list| && cmp(str, list[idx]) < 0 && (idx > 0 ==> cmp(str, list[idx-1]) > 0)
  }

  /** The loop of the binary searches. */
  method BinarySearch(cmp: Comparator, list: seq<Word>, str: Word) returns (found: bool, i: int)
    requires |list| > 0 && cmp(str, list[|list|-1]) <= 0
    ensures Between(cmp, list, str, found, i) && i != INVALID_INDEX
  {
    var iFrom, iTo := 0, |list| - 1;
    while iFrom <= iTo
      invariant 0 <= iFrom <= iTo + 1 <= |list|
      invariant iFrom > 0 ==> cmp(str, list[iFrom-1]) > 0
      invariant iTo < |list| - 1 ==> cmp(str, list[iTo+1]) < 0
    {
      var iThisIndex := (iFrom + iTo) / 2;
      var cmpint := cmp(str, list[iThisIndex]);
      if cmpint > 0 {
        iFrom := iThisIndex + 1;
      } else if cmpint < 0 {
        iTo := iThisIndex - 1;
      } else {
        return true, iThisIndex;
      }
    }
    return false, iFrom;
  }

  method WalkBack(pm: PrefixMatch, list: seq<Word>, str: Word, i: nat, best0: nat) returns (idx_suggest: int)
    requires i < |list|
    ensures idx_suggest == SuggestFrom(pm, str, list, i, best0)
  {
    idx_suggest := i;
    var best := best0;
    while idx_suggest - 1 >= 0
      invariant 0 <= idx_suggest <= i
      invariant SuggestFrom(pm, str, list, idx_suggest, best) == SuggestFrom(pm, str, list, i, best0)
    {
      var iTo := idx_suggest - 1;
      var back := pm(str, list[iTo]);
      if back == 0 || back < best {
        return;
      }
      best := back;
      idx_suggest := iTo;
    }
  }

  lemma NotFound(cmp: Comparator, list: seq<Word>, str: Word, i: int)
    requires TotalOrder(cmp) && 0 <= i <= |list|
    requires (forall k | 0 <= k < i :: cmp(list[k], str) < 0) && forall k | i <= k < |list| :: cmp(list[k], str) > 0
    ensures str !in list
  {
    assert cmp(str, str) == 0;
  }

  lemma LocatedBetween(cmp: Comparator, list: seq<Word>, str: Word, idx: nat)
    requires TotalOrder(cmp) && Sorted(cmp, list) && 0 < idx < |list|
    requires cmp(list[idx-1], str) < 0 && cmp(list[idx], str) > 0
    ensures Located(cmp, list, str, false, idx)
  {
    OrderSigns(cmp, str, list[idx-1]);
    OrderSigns(cmp, str, list[idx]);
    BeforeAll(cmp, list, str, idx - 1);
    AfterAll(cmp, list, str, idx);
    NotFound(cmp, list, str, idx);
  }

  /** In a sorted list the place between is where the word belongs. */
  lemma BetweenLocates(cmp: Comparator, list: seq<Word>, str: Word, found: bool, idx: int)
    requires TotalOrder(cmp) && Sorted(cmp, list) && Between(cmp, list, str, found, idx)
    ensures Located(cmp, list, str, found, idx)
  {
    if found {
      OrderSigns(cmp, str, list[idx]);
    } else if idx == INVALID_INDEX {
      BeforeAll(cmp, list, str, |list| - 1);
      NotFound(cmp, list, str, |list|);
    } else {
      if idx > 0 {
        BeforeAll(cmp, list, str, idx - 1);
      }
      AfterAll(cmp, list, str, idx);
      NotFound(cmp, list, str, idx);
    }
  }

  /** Lookup in a nonempty list held in memory, with any comparison. */
  method FlatSearch(cmp: Comparator, pm: PrefixMatch, list: seq<Word>, str: Word)
    returns (found: bool, idx: int, idx_suggest: int)
    requires |list| > 0
    ensures Between(cmp, list, str, found, idx)
    ensures idx_suggest == Suggestion(pm, str, list, found, idx)
  {
    var iTo := |list| - 1;
    if cmp(str, list[0]) < 0 {
      return false, 0, 0;
    } else if cmp(str, list[iTo]) > 0 {
      return false, INVALID_INDEX, iTo;
    }
    found, idx := BinarySearch(cmp, list, str);
    idx_suggest := idx;
    if !found {
      idx_suggest := WalkBack(pm, list, str, idx, pm(str, list[idx]));
    }
  }

  /** Lookup in a sorted list. */
  method FlatLookup(cmp: Comparator, pm: PrefixMatch, list: seq<Word>, str: Word)
    returns (found: bool, idx: int, idx_suggest: int)
    requires TotalOrder(cmp) && Sorted(cmp, list) && |list| > 0
    ensures Located(cmp, list, str, found, idx)
    ensures idx_suggest == Suggestion(pm, str, list, found, idx)
  {
    hide TotalOrder, Sorted;
    found, idx, idx_suggest := FlatSearch(cmp, pm, list, str);
    BetweenLocates(cmp, list, str, found, idx);
  }

  // ----- Moving a cursor over runs of equal words -----

  /** Moves past the run at idx. */
  method GetWordNext(cmp: Comparator, list: seq<Word>, idx0: int) returns (idx: int)
    requires TotalOrder(cmp) && Sorted(cmp, list) && 0 <= idx0 < |list|
    ensures idx == INVALID_INDEX || idx0 < idx < |list|
    ensures Ahead(list, idx) == Ahead(list, idx0) - {list[idx0]}
  {
    idx := idx0;
    var cWord := list[idx];
    var found := false;
    while idx < |list| - 1
      invariant idx0 <= idx < |list|
      invariant forall k | idx0 <= k <= idx :: list[k] == cWord
      invariant !found
    {
      if list[idx+1] != cWord {
        found := true;
        break;
      }
      idx := idx + 1;
    }
    if found {
      idx := idx + 1;
      forall k | idx <= k < |list|
        ensures list[k] != cWord
      {
        Ordered(cmp, list, idx - 1, idx);
        Ordered(cmp, list, idx, k);
      }
    } else {
      idx := INVALID_INDEX;
    }
  }

  /** The last word before the run at idx, or the last word of all. */
  method GetWordPrev(cmp: Comparator, list: seq<Word>, idx: int) returns (found: bool, pidx: int)
    requires TotalOrder(cmp) && Sorted(cmp, list)
    requires |list| > 0 && (idx == INVALID_INDEX || 0 <= idx < |list|)
    ensures found <==> Behind(list, idx) != {}
    ensures found ==> 0 <= pidx < |list| && IsGreatest(cmp, list[pidx], Behind(list, idx))
    ensures found ==> Behind(list, pidx) == Behind(list, idx) - {list[pidx]}
  {
    if idx == INVALID_INDEX {
      pidx := |list| - 1;
      assert list[pidx] in Behind(list, idx);
      LastOfBehind(cmp, list, idx, pidx);
      return true, pidx;
    }
    pidx := idx;
    var cWord := list[pidx];
    found := false;
    while pidx > 0
      invariant 0 <= pidx <= idx
      invariant forall k | pidx <= k <= idx :: list[k] == cWord
      invariant !found
    {
      if list[pidx-1] != cWord {
        found := true;
        break;
      }
      pidx := pidx - 1;
    }
    if found {
      pidx := pidx - 1;
      LastOfBehind(cmp, list, idx, pidx);
    }
  }

  /** The run of words equal to the one at idx: where it starts and how long it is. */
  method GetOrigWordCount(cmp: Comparator, list: seq<Word>, idx: nat) returns (first: nat, count: nat)
    requires TotalOrder(cmp) && Sorted(cmp, list) && idx < |list|
    ensures first <= idx < first + count <= |list|
    ensures forall k | 0 <= k < |list| :: list[k] == list[idx] <==> first <= k < first + count
  {
    var cWord := list[idx];
    hide TotalOrder, Sorted;
    count := 1;
    var idx1, idx2 := idx, idx;
    while idx1 > 0 && list[idx1-1] == cWord
      invariant 0 <= idx1 <= idx && count == idx - idx1 + 1
      invariant forall k | idx1 <= k <= idx :: list[k] == cWord
    {
      count := count + 1;
      idx1 := idx1 - 1;
    }
    while idx2 < |list| - 1 && list[idx2+1] == cWord
      invariant idx <= idx2 < |list| && count == idx2 - idx1 + 1
      invariant forall k | idx <= k <= idx2 :: list[k] == cWord
    {
      count := count + 1;
      idx2 := idx2 + 1;
    }
    first := idx1;
    forall k | 0 <= k < |list| && !(idx1 <= k <= idx2)
      ensures list[k] != cWord
    {
      if k < idx1 {
        Apart(cmp, list, k, idx1 - 1, idx);
      } else {
        Apart(cmp, list, idx, idx2 + 1, k);
      }
    }
  }

  /** Words with a different one between them are different. */
  lemma Apart(cmp: Comparator, list: seq<Word>, i: nat, j: nat, k: nat)
    requires TotalOrder(cmp) && Sorted(cmp, list) && i <= j <= k < |list|
    requires list[j] != list[i] || list[j] != list[k]
    ensures list[i] != list[k]
  {
    Ordered(cmp, list, i, j);
    Ordered(cmp, list, j, k);
    OrderSigns(cmp, list[i], list[j]);
  }

  lemma LastOfBehind(cmp: Comparator, list: seq<Word>, idx: int, pidx: int)
    requires TotalOrder(cmp) && Sorted(cmp, list) && 0 <= pidx < |list|
    requires idx == INVALID_INDEX ==> pidx == |list| - 1
    requires idx != INVALID_INDEX ==> pidx < idx < |list| && list[pidx] != list[idx]
    requires idx != INVALID_INDEX ==> forall k | pidx < k <= idx :: list[k] == list[idx]
    ensures IsGreatest(cmp, list[pidx], Behind(list, idx))
    ensures Behind(list, pidx) == Behind(list, idx) - {list[pidx]}
  {
    forall k | 0 <= k <= pidx
      ensures cmp(list[k], list[pidx]) <= 0
      ensures list[k] in Behind(list, idx)
    {
      Ordered(cmp, list, k, pidx);
      if idx != INVALID_INDEX && list[k] == list[idx] {
        Ordered(cmp, list, pidx, idx);
      }
    }
  }
}
