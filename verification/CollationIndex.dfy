/** The index that presents the words of a dictionary in the order of a collation. */
module CollationIndex {
  import opened Integers
  import opened Strings
  import opened Words
  import opened WordList
  import opened Collation
  import opened CollationOrder

  /** sort_collation_index: words first, then the places of equal words. */
  function IndexOrder(cmp: Comparator, keys: seq<Word>, a: nat, b: nat): int
    requires a < |keys| && b < |keys|
  {
    var x := cmp(keys[a], keys[b]);
    if x == 0 then a - b else x
  }

  ghost predicate Indexes(keys: seq<Word>, s: seq<nat>) {
    forall i | 0 <= i < |s| :: s[i] < |keys|
  }

  ghost predicate IndexesSorted(cmp: Comparator, keys: seq<Word>, s: seq<nat>)
    requires Indexes(keys, s)
  {
    forall i, j | 0 <= i < j < |s| :: IndexOrder(cmp, keys, s[i], s[j]) < 0
  }

  /** A permutation of the places of the keys. */
  ghost predicate IsPermutation(keys: seq<Word>, s: seq<nat>) {
    && |s| == |keys| && Indexes(keys, s)
    && (forall i, j | 0 <= i < j < |s| :: s[i] != s[j])
    && (forall k: nat | k < |keys| :: k in s)
  }

  lemma IndexOrderTransitive(cmp: Comparator, keys: seq<Word>, a: nat, b: nat, c: nat)
    requires TotalOrder(cmp) && a < |keys| && b < |keys| && c < |keys|
    requires IndexOrder(cmp, keys, a, b) < 0 && IndexOrder(cmp, keys, b, c) < 0
    ensures IndexOrder(cmp, keys, a, c) < 0
  {
    OrderSigns(cmp, keys[a], keys[b]);
    OrderSigns(cmp, keys[b], keys[c]);
    OrderSigns(cmp, keys[a], keys[c]);
  }

  /** Any two orders by sort_collation_index agree: it has no ties. */
  lemma IndexOrderTotal(cmp: Comparator, keys: seq<Word>, a: nat, b: nat)
    requires TotalOrder(cmp) && a < |keys| && b < |keys|
    ensures IndexOrder(cmp, keys, a, b) < 0 <==> IndexOrder(cmp, keys, b, a) > 0
    ensures IndexOrder(cmp, keys, a, b) == 0 <==> a == b
  {
    OrderSigns(cmp, keys[a], keys[b]);
  }

  /** The words in the order of an index. */
  function Presented(keys: seq<Word>, s: seq<nat>): (r: seq<Word>)
    requires forall i | 0 <= i < |s| :: s[i] < |keys|
    ensures |r| == |s| && forall i | 0 <= i < |s| :: r[i] == keys[s[i]]
  {
    seq(|s|, i requires 0 <= i < |s| => keys[s[i]])
  }

  // ----- Sorting, by insertion: it stands for the library's sort -----

  function Insert(cmp: Comparator, keys: seq<Word>, s: seq<nat>, x: nat): (r: seq<nat>)
    requires x < |keys| && forall i | 0 <= i < |s| :: s[i] < |keys|
    ensures |r| == |s| + 1
  {
    if s == [] then [x]
    else if IndexOrder(cmp, keys, x, s[0]) < 0 then [x] + s
    else [s[0]] + Insert(cmp, keys, s[1..], x)
  }

  /** The first n places in order. */
  function Sorting(cmp: Comparator, keys: seq<Word>, n: nat): (s: seq<nat>)
    requires n <= |keys|
    ensures |s| == n && forall i | 0 <= i < |s| :: s[i] < n
  {
    if n == 0 then []
    else
      var s := Sorting(cmp, keys, n - 1);
      InsertHolds(cmp, keys, s, n - 1);
      assert forall y | y in s :: y < n;
      Insert(cmp, keys, s, n - 1)
  }

  lemma {:induction false} InsertHas(cmp: Comparator, keys: seq<Word>, s: seq<nat>, x: nat, y: nat)
    requires x < |keys| && forall i | 0 <= i < |s| :: s[i] < |keys|
    ensures y in Insert(cmp, keys, s, x) <==> y in s || y == x
  {
    if s != [] {
      FirstAndRest(s);
      InPrepended(s[0], s[1..], y);
      InsertHas(cmp, keys, s[1..], x, y);
      InPrepended(s[0], Insert(cmp, keys, s[1..], x), y);
      InPrepended(x, s, y);
    }
  }

  lemma InsertHolds(cmp: Comparator, keys: seq<Word>, s: seq<nat>, x: nat)
    requires x < |keys| && forall i | 0 <= i < |s| :: s[i] < |keys|
    ensures forall y :: y in Insert(cmp, keys, s, x) <==> y in s || y == x
    ensures forall i | 0 <= i < |Insert(cmp, keys, s, x)| ::
            Insert(cmp, keys, s, x)[i] in s || Insert(cmp, keys, s, x)[i] == x
  {
    var r := Insert(cmp, keys, s, x);
    hide Insert;
    forall y: nat
      ensures y in r <==> y in s || y == x
    {
      InsertHas(cmp, keys, s, x, y);
    }
    assert forall i | 0 <= i < |r| :: r[i] in r;
  }

  lemma {:induction false} InsertSorts(cmp: Comparator, keys: seq<Word>, s: seq<nat>, x: nat)
    requires TotalOrder(cmp) && x < |keys| && x !in s && Indexes(keys, s) && IndexesSorted(cmp, keys, s)
    ensures Indexes(keys, Insert(cmp, keys, s, x)) && IndexesSorted(cmp, keys, Insert(cmp, keys, s, x))
  {
    hide TotalOrder;
    InsertHolds(cmp, keys, s, x);
    var r := Insert(cmp, keys, s, x);
    if s != [] {
      if IndexOrder(cmp, keys, x, s[0]) < 0 {
        forall i | 0 <= i < |s|
          ensures IndexOrder(cmp, keys, x, s[i]) < 0
        {
          if i > 0 {
            IndexOrderTransitive(cmp, keys, x, s[0], s[i]);
          }
        }
        Prepends(cmp, keys, x, s);
      } else {
        var rest := s[1..];
        InsertSorts(cmp, keys, rest, x);
        InsertHolds(cmp, keys, rest, x);
        IndexOrderTotal(cmp, keys, x, s[0]);
        var r' := Insert(cmp, keys, rest, x);
        forall i | 0 <= i < |r'|
          ensures IndexOrder(cmp, keys, s[0], r'[i]) < 0
        {
          if r'[i] != x {
            var k :| 0 <= k < |rest| && rest[k] == r'[i];
            assert s[k+1] == r'[i];
          }
        }
        Prepends(cmp, keys, s[0], r');
      }
    }
  }

  lemma Prepends(cmp: Comparator, keys: seq<Word>, x: nat, s: seq<nat>)
    requires x < |keys| && Indexes(keys, s) && IndexesSorted(cmp, keys, s)
    requires forall i | 0 <= i < |s| :: IndexOrder(cmp, keys, x, s[i]) < 0
    ensures Indexes(keys, [x] + s) && IndexesSorted(cmp, keys, [x] + s)
  {
  }

  /** Sorting gives a sorted permutation. */
  lemma {:induction false} SortingSorts(cmp: Comparator, keys: seq<Word>, n: nat)
    requires TotalOrder(cmp) && n <= |keys|
    ensures var s := Sorting(cmp, keys, n); Indexes(keys, s) && IndexesSorted(cmp, keys, s)
    ensures forall k: nat :: k in Sorting(cmp, keys, n) <==> k < n
  {
    hide TotalOrder;
    if n > 0 {
      var s := Sorting(cmp, keys, n - 1);
      SortingSorts(cmp, keys, n - 1);
      InsertSorts(cmp, keys, s, n - 1);
      InsertHolds(cmp, keys, s, n - 1);
    }
  }

  // ----- Sorting with any comparison -----

  lemma {:induction false} InsertDistinct(cmp: Comparator, keys: seq<Word>, s: seq<nat>, x: nat)
    requires x < |keys| && Indexes(keys, s) && x !in s && NoneTwice(s)
    ensures NoneTwice(Insert(cmp, keys, s, x))
  {
    if s != [] && IndexOrder(cmp, keys, x, s[0]) >= 0 {
      var rest := s[1..];
      FirstAndRest(s);
      assert s[0] !in rest;
      InsertDistinct(cmp, keys, rest, x);
      InsertHas(cmp, keys, rest, x, s[0]);
    }
  }

  ghost predicate NoneTwice(s: seq<nat>) {
    forall i, j | 0 <= i < j < |s| :: s[i] != s[j]
  }

  /** Whatever the comparison, sorting keeps every place once. */
  lemma {:induction false} SortingKeepsAll(cmp: Comparator, keys: seq<Word>, n: nat)
    requires n <= |keys|
    ensures NoneTwice(Sorting(cmp, keys, n)) && forall k: nat :: k in Sorting(cmp, keys, n) <==> k < n
  {
    if n > 0 {
      var s := Sorting(cmp, keys, n - 1);
      SortingKeepsAll(cmp, keys, n - 1);
      InsertDistinct(cmp, keys, s, n - 1);
      InsertHolds(cmp, keys, s, n - 1);
    }
  }

  lemma SortingPermutes(cmp: Comparator, keys: seq<Word>)
    ensures IsPermutation(keys, Sorting(cmp, keys, |keys|))
    ensures TotalOrder(cmp) ==> Sorted(cmp, Presented(keys, Sorting(cmp, keys, |keys|)))
    ensures TotalOrder(cmp) ==>
              forall i, j | 0 <= i < j < |keys| :: var s := Sorting(cmp, keys, |keys|);
                keys[s[i]] == keys[s[j]] ==> s[i] < s[j]
  {
    SortingKeepsAll(cmp, keys, |keys|);
    if TotalOrder(cmp) {
      SortingSorts(cmp, keys, |keys|);
      var s := Sorting(cmp, keys, |keys|);
      forall i, j | 0 <= i < j < |s|
        ensures cmp(keys[s[i]], keys[s[j]]) <= 0
        ensures keys[s[i]] == keys[s[j]] ==> s[i] < s[j]
      {
        assert IndexOrder(cmp, keys, s[i], s[j]) < 0;
      }
    }
  }

  ghost predicate AgreeOn(cmp: Comparator, cmp': Comparator, keys: seq<Word>) {
    forall i, j | 0 <= i < |keys| && 0 <= j < |keys| :: cmp(keys[i], keys[j]) == cmp'(keys[i], keys[j])
  }

  lemma {:induction false} InsertAgrees(cmp: Comparator, cmp': Comparator, keys: seq<Word>, s: seq<nat>, x: nat)
    requires AgreeOn(cmp, cmp', keys) && x < |keys| && Indexes(keys, s)
    ensures Insert(cmp, keys, s, x) == Insert(cmp', keys, s, x)
  {
    if s != [] {
      InsertAgrees(cmp, cmp', keys, s[1..], x);
    }
  }

  /** Only the comparisons of the keys matter. */
  lemma {:induction false} SortingAgrees(cmp: Comparator, cmp': Comparator, keys: seq<Word>, n: nat)
    requires AgreeOn(cmp, cmp', keys) && n <= |keys|
    ensures Sorting(cmp, keys, n) == Sorting(cmp', keys, n)
  {
    if n > 0 {
      SortingAgrees(cmp, cmp', keys, n - 1);
      InsertAgrees(cmp, cmp', keys, Sorting(cmp, keys, n - 1), n - 1);
    }
  }

  // ----- The index -----

  ghost predicate AllWellFormed(keys: seq<Word>) {
    forall i | 0 <= i < |keys| :: WellFormed(keys[i])
  }

  /** One dictionary's index in the order of a collation. */
  class CollationFile {
    const weight: Weight
    const keys: seq<Word>
    var wordoffset: seq<nat>

    ghost predicate Valid()
      reads this
    {
      && |keys| > 0 && IsPermutation(keys, wordoffset)
      && (AllWellFormed(keys) ==> Sorted(Collating(weight), Presented(keys, wordoffset)))
      && (BlocksRise(weight) ==> Sorted(StardictCollate(weight), Presented(keys, wordoffset)))
    }

    /** collate_load: a permutation of any keys, in order if they are well-formed or the weights rise. */
    constructor (weight: Weight, keys: seq<Word>)
      requires |keys| > 0
      ensures Valid() && this.weight == weight && this.keys == keys
    {
      CollatedPlaces(weight, keys);
      this.weight, this.keys := weight, keys;
      wordoffset := Sorting(StardictCollate(weight), keys, |keys|);
    }

    method GetOrigIndex(cltidx: nat) returns (idx: nat)
      requires Valid() && cltidx < |keys|
      ensures idx < |keys| && keys[idx] == Presented(keys, wordoffset)[cltidx]
    {
      idx := wordoffset[cltidx];
    }

    lemma SameKeys(w: Word)
      requires Valid()
      ensures w in Presented(keys, wordoffset) <==> w in keys
    {
      if w in keys {
        var k: nat :| k < |keys| && keys[k] == w;
        assert k in wordoffset;
        var i :| 0 <= i < |wordoffset| && wordoffset[i] == k;
        assert Presented(keys, wordoffset)[i] == w;
      }
    }

    /** Lookup in the order of the collation finds only what the dictionary has, and all of it if its words are
        well-formed or the weights rise from block to block. */
    method Lookup(pm: PrefixMatch, sWord: Word) returns (found: bool, idx: int, idx_suggest: int)
      requires Valid()
      ensures found ==> 0 <= idx < |keys| && keys[wordoffset[idx]] == sWord
      ensures AllWellFormed(keys) || BlocksRise(weight) ==> (found <==> sWord in keys)
      ensures Between(StardictCollate(weight), Presented(keys, wordoffset), sWord, found, idx)
      ensures AllWellFormed(keys) && WellFormed(sWord) ==>
                Located(Collating(weight), Presented(keys, wordoffset), sWord, found, idx)
      ensures BlocksRise(weight) ==> Located(StardictCollate(weight), Presented(keys, wordoffset), sWord, found, idx)
      ensures idx_suggest == Suggestion(pm, sWord, Presented(keys, wordoffset), found, idx)
    {
      hide Between, StardictCollate, Collating, BlocksRise, Sorted;
      var list := Presented(keys, wordoffset);
      found, idx, idx_suggest := FlatSearch(StardictCollate(weight), pm, list, sWord);
      SameKeys(sWord);
      FoundIsThere(weight, list, sWord, found, idx);
      if AllWellFormed(keys) && WellFormed(sWord) {
        WellFormedLocates(weight, list, sWord, found, idx);
      }
      if BlocksRise(weight) {
        RisingIsTotal(weight);
        BetweenLocates(StardictCollate(weight), list, sWord, found, idx);
      }
    }

    /** A word looked up and taken back to the original index is an equal key, or there is none. */
    method LookupOriginal(pm: PrefixMatch, sWord: Word) returns (found: bool, orig: nat)
      requires Valid()
      ensures AllWellFormed(keys) || BlocksRise(weight) ==> (found <==> sWord in keys)
      ensures found ==> orig < |keys| && keys[orig] == sWord
    {
      var idx, idx_suggest;
      found, idx, idx_suggest := Lookup(pm, sWord);
      orig := 0;
      if found {
        orig := GetOrigIndex(idx);
      }
    }
  }

  lemma CollatedPlaces(weight: Weight, keys: seq<Word>)
    ensures var s := Sorting(StardictCollate(weight), keys, |keys|);
            && IsPermutation(keys, s)
            && (AllWellFormed(keys) ==> Sorted(Collating(weight), Presented(keys, s)))
            && (BlocksRise(weight) ==> Sorted(StardictCollate(weight), Presented(keys, s)))
  {
    if AllWellFormed(keys) {
      CollationIsTotal(weight);
      assert AgreeOn(StardictCollate(weight), Collating(weight), keys);
      hide StardictCollate, Collating, TotalOrder, Sorted, BlocksRise, IsPermutation;
      SortingAgrees(StardictCollate(weight), Collating(weight), keys, |keys|);
      SortingPermutes(Collating(weight), keys);
    }
    hide StardictCollate, Collating, TotalOrder, Sorted, BlocksRise, IsPermutation;
    SortingPermutes(StardictCollate(weight), keys);
    if BlocksRise(weight) {
      RisingIsTotal(weight);
    }
  }

  /** Equal weights and equal bytes, or ill-formed text: in any case only equal words compare as equal. */
  lemma CollateZero(weight: Weight, a: Word, b: Word)
    ensures StardictCollate(weight)(a, b) == 0 <==> a == b
  {
    StrcmpEqual(a, b);
    if a == b {
      CollSelf(weight, a);
    }
  }

  lemma {:induction false} CollSelf(weight: Weight, s: Word)
    ensures Coll(weight, s, s) == 0
    decreases |s|
  {
    if s != [] {
      StrcmpEqual(s, s);
      if Uni(s).Character? {
        CollSelf(weight, s[Uni(s).len..]);
      }
    }
  }

  lemma FoundIsThere(weight: Weight, list: seq<Word>, str: Word, found: bool, idx: int)
    requires Between(StardictCollate(weight), list, str, found, idx)
    ensures found ==> 0 <= idx < |list| && list[idx] == str
  {
    hide StardictCollate;
    if found {
      CollateZero(weight, str, list[idx]);
    }
  }

  lemma WellFormedLocates(weight: Weight, list: seq<Word>, str: Word, found: bool, idx: int)
    requires WellFormed(str) && (forall i | 0 <= i < |list| :: WellFormed(list[i])) && Sorted(Collating(weight), list)
    requires Between(StardictCollate(weight), list, str, found, idx)
    ensures Located(Collating(weight), list, str, found, idx)
  {
    CollationIsTotal(weight);
    assert forall i | 0 <= i < |list| :: Collating(weight)(str, list[i]) == StardictCollate(weight)(str, list[i]);
    hide StardictCollate, Collating, TotalOrder, Sorted;
    BetweenLocates(Collating(weight), list, str, found, idx);
  }
}
