/** The fuzzy search: the best matches of a word, kept in a fixed number of slots. */
module Fuzzy {
  import opened Words
  import opened Alignment
  import opened BoundedDistance
  import opened Cursors

  const MAX_FUZZY_DISTANCE := 3

  datatype Fuzzystruct = Fuzzystruct(pMatchWord: Option<Word>, iMatchWordDistance: int)

  class Search {
    const decode: Word -> Text  // the code points of a word
    const tolower: nat -> nat
    const query: Text           // in lower case
    const slots: array<Fuzzystruct>
    const oEditDistance: EditDistance
    var iMaxDistance: int
    var Found: bool
    ghost var scanned: seq<Word>

    function Lower(t: Text): Text {
      seq(|t|, i requires 0 <= i < |t| => tolower(t[i]))
    }

    /** The part of w that is compared: cut to the length of the query, in lower case. */
    function Compared(w: Word): Text {
      Lower(if |decode(w)| > |query| then decode(w)[..|query|] else decode(w))
    }

    function Dist(w: Word): int {
      Distance(Compared(w), query)
    }

    function LengthGap(w: Word): nat {
      if |decode(w)| > |query| then |decode(w)| - |query| else |query| - |decode(w)|
    }

    /** w is close enough to be kept when distances below max are. */
    ghost predicate Close(w: Word, max: int) {
      Dist(w) < max && LengthGap(w) < max && Dist(w) < |query|
    }

    ghost predicate Texts() {
      && (forall w, i | 0 <= i < |decode(w)| :: decode(w)[i] != 0)
      && (forall c | c != 0 :: tolower(c) != 0)
      && forall i | 0 <= i < |query| :: query[i] != 0
    }

    ghost predicate Kept(s: seq<Fuzzystruct>, w: Word) {
      exists j | 0 <= j < |s| :: s[j].pMatchWord == Some(w)
    }

    ghost predicate SlotValid(f: Fuzzystruct, seen: seq<Word>) {
      match f.pMatchWord
      case None => f.iMatchWordDistance == MAX_FUZZY_DISTANCE
      case Some(w) => w in seen && Close(w, MAX_FUZZY_DISTANCE) && f.iMatchWordDistance == Dist(w)
    }

    ghost predicate Largest(s: seq<Fuzzystruct>, max: int) {
      && (forall j | 0 <= j < |s| :: s[j].iMatchWordDistance <= max)
      && (exists j | 0 <= j < |s| :: s[j].iMatchWordDistance == max)
    }

    /** The bound is the largest distance in any slot, and everything below it is kept, once. */
    ghost predicate Best(s: seq<Fuzzystruct>, max: int, seen: seq<Word>) {
      && |s| > 0 && max <= MAX_FUZZY_DISTANCE
      && (forall j | 0 <= j < |s| :: SlotValid(s[j], seen))
      && Largest(s, max) && DistinctWords(s)
      && (forall w | w in seen && Close(w, max) :: Kept(s, w))
    }

    ghost predicate AnyKept(s: seq<Fuzzystruct>) {
      exists j | 0 <= j < |s| :: s[j].pMatchWord.Some?
    }

    ghost predicate Valid()
      reads this, slots, oEditDistance
    {
      && Texts() && oEditDistance.Valid() && oEditDistance.d != null
      && Best(slots[..], iMaxDistance, scanned)
      && (Found <==> AnyKept(slots[..]))
    }

    lemma SeenAgain(s: seq<Fuzzystruct>, max: int, seen: seq<Word>, w: Word)
      requires Best(s, max, seen) && (Close(w, max) ==> Kept(s, w))
      ensures Best(s, max, seen + [w])
    {
      hide Close, Dist, Largest, DistinctWords;
    }

    /** A word below the bound takes a slot at the bound; what leaves is not below the new bound. */
    lemma Replaced(s: seq<Fuzzystruct>, max: int, seen: seq<Word>, w: Word, at: nat, s': seq<Fuzzystruct>, max': int)
      requires Best(s, max, seen) && Close(w, max) && !Kept(s, w)
      requires at < |s| && s[at].iMatchWordDistance == max
      requires s' == s[at := Fuzzystruct(Some(w), Dist(w))] && Largest(s', max')
      ensures max' <= max && Best(s', max', seen + [w]) && AnyKept(s')
    {
      assert Close(w, MAX_FUZZY_DISTANCE);
      assert forall j | 0 <= j < |s| && j != at :: s'[j] == s[j];
      assert s'[at].pMatchWord == Some(w);
      forall v | v in seen + [w] && Close(v, max')
        ensures Kept(s', v)
      {
        if v != w {
          var j :| 0 <= j < |s| && s[j].pMatchWord == Some(v);
          assert s'[j] == s[j];
        }
      }
    }

    constructor (decode: Word -> Text, tolower: nat -> nat, sWord: Word, reslist_size: nat)
      requires reslist_size > 0
      requires forall w, i | 0 <= i < |decode(w)| :: decode(w)[i] != 0
      requires forall c | c != 0 :: tolower(c) != 0
      ensures Valid() && fresh(slots) && fresh(oEditDistance) && fresh(oEditDistance.d) && scanned == [] && !Found
      ensures slots.Length == reslist_size && iMaxDistance == MAX_FUZZY_DISTANCE
      ensures this.decode == decode && this.tolower == tolower && query == Lower(decode(sWord))
    {
      this.decode, this.tolower := decode, tolower;
      query := seq(|decode(sWord)|, i requires 0 <= i < |decode(sWord)| => tolower(decode(sWord)[i]));
      slots := new Fuzzystruct[reslist_size](_ => Fuzzystruct(None, MAX_FUZZY_DISTANCE));
      oEditDistance := new EditDistance(true);
      iMaxDistance := MAX_FUZZY_DISTANCE;
      Found := false;
      scanned := [];
      new;
      assert slots[..][0].iMatchWordDistance == iMaxDistance;
    }

    /** Where w is kept, and otherwise a slot that holds the largest distance. */
    method FindSlot(sCheck: Word) returns (bAlreadyInList: bool, iMaxDistanceAt: nat)
      requires Largest(slots[..], iMaxDistance)
      ensures bAlreadyInList <==> Kept(slots[..], sCheck)
      ensures !bAlreadyInList ==>
                iMaxDistanceAt < slots.Length && slots[iMaxDistanceAt].iMatchWordDistance == iMaxDistance
    {
      bAlreadyInList := false;
      iMaxDistanceAt := 0;
      for j := 0 to slots.Length
        invariant forall i | 0 <= i < j :: slots[i].pMatchWord != Some(sCheck)
        invariant iMaxDistanceAt < slots.Length
        invariant (exists i | 0 <= i < j :: slots[i].iMatchWordDistance == iMaxDistance) ==>
                    slots[iMaxDistanceAt].iMatchWordDistance == iMaxDistance
      {
        if slots[j].pMatchWord == Some(sCheck) {
          bAlreadyInList := true;
          assert slots[..][j].pMatchWord == Some(sCheck);
          return;
        }
        if slots[j].iMatchWordDistance == iMaxDistance {
          iMaxDistanceAt := j;
        }
      }
    }

    method LargestDistance(iDistance: int, at: nat) returns (max: int)
      requires at < slots.Length && slots[at].iMatchWordDistance == iDistance
      ensures Largest(slots[..], max)
    {
      max := iDistance;
      ghost var largest: nat := at;
      for j := 0 to slots.Length
        invariant forall i | 0 <= i < j :: slots[i].iMatchWordDistance <= max
        invariant largest < slots.Length && slots[largest].iMatchWordDistance == max
      {
        if slots[j].iMatchWordDistance > max {
          max := slots[j].iMatchWordDistance;
          largest := j;
        }
      }
      assert slots[..][largest].iMatchWordDistance == max;
    }

    /** Puts a close word in the place of a farthest one, unless it is there already. */
    method Keep(sCheck: Word, iDistance: int)
      requires Valid() && Close(sCheck, iMaxDistance) && iDistance == Dist(sCheck)
      modifies `iMaxDistance, `Found, `scanned, slots
      ensures Valid() && scanned == old(scanned) + [sCheck] && iMaxDistance <= old(iMaxDistance)
    {
      hide Close, Dist, Best, AnyKept, Kept;
      Found := true;
      ghost var before, max := slots[..], iMaxDistance;
      BestGives(before, max, scanned);
      var bAlreadyInList, at := FindSlot(sCheck);
      if !bAlreadyInList {
        slots[at] := Fuzzystruct(Some(sCheck), iDistance);
        iMaxDistance := LargestDistance(iDistance, at);
        Replaced(before, max, scanned, sCheck, at, slots[..], iMaxDistance);
      } else {
        SeenAgain(before, max, scanned, sCheck);
        KeptIsAny(before, sCheck);
      }
      scanned := scanned + [sCheck];
    }

    lemma BestGives(s: seq<Fuzzystruct>, max: int, seen: seq<Word>)
      requires Best(s, max, seen)
      ensures |s| > 0 && Largest(s, max)
    {
    }

    lemma KeptIsAny(s: seq<Fuzzystruct>, w: Word)
      requires Kept(s, w)
      ensures AnyKept(s)
    {
    }

    /** One word of one list. */
    method Check(sCheck: Word)
      requires Valid()
      modifies `iMaxDistance, `Found, `scanned, slots, oEditDistance, oEditDistance.d
      ensures Valid() && scanned == old(scanned) + [sCheck] && iMaxDistance <= old(iMaxDistance)
      ensures oEditDistance.d == old(oEditDistance.d) || fresh(oEditDistance.d)
    {
      hide Best, AnyKept, Kept;
      var iCheckWordLen, ucs4_str2_len := |decode(sCheck)|, |query|;
      if iCheckWordLen - ucs4_str2_len >= iMaxDistance || ucs4_str2_len - iCheckWordLen >= iMaxDistance {
        SeenAgain(slots[..], iMaxDistance, scanned, sCheck);
        scanned := scanned + [sCheck];
        return;
      }
      var ucs4_str1 := Compared(sCheck);
      ghost var before := slots[..];
      var iDistance := oEditDistance.CalEditDistance(ucs4_str1 + [0], query + [0], iMaxDistance, true);
      assert slots[..] == before;
      assert TextOf(ucs4_str1 + [0]) == ucs4_str1 && TextOf(query + [0]) == query;
      if iDistance < iMaxDistance && iDistance < ucs4_str2_len {
        Keep(sCheck, iDistance);
      } else {
        SeenAgain(slots[..], iMaxDistance, scanned, sCheck);
        scanned := scanned + [sCheck];
      }
    }
  }

  // ----- Sorting the slots -----

  /** operator< of the slots. */
  predicate Before(l: Fuzzystruct, r: Fuzzystruct) {
    if l.iMatchWordDistance != r.iMatchWordDistance then l.iMatchWordDistance < r.iMatchWordDistance
    else l.pMatchWord.Some? && r.pMatchWord.Some? && StardictStrcmp()(l.pMatchWord.value, r.pMatchWord.value) < 0
  }

  ghost predicate InOrder(s: seq<Fuzzystruct>) {
    forall i, j | 0 <= i < j < |s| :: !Before(s[j], s[i])
  }

  /** Empty slots are exactly those at the initial distance. */
  ghost predicate EmptyLast(s: seq<Fuzzystruct>) {
    forall f | f in s :: f.iMatchWordDistance <= MAX_FUZZY_DISTANCE
                         && (f.pMatchWord.None? <==> f.iMatchWordDistance == MAX_FUZZY_DISTANCE)
  }

  lemma NotBeforeTransitive(a: Fuzzystruct, b: Fuzzystruct, c: Fuzzystruct)
    requires EmptyLast([a, b, c]) && !Before(b, a) && !Before(c, b)
    ensures !Before(c, a)
  {
    assert a in [a, b, c] && b in [a, b, c] && c in [a, b, c];
    StardictStrcmpIsTotal();
    var cmp := StardictStrcmp();
    if a.pMatchWord.Some? && b.pMatchWord.Some? && c.pMatchWord.Some? {
      var x, y, z := a.pMatchWord.value, b.pMatchWord.value, c.pMatchWord.value;
      assert cmp(z, x) < 0 && cmp(x, y) < 0 ==> cmp(z, y) < 0;
      assert cmp(x, y) == 0 <==> x == y;
      assert cmp(y, x) < 0 <==> cmp(x, y) > 0;
    }
  }

  /** std::sort, whose algorithm does not matter here. */
  function Insert(f: Fuzzystruct, s: seq<Fuzzystruct>): (r: seq<Fuzzystruct>)
    ensures multiset(r) == multiset(s) + multiset{f} && |r| == |s| + 1
  {
    if s == [] then [f]
    else if Before(f, s[0]) then [f] + s
    else
      assert s == [s[0]] + s[1..];
      [s[0]] + Insert(f, s[1..])
  }

  function Sort(s: seq<Fuzzystruct>): (r: seq<Fuzzystruct>)
    ensures multiset(r) == multiset(s) && |r| == |s|
  {
    if s == [] then []
    else
      assert s == [s[0]] + s[1..];
      Insert(s[0], Sort(s[1..]))
  }

  lemma SameElements(s: seq<Fuzzystruct>, t: seq<Fuzzystruct>, f: Fuzzystruct)
    requires multiset(s) == multiset(t)
    ensures f in s <==> f in t
  {
    assert f in multiset(s) <==> f in multiset(t);
  }

  lemma {:induction false} InsertInOrder(f: Fuzzystruct, s: seq<Fuzzystruct>)
    requires InOrder(s) && EmptyLast([f] + s)
    ensures InOrder(Insert(f, s))
  {
    if s != [] {
      assert f in [f] + s && forall g | g in s :: g in [f] + s;
      if Before(f, s[0]) {
        forall j | 0 <= j < |s|
          ensures !Before(s[j], f)
        {
          if j > 0 {
            BeforeAsymmetric(f, s[0]);
            NotBeforeTransitive(f, s[0], s[j]);
          } else {
            BeforeAsymmetric(f, s[0]);
          }
        }
      } else {
        var rest := Insert(f, s[1..]);
        InsertInOrder(f, s[1..]);
        forall j | 0 <= j < |rest|
          ensures !Before(rest[j], s[0])
        {
          assert rest[j] in multiset(rest);
          assert rest[j] == f || rest[j] in s[1..];
        }
      }
    }
  }

  lemma BeforeAsymmetric(l: Fuzzystruct, r: Fuzzystruct)
    requires Before(l, r)
    ensures !Before(r, l)
  {
    StardictStrcmpIsTotal();
    var cmp := StardictStrcmp();
    if l.pMatchWord.Some? && r.pMatchWord.Some? {
      assert cmp(l.pMatchWord.value, r.pMatchWord.value) < 0 <==> cmp(r.pMatchWord.value, l.pMatchWord.value) > 0;
    }
  }

  lemma {:induction false} SortInOrder(s: seq<Fuzzystruct>)
    requires EmptyLast(s)
    ensures InOrder(Sort(s))
  {
    if s != [] {
      SortInOrder(s[1..]);
      forall g | g in [s[0]] + Sort(s[1..])
        ensures g in s
      {
        SameElements(Sort(s[1..]), s[1..], g);
      }
      InsertInOrder(s[0], Sort(s[1..]));
    }
  }

  /** No word is kept twice. */
  ghost predicate DistinctWords(s: seq<Fuzzystruct>) {
    forall i, j | 0 <= i < j < |s| && s[i].pMatchWord.Some? :: s[i].pMatchWord != s[j].pMatchWord
  }

  lemma {:induction false} InsertDistinct(f: Fuzzystruct, s: seq<Fuzzystruct>)
    requires DistinctWords(s)
    requires f.pMatchWord.Some? ==> forall g | g in s :: g.pMatchWord != f.pMatchWord
    ensures DistinctWords(Insert(f, s))
  {
    if s != [] && !Before(f, s[0]) {
      var rest := Insert(f, s[1..]);
      InsertDistinct(f, s[1..]);
      forall j | 0 <= j < |rest|
        ensures s[0].pMatchWord.Some? ==> rest[j].pMatchWord != s[0].pMatchWord
      {
        assert rest[j] in multiset(rest);
        assert rest[j] == f || rest[j] in s[1..];
      }
    }
  }

  lemma {:induction false} SortDistinct(s: seq<Fuzzystruct>)
    requires DistinctWords(s)
    ensures DistinctWords(Sort(s))
  {
    if s != [] {
      SortDistinct(s[1..]);
      var t := Sort(s[1..]);
      forall g | g in t
        ensures s[0].pMatchWord.Some? ==> g.pMatchWord != s[0].pMatchWord
      {
        SameElements(t, s[1..], g);
      }
      InsertDistinct(s[0], t);
    }
  }

  // ----- The whole search -----

  /** The distance that a list of k words is complete below: none is missing unless the list is full. */
  ghost function Bound(search: Search, reslist: seq<Option<Word>>, k: nat): int
    requires k <= |reslist| && (k > 0 ==> reslist[k-1].Some?)
  {
    if 0 < k == |reslist| then search.Dist(reslist[k-1].value) else MAX_FUZZY_DISTANCE
  }

  /**
   What reslist holds after the search: k words in ascending order of distance and then of
   stardict_strcmp, each close and seen, and every seen word that is closer than the bound of the list.
   */
  ghost predicate Answer(search: Search, reslist: seq<Option<Word>>, seen: seq<Word>, k: nat) {
    && k <= |reslist|
    && (forall i | 0 <= i < |reslist| :: reslist[i].Some? <==> i < k)
    && (forall i | 0 <= i < k :: reslist[i].value in seen && search.Close(reslist[i].value, MAX_FUZZY_DISTANCE))
    && (forall i, j | 0 <= i < j < k ::
          var v, w := reslist[i].value, reslist[j].value;
          search.Dist(v) < search.Dist(w) || (search.Dist(v) == search.Dist(w) && StardictStrcmp()(v, w) < 0))
    && (forall w | w in seen && search.Close(w, Bound(search, reslist, k)) :: Some(w) in reslist)
  }

  /** In order, the kept words come before the empty slots. */
  lemma {:induction false} KeptFirst(s: seq<Fuzzystruct>, n: nat) returns (k: nat)
    requires InOrder(s) && EmptyLast(s) && n <= |s|
    ensures k <= n && forall i | 0 <= i < n :: s[i].pMatchWord.Some? <==> i < k
  {
    if n == 0 {
      return 0;
    }
    k := KeptFirst(s, n - 1);
    assert s[n-1] in s;
    if s[n-1].pMatchWord.Some? {
      forall i | 0 <= i < n - 1
        ensures s[i].pMatchWord.Some?
      {
        assert s[i] in s && !Before(s[n-1], s[i]);
      }
      k := n;
    }
  }

  lemma StrictlyAfter(v: Word, w: Word)
    requires v != w && StardictStrcmp()(w, v) >= 0
    ensures StardictStrcmp()(v, w) < 0
  {
    StardictStrcmpIsTotal();
    var cmp := StardictStrcmp();
    assert cmp(v, w) == 0 <==> v == w;
    assert cmp(w, v) < 0 <==> cmp(v, w) > 0;
  }

  lemma SortedFacts(search: Search, s: seq<Fuzzystruct>, seen: seq<Word>, max: int)
    requires search.Best(s, max, seen)
    ensures var t := Sort(s);
            InOrder(t) && EmptyLast(t) && DistinctWords(t) && forall f | f in t :: search.SlotValid(f, seen)
  {
    hide StardictStrcmp;
    var t := Sort(s);
    forall f | f in t
      ensures f in s
    {
      SameElements(t, s, f);
    }
    SortInOrder(s);
    SortDistinct(s);
  }

  lemma OrderedPair(search: Search, seen: seq<Word>, f: Fuzzystruct, g: Fuzzystruct)
    requires search.SlotValid(f, seen) && search.SlotValid(g, seen) && !Before(g, f)
    requires f.pMatchWord.Some? && g.pMatchWord.Some? && f.pMatchWord != g.pMatchWord
    ensures var v, w := f.pMatchWord.value, g.pMatchWord.value;
            search.Dist(v) < search.Dist(w) || (search.Dist(v) == search.Dist(w) && StardictStrcmp()(v, w) < 0)
  {
    var v, w := f.pMatchWord.value, g.pMatchWord.value;
    if search.Dist(v) == search.Dist(w) {
      StrictlyAfter(v, w);
    }
  }

  /** A kept word has a place in the sorted slots. */
  lemma SortKeeps(s: seq<Fuzzystruct>, j: nat) returns (i: nat)
    requires j < |s|
    ensures i < |Sort(s)| && Sort(s)[i] == s[j]
  {
    SameElements(Sort(s), s, s[j]);
    i :| i < |Sort(s)| && Sort(s)[i] == s[j];
  }

  /** The bound of the search is that of its sorted slots. */
  lemma BoundIsLargest(search: Search, s: seq<Fuzzystruct>, reslist: seq<Option<Word>>, seen: seq<Word>, max: int,
                       k: nat)
    requires search.Best(s, max, seen) && k <= |reslist| == |s|
    requires forall i | 0 <= i < |s| :: reslist[i] == Sort(s)[i].pMatchWord && (reslist[i].Some? <==> i < k)
    ensures max == Bound(search, reslist, k)
  {
    hide StardictStrcmp, Sort;
    var t := Sort(s);
    SortedFacts(search, s, seen, max);
    if k < |t| {
      LargestInOrder(search, s, max, k);
      assert t[k] in t && search.SlotValid(t[k], seen);
    } else {
      LargestInOrder(search, s, max, k - 1);
      assert t[k-1] in t && search.SlotValid(t[k-1], seen);
    }
  }

  /** No slot exceeds the largest distance, and the last one in order reaches it. */
  lemma LargestInOrder(search: Search, s: seq<Fuzzystruct>, max: int, i: nat)
    requires search.Largest(s, max) && InOrder(Sort(s)) && i < |s|
    ensures Sort(s)[i].iMatchWordDistance <= max
    ensures i == |s| - 1 ==> Sort(s)[i].iMatchWordDistance == max
  {
    hide StardictStrcmp, Sort;
    var t := Sort(s);
    SameElements(t, s, t[i]);
    assert t[i] in t;
    var j :| 0 <= j < |s| && s[j].iMatchWordDistance == max;
    var l := SortKeeps(s, j);
    if l < i {
      assert !Before(t[i], t[l]);
    }
  }

  lemma SortedAnswer(search: Search, s: seq<Fuzzystruct>, reslist: seq<Option<Word>>, seen: seq<Word>, max: int)
    returns (k: nat)
    requires search.Best(s, max, seen)
    requires |reslist| == |s| && forall i | 0 <= i < |s| :: reslist[i] == Sort(s)[i].pMatchWord
    ensures Answer(search, reslist, seen, k) && max == Bound(search, reslist, k)
    ensures search.AnyKept(s) <==> k > 0
  {
    hide StardictStrcmp, Before, Sort;
    var t := Sort(s);
    SortedFacts(search, s, seen, max);
    k := KeptFirst(t, |t|);
    BoundIsLargest(search, s, reslist, seen, max, k);
    forall i | 0 <= i < k
      ensures search.SlotValid(t[i], seen)
    {
      assert t[i] in t;
    }
    forall i, j | 0 <= i < j < k
      ensures var v, w := reslist[i].value, reslist[j].value;
              search.Dist(v) < search.Dist(w) || (search.Dist(v) == search.Dist(w) && StardictStrcmp()(v, w) < 0)
    {
      assert !Before(t[j], t[i]);
      OrderedPair(search, seen, t[i], t[j]);
    }
    forall w | w in seen && search.Close(w, max)
      ensures Some(w) in reslist
    {
      var j :| 0 <= j < |s| && s[j].pMatchWord == Some(w);
      var i := SortKeeps(s, j);
      assert reslist[i] == Some(w);
    }
    AnyInOrder(search, s, t, k);
  }

  lemma AnyInOrder(search: Search, s: seq<Fuzzystruct>, t: seq<Fuzzystruct>, k: nat)
    requires t == Sort(s) && k <= |t| && forall i | 0 <= i < |t| :: t[i].pMatchWord.Some? <==> i < k
    ensures search.AnyKept(s) <==> k > 0
  {
    if search.AnyKept(s) {
      var j :| 0 <= j < |s| && s[j].pMatchWord.Some?;
      var i := SortKeeps(s, j);
    }
    if k > 0 {
      assert t[0] in t;
      SameElements(t, s, t[0]);
    }
  }

  /** The words of one entry of the mask in the order of the scan: the index, then the synonyms. */
  function EntryWords(oLib: seq<Dict>, entry: InstantDictIndex): seq<Word>
    requires entry.local ==> entry.index < |oLib|
  {
    if !entry.local then []
    else oLib[entry.index].words + if oLib[entry.index].syns.Some? then oLib[entry.index].syns.value else []
  }

  function ScannedWords(oLib: seq<Dict>, dictmask: seq<InstantDictIndex>): seq<Word>
    requires forall i | 0 <= i < |dictmask| :: dictmask[i].local ==> dictmask[i].index < |oLib|
  {
    if dictmask == [] then []
    else ScannedWords(oLib, dictmask[..|dictmask|-1]) + EntryWords(oLib, dictmask[|dictmask|-1])
  }

  /** The scan of one list. */
  method ScanList(search: Search, words: seq<Word>)
    requires search.Valid()
    modifies search`iMaxDistance, search`Found, search`scanned, search.slots, search.oEditDistance,
             search.oEditDistance.d
    ensures search.Valid() && search.scanned == old(search.scanned) + words &&
            search.iMaxDistance <= old(search.iMaxDistance)
    ensures search.oEditDistance.d == old(search.oEditDistance.d) || fresh(search.oEditDistance.d)
  {
    for index := 0 to |words|
      invariant search.Valid() && search.scanned == old(search.scanned) + words[..index]
      invariant search.iMaxDistance <= old(search.iMaxDistance)
      invariant search.oEditDistance.d == old(search.oEditDistance.d) || fresh(search.oEditDistance.d)
    {
      search.Check(words[index]);
      assert words[..index+1] == words[..index] + [words[index]];
    }
    assert words[..|words|] == words;
  }

  method ScanEntry(search: Search, oLib: seq<Dict>, entry: InstantDictIndex)
    requires search.Valid() && (entry.local ==> entry.index < |oLib|)
    modifies search`iMaxDistance, search`Found, search`scanned, search.slots, search.oEditDistance,
             search.oEditDistance.d
    ensures search.Valid() && search.scanned == old(search.scanned) + EntryWords(oLib, entry)
    ensures search.iMaxDistance <= old(search.iMaxDistance)
    ensures search.oEditDistance.d == old(search.oEditDistance.d) || fresh(search.oEditDistance.d)
  {
    hide Search.Valid;
    if entry.local {
      ScanList(search, oLib[entry.index].words);
      if oLib[entry.index].syns.Some? {
        ScanList(search, oLib[entry.index].syns.value);
      }
    }
  }

  lemma NoneScanned(oLib: seq<Dict>)
    ensures ScannedWords(oLib, []) == []
  {
  }

  lemma ScannedNext(oLib: seq<Dict>, dictmask: seq<InstantDictIndex>, i: nat)
    requires i < |dictmask| && forall k | 0 <= k < |dictmask| :: dictmask[k].local ==> dictmask[k].index < |oLib|
    ensures ScannedWords(oLib, dictmask[..i+1]) == ScannedWords(oLib, dictmask[..i]) + EntryWords(oLib, dictmask[i])
  {
    assert dictmask[..i+1][..i] == dictmask[..i];
  }

  method ScanAll(search: Search, oLib: seq<Dict>, dictmask: seq<InstantDictIndex>)
    requires search.Valid()
    requires forall i | 0 <= i < |dictmask| :: dictmask[i].local ==> dictmask[i].index < |oLib|
    modifies search`iMaxDistance, search`Found, search`scanned, search.slots, search.oEditDistance,
             search.oEditDistance.d
    ensures search.Valid() && search.scanned == old(search.scanned) + ScannedWords(oLib, dictmask)
    ensures search.iMaxDistance <= old(search.iMaxDistance)
  {
    hide Search.Valid, ScannedWords, EntryWords;
    NoneScanned(oLib);
    for iLib := 0 to |dictmask|
      invariant search.Valid() && search.scanned == old(search.scanned) + ScannedWords(oLib, dictmask[..iLib])
      invariant search.iMaxDistance <= old(search.iMaxDistance)
      invariant search.oEditDistance.d == old(search.oEditDistance.d) || fresh(search.oEditDistance.d)
    {
      ScannedNext(oLib, dictmask, iLib);
      ghost var before := search.scanned;
      ScanEntry(search, oLib, dictmask[iLib]);
      assert search.scanned == before + EntryWords(oLib, dictmask[iLib]);
    }
    assert dictmask[..|dictmask|] == dictmask;
  }

  method LookupWithFuzzy(decode: Word -> Text, tolower: nat -> nat, oLib: seq<Dict>, dictmask: seq<InstantDictIndex>,
                         sWord: Word, reslist_size: nat)
    returns (Found: bool, reslist: seq<Option<Word>>, ghost search: Search?, ghost k: nat)
    requires reslist_size > 0
    requires forall w, i | 0 <= i < |decode(w)| :: decode(w)[i] != 0
    requires forall c | c != 0 :: tolower(c) != 0
    requires forall i | 0 <= i < |dictmask| :: dictmask[i].local ==> dictmask[i].index < |oLib|
    ensures sWord == [] ==> !Found
    ensures sWord != [] ==>
              && search != null && search.decode == decode && search.tolower == tolower
              && search.query == search.Lower(decode(sWord))
              && |reslist| == reslist_size
              && Answer(search, reslist, ScannedWords(oLib, dictmask), k)
              && NearestWords(decode, tolower, sWord, reslist, ScannedWords(oLib, dictmask), k)
              && (Found <==> k > 0)
  {
    Found, reslist, search, k := false, [], null, 0;
    if sWord == [] {
      return;
    }
    hide Answer, NearestWords, ScannedWords, Search.Valid;
    var state := new Search(decode, tolower, sWord, reslist_size);
    ScanAll(state, oLib, dictmask);
    assert state.scanned == ScannedWords(oLib, dictmask);
    search := state;
    Found, reslist, k := Results(state);
    ListMeans(state, sWord, reslist, state.scanned, k);
  }

  /** Sorts the slots if any is used, and takes their words. */
  method Results(state: Search) returns (Found: bool, reslist: seq<Option<Word>>, ghost k: nat)
    requires state.Valid()
    ensures |reslist| == state.slots.Length && Answer(state, reslist, state.scanned, k) && (Found <==> k > 0)
  {
    hide Answer, Sort;
    var oFuzzystruct := state.slots[..];
    if state.Found {
      oFuzzystruct := Sort(oFuzzystruct);
    } else {
      SortNothing(state, oFuzzystruct);
    }
    Found := state.Found;
    var n := state.slots.Length;
    reslist := seq(n, i requires 0 <= i < n => oFuzzystruct[i].pMatchWord);
    k := SortedAnswer(state, state.slots[..], reslist, state.scanned, state.iMaxDistance);
  }

  /** Without a match all slots are empty, sorted or not. */
  lemma SortNothing(search: Search, s: seq<Fuzzystruct>)
    requires !search.AnyKept(s)
    ensures forall i | 0 <= i < |s| :: Sort(s)[i].pMatchWord == s[i].pMatchWord
  {
    forall i | 0 <= i < |s|
      ensures Sort(s)[i].pMatchWord == None
    {
      assert Sort(s)[i] in Sort(s);
      SameElements(Sort(s), s, Sort(s)[i]);
    }
  }

  // ----- The list in terms of the characters of the words -----

  /** The first n characters, each taken to its small letter. */
  function SmallLetters(tolower: nat -> nat, t: Text, n: nat): (r: Text)
    ensures |r| == if |t| < n then |t| else n
    ensures forall i | 0 <= i < |r| :: r[i] == tolower(t[i])
  {
    if t == [] || n == 0 then [] else [tolower(t[0])] + SmallLetters(tolower, t[1..], n - 1)
  }

  /** How far a word is from the query: only as many of its characters count as the query has. */
  function Far(decode: Word -> Text, tolower: nat -> nat, w: Word, query: Word): int {
    var n := |decode(query)|;
    Distance(SmallLetters(tolower, decode(w), n), SmallLetters(tolower, decode(query), n))
  }

  /** Near enough for distances below max: the lengths differ by less, and not all of the query is edited. */
  ghost predicate Near(decode: Word -> Text, tolower: nat -> nat, w: Word, query: Word, max: int) {
    var d := Far(decode, tolower, w, query);
    d < max && d < |decode(query)| && -max < |decode(w)| - |decode(query)| < max
  }

  lemma DistIsFar(search: Search, query: Word, w: Word)
    requires search.query == search.Lower(search.decode(query))
    ensures search.Dist(w) == Far(search.decode, search.tolower, w, query)
    ensures forall max :: search.Close(w, max) <==> Near(search.decode, search.tolower, w, query, max)
  {
    hide Distance;
    var n := |search.decode(query)|;
    assert search.Compared(w) == SmallLetters(search.tolower, search.decode(w), n);
    assert search.query == SmallLetters(search.tolower, search.decode(query), n);
  }

  /** Nothing is nearer than a word that begins with the letters of the query, in whatever case. */
  lemma NearestBeginsAlike(decode: Word -> Text, tolower: nat -> nat, w: Word, query: Word)
    ensures Far(decode, tolower, w, query) >= 0
    ensures Far(decode, tolower, w, query) == 0 <==>
            |decode(w)| >= |decode(query)|
            && forall i | 0 <= i < |decode(query)| :: tolower(decode(w)[i]) == tolower(decode(query)[i])
  {
    var n := |decode(query)|;
    ZeroIsEqual(SmallLetters(tolower, decode(w), n), SmallLetters(tolower, decode(query), n));
  }

  /**
   The first k words of the list are near the query by less than 3, in the order of their distance and then of
   stardict_strcmp. A word of the dictionaries that is near enough is missing only if all places are taken, and it is
   not nearer than the last word.
   */
  ghost predicate NearestWords(decode: Word -> Text, tolower: nat -> nat, query: Word, reslist: seq<Option<Word>>,
                               seen: seq<Word>, k: nat)
  {
    && k <= |reslist| && (forall i | 0 <= i < |reslist| :: reslist[i].Some? <==> i < k)
    && (forall i | 0 <= i < k ::
          reslist[i].value in seen && Near(decode, tolower, reslist[i].value, query, 3))
    && (forall i, j | 0 <= i < j < k ::
          var v, w := reslist[i].value, reslist[j].value;
          var dv, dw := Far(decode, tolower, v, query), Far(decode, tolower, w, query);
          dv < dw || (dv == dw && StardictStrcmp()(v, w) < 0))
    && (forall w | w in seen && Near(decode, tolower, w, query, 3) && Some(w) !in reslist ::
          && 0 < k == |reslist|
          && !Near(decode, tolower, w, query, Far(decode, tolower, reslist[k-1].value, query)))
  }

  lemma ListMeans(search: Search, query: Word, reslist: seq<Option<Word>>, seen: seq<Word>, k: nat)
    requires search.query == search.Lower(search.decode(query)) && Answer(search, reslist, seen, k)
    ensures NearestWords(search.decode, search.tolower, query, reslist, seen, k)
  {
    hide Far, Near, StardictStrcmp, Search.Dist, Search.Close;
    forall i | 0 <= i < k
      ensures Near(search.decode, search.tolower, reslist[i].value, query, 3)
      ensures search.Dist(reslist[i].value) == Far(search.decode, search.tolower, reslist[i].value, query)
    {
      DistIsFar(search, query, reslist[i].value);
      assert search.Close(reslist[i].value, 3);
    }
    forall w | w in seen && Near(search.decode, search.tolower, w, query, 3) && Some(w) !in reslist
      ensures 0 < k == |reslist|
      ensures !Near(search.decode, search.tolower, w, query, search.Dist(reslist[k-1].value))
    {
      Missing(search, query, reslist, seen, k, w);
    }
  }

  lemma Missing(search: Search, query: Word, reslist: seq<Option<Word>>, seen: seq<Word>, k: nat, w: Word)
    requires search.query == search.Lower(search.decode(query)) && Answer(search, reslist, seen, k)
    requires w in seen && Near(search.decode, search.tolower, w, query, 3) && Some(w) !in reslist
    ensures 0 < k == |reslist|
    ensures !Near(search.decode, search.tolower, w, query, search.Dist(reslist[k-1].value))
  {
    hide Far, Near, StardictStrcmp, Search.Dist, Search.Close;
    DistIsFar(search, query, w);
    assert !search.Close(w, Bound(search, reslist, k));
  }

  predicate HasWord(d: Dict, w: Word) {
    w in d.words || (d.syns.Some? && w in d.syns.value)
  }

  lemma InEntry(oLib: seq<Dict>, entry: InstantDictIndex, w: Word)
    requires entry.local ==> entry.index < |oLib|
    ensures w in EntryWords(oLib, entry) <==> entry.local && HasWord(oLib[entry.index], w)
  {
  }

  ghost predicate Named(oLib: seq<Dict>, dictmask: seq<InstantDictIndex>, w: Word)
    requires forall i | 0 <= i < |dictmask| :: dictmask[i].local ==> dictmask[i].index < |oLib|
  {
    exists i | 0 <= i < |dictmask| && dictmask[i].local :: HasWord(oLib[dictmask[i].index], w)
  }

  lemma NamedLast(oLib: seq<Dict>, dictmask: seq<InstantDictIndex>, w: Word)
    requires dictmask != [] && forall i | 0 <= i < |dictmask| :: dictmask[i].local ==> dictmask[i].index < |oLib|
    ensures var n := |dictmask| - 1;
            Named(oLib, dictmask, w) <==>
            Named(oLib, dictmask[..n], w) || (dictmask[n].local && HasWord(oLib[dictmask[n].index], w))
  {
    var n := |dictmask| - 1;
    hide HasWord;
    if Named(oLib, dictmask, w) {
      var i :| 0 <= i < |dictmask| && dictmask[i].local && HasWord(oLib[dictmask[i].index], w);
      assert i < n ==> dictmask[..n][i] == dictmask[i];
    }
    if Named(oLib, dictmask[..n], w) {
      var i :| 0 <= i < n && dictmask[..n][i].local && HasWord(oLib[dictmask[..n][i].index], w);
      assert dictmask[i] == dictmask[..n][i];
    }
  }

  /** What is scanned are the words and synonyms of the dictionaries that the mask names. */
  lemma {:induction false} InScanned(oLib: seq<Dict>, dictmask: seq<InstantDictIndex>, w: Word)
    requires forall i | 0 <= i < |dictmask| :: dictmask[i].local ==> dictmask[i].index < |oLib|
    ensures w in ScannedWords(oLib, dictmask) <==> Named(oLib, dictmask, w)
  {
    if dictmask != [] {
      var n := |dictmask| - 1;
      InScanned(oLib, dictmask[..n], w);
      InEntry(oLib, dictmask[n], w);
      NamedLast(oLib, dictmask, w);
      hide EntryWords, Named, HasWord;
      assert w in ScannedWords(oLib, dictmask) <==>
             w in ScannedWords(oLib, dictmask[..n]) || w in EntryWords(oLib, dictmask[n]);
    }
  }
}
