/** What one dictionary contributes to an answer: the word with all its records, then its synonyms. */
module Results {
  import opened Strings
  import opened Wire
  import Words
  import Cursors
  import Lists = WordList

  /** The keys and data blocks of a dictionary, its synonyms, and the place of the word each of these stands for. */
  datatype Articles = Articles(keys: seq<Bytes>, data: seq<Bytes>, synonymKeys: seq<Bytes>, synonyms: seq<nat>)

  /** A run of equal words that a lookup found, or nothing. */
  datatype Run = NotFound | Run(first: nat, count: nat)

  predicate ArticlesValid(d: Articles) {
    |d.keys| == |d.data| && |d.synonymKeys| == |d.synonyms| &&
      (forall i | 0 <= i < |d.synonyms| :: d.synonyms[i] < |d.keys|)
    && forall i | 0 <= i < |d.data| :: IsBlock(d.data[i])
  }

  /** The run lies in the list and holds one word. */
  predicate RunIn(r: Run, list: seq<Bytes>) {
    r.Run? ==>
      r.count > 0 && r.first + r.count <= |list| &&
        forall k | r.first <= k < r.first + r.count :: list[k] == list[r.first]
  }

  /** The run holds w at all its places. */
  ghost predicate IsRunOf(r: Run, list: seq<Bytes>, w: Bytes) {
    match r
    case NotFound => w !in list
    case Run(first, count) =>
      count > 0 && first + count <= |list| && forall k | 0 <= k < |list| :: list[k] == w <==> first <= k < first + count
  }

  /** The run of w in a list in which equal words stand together. */
  ghost function RunOf(list: seq<Bytes>, w: Bytes): Run {
    if r :| IsRunOf(r, list, w) then r else NotFound
  }

  lemma RunIsUnique(r: Run, list: seq<Bytes>, w: Bytes)
    requires IsRunOf(r, list, w)
    ensures RunOf(list, w) == r && RunIn(r, list)
  {
    var s := RunOf(list, w);
    assert IsRunOf(s, list, w);
    RunMeansIn(r, list, w);
    RunMeansIn(s, list, w);
    if r.Run? {
      assert list[r.first] == w && list[r.first + r.count - 1] == w;
      assert list[s.first] == w && list[s.first + s.count - 1] == w;
    }
  }

  lemma RunMeansIn(r: Run, list: seq<Bytes>, w: Bytes)
    requires IsRunOf(r, list, w)
    ensures r.Run? <==> w in list
  {
    if r.Run? {
      assert list[r.first] == w;
    }
  }

  /** In a sorted list every word has its run. */
  lemma SortedHasRuns(list: seq<Bytes>, w: Bytes)
    requires Words.TotalOrder(Words.StardictStrcmp()) && Words.Sorted(Words.StardictStrcmp(), list)
    ensures IsRunOf(RunOf(list, w), list, w)
    ensures RunOf(list, w).Run? <==> w in list
  {
    if w in list {
      var place: nat :| place < |list| && list[place] == w;
      var r := RunAt(list, place);
      RunIsUnique(r, list, w);
    } else {
      RunIsUnique(NotFound, list, w);
    }
  }

  lemma {:induction false} RunStart(list: seq<Bytes>, place: nat) returns (first: nat)
    requires place < |list|
    ensures first <= place && (forall k | first <= k <= place :: list[k] == list[place])
    ensures first > 0 ==> list[first-1] != list[place]
  {
    first := place;
    if place > 0 && list[place-1] == list[place] {
      first := RunStart(list, place - 1);
    }
  }

  lemma {:induction false} RunEnd(list: seq<Bytes>, place: nat) returns (last: nat)
    requires place < |list|
    ensures place <= last < |list| && (forall k | place <= k <= last :: list[k] == list[place])
    ensures last < |list| - 1 ==> list[last+1] != list[place]
    decreases |list| - place
  {
    last := place;
    if place < |list| - 1 && list[place+1] == list[place] {
      last := RunEnd(list, place + 1);
    }
  }

  lemma RunAt(list: seq<Bytes>, place: nat) returns (r: Run)
    requires Words.TotalOrder(Words.StardictStrcmp()) && Words.Sorted(Words.StardictStrcmp(), list) && place < |list|
    ensures IsRunOf(r, list, list[place])
  {
    var first := RunStart(list, place);
    var last := RunEnd(list, place);
    r := Run(first, last - first + 1);
    hide Words.TotalOrder, Words.Sorted, Words.StardictStrcmp;
    forall k | 0 <= k < |list| && !(first <= k <= last)
      ensures list[k] != list[place]
    {
      NotBeside(list, first, place, last, k);
    }
  }

  lemma NotBeside(list: seq<Bytes>, first: nat, place: nat, last: nat, k: nat)
    requires Words.TotalOrder(Words.StardictStrcmp()) && Words.Sorted(Words.StardictStrcmp(), list)
    requires first <= place <= last < |list| && k < |list| && !(first <= k <= last)
    requires first > 0 ==> list[first-1] != list[place]
    requires last < |list| - 1 ==> list[last+1] != list[place]
    ensures list[k] != list[place]
  {
    hide Words.TotalOrder, Words.Sorted, Words.StardictStrcmp;
    if k < first {
      Lists.Apart(Words.StardictStrcmp(), list, k, first - 1, place);
    } else {
      Lists.Apart(Words.StardictStrcmp(), list, place, last + 1, k);
    }
  }

  /** Where the lookup found a word, the records of all its places: those with an equal key. */
  method FindRun(list: seq<Bytes>, place: nat) returns (r: Run)
    requires Words.Sorted(Words.StardictStrcmp(), list) && place < |list|
    ensures r == RunOf(list, list[place]) && r.Run? && RunIn(r, list)
  {
    Words.StardictStrcmpIsTotal();
    hide Words.TotalOrder, Words.Sorted, Words.StardictStrcmp;
    var first, count := Lists.GetOrigWordCount(Words.StardictStrcmp(), list, place);
    r := Run(first, count);
    RunIsUnique(r, list, list[place]);
  }

  predicate Contains(r: Run, i: nat) {
    r.Run? && r.first <= i < r.first + r.count
  }

  /** What a lookup found in the words of a dictionary and in its synonyms. */
  datatype Runs = Runs(word: Run, synonym: Run)

  predicate RunsIn(d: Articles, found: Runs) {
    RunIn(found.word, d.keys) && RunIn(found.synonym, d.synonymKeys)
  }

  /** What the dictionary contributes. */
  function Contribution(d: Articles, found: Runs): seq<Entry> {
    if ArticlesValid(d) && RunsIn(d, found) then
      WordEntry(d, found.word) + SynonymEntries(d, found.word, SynonymsOf(d, found.synonym))
    else []
  }

  function WordEntry(d: Articles, r: Run): seq<Entry>
    requires |d.keys| == |d.data| && RunIn(r, d.keys)
  {
    if r.NotFound? then [] else [Entry(d.keys[r.first], d.data[r.first], d.data[r.first+1..r.first+r.count])]
  }

  /** The entries of these synonyms, without those of words in the run. */
  function SynonymEntries(d: Articles, r: Run, synonyms: seq<nat>): seq<Entry>
    requires |d.keys| == |d.data| && forall i | 0 <= i < |synonyms| :: synonyms[i] < |d.keys|
  {
    if synonyms == [] then []
    else
      (if Contains(r, synonyms[0]) then [] else [Entry(d.keys[synonyms[0]], d.data[synonyms[0]], [])])
      + SynonymEntries(d, r, synonyms[1..])
  }

  function SynonymsOf(d: Articles, syn: Run): seq<nat>
    requires |d.synonymKeys| == |d.synonyms| && RunIn(syn, d.synonymKeys)
  {
    if syn.NotFound? then [] else d.synonyms[syn.first..syn.first + syn.count]
  }

  /** The loop shortens its own bound when it skips a synonym. */
  method BuildResultData(d: Articles, found: Runs) returns (entries: seq<Entry>)
    requires ArticlesValid(d) && RunsIn(d, found)
    ensures entries == Contribution(d, found)
    ensures found.word.NotFound? && found.synonym.NotFound? <==> entries == []
    ensures EntriesFit(entries)
  {
    var r, syn := found.word, found.synonym;
    SomethingFound(d, r, syn);
    FoundFits(d, r, SynonymsOf(d, syn));
    hide ArticlesValid, EntriesFit;
    if r.NotFound? && syn.NotFound? {
      return [];
    }
    var nWord := 0;
    if r.Run? {
      nWord := nWord + 1;
    }
    if syn.Run? {
      nWord := nWord + syn.count;
    }
    entries := PutWord(d, r);
    entries := PutSynonyms(d, r, syn, entries, nWord);
  }

  /** The word with the data of every record in its run. */
  method PutWord(d: Articles, r: Run) returns (entries: seq<Entry>)
    requires ArticlesValid(d) && RunIn(r, d.keys)
    ensures entries == WordEntry(d, r)
  {
    if r.NotFound? {
      return [];
    }
    var blocks: seq<Bytes> := [];
    for k := 0 to r.count
      invariant blocks == d.data[r.first..r.first + k]
    {
      blocks := blocks + [d.data[r.first + k]];
    }
    entries := [Entry(d.keys[r.first], blocks[0], blocks[1..])];
  }

  method PutSynonyms(d: Articles, r: Run, syn: Run, before: seq<Entry>, nWord0: nat) returns (entries: seq<Entry>)
    requires ArticlesValid(d) && RunIn(r, d.keys) && RunIn(syn, d.synonymKeys)
    requires nWord0 == |before| + |SynonymsOf(d, syn)|
    ensures entries == before + SynonymEntries(d, r, SynonymsOf(d, syn))
  {
    ghost var all := SynonymsOf(d, syn);
    entries := before;
    var nWord, i, j := nWord0, |before|, 0;
    assert all[0..] == all;
    while i < nWord
      invariant i <= nWord && j <= |all| && nWord - i == |all| - j
      invariant entries + SynonymEntries(d, r, all[j..]) == before + SynonymEntries(d, r, all)
      decreases |all| - j
    {
      var iWordIdx := d.synonyms[syn.first + j];
      assert all[j] == iWordIdx && all[j..][1..] == all[j+1..];
      NextSynonym(d, r, all[j..], entries);
      if Contains(r, iWordIdx) {
        nWord := nWord - 1;
      } else {
        entries := entries + [Entry(d.keys[iWordIdx], d.data[iWordIdx], [])];
        i := i + 1;
      }
      j := j + 1;
    }
    assert all[j..] == [] && entries + [] == entries;
  }

  lemma NextSynonym(d: Articles, r: Run, synonyms: seq<nat>, entries: seq<Entry>)
    requires |d.keys| == |d.data| && synonyms != [] && forall i | 0 <= i < |synonyms| :: synonyms[i] < |d.keys|
    ensures var rest := SynonymEntries(d, r, synonyms[1..]);
            entries + SynonymEntries(d, r, synonyms)
            == if Contains(r, synonyms[0]) then entries + rest
               else entries + [Entry(d.keys[synonyms[0]], d.data[synonyms[0]], [])] + rest
  {
    var rest := SynonymEntries(d, r, synonyms[1..]);
    if Contains(r, synonyms[0]) {
      assert SynonymEntries(d, r, synonyms) == rest;
    } else {
      var e := Entry(d.keys[synonyms[0]], d.data[synonyms[0]], []);
      assert entries + ([e] + rest) == entries + [e] + rest;
    }
  }

  lemma ContributionFits(d: Articles, found: Runs)
    ensures EntriesFit(Contribution(d, found))
  {
    if ArticlesValid(d) && RunsIn(d, found) {
      FoundFits(d, found.word, SynonymsOf(d, found.synonym));
    }
  }

  /** What the client needs of a dictionary: words that are not empty, and records that are not empty where they
      follow others of the same word. */
  predicate Readable(d: Articles) {
    (forall i | 0 <= i < |d.keys| :: IsName(d.keys[i]))
    && forall i | 0 < i < |d.keys| && i < |d.data| && d.keys[i] == d.keys[i-1] :: d.data[i] != []
  }

  /** The client can read what such a dictionary contributes. */
  lemma ContributionIsValid(d: Articles, found: Runs)
    requires Readable(d)
    ensures EntriesValid(Contribution(d, found))
  {
    if ArticlesValid(d) && RunsIn(d, found) {
      FoundIsValid(d, found.word, SynonymsOf(d, found.synonym));
    }
  }

  lemma SomethingFound(d: Articles, r: Run, syn: Run)
    requires ArticlesValid(d) && RunIn(r, d.keys) && RunIn(syn, d.synonymKeys)
    ensures r.NotFound? && syn.NotFound? <==> WordEntry(d, r) + SynonymEntries(d, r, SynonymsOf(d, syn)) == []
  {
  }

  lemma {:induction false} FoundFits(d: Articles, r: Run, synonyms: seq<nat>)
    requires ArticlesValid(d) && RunIn(r, d.keys) && forall i | 0 <= i < |synonyms| :: synonyms[i] < |d.keys|
    ensures EntriesFit(WordEntry(d, r) + SynonymEntries(d, r, synonyms))
  {
    if synonyms != [] {
      FoundFits(d, r, synonyms[1..]);
      var rest := SynonymEntries(d, r, synonyms[1..]);
      assert forall i | 0 <= i < |rest| :: rest[i] == (WordEntry(d, r) + rest)[|WordEntry(d, r)| + i];
    }
  }

  lemma WordIsValid(d: Articles, r: Run)
    requires ArticlesValid(d) && RunIn(r, d.keys) && Readable(d)
    ensures EntriesValid(WordEntry(d, r))
  {
    if r.Run? {
      var more := d.data[r.first+1..r.first+r.count];
      var e := Entry(d.keys[r.first], d.data[r.first], more);
      forall i | 0 <= i < |more|
        ensures more[i] != [] && IsBlock(more[i])
      {
        var k := r.first + 1 + i;
        assert d.keys[k] == d.keys[r.first] && d.keys[k-1] == d.keys[r.first] && more[i] == d.data[k];
      }
      assert EntryValid(e);
      assert WordEntry(d, r) == [e];
    }
  }

  lemma ValidTogether(x: seq<Entry>, y: seq<Entry>)
    requires EntriesValid(x) && EntriesValid(y)
    ensures EntriesValid(x + y)
  {
    hide EntryValid;
  }

  lemma {:induction false} SynonymsAreValid(d: Articles, r: Run, synonyms: seq<nat>)
    requires ArticlesValid(d) && Readable(d) && forall i | 0 <= i < |synonyms| :: synonyms[i] < |d.keys|
    ensures EntriesValid(SynonymEntries(d, r, synonyms))
  {
    if synonyms != [] {
      SynonymsAreValid(d, r, synonyms[1..]);
      var k := synonyms[0];
      assert IsName(d.keys[k]) && IsBlock(d.data[k]);
      ValidTogether([Entry(d.keys[k], d.data[k], [])], SynonymEntries(d, r, synonyms[1..]));
    }
  }

  lemma FoundIsValid(d: Articles, r: Run, synonyms: seq<nat>)
    requires ArticlesValid(d) && RunIn(r, d.keys) && forall i | 0 <= i < |synonyms| :: synonyms[i] < |d.keys|
    requires Readable(d)
    ensures EntriesValid(WordEntry(d, r) + SynonymEntries(d, r, synonyms))
  {
    WordIsValid(d, r);
    SynonymsAreValid(d, r, synonyms);
    ValidTogether(WordEntry(d, r), SynonymEntries(d, r, synonyms));
  }

  // ----- What a dictionary contributes, from its records alone -----

  /** The data at all places of w, in order. */
  function DataOf(keys: seq<Bytes>, data: seq<Bytes>, w: Bytes): (r: seq<Bytes>)
    requires |keys| == |data|
    ensures r != [] <==> w in keys
  {
    if keys == [] then []
    else
      Strings.FirstAndRest(keys);
      (if keys[0] == w then [data[0]] else []) + DataOf(keys[1..], data[1..], w)
  }

  /** The words that the synonym s stands for, each with its own data, but for those with the key `shown`. */
  function TargetsOf(d: Articles, synonymKeys: seq<Bytes>, synonyms: seq<nat>, s: Bytes, shown: Cursors.Option<Bytes>)
    : seq<Entry>
    requires |d.keys| == |d.data| && |synonymKeys| == |synonyms|
    requires forall i | 0 <= i < |synonyms| :: synonyms[i] < |d.keys|
  {
    if synonymKeys == [] then []
    else
      var t := synonyms[0];
      (if synonymKeys[0] != s || shown == Cursors.Some(d.keys[t]) then [] else [Entry(d.keys[t], d.data[t], [])])
      + TargetsOf(d, synonymKeys[1..], synonyms[1..], s, shown)
  }

  /** The word, if there is one, with the data of all its records, and then what the synonym, if any, stands for. */
  function EntriesOf(d: Articles, word: Cursors.Option<Bytes>, synonym: Cursors.Option<Bytes>): seq<Entry>
    requires ArticlesValid(d)
  {
    (if word.Some? && word.value in d.keys then
       var blocks := DataOf(d.keys, d.data, word.value);
       [Entry(word.value, blocks[0], blocks[1..])]
     else [])
    + if synonym.Some? then TargetsOf(d, d.synonymKeys, d.synonyms, synonym.value, word) else []
  }

  /** w stands at n places from first on, and nowhere else. */
  ghost predicate StandsAt(keys: seq<Bytes>, w: Bytes, first: nat, n: nat) {
    first + n <= |keys| && forall k | 0 <= k < |keys| :: keys[k] == w <==> first <= k < first + n
  }

  lemma RestStandsAt(keys: seq<Bytes>, w: Bytes, first: nat, n: nat)
    requires StandsAt(keys, w, first, n)
    ensures first + n <= |keys|
    ensures keys != [] ==> (keys[0] == w <==> first == 0 < n)
    ensures keys != [] ==> if first > 0 then StandsAt(keys[1..], w, first - 1, n)
                           else StandsAt(keys[1..], w, 0, if n == 0 then 0 else n - 1)
  {
  }

  lemma {:induction false} DataOfRun(keys: seq<Bytes>, data: seq<Bytes>, w: Bytes, first: nat, n: nat)
    requires |keys| == |data| && StandsAt(keys, w, first, n)
    ensures DataOf(keys, data, w) == data[first..first + n]
  {
    hide StandsAt;
    RestStandsAt(keys, w, first, n);
    if keys != [] {
      if first > 0 {
        DataOfRun(keys[1..], data[1..], w, first - 1, n);
        assert data[1..][first - 1..first - 1 + n] == data[first..first + n];
      } else if n > 0 {
        DataOfRun(keys[1..], data[1..], w, 0, n - 1);
        assert data[0..n] == [data[0]] + data[1..][0..n - 1];
      } else {
        DataOfRun(keys[1..], data[1..], w, 0, 0);
      }
    }
  }

  lemma {:induction false} TargetsOfRun(d: Articles, synonymKeys: seq<Bytes>, synonyms: seq<nat>, s: Bytes,
                                        shown: Cursors.Option<Bytes>, r: Run, first: nat, n: nat)
    requires |d.keys| == |d.data| && |synonymKeys| == |synonyms| && StandsAt(synonymKeys, s, first, n)
    requires forall i | 0 <= i < |synonyms| :: synonyms[i] < |d.keys|
    requires forall k | 0 <= k < |d.keys| :: Contains(r, k) <==> shown == Cursors.Some(d.keys[k])
    ensures TargetsOf(d, synonymKeys, synonyms, s, shown) == SynonymEntries(d, r, synonyms[first..first + n])
  {
    hide StandsAt;
    RestStandsAt(synonymKeys, s, first, n);
    if synonymKeys != [] {
      if first > 0 {
        TargetsOfRun(d, synonymKeys[1..], synonyms[1..], s, shown, r, first - 1, n);
        assert synonyms[1..][first - 1..first - 1 + n] == synonyms[first..first + n];
      } else {
        TargetsOfRun(d, synonymKeys[1..], synonyms[1..], s, shown, r, 0, if n == 0 then 0 else n - 1);
        if n > 0 {
          assert synonyms[0..n][1..] == synonyms[1..][0..n - 1];
        }
      }
    }
  }

  /** r is the run of what was found, if anything was. */
  ghost predicate Brings(r: Run, list: seq<Bytes>, w: Cursors.Option<Bytes>) {
    if w.Some? then IsRunOf(r, list, w.value) else r.NotFound?
  }

  lemma BringsPlaces(r: Run, list: seq<Bytes>, w: Cursors.Option<Bytes>) returns (first: nat, n: nat)
    requires Brings(r, list, w)
    ensures RunIn(r, list)
    ensures w.Some? ==> StandsAt(list, w.value, first, n) && (n > 0 <==> w.value in list)
    ensures w.Some? && n > 0 ==> r == Run(first, n)
    ensures r.Run? ==> w.Some? && n > 0
    ensures forall k | 0 <= k < |list| :: Contains(r, k) <==> w == Cursors.Some(list[k])
  {
    first, n := if r.Run? then r.first else 0, if r.Run? then r.count else 0;
    if r.Run? {
      assert list[first] == w.value;
    }
  }

  /** What was found contributes the records of the word, and the targets of the synonym that are not among them. */
  lemma ContributionIs(d: Articles, found: Runs, word: Cursors.Option<Bytes>, synonym: Cursors.Option<Bytes>)
    requires ArticlesValid(d) && Brings(found.word, d.keys, word) && Brings(found.synonym, d.synonymKeys, synonym)
    ensures Contribution(d, found) == EntriesOf(d, word, synonym)
  {
    hide Brings, StandsAt, IsRunOf, Contains, DataOf, TargetsOf;
    var first, n := BringsPlaces(found.word, d.keys, word);
    var from, m := BringsPlaces(found.synonym, d.synonymKeys, synonym);
    if word.Some? && n > 0 {
      WordStands(d.keys, word.value, first, n);
      DataOfRun(d.keys, d.data, word.value, first, n);
    }
    if synonym.Some? {
      TargetsOfRun(d, d.synonymKeys, d.synonyms, synonym.value, word, found.word, from, m);
    }
  }

  lemma WordStands(keys: seq<Bytes>, w: Bytes, first: nat, n: nat)
    requires StandsAt(keys, w, first, n) && n > 0
    ensures first < |keys| && keys[first] == w
  {
  }
}
