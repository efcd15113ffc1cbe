/** The server's side of a lookup: every path prints one definition block and one list. */
module Server {
  import opened Strings
  import opened Wire
  import opened Queries
  import CommandLine
  import Client
  import Words
  import Cursors
  import WordLists
  import Suggestions
  import Results

  const OK_LINE: Bytes := [50, 53, 48, 10]       // "250\n"
  const NOT_SET_LINE: Bytes := [53, 50, 50, 10]  // "522\n"
  const LOOKUP: Bytes := [108, 111, 111, 107, 117, 112]  // "lookup"

  /** The last word looked up in all dictionaries, exactly or as a similar word: it determines the indexes. */
  datatype Lookup = Lookup(word: Bytes, similar: bool)

  /** For the words and synonyms of a dictionary as the collation presents them: their places in the files. */
  datatype Places = Places(words: seq<nat>, synonyms: seq<nat>)

  /** p takes every place in list to that of an equal key, and every key is taken to. */
  ghost predicate Presents(p: seq<nat>, list: seq<Bytes>, keys: seq<Bytes>) {
    && |p| == |list| == |keys|
    && (forall k | 0 <= k < |p| :: p[k] < |keys| && keys[p[k]] == list[k])
    && (forall k: nat | k < |keys| :: k in p)
  }

  lemma SameWords(p: seq<nat>, list: seq<Bytes>, keys: seq<Bytes>, w: Bytes)
    requires Presents(p, list, keys)
    ensures w in keys <==> w in list
  {
    if w in keys {
      var k: nat :| k < |keys| && keys[k] == w;
      assert k in p;
      var j :| 0 <= j < |p| && p[j] == k;
      assert list[j] == w;
    }
    if w in list {
      var j :| 0 <= j < |list| && list[j] == w;
      assert keys[p[j]] == w;
    }
  }

  /** What the dictionaries answer. */
  datatype Library = Library(
    names: seq<Bytes>,
    articles: seq<Results.Articles>,
    places: seq<Places>,                               // by dictionary
    head: Bytes -> Bytes,                              // the word without punctuation around it
    rule: Bytes -> seq<Bytes>,
    regex: Bytes -> seq<Bytes>,
    fuzzy: Bytes -> seq<Bytes>,
    data: Bytes -> seq<seq<Bytes>>,                    // by dictionary
    similar: Bytes -> seq<Cursors.CurrentIndex>,       // where the lookup of similar words leaves the cursors
    similarFound: Bytes -> seq<Cursors.Found>)         // and what it finds

  predicate ResultsFit(lib: Library, results: seq<seq<Entry>>) {
    |results| == |lib.names| && forall i | 0 <= i < |results| :: EntriesFit(results[i])
  }

  ghost predicate LibraryFits(lib: Library) {
    && |lib.articles| == |lib.places| == |lib.names|
    && (forall i | 0 <= i < |lib.articles| :: DictionaryFits(lib.articles[i]))
    && (forall w :: |lib.data(w)| == |lib.names|)
  }

  /** A dictionary is loaded, and its words and synonyms are sorted. */
  ghost predicate DictionaryFits(d: Results.Articles) {
    Results.ArticlesValid(d)
    && Words.Sorted(Words.StardictStrcmp(), d.keys) && Words.Sorted(Words.StardictStrcmp(), d.synonymKeys)
  }

  predicate AnyFound<T>(results: seq<seq<T>>) {
    exists i | 0 <= i < |results| :: results[i] != []
  }

  /** The run of equal keys that a cursor points at. */
  ghost function RunUnder(keys: seq<Bytes>, list: seq<Bytes>, found: bool, idx: int): Results.Run
    requires found ==> 0 <= idx < |list|
  {
    if found then Results.RunOf(keys, list[idx]) else Results.NotFound
  }

  /** Where the lookup put the cursor, that is the run of the word. */
  lemma RunIsUnder(p: seq<nat>, keys: seq<Bytes>, list: seq<Bytes>, w: Bytes, idx: int)
    requires Presents(p, list, keys) && Words.Sorted(Words.StardictStrcmp(), keys)
    requires w in list ==> 0 <= idx < |list| && list[idx] == w
    ensures RunUnder(keys, list, w in list, idx) == Results.RunOf(keys, w)
  {
    Words.StardictStrcmpIsTotal();
    SameWords(p, list, keys, w);
    hide Presents, Words.TotalOrder, Words.Sorted, Words.StardictStrcmp;
    Results.SortedHasRuns(keys, w);
  }

  /** The sections of dictionaries i and after. */
  function SectionsFrom(names: seq<Bytes>, results: seq<seq<Entry>>, i: nat): seq<Section>
    requires |names| == |results| && i <= |names|
    decreases |names| - i
  {
    if i == |names| then []
    else (if results[i] == [] then [] else [Section(names[i], results[i])]) + SectionsFrom(names, results, i + 1)
  }

  function GroupsFrom(names: seq<Bytes>, lists: seq<seq<Bytes>>, i: nat): seq<Group>
    requires |names| == |lists| && i <= |names|
    decreases |names| - i
  {
    if i == |names| then []
    else (if lists[i] == [] then [] else [Group(names[i], lists[i])]) + GroupsFrom(names, lists, i + 1)
  }

  function FirstFound<T>(results: seq<seq<T>>): (r: seq<T>)
    requires AnyFound(results)
    ensures r != []
  {
    if results[0] != [] then results[0]
    else
      NotTheFirst(results);
      FirstFound(results[1..])
  }

  function NotFound(word: Bytes): Definition {
    Definition(word, [])
  }

  class StardictdMain {
    const libs: Cursors.Libs   // the word lists
    const lib: Library         // everything else that is looked up
    const userLevel: int
    const advert: Section      // in the language of the user
    var sent: Bytes

    constructor (libs: Cursors.Libs, lib: Library, userLevel: int, advert: Section)
      ensures this.libs == libs && this.lib == lib && this.userLevel == userLevel && this.advert == advert && sent == []
    {
      this.libs, this.lib, this.userLevel, this.advert := libs, lib, userLevel, advert;
      sent := [];
    }

    /** The cursors move over the words of the dictionaries, and point at words where something was found. */
    ghost predicate CursorsFit() {
      && libs.Valid() && |libs.dictmask| == |lib.names| == |lib.articles| == |lib.places|
      && (forall w :: libs.Sane(lib.similar(w)) && Suggestions.InRange(libs, lib.similar(w)))
      && (forall w :: |lib.similarFound(w)| == |lib.names|)
      && (forall w, i | 0 <= i < |lib.names| :: PointsAtWords(lib.similar(w)[i], lib.similarFound(w)[i], i))
      && forall i | 0 <= i < |lib.names| ::
           Presents(lib.places[i].words, libs.List(i, true), lib.articles[i].keys)
           && Presents(lib.places[i].synonyms, libs.List(i, false), lib.articles[i].synonymKeys)
    }

    predicate PointsAtWords(c: Cursors.CurrentIndex, f: Cursors.Found, i: nat)
      requires i < |libs.dictmask|
    {
      (f.word ==> 0 <= c.idx < |libs.List(i, true)|) && (f.synonym ==> 0 <= c.synidx < |libs.List(i, false)|)
    }

    ghost predicate Fits() {
      CursorsFit() && LibraryFits(lib) && EntriesFit(advert.entries) && |advert.entries| == 1 &&
        advert.entries[0].more == []
    }

    lemma CursorsHold()
      requires Fits()
      ensures CursorsFit() && libs.Valid() && |libs.dictmask| == |lib.articles|
    {
    }

    lemma FoundInRange(w: Bytes)
      requires Fits()
      ensures |lib.similarFound(w)| == |lib.names| == |lib.articles|
    {
    }

    // ----- What is to be answered -----

    function Adverts(): seq<Section> {
      if userLevel == 0 then [advert] else []
    }

    function Shown(word: Bytes, results: seq<seq<Entry>>): Definition
      requires |results| == |lib.names|
    {
      Definition(word, SectionsFrom(lib.names, results, 0) + Adverts())
    }

    /** The runs of dictionary i whose records a cursor brings. */
    ghost function RunsAt(i: nat, c: Cursors.CurrentIndex, f: Cursors.Found): Results.Runs
      requires CursorsFit() && i < |lib.articles| && PointsAtWords(c, f, i)
    {
      var d := lib.articles[i];
      Results.Runs(RunUnder(d.keys, libs.List(i, true), f.word, c.idx),
                   RunUnder(d.synonymKeys, libs.List(i, false), f.synonym, c.synidx))
    }

    /** What a lookup finds in dictionary i: the runs of the word, or those the lookup of similar words points at. */
    ghost function RunsFor(l: Lookup, i: nat): Results.Runs
      requires CursorsFit() && i < |lib.articles|
    {
      var d := lib.articles[i];
      if l.similar then RunsAt(i, lib.similar(l.word)[i], lib.similarFound(l.word)[i])
      else Results.Runs(Results.RunOf(d.keys, l.word), Results.RunOf(d.synonymKeys, l.word))
    }

    /** The entries a lookup finds, by dictionary. */
    ghost function Build(l: Lookup): (r: seq<seq<Entry>>)
      requires CursorsFit()
      ensures |r| == |lib.articles|
      ensures forall i | 0 <= i < |r| :: r[i] == Results.Contribution(lib.articles[i], RunsFor(l, i))
    {
      seq(|lib.articles|, i requires 0 <= i < |lib.articles| => Results.Contribution(lib.articles[i], RunsFor(l, i)))
    }

    lemma BuildFits(l: Lookup)
      requires CursorsFit()
      ensures ResultsFit(lib, Build(l))
    {
      forall i | 0 <= i < |lib.articles|
        ensures EntriesFit(Build(l)[i])
      {
        Results.ContributionFits(lib.articles[i], RunsFor(l, i));
      }
    }

    ghost predicate Found(word: Bytes)
      requires CursorsFit()
    {
      AnyFound(Build(Lookup(word, false))) || AnyFound(Build(Lookup(word, true)))
    }

    /** The lookup that decides on a word: the exact one if it finds anything. */
    ghost function Deciding(word: Bytes): Lookup
      requires CursorsFit()
    {
      Lookup(word, !AnyFound(Build(Lookup(word, false))))
    }

    ghost predicate TriesHead(word: Bytes, tryMore: bool)
      requires CursorsFit()
    {
      !Found(word) && tryMore && lib.head(word) != [] && lib.head(word) != word
    }

    ghost function LastLookup(word: Bytes, tryMore: bool): Lookup
      requires CursorsFit()
    {
      Deciding(if TriesHead(word, tryMore) then lib.head(word) else word)
    }

    ghost predicate Finds(word: Bytes, tryMore: bool)
      requires CursorsFit()
    {
      Found(word) || (TriesHead(word, tryMore) && Found(lib.head(word)))
    }

    /** The definition block of a word. */
    ghost function Simple(word: Bytes, tryMore: bool): Definition
      requires Fits()
    {
      if Finds(word, tryMore) then Shown(word, Build(LastLookup(word, tryMore))) else NotFound(word)
    }

    ghost function Matches(word: Bytes, matches: seq<Bytes>, mark: Bytes): Reply
      requires Fits()
    {
      Reply(if matches == [] then NotFound(word) else Simple(matches[0], false), Plain(mark, matches))
    }

    ghost function DataMatches(word: Bytes): Reply
      requires Fits()
    {
      var lists := lib.data(word);
      Reply(if AnyFound(lists) then Simple(FirstFound(lists)[0], false) else NotFound(word),
            ByDictionary(GroupsFrom(lib.names, lists, 0)))
    }

    /** The words ahead of the cursors after a lookup: in the merged order, from the word on that was looked up. */
    ghost function NearSet(l: Lookup): set<Bytes>
      requires Fits()
    {
      if l.similar then libs.Union(lib.similar(l.word), true) else libs.Side(libs.Vocabulary(), l.word, true)
    }

    /** The first of them, at least one when there is one. */
    ghost function Near(l: Lookup, count: int): seq<Bytes>
      requires Fits()
    {
      WordLists.FirstOf(libs.cmp, NearSet(l), WordLists.AtLeastOne(count))
    }

    ghost function SuggestedBy(cur: seq<Cursors.CurrentIndex>): set<Bytes>
      requires Suggestions.InRange(libs, cur)
    {
      Suggestions.Suggested(libs, cur, true, |cur|) + Suggestions.Suggested(libs, cur, false, |cur|)
    }

    /** The word that matches best among those the cursors suggest. */
    ghost function Suggest(word: Bytes, l: Lookup): Cursors.Option<Bytes>
      requires Fits()
    {
      Suggestions.BestOf(libs.cmp, libs.pm, word, SuggestedBy(lib.similar(l.word)))
    }

    ghost function SimpleReply(word: Bytes, count: int): Reply
      requires Fits()
    {
      var last := LastLookup(word, true);
      if Finds(word, true) then Reply(Simple(word, true), Plain(LIST_MARK, Near(last, count)))
      else
        match Suggest(word, last)
        case None => Reply(NotFound(word), Plain(LIST_MARK, Near(last, count)))
        case Some(other) => Reply(Simple(other, false), Plain(LIST_MARK, Near(LastLookup(other, false), count)))
    }

    ghost function Answer(query: Bytes, count: int): Reply
      requires Fits()
    {
      var (kind, word) := Analysis(query);
      match kind
      case QtPattern => Matches(word, lib.rule(word), RULE_MARK)
      case QtRegex => Matches(word, lib.regex(word), REGEX_MARK)
      case QtFuzzy => Matches(word, lib.fuzzy(word), FUZZY_MARK)
      case QtData => DataMatches(word)
      case QtSimple => SimpleReply(word, count)
    }

    // ----- Printing -----

    method NetWriteStr(s: Bytes)
      modifies `sent
      ensures sent == old(sent) + StrBytes(s)
    {
      sent := sent + s + [NUL];
    }

    method NetWriteData(d: Bytes)
      requires IsBlock(d)
      modifies `sent
      ensures sent == old(sent) + DataBytes(d)
    {
      sent := sent + SizeBytes(|d|);
      sent := sent + d;
    }

    method ShowBlocks(ds: seq<Bytes>)
      requires BlocksFit(ds)
      modifies `sent
      ensures sent == old(sent) + BlocksBytes(ds)
    {
      hide DataBytes;
      var k := 0;
      while k < |ds|
        invariant 0 <= k <= |ds|
        invariant sent + BlocksBytes(ds[k..]) == old(sent) + BlocksBytes(ds)
      {
        ghost var before := sent;
        NetWriteData(ds[k]);
        assert ds[k..][1..] == ds[k+1..];
        Regroup(before, DataBytes(ds[k]), BlocksBytes(ds[k+1..]));
        k := k + 1;
      }
      NetWriteData([]);
    }

    method ShowEntries(es: seq<Entry>)
      requires EntriesFit(es) && es != []
      modifies `sent
      ensures sent == old(sent) + EntriesBytes(es)
    {
      hide DataBytes, StrBytes, BlocksBytes;
      var j := 0;
      while true
        invariant 0 <= j < |es|
        invariant sent + EntriesBytes(es[j..]) == old(sent) + EntriesBytes(es)
        decreases |es| - j
      {
        ghost var before := sent;
        NetWriteStr(es[j].word);
        NetWriteData(es[j].first);
        ShowBlocks(es[j].more);
        NextPrinted(before, StrBytes(es[j].word), DataBytes(es[j].first), BlocksBytes(es[j].more),
                    EntriesBytes(es[j+1..]));
        assert es[j..][1..] == es[j+1..];
        j := j + 1;
        if j == |es| {
          break;
        }
      }
      NetWriteStr([]);
    }

    method ShowADs()
      requires Fits()
      modifies `sent
      ensures sent == old(sent) + (StrBytes(advert.name) + EntriesBytes(advert.entries))
    {
      hide DataBytes, StrBytes, LibraryFits;
      NetWriteStr(advert.name);
      ghost var named := sent;
      var e := advert.entries[0];
      NetWriteStr(e.word);
      NetWriteData(e.first);
      NetWriteData([]);
      NetWriteStr([]);
      assert BlocksBytes(e.more) == DataBytes([]);
      assert advert.entries[1..] == [];
      assert EntriesBytes(advert.entries) == StrBytes(e.word) + DataBytes(e.first) + DataBytes([]) + StrBytes([]);
      Regroup(old(sent), StrBytes(advert.name), EntriesBytes(advert.entries));
      NextPrinted(named, StrBytes(e.word), DataBytes(e.first), DataBytes([]), StrBytes([]));
    }

    method ShowData(results: seq<seq<Entry>>, originWord: Bytes)
      requires Fits() && ResultsFit(lib, results)
      modifies `sent
      ensures SectionsFit(Shown(originWord, results).sections)
      ensures sent == old(sent) + DefinitionBytes(Shown(originWord, results))
    {
      hide StrBytes, EntriesBytes, LibraryFits, SectionsBytes;
      ghost var all := SectionsFrom(lib.names, results, 0) + Adverts();
      ShownFit(results, 0);
      NetWriteStr(originWord);
      ghost var start := sent;
      for i := 0 to |results|
        invariant ResultsFit(lib, results) && SectionsFit(SectionsFrom(lib.names, results, i) + Adverts()) &&
                  SectionsFit(all)
        invariant sent + SectionsBytes(SectionsFrom(lib.names, results, i) + Adverts()) == start + SectionsBytes(all)
      {
        ShownFit(results, i + 1);
        NextShown(results, i, sent);
        if results[i] != [] {
          NetWriteStr(lib.names[i]);
          ShowEntries(results[i]);
        }
      }
      assert SectionsFrom(lib.names, results, |results|) == [];
      LastShown(sent);
      if userLevel == 0 {
        ShowADs();
      }
      NetWriteStr([]);
      Regroup(old(sent), StrBytes(originWord), SectionsBytes(all));
    }

    lemma ShownFit(results: seq<seq<Entry>>, i: nat)
      requires Fits() && ResultsFit(lib, results) && i <= |results|
      ensures SectionsFit(SectionsFrom(lib.names, results, i) + Adverts())
      decreases |results| - i
    {
      hide LibraryFits;
      if i < |results| {
        ShownFit(results, i + 1);
        var rest := SectionsFrom(lib.names, results, i + 1) + Adverts();
        assert SectionsFrom(lib.names, results, i) + Adverts()
            == (if results[i] == [] then [] else [Section(lib.names[i], results[i])]) + rest;
      }
    }

    lemma NextShown(results: seq<seq<Entry>>, i: nat, before: Bytes)
      requires Fits() && ResultsFit(lib, results) && i < |results|
      requires SectionsFit(SectionsFrom(lib.names, results, i) + Adverts())
      requires SectionsFit(SectionsFrom(lib.names, results, i + 1) + Adverts())
      ensures var rest := SectionsBytes(SectionsFrom(lib.names, results, i + 1) + Adverts());
              before + SectionsBytes(SectionsFrom(lib.names, results, i) + Adverts())
              == if results[i] == [] then before + rest
                 else before + StrBytes(lib.names[i]) + EntriesBytes(results[i]) + rest
    {
      hide StrBytes, EntriesBytes, LibraryFits;
      var rest := SectionsFrom(lib.names, results, i + 1) + Adverts();
      if results[i] == [] {
        assert SectionsFrom(lib.names, results, i) == SectionsFrom(lib.names, results, i + 1);
      } else {
        var s := Section(lib.names[i], results[i]);
        assert SectionsFrom(lib.names, results, i) + Adverts() == [s] + rest;
        assert ([s] + rest)[1..] == rest;
        Regroup(before, StrBytes(s.name) + EntriesBytes(s.entries), SectionsBytes(rest));
        Regroup(before, StrBytes(s.name), EntriesBytes(s.entries));
      }
    }

    lemma LastShown(before: Bytes)
      requires Fits()
      ensures SectionsFit(Adverts()) && [] + Adverts() == Adverts()
      ensures before + SectionsBytes(Adverts())
              == if userLevel == 0 then before + (StrBytes(advert.name) + EntriesBytes(advert.entries)) + StrBytes([])
                 else before + StrBytes([])
    {
      hide StrBytes, EntriesBytes, LibraryFits;
      if userLevel == 0 {
        assert [advert][1..] == [];
        Regroup(before, StrBytes(advert.name) + EntriesBytes(advert.entries), StrBytes([]));
      }
    }

    method ShowNotFound(originWord: Bytes)
      modifies `sent
      ensures sent == old(sent) + DefinitionBytes(NotFound(originWord))
    {
      NetWriteStr(originWord);
      NetWriteStr([]);
    }

    /** The cursors stand where this lookup left them. */
    ghost predicate AtLookup(cur: seq<Cursors.CurrentIndex>, l: Lookup)
      requires Fits()
    {
      libs.Sane(cur) && libs.Union(cur, true) == NearSet(l) && (l.similar ==> cur == lib.similar(l.word))
    }

    /** BuildResultData over all dictionaries, first for the word itself, then for similar words. */
    method BuildResults(word: Bytes, iIndex: array<Cursors.CurrentIndex>)
      returns (found: bool, results: seq<seq<Entry>>, last: Lookup)
      requires Fits() && iIndex.Length == |libs.dictmask|
      modifies iIndex
      ensures found == Found(word) && last == Deciding(word) && results == Build(last)
      ensures AtLookup(iIndex[..], last)
    {
      hide Fits, CursorsFit, Build;
      CursorsHold();
      last := Lookup(word, false);
      results := BuildExact(word, iIndex);
      found := AnyFound(results);
      if !found {
        last := Lookup(word, true);
        results := BuildSimilar(word, iIndex);
        found := AnyFound(results);
      }
    }

    method BuildExact(word: Bytes, iIndex: array<Cursors.CurrentIndex>) returns (results: seq<seq<Entry>>)
      requires Fits() && iIndex.Length == |libs.dictmask|
      modifies iIndex
      ensures results == Build(Lookup(word, false)) && AtLookup(iIndex[..], Lookup(word, false))
    {
      var founds := libs.LookupAll(iIndex, word);
      hide CursorsFit, LibraryFits, PointsAtWords, RunsAt, RunsFor, libs.Placed;
      ExactRuns(word, iIndex[..], founds);
      results := BuildAll(Lookup(word, false), iIndex, founds);
    }

    method BuildSimilar(word: Bytes, iIndex: array<Cursors.CurrentIndex>) returns (results: seq<seq<Entry>>)
      requires Fits() && iIndex.Length == |libs.dictmask|
      modifies iIndex
      ensures results == Build(Lookup(word, true)) && AtLookup(iIndex[..], Lookup(word, true))
    {
      hide LibraryFits, libs.Sane, libs.Valid, PointsAtWords, RunsAt;
      PlaceSimilar(word, iIndex);
      results := BuildAll(Lookup(word, true), iIndex, lib.similarFound(word));
    }

    /** Where the lookup of a word puts the cursors, they bring the runs of the word. */
    lemma ExactRuns(word: Bytes, cur: seq<Cursors.CurrentIndex>, founds: seq<Cursors.Found>)
      requires Fits() && |cur| == |founds| == |libs.dictmask|
      requires forall i | 0 <= i < |cur| ::
                 libs.Placed(cur[i], i, true, word) && libs.Placed(cur[i], i, false, word)
                 && founds[i] == Cursors.Found(word in libs.List(i, true), word in libs.List(i, false))
      ensures forall i | 0 <= i < |cur| ::
                PointsAtWords(cur[i], founds[i], i) && RunsAt(i, cur[i], founds[i]) == RunsFor(Lookup(word, false), i)
    {
      forall i | 0 <= i < |cur|
        ensures PointsAtWords(cur[i], founds[i], i) && RunsAt(i, cur[i], founds[i]) == RunsFor(Lookup(word, false), i)
      {
        ExactRun(word, i, cur[i], founds[i]);
      }
    }

    lemma ExactRun(word: Bytes, i: nat, c: Cursors.CurrentIndex, f: Cursors.Found)
      requires Fits() && i < |libs.dictmask| && libs.Placed(c, i, true, word) && libs.Placed(c, i, false, word)
      requires f == Cursors.Found(word in libs.List(i, true), word in libs.List(i, false))
      ensures PointsAtWords(c, f, i) && RunsAt(i, c, f) == RunsFor(Lookup(word, false), i)
    {
      hide Fits, CursorsFit, Words.Sorted, Words.StardictStrcmp, Presents, Results.RunOf;
      OneDictionaryFits(i);
      var d := lib.articles[i];
      libs.PlacedAtWord(c, i, true, word);
      libs.PlacedAtWord(c, i, false, word);
      hide libs.Placed, libs.List, RunUnder;
      RunIsUnder(lib.places[i].words, d.keys, libs.List(i, true), word, c.idx);
      RunIsUnder(lib.places[i].synonyms, d.synonymKeys, libs.List(i, false), word, c.synidx);
    }

    lemma OneDictionaryFits(i: nat)
      requires Fits() && i < |libs.dictmask|
      ensures CursorsFit() && i < |lib.articles| == |lib.places|
      ensures var d := lib.articles[i];
              && Words.Sorted(Words.StardictStrcmp(), d.keys) && Words.Sorted(Words.StardictStrcmp(), d.synonymKeys)
              && Presents(lib.places[i].words, libs.List(i, true), d.keys)
              && Presents(lib.places[i].synonyms, libs.List(i, false), d.synonymKeys)
    {
      hide Words.Sorted, Words.StardictStrcmp, Presents;
      assert DictionaryFits(lib.articles[i]);
    }

    method BuildAll(ghost l: Lookup, iIndex: array<Cursors.CurrentIndex>, founds: seq<Cursors.Found>)
      returns (results: seq<seq<Entry>>)
      requires Fits() && iIndex.Length == |founds| == |libs.dictmask|
      requires forall i | 0 <= i < |founds| ::
                 PointsAtWords(iIndex[i], founds[i], i) && RunsAt(i, iIndex[i], founds[i]) == RunsFor(l, i)
      ensures results == Build(l)
    {
      hide Results.Contribution, RunsAt, RunsFor, PointsAtWords, Fits, CursorsFit, Build;
      CursorsHold();
      results := [];
      for iLib := 0 to |lib.articles|
        invariant |results| == iLib && forall k | 0 <= k < iLib :: results[k] == Build(l)[k]
      {
        var entries := BuildOne(iLib, iIndex[iLib], founds[iLib]);
        results := results + [entries];
      }
    }

    /** From the cursor to the original place, to the run of equal keys there, to the entries. */
    method BuildOne(i: nat, c: Cursors.CurrentIndex, f: Cursors.Found) returns (entries: seq<Entry>)
      requires Fits() && i < |lib.articles| && PointsAtWords(c, f, i)
      ensures entries == Results.Contribution(lib.articles[i], RunsAt(i, c, f))
    {
      var d, p := lib.articles[i], lib.places[i];
      assert DictionaryFits(d);
      hide LibraryFits, Words.Sorted, Words.StardictStrcmp, libs.Valid, Results.Contribution;
      var word, synonym := Results.NotFound, Results.NotFound;
      if f.word {
        word := Results.FindRun(d.keys, p.words[c.idx]);
      }
      if f.synonym {
        synonym := Results.FindRun(d.synonymKeys, p.synonyms[c.synidx]);
      }
      entries := Results.BuildResultData(d, Results.Runs(word, synonym));
    }

    method PlaceSimilar(word: Bytes, iIndex: array<Cursors.CurrentIndex>)
      requires Fits() && iIndex.Length == |libs.dictmask|
      modifies iIndex
      ensures iIndex[..] == lib.similar(word) && libs.Sane(iIndex[..])
    {
      hide LibraryFits, libs.Valid, libs.Sane;
      assert |lib.similar(word)| == iIndex.Length;
      for iLib := 0 to iIndex.Length
        invariant iIndex[..iLib] == lib.similar(word)[..iLib]
      {
        iIndex[iLib] := lib.similar(word)[iLib];
      }
    }

    /** The definition block of a word, or nothing if there is none and none was asked for. */
    method SimpleLookupToTextWin(word: Bytes, iIndex: array<Cursors.CurrentIndex>, tryMore: bool, showNotFound: bool)
      returns (found: bool, last: Lookup)
      requires Fits() && iIndex.Length == |libs.dictmask|
      modifies `sent, iIndex
      ensures found == Finds(word, tryMore) && last == LastLookup(word, tryMore)
      ensures AtLookup(iIndex[..], last)
      ensures SectionsFit(Simple(word, tryMore).sections)
      ensures sent == if found || showNotFound then old(sent) + DefinitionBytes(Simple(word, tryMore)) else old(sent)
    {
      hide ResultsFit, SectionsFit, DefinitionBytes, AtLookup, CursorsFit;
      var results;
      found, results, last := BuildResults(word, iIndex);
      BuildFits(last);
      if found {
        ShowData(results, word);
        return;
      }
      if tryMore {
        var headWord := lib.head(word);
        if headWord != [] && headWord != word {
          found, results, last := BuildResults(headWord, iIndex);
          BuildFits(last);
          if found {
            ShowData(results, word);
            return;
          }
        }
      }
      NothingFits(word);
      if showNotFound {
        ShowNotFound(word);
      }
    }

    /** The same with cursors of its own. */
    method ShowWord(word: Bytes)
      requires Fits()
      modifies `sent
      ensures SectionsFit(Simple(word, false).sections)
      ensures sent == old(sent) + DefinitionBytes(Simple(word, false))
    {
      hide CursorsFit, LibraryFits, DefinitionBytes, SectionsFit;
      var iIndex := new Cursors.CurrentIndex[|libs.dictmask|](_ => Cursors.CurrentIndex(0, 0, 0, 0));
      var _, _ := SimpleLookupToTextWin(word, iIndex, false, true);
    }

    lemma NothingFits(word: Bytes)
      ensures SectionsFit(NotFound(word).sections)
    {
    }

    method WriteWords(words: seq<Bytes>)
      modifies `sent
      ensures sent == old(sent) + WordsBytes(words)
    {
      hide StrBytes;
      var i := 0;
      while i < |words|
        invariant 0 <= i <= |words|
        invariant sent + WordsBytes(words[i..]) == old(sent) + WordsBytes(words)
      {
        Regroup(sent, StrBytes(words[i]), WordsBytes(words[i+1..]));
        assert words[i..][1..] == words[i+1..];
        NetWriteStr(words[i]);
        i := i + 1;
      }
      NetWriteStr([]);
    }

    /** LookupWithRuleToMainWin, and with other marks those of regular expressions and fuzzy queries. */
    method LookupMatches(word: Bytes, matches: seq<Bytes>, mark: Bytes)
      requires Fits()
      modifies `sent
      ensures SectionsFit(Matches(word, matches, mark).definition.sections)
      ensures sent == old(sent) + ReplyBytes(Matches(word, matches, mark))
    {
      hide DefinitionBytes, StrBytes, Fits, WordsBytes;
      if matches != [] {
        ShowWord(matches[0]);
      } else {
        NothingFits(word);
        ShowNotFound(word);
      }
      ghost var shown := sent;
      NetWriteStr(mark);
      WriteWords(matches);
      ThreePrinted(old(sent), DefinitionBytes(Matches(word, matches, mark).definition), StrBytes(mark),
                   WordsBytes(matches));
    }

    method LookupDataToMainWin(word: Bytes)
      requires Fits()
      modifies `sent
      ensures SectionsFit(DataMatches(word).definition.sections)
      ensures sent == old(sent) + ReplyBytes(DataMatches(word))
    {
      hide DefinitionBytes, StrBytes, WordsBytes, GroupsBytes;
      var lists := lib.data(word);
      assert |lists| == |lib.names|;
      hide LibraryFits;
      if AnyFound(lists) {
        ShowFirstMatch(lists);
      } else {
        NothingFits(word);
        ShowNotFound(word);
      }
      NetWriteStr(DATA_MARK);
      WriteGroups(lists);
      ThreePrinted(old(sent), DefinitionBytes(DataMatches(word).definition), StrBytes(DATA_MARK),
                   GroupsBytes(GroupsFrom(lib.names, lists, 0)));
    }

    method ShowFirstMatch(lists: seq<seq<Bytes>>)
      requires Fits() && AnyFound(lists)
      modifies `sent
      ensures SectionsFit(Simple(FirstFound(lists)[0], false).sections)
      ensures sent == old(sent) + DefinitionBytes(Simple(FirstFound(lists)[0], false))
    {
      hide LibraryFits, DefinitionBytes, Simple;
      for i := 0 to |lists|
        invariant sent == old(sent) && AnyFound(lists[i..]) && FirstFound(lists[i..]) == FirstFound(lists)
      {
        if lists[i] != [] {
          ShowWord(lists[i][0]);
          return;
        }
        assert lists[i..][1..] == lists[i+1..];
        NotTheFirst(lists[i..]);
      }
    }

    method WriteGroups(lists: seq<seq<Bytes>>)
      requires |lists| == |lib.names|
      modifies `sent
      ensures sent == old(sent) + GroupsBytes(GroupsFrom(lib.names, lists, 0))
    {
      hide StrBytes, WordsBytes, GroupsBytes;
      for i := 0 to |lists|
        invariant sent + GroupsBytes(GroupsFrom(lib.names, lists, i)) ==
                  old(sent) + GroupsBytes(GroupsFrom(lib.names, lists, 0))
      {
        NextGroupPrinted(lib.names, lists, i, sent);
        if lists[i] != [] {
          NetWriteStr(lib.names[i]);
          WriteWords(lists[i]);
        }
      }
      NothingMore();
      NetWriteStr([]);
    }

    /** The words ahead of the cursors. */
    method ListWords(iCurrent: array<Cursors.CurrentIndex>, maxWordCount: int)
      requires libs.Valid() && iCurrent.Length == |libs.dictmask| && libs.Sane(iCurrent[..])
      modifies `sent, iCurrent
      ensures Words.TotalOrder(libs.cmp)
      ensures sent == old(sent) + ListBytes(Plain(LIST_MARK,
                        WordLists.FirstOf(libs.cmp, old(libs.Union(iCurrent[..], true)),
                                          WordLists.AtLeastOne(maxWordCount))))
    {
      hide StrBytes, WordsBytes;
      WordLists.ValidOrder(libs);
      ghost var ahead := libs.Union(iCurrent[..], true);
      hide libs.Valid, libs.Sane, Words.TotalOrder;
      NetWriteStr(LIST_MARK);
      var listed := WordLists.ListWords(libs, iCurrent, maxWordCount);
      WriteWords(listed);
      ghost var n := WordLists.AtLeastOne(maxWordCount);
      WordLists.FirstIsUnique(libs.cmp, listed, WordLists.FirstOf(libs.cmp, ahead, n), ahead, n);
      Regroup(old(sent), StrBytes(LIST_MARK), WordsBytes(listed));
    }

    /** The words ahead of where a lookup left the cursors. */
    method ListNear(ghost l: Lookup, iIndex: array<Cursors.CurrentIndex>, count: int)
      requires Fits() && iIndex.Length == |libs.dictmask| && AtLookup(iIndex[..], l)
      modifies `sent, iIndex
      ensures sent == old(sent) + ListBytes(Plain(LIST_MARK, Near(l, count)))
    {
      hide Fits, CursorsFit, libs.Sane, libs.Valid, NearSet, ListBytes;
      CursorsHold();
      ListWords(iIndex, count);
    }

    method SimpleQuery(word: Bytes, count: int)
      requires Fits()
      modifies `sent
      ensures SectionsFit(SimpleReply(word, count).definition.sections)
      ensures sent == old(sent) + ReplyBytes(SimpleReply(word, count))
    {
      hide Fits, AtLookup, Near, DefinitionBytes, ListBytes, SectionsFit, Simple, Suggest;
      var iIndex := new Cursors.CurrentIndex[|libs.dictmask|](_ => Cursors.CurrentIndex(0, 0, 0, 0));
      var find, last := SimpleLookupToTextWin(word, iIndex, true, false);
      if !find {
        var suggestion := SuggestWord(word, last, iIndex);
        if suggestion.Some? {
          find, last := SimpleLookupToTextWin(suggestion.value, iIndex, false, true);
        } else {
          NothingFits(word);
          ShowNotFound(word);
        }
      }
      ListNear(last, iIndex, count);
      Regroup(old(sent), DefinitionBytes(SimpleReply(word, count).definition),
              ListBytes(SimpleReply(word, count).list));
    }

    method SuggestWord(word: Bytes, last: Lookup, iIndex: array<Cursors.CurrentIndex>)
      returns (w: Cursors.Option<Bytes>)
      requires Fits() && last.similar && AtLookup(iIndex[..], last)
      ensures w == Suggest(word, last)
    {
      hide LibraryFits;
      w := Suggestions.GetSuggestWord(libs, word, iIndex[..]);
      WordLists.ValidOrder(libs);
      Suggestions.BestIsUnique(libs.cmp, libs.pm, word, w, Suggest(word, last), SuggestedBy(lib.similar(last.word)));
    }

    /** Every kind of query is answered by one definition block and one list. */
    method LookupQuery(query: Bytes, count: int)
      requires Fits()
      modifies `sent
      ensures SectionsFit(Answer(query, count).definition.sections)
      ensures sent == old(sent) + ReplyBytes(Answer(query, count))
    {
      hide Analysis, ReplyBytes, SectionsFit, Fits;
      var kind, res := AnalyseQuery(query);
      match kind
      case QtPattern => LookupMatches(res, lib.rule(res), RULE_MARK);
      case QtRegex => LookupMatches(res, lib.regex(res), REGEX_MARK);
      case QtFuzzy => LookupMatches(res, lib.fuzzy(res), FUZZY_MARK);
      case QtData => LookupDataToMainWin(res);
      case QtSimple => SimpleQuery(res, count);
    }

    lemma SimpleFits(word: Bytes, tryMore: bool)
      requires Fits()
      ensures SectionsFit(Simple(word, tryMore).sections)
    {
      var results := Build(LastLookup(word, tryMore));
      BuildFits(LastLookup(word, tryMore));
      hide LibraryFits;
      ShownFit(results, 0);
    }

    lemma AnswerFits(query: Bytes, count: int)
      requires Fits()
      ensures SectionsFit(Answer(query, count).definition.sections)
    {
      hide LibraryFits, SectionsFit;
      var (kind, word) := Analysis(query);
      NothingFits(word);
      if kind.QtSimple? {
        SimpleFits(word, true);
        var suggestion := Suggest(word, LastLookup(word, true));
        if suggestion.Some? {
          SimpleFits(suggestion.value, false);
        }
      } else if kind.QtData? {
        if AnyFound(lib.data(word)) {
          SimpleFits(FirstFound(lib.data(word))[0], false);
        }
      } else {
        var matches :=
          if kind.QtPattern? then lib.rule(word)
          else if kind.QtRegex? then lib.regex(word)
          else lib.fuzzy(word);
        if matches != [] {
          SimpleFits(matches[0], false);
        }
      }
    }

    /** What is sent in answer to a query. */
    ghost function AnswerBytes(query: Bytes, count: int): Bytes
      requires Fits()
    {
      AnswerFits(query, count);
      OK_LINE + ReplyBytes(Answer(query, count))
    }

    method DaemonLookup(maskMissing: bool, query: Bytes, count: int)
      requires Fits()
      modifies `sent
      ensures sent == old(sent) + if maskMissing then NOT_SET_LINE else AnswerBytes(query, count)
    {
      hide ReplyBytes, Fits, Answer, SectionsFit;
      if maskMissing {
        sent := sent + NOT_SET_LINE;
        return;
      }
      sent := sent + OK_LINE;
      LookupQuery(query, count);
      Regroup(old(sent), OK_LINE, ReplyBytes(Answer(query, count)));
    }

    /** The branch of the command loop for lookups. */
    method HandleLookup(args: seq<Bytes>, maskMissing: bool)
      requires Fits() && |args| >= 2 && args[0] == LOOKUP
      modifies `sent
      ensures sent == old(sent) + if maskMissing then NOT_SET_LINE else AnswerBytes(args[1], CountOf(args))
    {
      hide AnswerBytes, Fits;
      if |args| >= 3 {
        var wordCount := Client.Atoi(args[2]);
        if wordCount < 1 {
          wordCount := 1;
        } else if wordCount > 100 {
          wordCount := 100;
        }
        DaemonLookup(maskMissing, args[1], wordCount);
      } else {
        DaemonLookup(maskMissing, args[1], 30);
      }
    }

    /** One pass of the command loop: a line is read, taken apart, and answered if it is a lookup. */
    method ServeLookup(connection: CommandLine.Connection, maskMissing: bool) returns (served: bool)
      requires Fits()
      modifies connection, `sent
      ensures served <==> IsLookup(CommandLine.CommandOf(old(connection.input)))
      ensures served ==> connection.input == CommandLine.FirstLine(old(connection.input), CommandLine.LINE_LIMIT).rest
      ensures var command := CommandLine.CommandOf(old(connection.input));
              sent == old(sent) + if !IsLookup(command) then [] else if maskMissing then NOT_SET_LINE
                                  else AnswerBytes(command.args[1], CountOf(command.args))
    {
      hide AnswerBytes, Fits;
      var command := connection.ReadCommand();
      served := IsLookup(command);
      if served {
        HandleLookup(command.args, maskMissing);
      }
    }
  }

  predicate IsLookup(command: CommandLine.Parsed) {
    command.Args? && |command.args| >= 2 && command.args[0] == LOOKUP
  }

  /** The number of words to list: from 1 to 100, and 30 if none is given. */
  function CountOf(args: seq<Bytes>): (n: int)
    ensures 1 <= n <= 100
  {
    if |args| < 3 then 30
    else
      var n := Client.Atoi(args[2]);
      if n < 1 then 1 else if n > 100 then 100 else n
  }

  lemma NotTheFirst<T>(results: seq<seq<T>>)
    requires AnyFound(results) && results[0] == []
    ensures AnyFound(results[1..])
  {
    var i :| 0 <= i < |results| && results[i] != [];
    assert results[1..][i-1] != [];
  }

  lemma NextGroupPrinted(names: seq<Bytes>, lists: seq<seq<Bytes>>, i: nat, before: Bytes)
    requires |names| == |lists| && i < |lists|
    ensures var rest := GroupsBytes(GroupsFrom(names, lists, i + 1));
            before + GroupsBytes(GroupsFrom(names, lists, i))
            == if lists[i] == [] then before + rest else before + StrBytes(names[i]) + WordsBytes(lists[i]) + rest
  {
    hide StrBytes, WordsBytes;
    var rest := GroupsFrom(names, lists, i + 1);
    if lists[i] == [] {
      assert GroupsFrom(names, lists, i) == rest;
    } else {
      var g := Group(names[i], lists[i]);
      assert GroupsFrom(names, lists, i) == [g] + rest;
      assert ([g] + rest)[1..] == rest;
      Regroup(before, StrBytes(g.name) + WordsBytes(g.words), GroupsBytes(rest));
      Regroup(before, StrBytes(g.name), WordsBytes(g.words));
    }
  }

  lemma NothingMore()
    ensures GroupsBytes([]) == WordsBytes([]) == StrBytes([])
  {
  }

  lemma NextPrinted(before: Bytes, a: Bytes, b: Bytes, c: Bytes, d: Bytes)
    ensures before + a + b + c + d == before + (a + b + c + d)
  {
  }

  lemma ThreePrinted(before: Bytes, a: Bytes, b: Bytes, c: Bytes)
    ensures before + a + b + c == before + (a + (b + c))
  {
  }

  // ----- From one program to the other -----

  /** Names and words are not empty, and neither are follow-up data blocks. */
  ghost predicate LibraryValid(lib: Library) {
    && NamesValid(lib.names)
    && (forall i | 0 <= i < |lib.articles| :: Results.Readable(lib.articles[i]))
    && (forall w :: NamesValid(lib.rule(w)) && NamesValid(lib.regex(w)) && NamesValid(lib.fuzzy(w)))
    && (forall w :: |lib.data(w)| == |lib.names| && forall i | 0 <= i < |lib.names| :: NamesValid(lib.data(w)[i]))
  }

  ghost predicate ServerValid(server: StardictdMain) {
    && LibraryValid(server.lib) && SectionValid(server.advert) && server.Fits()
    && forall w | w in server.libs.Vocabulary() :: IsName(w)
  }

  lemma {:induction false} SectionsAreValid(names: seq<Bytes>, results: seq<seq<Entry>>, i: nat)
    requires |names| == |results| && i <= |names| && NamesValid(names)
    requires forall k | 0 <= k < |names| :: EntriesValid(results[k])
    ensures SectionsValid(SectionsFrom(names, results, i))
    decreases |names| - i
  {
    hide EntriesValid, IsName;
    if i < |names| {
      SectionsAreValid(names, results, i + 1);
    }
  }

  lemma {:induction false} GroupsAreValid(names: seq<Bytes>, lists: seq<seq<Bytes>>, i: nat)
    requires |names| == |lists| && i <= |names| && NamesValid(names)
    requires forall k | 0 <= k < |names| :: NamesValid(lists[k])
    ensures GroupsValid(GroupsFrom(names, lists, i))
    decreases |names| - i
  {
    hide IsName;
    if i < |names| {
      GroupsAreValid(names, lists, i + 1);
    }
  }

  lemma BuildIsValid(server: StardictdMain, l: Lookup)
    requires LibraryValid(server.lib) && server.CursorsFit()
    ensures forall i | 0 <= i < |server.Build(l)| :: EntriesValid(server.Build(l)[i])
  {
    var lib := server.lib;
    forall i | 0 <= i < |lib.articles|
      ensures EntriesValid(server.Build(l)[i])
    {
      Results.ContributionIsValid(lib.articles[i], server.RunsFor(l, i));
    }
  }

  lemma SimpleIsValid(server: StardictdMain, word: Bytes, tryMore: bool)
    requires ServerValid(server) && NUL !in word
    ensures DefinitionValid(server.Simple(word, tryMore))
  {
    hide EntriesValid, IsName, server.CursorsFit, Results.Contribution;
    var results := server.Build(server.LastLookup(word, tryMore));
    BuildIsValid(server, server.LastLookup(word, tryMore));
    SectionsAreValid(server.lib.names, results, 0);
  }

  lemma {:induction false} FirstFoundIsValid(lists: seq<seq<Bytes>>)
    requires AnyFound(lists) && forall k | 0 <= k < |lists| :: NamesValid(lists[k])
    ensures NamesValid(FirstFound(lists)) && FirstFound(lists) != [] && IsName(FirstFound(lists)[0])
  {
    if lists[0] == [] {
      NotTheFirst(lists);
      FirstFoundIsValid(lists[1..]);
    }
  }

  lemma {:induction false} UnescapedHasNoNul(s: Bytes)
    requires NUL !in s
    ensures NUL !in Unescaped(s)
    decreases |s|
  {
    if s != [] {
      if s[0] == BACKSLASH {
        if |s| > 1 {
          UnescapedHasNoNul(s[2..]);
        }
      } else {
        UnescapedHasNoNul(s[1..]);
      }
    }
  }

  lemma AnswerIsValid(server: StardictdMain, query: Bytes, count: int)
    requires ServerValid(server) && NUL !in query
    ensures ReplyValid(server.Answer(query, count))
  {
    var (kind, word) := Analysis(query);
    UnescapedHasNoNul(query);
    hide Analysis, EntriesValid, Unescaped;
    var lib := server.lib;
    match kind
    case QtSimple => SimpleIsAnswered(server, word, count);
    case QtData =>
      var lists := lib.data(word);
      GroupsAreValid(lib.names, lists, 0);
      if AnyFound(lists) {
        FirstFoundIsValid(lists);
        SimpleIsValid(server, FirstFound(lists)[0], false);
      }
    case QtPattern => MatchesAreAnswered(server, word, lib.rule(word), RULE_MARK);
    case QtRegex => MatchesAreAnswered(server, word, lib.regex(word), REGEX_MARK);
    case QtFuzzy => MatchesAreAnswered(server, word, lib.fuzzy(word), FUZZY_MARK);
  }

  lemma MatchesAreAnswered(server: StardictdMain, word: Bytes, matches: seq<Bytes>, mark: Bytes)
    requires ServerValid(server) && NUL !in word && NamesValid(matches) && NUL !in mark && mark != DATA_MARK
    ensures ReplyValid(server.Matches(word, matches, mark))
  {
    if matches != [] {
      SimpleIsValid(server, matches[0], false);
    }
  }

  /** The words listed are words of the dictionaries. */
  lemma NearIsValid(server: StardictdMain, l: Lookup, count: int)
    requires ServerValid(server)
    ensures NamesValid(server.Near(l, count))
  {
    hide LibraryValid;
    var libs := server.libs;
    WordLists.ValidOrder(libs);
    libs.UnionInVocabulary(server.lib.similar(l.word), true);
    hide Words.TotalOrder;
    var near := server.Near(l, count);
    forall i | 0 <= i < |near|
      ensures IsName(near[i])
    {
      assert near[i] in near && near[i] in server.NearSet(l);
      assert near[i] in libs.Vocabulary();
    }
  }

  lemma SuggestionIsValid(server: StardictdMain, word: Bytes, l: Lookup)
    requires ServerValid(server)
    ensures server.Suggest(word, l).Some? ==> IsName(server.Suggest(word, l).value)
  {
    hide LibraryValid;
    var libs, cur := server.libs, server.lib.similar(l.word);
    WordLists.ValidOrder(libs);
    Suggestions.SuggestedInVocabulary(libs, cur, true, |cur|);
    Suggestions.SuggestedInVocabulary(libs, cur, false, |cur|);
  }

  lemma SimpleIsAnswered(server: StardictdMain, word: Bytes, count: int)
    requires ServerValid(server) && NUL !in word
    ensures ReplyValid(server.SimpleReply(word, count))
  {
    hide LibraryValid, LibraryFits, server.CursorsFit, server.Near, server.Suggest, server.Simple, EntriesValid;
    SimpleIsValid(server, word, true);
    var last := server.LastLookup(word, true);
    NearIsValid(server, last, count);
    SuggestionIsValid(server, word, last);
    var suggestion := server.Suggest(word, last);
    if suggestion.Some? {
      SimpleIsValid(server, suggestion.value, false);
      NearIsValid(server, server.LastLookup(suggestion.value, false), count);
    }
    hide ServerValid;
  }

  lemma OkIsRead()
    ensures Client.Atoi(OK_LINE[..3]) == Client.CODE_OK
  {
    var s := OK_LINE[..3];
    assert s == [50, 53, 48] && s[1..] == [53, 48] && s[1..][1..] == [48] && s[1..][1..][1..] == [];
    assert Client.Digits([48], 25) == 250;
    assert Client.Digits([53, 48], 2) == 250;
  }

  lemma ReplyArrives(reply: Reply, rest: Bytes)
    requires ReplyValid(reply)
    ensures SectionsFit(reply.definition.sections) &&
            Client.ReadAnswer(OK_LINE + ReplyBytes(reply) + rest) == Got(reply, rest)
  {
    hide ReplyValid, ReplyBytes, ReadReply, Client.Atoi, Client.ReadAnswer;
    ReplyReads(reply, rest);
    OkIsRead();
    Client.StatusIsRead(OK_LINE[..3], ReplyBytes(reply) + rest);
    assert OK_LINE == OK_LINE[..3] + [NEWLINE];
    Regroup(OK_LINE, ReplyBytes(reply), rest);
  }

  /** The client gets the server's answer to every query, and leaves what follows it. */
  lemma AnswerArrives(server: StardictdMain, query: Bytes, count: int, rest: Bytes)
    requires ServerValid(server) && NUL !in query
    ensures Client.ReadAnswer(server.AnswerBytes(query, count) + rest) == Got(server.Answer(query, count), rest)
  {
    AnswerIsValid(server, query, count);
    hide ServerValid, ReplyValid, ReplyBytes, SectionsFit, Client.ReadAnswer;
    ReplyArrives(server.Answer(query, count), rest);
  }

  /** An exact lookup finds something in a dictionary exactly if the dictionary or its synonym file has the word. */
  lemma FoundWhereItIs(server: StardictdMain, word: Bytes, i: nat)
    requires server.Fits() && i < |server.lib.articles|
    ensures server.Build(Lookup(word, false))[i] != []
            <==> word in server.libs.List(i, true) || word in server.libs.List(i, false)
  {
    var d, found := server.lib.articles[i], server.RunsFor(Lookup(word, false), i);
    assert DictionaryFits(d);
    hide LibraryFits;
    Words.StardictStrcmpIsTotal();
    SameWords(server.lib.places[i].words, server.libs.List(i, true), d.keys, word);
    SameWords(server.lib.places[i].synonyms, server.libs.List(i, false), d.synonymKeys, word);
    Results.SortedHasRuns(d.keys, word);
    Results.SortedHasRuns(d.synonymKeys, word);
    Results.RunIsUnique(found.word, d.keys, word);
    Results.RunIsUnique(found.synonym, d.synonymKeys, word);
    Results.SomethingFound(d, found.word, found.synonym);
  }

  /** And in some dictionary exactly if the word is in the merged vocabulary. */
  lemma FoundIfInVocabulary(server: StardictdMain, word: Bytes)
    requires server.Fits()
    ensures AnyFound(server.Build(Lookup(word, false))) <==> word in server.libs.Vocabulary()
  {
    var libs, results := server.libs, server.Build(Lookup(word, false));
    if AnyFound(results) {
      var i :| 0 <= i < |results| && results[i] != [];
      FoundWhereItIs(server, word, i);
      var isidx := word in libs.List(i, true);
      var j :| 0 <= j < |libs.List(i, isidx)| && libs.List(i, isidx)[j] == word;
      libs.InWords(i, isidx, |libs.dictmask|, j);
    }
    if word in libs.Vocabulary() {
      var isidx := word in libs.WordsUpTo(true, |libs.dictmask|);
      var i := libs.WhoseWord(isidx, |libs.dictmask|, word);
      FoundWhereItIs(server, word, i);
      assert results[i] != [];
    }
  }

  /** A lookup from end to end: the server gets the word the client was given, without carriage returns, and the
      client gets the server's answer for that word. */
  lemma LookupFromEndToEnd(server: StardictdMain, word: Bytes, later: Bytes, rest: Bytes)
    requires ServerValid(server) && NUL !in word && |CommandLine.Joined([LOOKUP, word])| < CommandLine.LINE_LIMIT
    ensures var sent := CommandLine.WithoutReturns(word);
            CommandLine.CommandOf(CommandLine.Joined([LOOKUP, word]) + [NEWLINE] + later) ==
              CommandLine.Args([LOOKUP, sent])
            && IsLookup(CommandLine.Args([[108, 111, 111, 107, 117, 112], sent])) && CountOf([LOOKUP, sent]) == 30
            && Client.ReadAnswer(server.AnswerBytes(sent, 30) + rest) == Got(server.Answer(sent, 30), rest)
  {
    var sent := CommandLine.WithoutReturns(word);
    CommandLine.WithoutReturnsHasNoNul(word);
    CommandArrives(word, later);
    AnswerArrives(server, sent, 30, rest);
  }

  lemma CommandArrives(word: Bytes, later: Bytes)
    requires NUL !in word && |CommandLine.Joined([LOOKUP, word])| < CommandLine.LINE_LIMIT
    ensures CommandLine.Received([LOOKUP, word], later) == CommandLine.Args([LOOKUP, CommandLine.WithoutReturns(word)])
  {
    hide CommandLine.Joined, CommandLine.Received, CommandLine.WithoutReturns;
    CommandLine.CommandsArrive([LOOKUP, word], later);
    CommandLine.NoReturnsKeepsAll(LOOKUP);
    assert CommandLine.EachWithoutReturns([LOOKUP, word]) == [LOOKUP, CommandLine.WithoutReturns(word)];
  }
}
