/** What the server answers, in terms of the dictionaries, the lookup of similar words and the chosen count. */
module Answers {
  import opened Strings
  import opened Wire
  import opened Queries
  import opened Server
  import Client
  import Words
  import Cursors
  import WordLists
  import Suggestions
  import Results

  // ----- What is found -----

  /** What each dictionary has of a word: its records, and what it stands for as a synonym. */
  ghost function OwnEntries(server: StardictdMain, w: Bytes): (r: seq<seq<Entry>>)
    requires server.Fits()
    ensures |r| == |server.lib.articles|
    ensures forall i | 0 <= i < |r| ::
              r[i] == Results.EntriesOf(server.lib.articles[i], Cursors.Some(w), Cursors.Some(w))
  {
    seq(|server.lib.articles|, i requires 0 <= i < |server.lib.articles| =>
      Results.EntriesOf(server.lib.articles[i], Cursors.Some(w), Cursors.Some(w)))
  }

  lemma SimilarInRange(server: StardictdMain, w: Bytes, i: nat)
    requires server.Fits() && i < |server.lib.articles|
    ensures i < |server.libs.dictmask| == |server.lib.similar(w)| == |server.lib.similarFound(w)|
    ensures Results.ArticlesValid(server.lib.articles[i])
    ensures var m, c, f := server.libs.dictmask[i], server.lib.similar(w)[i], server.lib.similarFound(w)[i];
            (f.word ==> m.index < |server.libs.oLib| && 0 <= c.idx < |server.libs.oLib[m.index].words|)
            && (f.synonym ==> m.index < |server.libs.oLib| && server.libs.oLib[m.index].syns.Some?
                              && 0 <= c.synidx < |server.libs.oLib[m.index].syns.value|)
    ensures var m, c, f := server.libs.dictmask[i], server.lib.similar(w)[i], server.lib.similarFound(w)[i];
            (f.word ==> server.libs.List(i, true) == server.libs.oLib[m.index].words)
            && (f.synonym ==> server.libs.List(i, false) == server.libs.oLib[m.index].syns.value)
  {
    assert DictionaryFits(server.lib.articles[i]);
    assert server.PointsAtWords(server.lib.similar(w)[i], server.lib.similarFound(w)[i], i);
    assert server.libs.Sane(server.lib.similar(w));
  }

  /** The word of dictionary i that the lookup of words similar to w found. */
  ghost function SimilarWord(server: StardictdMain, w: Bytes, i: nat): Cursors.Option<Bytes>
    requires server.Fits() && i < |server.lib.articles|
  {
    SimilarInRange(server, w, i);
    if server.lib.similarFound(w)[i].word then
      Cursors.Some(server.libs.oLib[server.libs.dictmask[i].index].words[server.lib.similar(w)[i].idx])
    else Cursors.None
  }

  ghost function SimilarSynonym(server: StardictdMain, w: Bytes, i: nat): Cursors.Option<Bytes>
    requires server.Fits() && i < |server.lib.articles|
  {
    SimilarInRange(server, w, i);
    if server.lib.similarFound(w)[i].synonym then
      Cursors.Some(server.libs.oLib[server.libs.dictmask[i].index].syns.value[server.lib.similar(w)[i].synidx])
    else Cursors.None
  }

  ghost function SimilarEntries(server: StardictdMain, w: Bytes): (r: seq<seq<Entry>>)
    requires server.Fits()
    ensures |r| == |server.lib.articles|
    ensures forall i | 0 <= i < |r| ::
              Results.ArticlesValid(server.lib.articles[i]) &&
              r[i] == Results.EntriesOf(server.lib.articles[i], SimilarWord(server, w, i), SimilarSynonym(server, w, i))
  {
    seq(|server.lib.articles|, i requires 0 <= i < |server.lib.articles| =>
      SimilarInRange(server, w, i);
      Results.EntriesOf(server.lib.articles[i], SimilarWord(server, w, i), SimilarSynonym(server, w, i)))
  }

  /** The lookup of similar words finds something in some dictionary. */
  ghost predicate HasSimilar(server: StardictdMain, w: Bytes)
    requires server.Fits()
  {
    exists i | 0 <= i < |server.lib.similarFound(w)| ::
      server.lib.similarFound(w)[i].word || server.lib.similarFound(w)[i].synonym
  }

  lemma OwnIsBuilt(server: StardictdMain, w: Bytes, i: nat)
    requires server.Fits() && i < |server.lib.articles|
    ensures server.Build(Lookup(w, false))[i] == OwnEntries(server, w)[i]
  {
    var d := server.lib.articles[i];
    Words.StardictStrcmpIsTotal();
    assert DictionaryFits(d);
    hide LibraryFits, Words.TotalOrder, Words.Sorted, Words.StardictStrcmp;
    Results.SortedHasRuns(d.keys, w);
    Results.SortedHasRuns(d.synonymKeys, w);
    Results.ContributionIs(d, server.RunsFor(Lookup(w, false), i), Cursors.Some(w), Cursors.Some(w));
  }

  lemma SimilarBrings(server: StardictdMain, w: Bytes, i: nat)
    requires server.Fits() && i < |server.lib.articles|
    ensures server.CursorsFit()
    ensures var runs, d, f := server.RunsFor(Lookup(w, true), i), server.lib.articles[i], server.lib.similarFound(w)[i];
            && (runs.word.Run? <==> f.word) && (runs.synonym.Run? <==> f.synonym) && Results.RunsIn(d, runs)
            && Results.Brings(runs.word, d.keys, SimilarWord(server, w, i))
            && Results.Brings(runs.synonym, d.synonymKeys, SimilarSynonym(server, w, i))
  {
    hide StardictdMain.Fits, StardictdMain.CursorsFit, Words.Sorted, Words.StardictStrcmp, Presents, RunUnder,
         Results.Brings, Results.RunIn;
    SimilarInRange(server, w, i);
    server.OneDictionaryFits(i);
    var d, c, f := server.lib.articles[i], server.lib.similar(w)[i], server.lib.similarFound(w)[i];
    BroughtBy(server.lib.places[i].words, d.keys, server.libs.List(i, true), f.word, c.idx);
    BroughtBy(server.lib.places[i].synonyms, d.synonymKeys, server.libs.List(i, false), f.synonym, c.synidx);
  }

  lemma SimilarIsBuilt(server: StardictdMain, w: Bytes, i: nat)
    requires server.Fits() && i < |server.lib.articles|
    ensures server.Build(Lookup(w, true))[i] == SimilarEntries(server, w)[i]
    ensures SimilarEntries(server, w)[i] != []
            <==> server.lib.similarFound(w)[i].word || server.lib.similarFound(w)[i].synonym
  {
    hide StardictdMain.Fits, StardictdMain.CursorsFit, StardictdMain.RunsFor, SimilarWord, SimilarSynonym,
         Results.Brings, Results.RunIn, Results.EntriesOf;
    SimilarBrings(server, w, i);
    SimilarInRange(server, w, i);
    var d, runs := server.lib.articles[i], server.RunsFor(Lookup(w, true), i);
    Results.ContributionIs(d, runs, SimilarWord(server, w, i), SimilarSynonym(server, w, i));
    Results.SomethingFound(d, runs.word, runs.synonym);
  }

  lemma BroughtBy(p: seq<nat>, keys: seq<Bytes>, list: seq<Bytes>, found: bool, idx: int)
    requires Presents(p, list, keys) && Words.Sorted(Words.StardictStrcmp(), keys)
    requires found ==> 0 <= idx < |list|
    ensures var r := RunUnder(keys, list, found, idx);
            (r.Run? <==> found) && Results.RunIn(r, keys)
            && Results.Brings(r, keys, if found then Cursors.Some(list[idx]) else Cursors.None)
  {
    if found {
      Words.StardictStrcmpIsTotal();
      SameWords(p, list, keys, list[idx]);
      hide Presents, Words.TotalOrder, Words.Sorted, Words.StardictStrcmp;
      Results.SortedHasRuns(keys, list[idx]);
      Results.RunIsUnique(Results.RunOf(keys, list[idx]), keys, list[idx]);
    }
  }

  // ----- What is shown -----

  /** The dictionaries that have something, in order. */
  ghost predicate Having<T>(which: seq<nat>, results: seq<seq<T>>) {
    && (forall k | 0 <= k < |which| :: which[k] < |results| && results[which[k]] != [])
    && (forall j, k | 0 <= j < k < |which| :: which[j] < which[k])
    && (forall i: nat | i < |results| && results[i] != [] :: i in which)
  }

  /** One section for each of these dictionaries, and the advertisement last for users of level 0. */
  ghost predicate SectionsOf(server: StardictdMain, sections: seq<Section>, which: seq<nat>, results: seq<seq<Entry>>) {
    && |sections| == |which| + (if server.userLevel == 0 then 1 else 0)
    && (forall k | 0 <= k < |which| ::
          which[k] < |server.lib.names| && which[k] < |results|
          && sections[k] == Section(server.lib.names[which[k]], results[which[k]]))
    && (server.userLevel == 0 ==> sections[|which|] == server.advert)
  }

  ghost predicate Shows(server: StardictdMain, d: Definition, title: Bytes, results: seq<seq<Entry>>) {
    d.origin == title && exists which :: Having(which, results) && SectionsOf(server, d.sections, which, results)
  }

  ghost predicate HavingAfter<T>(which: seq<nat>, results: seq<seq<T>>, i: nat) {
    && (forall k | 0 <= k < |which| :: i <= which[k] < |results| && results[which[k]] != [])
    && (forall j, k | 0 <= j < k < |which| :: which[j] < which[k])
    && (forall n: nat | i <= n < |results| && results[n] != [] :: n in which)
  }

  /** The dictionaries from i on that have something. */
  ghost function HavingFrom<T>(results: seq<seq<T>>, i: nat): seq<nat>
    requires i <= |results|
    decreases |results| - i
  {
    if i == |results| then []
    else if results[i] == [] then HavingFrom(results, i + 1)
    else [i] + HavingFrom(results, i + 1)
  }

  lemma HavingPrepends<T>(more: seq<nat>, results: seq<seq<T>>, i: nat)
    requires i < |results| && HavingAfter(more, results, i + 1)
    ensures HavingAfter(if results[i] == [] then more else [i] + more, results, i)
  {
    if results[i] != [] {
      var which := [i] + more;
      forall n: nat | i <= n < |results| && results[n] != []
        ensures n in which
      {
        assert n == i || n in more;
      }
    }
  }

  lemma {:induction false} HavingFromAre<T>(results: seq<seq<T>>, i: nat)
    requires i <= |results|
    ensures HavingAfter(HavingFrom(results, i), results, i)
    decreases |results| - i
  {
    if i < |results| {
      HavingFromAre(results, i + 1);
      hide HavingAfter;
      HavingPrepends(HavingFrom(results, i + 1), results, i);
    }
  }

  lemma AllHaving<T>(results: seq<seq<T>>)
    ensures Having(HavingFrom(results, 0), results)
  {
    HavingFromAre(results, 0);
  }

  ghost predicate SectionsMatch(sections: seq<Section>, which: seq<nat>, names: seq<Bytes>, results: seq<seq<Entry>>) {
    |sections| == |which| && forall k | 0 <= k < |which| ::
      which[k] < |names| && which[k] < |results| && sections[k] == Section(names[which[k]], results[which[k]])
  }

  lemma SectionsPrepend(sections: seq<Section>, which: seq<nat>, names: seq<Bytes>, results: seq<seq<Entry>>, i: nat)
    requires SectionsMatch(sections, which, names, results) && i < |names| == |results|
    ensures SectionsMatch([Section(names[i], results[i])] + sections, [i] + which, names, results)
  {
  }

  lemma {:induction false} SectionsAre(names: seq<Bytes>, results: seq<seq<Entry>>, i: nat)
    requires |names| == |results| && i <= |names|
    ensures SectionsMatch(SectionsFrom(names, results, i), HavingFrom(results, i), names, results)
    decreases |results| - i
  {
    if i < |results| {
      SectionsAre(names, results, i + 1);
      SectionsPrepend(SectionsFrom(names, results, i + 1), HavingFrom(results, i + 1), names, results, i);
      hide SectionsMatch;
      assert [] + SectionsFrom(names, results, i + 1) == SectionsFrom(names, results, i + 1);
    }
  }

  lemma ShownShows(server: StardictdMain, title: Bytes, results: seq<seq<Entry>>)
    requires |results| == |server.lib.names|
    ensures Shows(server, server.Shown(title, results), title, results)
  {
    SectionsAre(server.lib.names, results, 0);
    AllHaving(results);
    hide SectionsFrom, HavingFrom;
    var which := HavingFrom(results, 0);
    assert SectionsOf(server, server.Shown(title, results).sections, which, results);
  }

  /** One group for each of the dictionaries that have words. */
  ghost predicate GroupsMatch(groups: seq<Group>, which: seq<nat>, names: seq<Bytes>, lists: seq<seq<Bytes>>) {
    |groups| == |which| && forall k | 0 <= k < |which| ::
      which[k] < |names| && which[k] < |lists| && groups[k] == Group(names[which[k]], lists[which[k]])
  }

  lemma GroupsPrepend(groups: seq<Group>, which: seq<nat>, names: seq<Bytes>, lists: seq<seq<Bytes>>, i: nat)
    requires GroupsMatch(groups, which, names, lists) && i < |names| == |lists|
    ensures GroupsMatch([Group(names[i], lists[i])] + groups, [i] + which, names, lists)
  {
  }

  lemma {:induction false} GroupsAre(names: seq<Bytes>, lists: seq<seq<Bytes>>, i: nat)
    requires |names| == |lists| && i <= |names|
    ensures GroupsMatch(GroupsFrom(names, lists, i), HavingFrom(lists, i), names, lists)
    decreases |lists| - i
  {
    if i < |lists| {
      GroupsAre(names, lists, i + 1);
      GroupsPrepend(GroupsFrom(names, lists, i + 1), HavingFrom(lists, i + 1), names, lists, i);
      hide GroupsMatch;
      assert [] + GroupsFrom(names, lists, i + 1) == GroupsFrom(names, lists, i + 1);
    }
  }

  /** The definition block for w under a title: what the dictionaries have of w, or else of similar words. */
  ghost predicate Defines(server: StardictdMain, d: Definition, title: Bytes, w: Bytes)
    requires server.Fits()
  {
    if w in server.libs.Vocabulary() then Shows(server, d, title, OwnEntries(server, w))
    else if HasSimilar(server, w) then Shows(server, d, title, SimilarEntries(server, w))
    else d == Definition(title, [])
  }

  /** The words from w on, or from where the lookup of similar words left the cursors. */
  ghost predicate ListsFrom(server: StardictdMain, words: seq<Bytes>, w: Bytes, count: int)
    requires server.Fits()
  {
    WordLists.First(server.libs.cmp, words,
                    if w in server.libs.Vocabulary() then
                      set v | v in server.libs.Vocabulary() && server.libs.cmp(v, w) >= 0
                    else server.libs.Union(server.lib.similar(w), true),
                    if count < 1 then 1 else count)
  }

  ghost predicate Known(server: StardictdMain, w: Bytes)
    requires server.Fits()
  {
    w in server.libs.Vocabulary() || HasSimilar(server, w)
  }

  lemma OwnAreBuilt(server: StardictdMain, w: Bytes)
    requires server.Fits()
    ensures server.CursorsFit() && server.Build(Lookup(w, false)) == OwnEntries(server, w)
  {
    hide StardictdMain.Fits, StardictdMain.CursorsFit, StardictdMain.Build, OwnEntries;
    server.CursorsHold();
    forall i | 0 <= i < |server.lib.articles|
      ensures server.Build(Lookup(w, false))[i] == OwnEntries(server, w)[i]
    {
      OwnIsBuilt(server, w, i);
    }
  }

  lemma SimilarAreBuilt(server: StardictdMain, w: Bytes)
    requires server.Fits()
    ensures server.CursorsFit() && server.Build(Lookup(w, true)) == SimilarEntries(server, w)
  {
    hide StardictdMain.Fits, StardictdMain.CursorsFit, StardictdMain.Build, SimilarEntries;
    server.CursorsHold();
    forall i | 0 <= i < |server.lib.articles|
      ensures server.Build(Lookup(w, true))[i] == SimilarEntries(server, w)[i]
    {
      SimilarIsBuilt(server, w, i);
    }
  }

  lemma SimilarAreFound(server: StardictdMain, w: Bytes)
    requires server.Fits()
    ensures AnyFound(SimilarEntries(server, w)) <==> HasSimilar(server, w)
  {
    hide StardictdMain.Fits, StardictdMain.CursorsFit, StardictdMain.Build, SimilarEntries;
    server.CursorsHold();
    forall i | 0 <= i < |server.lib.articles|
      ensures SimilarEntries(server, w)[i] != []
              <==> server.lib.similarFound(w)[i].word || server.lib.similarFound(w)[i].synonym
      ensures |server.lib.similarFound(w)| == |server.lib.articles|
    {
      SimilarIsBuilt(server, w, i);
      SimilarInRange(server, w, i);
    }
    server.FoundInRange(w);
  }

  lemma DecidingDefines(server: StardictdMain, title: Bytes, w: Bytes)
    requires server.Fits()
    ensures server.CursorsFit() && (server.Found(w) <==> Known(server, w))
    ensures server.Deciding(w) == Lookup(w, w !in server.libs.Vocabulary())
    ensures |server.Build(server.Deciding(w))| == |server.lib.names|
    ensures Known(server, w) ==> Defines(server, server.Shown(title, server.Build(server.Deciding(w))), title, w)
  {
    hide StardictdMain.Fits, StardictdMain.CursorsFit, StardictdMain.Build, Shows, OwnEntries, SimilarEntries,
         HasSimilar;
    server.CursorsHold();
    OwnAreBuilt(server, w);
    SimilarAreBuilt(server, w);
    SimilarAreFound(server, w);
    FoundIfInVocabulary(server, w);
    server.FoundInRange(w);
    hide StardictdMain.Shown, AnyFound;
    ShownShows(server, title, server.Build(server.Deciding(w)));
  }

  lemma NearLists(server: StardictdMain, w: Bytes, count: int)
    requires server.Fits()
    ensures ListsFrom(server, server.Near(Lookup(w, w !in server.libs.Vocabulary()), count), w, count)
  {
    server.CursorsHold();
    WordLists.ValidOrder(server.libs);
    hide LibraryFits, Words.TotalOrder, WordLists.First;
  }

  lemma SimpleDefines(server: StardictdMain, w: Bytes)
    requires server.Fits()
    ensures Defines(server, server.Simple(w, false), w, w)
  {
    hide StardictdMain.Fits, StardictdMain.CursorsFit, StardictdMain.Build, Shows, HasSimilar, StardictdMain.Shown;
    DecidingDefines(server, w, w);
  }

  // ----- Plain queries -----

  /** The escaped form of a word asks for the word itself. */
  lemma AnswerToPlain(server: StardictdMain, word: Bytes, count: int)
    requires server.Fits()
    ensures server.Answer(InputEscape(word), count) == server.SimpleReply(word, count)
  {
    EscapeIsUndone(word);
    hide Analysis, InputEscape, StardictdMain.Fits, StardictdMain.SimpleReply;
  }

  /** A plain query for a word that is known, itself or by similar ones: its definition and the words from it on. */
  lemma KnownWord(server: StardictdMain, word: Bytes, count: int)
    requires server.Fits() && Known(server, word)
    ensures var reply := server.Answer(InputEscape(word), count);
            && Defines(server, reply.definition, word, word)
            && reply.list.Plain? && reply.list.mark == [108]
            && ListsFrom(server, reply.list.words, word, count)
  {
    AnswerToPlain(server, word, count);
    DecidingDefines(server, word, word);
    NearLists(server, word, count);
    hide StardictdMain.Fits, StardictdMain.CursorsFit, StardictdMain.Build, StardictdMain.Near, StardictdMain.Shown,
         Defines, ListsFrom, Known;
  }

  /** In particular a word of the vocabulary: a section for each dictionary that has it, with the data of all its
      records and the targets of its synonyms, and the words of all dictionaries from it on, merged and in order. */
  lemma PlainQueryLists(server: StardictdMain, word: Bytes, count: int)
    requires server.Fits() && word in server.libs.Vocabulary()
    ensures Words.TotalOrder(server.libs.cmp)
    ensures var reply := server.Answer(InputEscape(word), count);
            && Shows(server, reply.definition, word, OwnEntries(server, word))
            && reply.list.Plain? && reply.list.mark == [108]
            && WordLists.First(server.libs.cmp, reply.list.words,
                               set v | v in server.libs.Vocabulary() && server.libs.cmp(v, word) >= 0,
                               if count < 1 then 1 else count)
  {
    server.CursorsHold();
    WordLists.ValidOrder(server.libs);
    KnownWord(server, word, count);
  }

  /** Whether an unknown word is looked up again without the punctuation around it. */
  ghost predicate HeadTried(server: StardictdMain, word: Bytes)
    requires server.Fits()
  {
    var head := server.lib.head(word);
    !Known(server, word) && head != [] && head != word
  }

  /** If the word is not known but without the punctuation around it, that is shown under the word as it was asked. */
  lemma KnownHead(server: StardictdMain, word: Bytes, count: int)
    requires server.Fits() && HeadTried(server, word) && Known(server, server.lib.head(word))
    ensures var reply, head := server.Answer(InputEscape(word), count), server.lib.head(word);
            && Defines(server, reply.definition, word, head)
            && reply.list.Plain? && reply.list.mark == [108]
            && ListsFrom(server, reply.list.words, head, count)
  {
    var head := server.lib.head(word);
    AnswerToPlain(server, word, count);
    DecidingDefines(server, word, word);
    DecidingDefines(server, word, head);
    NearLists(server, head, count);
    hide StardictdMain.Fits, StardictdMain.CursorsFit, StardictdMain.Build, StardictdMain.Near, StardictdMain.Shown,
         Defines, ListsFrom, Known;
  }

  /** If neither is known, the best of the words suggested by the last lookup takes their place; without one, nothing is
      shown, and the words from where that lookup left the cursors are listed. */
  lemma OnlySuggestion(server: StardictdMain, word: Bytes, count: int)
    requires server.Fits() && !Known(server, word)
    requires HeadTried(server, word) ==> !Known(server, server.lib.head(word))
    ensures var reply, libs := server.Answer(InputEscape(word), count), server.libs;
            var last := if HeadTried(server, word) then server.lib.head(word) else word;
            var cur := server.lib.similar(last);
            && Suggestions.InRange(libs, cur)
            && reply.list.Plain? && reply.list.mark == [108]
            && exists other ::
                 && Suggestions.IsBest(libs.cmp, libs.pm, word, other,
                                       Suggestions.Suggested(libs, cur, true, |cur|)
                                       + Suggestions.Suggested(libs, cur, false, |cur|))
                 && match other
                    case None =>
                      reply.definition == Definition(word, []) && ListsFrom(server, reply.list.words, last, count)
                    case Some(w) =>
                      Defines(server, reply.definition, w, w) && ListsFrom(server, reply.list.words, w, count)
  {
    var last := if HeadTried(server, word) then server.lib.head(word) else word;
    AnswerToPlain(server, word, count);
    UnknownReply(server, word, count);
    NearLists(server, last, count);
    SuggestedIsBest(server, word, last);
    hide StardictdMain.Fits, StardictdMain.CursorsFit, StardictdMain.Near, StardictdMain.SimpleReply, Defines, Known,
         ListsFrom, StardictdMain.Suggest, Suggestions.IsBest, Suggestions.InRange, StardictdMain.Simple;
    var other := server.Suggest(word, Lookup(last, true));
    if other.Some? {
      SimpleDefines(server, other.value);
      NearLists(server, other.value, count);
    }
  }

  lemma UnknownReply(server: StardictdMain, word: Bytes, count: int)
    requires server.Fits() && !Known(server, word)
    requires HeadTried(server, word) ==> !Known(server, server.lib.head(word))
    ensures var last := if HeadTried(server, word) then server.lib.head(word) else word;
            last !in server.libs.Vocabulary() &&
            server.SimpleReply(word, count) ==
            match server.Suggest(word, Lookup(last, true))
            case None => Reply(Definition(word, []), Plain([108], server.Near(Lookup(last, true), count)))
            case Some(w) =>
              Reply(server.Simple(w, false),
                    Plain([108], server.Near(Lookup(w, w !in server.libs.Vocabulary()), count)))
  {
    var last := if HeadTried(server, word) then server.lib.head(word) else word;
    DecidingDefines(server, word, word);
    DecidingDefines(server, word, server.lib.head(word));
    hide StardictdMain.Fits, StardictdMain.CursorsFit, StardictdMain.Build, StardictdMain.Near, StardictdMain.Shown,
         Defines, StardictdMain.Suggest, StardictdMain.Simple, StardictdMain.Found, StardictdMain.Deciding, HasSimilar;
    var other := server.Suggest(word, Lookup(last, true));
    if other.Some? {
      DecidingDefines(server, other.value, other.value);
    }
  }

  lemma SuggestedIsBest(server: StardictdMain, word: Bytes, last: Bytes)
    requires server.Fits()
    ensures var cur := server.lib.similar(last);
            Suggestions.InRange(server.libs, cur) &&
            Suggestions.IsBest(server.libs.cmp, server.libs.pm, word, server.Suggest(word, Lookup(last, true)),
                               Suggestions.Suggested(server.libs, cur, true, |cur|)
                               + Suggestions.Suggested(server.libs, cur, false, |cur|))
  {
    hide LibraryFits;
  }

  // ----- Queries of the other kinds -----

  /** The definition block of the first match. */
  ghost predicate DefinesFirst(server: StardictdMain, d: Definition, title: Bytes, matches: seq<Bytes>)
    requires server.Fits()
  {
    if matches == [] then d == Definition(title, []) else Defines(server, d, matches[0], matches[0])
  }

  lemma MatchesDefine(server: StardictdMain, title: Bytes, matches: seq<Bytes>, mark: Bytes)
    requires server.Fits()
    ensures var reply := server.Matches(title, matches, mark);
            reply.list == Plain(mark, matches) && DefinesFirst(server, reply.definition, title, matches)
  {
    hide StardictdMain.Fits, StardictdMain.Simple, Defines;
    if matches != [] {
      SimpleDefines(server, matches[0]);
    }
  }

  /** A slash asks for the fuzzy matches, a colon for those of a regular expression, and a wildcard for those of a
      pattern: the first match is defined and all are listed, under the marks f, g and r. */
  lemma MatchQueries(server: StardictdMain, t: Bytes, count: int)
    requires server.Fits()
    ensures var reply := server.Answer([47] + t, count);
            reply.list == Plain([102], server.lib.fuzzy(t))
            && DefinesFirst(server, reply.definition, t, server.lib.fuzzy(t))
    ensures var reply := server.Answer([58] + t, count);
            reply.list == Plain([103], server.lib.regex(t))
            && DefinesFirst(server, reply.definition, t, server.lib.regex(t))
    ensures 92 !in t && (42 in t || 63 in t) && t[0] != 47 && t[0] != 58 && t[0] != 124 ==>
              var reply := server.Answer(t, count);
              reply.list == Plain([114], server.lib.rule(t))
              && DefinesFirst(server, reply.definition, t, server.lib.rule(t))
  {
    hide Analysis, StardictdMain.Matches, StardictdMain.Fits, DefinesFirst;
    MarksTellKinds(t);
    MatchesDefine(server, t, server.lib.fuzzy(t), [102]);
    MatchesDefine(server, t, server.lib.regex(t), [103]);
    MatchesDefine(server, t, server.lib.rule(t), [114]);
    if 92 !in t && (42 in t || 63 in t) && t[0] != 47 && t[0] != 58 && t[0] != 124 {
      WildcardsTellKinds(t);
    }
  }

  lemma {:induction false} FirstHaving(lists: seq<seq<Bytes>>, which: seq<nat>)
    requires Having(which, lists)
    ensures which != [] <==> AnyFound(lists)
    ensures which != [] ==> FirstFound(lists) == lists[which[0]]
    decreases |lists|
  {
    if which != [] {
      assert lists[which[0]] != [];
      if lists[0] == [] {
        assert AnyFound(lists);
        FirstAfter(lists, which[0]);
      } else {
        assert 0 in which;
      }
    } else {
      forall i: nat | i < |lists|
        ensures lists[i] == []
      {
        assert lists[i] != [] ==> i in which;
      }
    }
  }

  lemma {:induction false} FirstAfter(lists: seq<seq<Bytes>>, n: nat)
    requires n < |lists| && lists[n] != [] && forall i | 0 <= i < n :: lists[i] == []
    ensures AnyFound(lists) && FirstFound(lists) == lists[n]
    decreases n
  {
    assert lists[n] != [];
    if n > 0 {
      assert lists[1..][n-1] != [];
      FirstAfter(lists[1..], n - 1);
    }
  }

  lemma DataFits(server: StardictdMain, t: Bytes)
    requires server.Fits()
    ensures |server.lib.data(t)| == |server.lib.names|
  {
  }

  /** A bar asks for a search in the records: the matches are listed by dictionary, and the first of all is defined. */
  lemma DataQuery(server: StardictdMain, t: Bytes, count: int)
    requires server.Fits()
    ensures var reply, lists := server.Answer([124] + t, count), server.lib.data(t);
            reply.list.ByDictionary? && exists which ::
              && Having(which, lists) && GroupsMatch(reply.list.groups, which, server.lib.names, lists)
              && DefinesFirst(server, reply.definition, t, if which == [] then [] else lists[which[0]])
  {
    hide Analysis, StardictdMain.Fits, HavingFrom, GroupsMatch, StardictdMain.Simple, Defines, Having;
    var lists := server.lib.data(t);
    MarksTellKinds(t);
    DataFits(server, t);
    GroupsAre(server.lib.names, lists, 0);
    var which := HavingFrom(lists, 0);
    AllHaving(lists);
    FirstHaving(lists, which);
    if which != [] {
      SimpleDefines(server, lists[which[0]][0]);
    }
  }

  // ----- What is sent -----

  /** Every answer starts with the line 250. */
  lemma AnswerStarts(server: StardictdMain, query: Bytes, count: int)
    requires server.Fits()
    ensures SectionsFit(server.Answer(query, count).definition.sections)
    ensures server.AnswerBytes(query, count) == [50, 53, 48, 10] + ReplyBytes(server.Answer(query, count))
  {
    server.AnswerFits(query, count);
  }

  /** The number of words asked for counts from 1 to 100; without one it is 30. */
  lemma CountIs(args: seq<Bytes>)
    ensures |args| < 3 ==> CountOf(args) == 30
    ensures |args| >= 3 && 1 <= Client.Atoi(args[2]) <= 100 ==> CountOf(args) == Client.Atoi(args[2])
    ensures |args| >= 3 && Client.Atoi(args[2]) < 1 ==> CountOf(args) == 1
    ensures |args| >= 3 && Client.Atoi(args[2]) > 100 ==> CountOf(args) == 100
  {
  }
}
