/** The word to show when a lookup found nothing. */
module Suggestions {
  import opened Words
  import opened WordList
  import opened Cursors

  function SuggestAt(c: CurrentIndex, isidx: bool): int {
    if isidx then c.idx_suggest else c.synidx_suggest
  }

  /** Cursor i has a suggestion. */
  predicate Suggests(libs: Libs, cur: seq<CurrentIndex>, isidx: bool, i: nat)
    requires i < |cur| == |libs.dictmask|
  {
    libs.dictmask[i].local && (isidx || cur[i].synidx_suggest != UNSET_INDEX)
  }

  ghost predicate InRange(libs: Libs, cur: seq<CurrentIndex>) {
    |cur| == |libs.dictmask| &&
    forall i, isidx | 0 <= i < |cur| && Suggests(libs, cur, isidx, i) ::
      0 <= SuggestAt(cur[i], isidx) < |libs.List(i, isidx)|
  }

  /** What the first k cursors of one kind suggest. */
  ghost function Suggested(libs: Libs, cur: seq<CurrentIndex>, isidx: bool, k: nat): set<Word>
    requires InRange(libs, cur) && k <= |cur|
  {
    if k == 0 then {}
    else
      Suggested(libs, cur, isidx, k - 1) +
      if Suggests(libs, cur, isidx, k - 1) then {libs.List(k - 1, isidx)[SuggestAt(cur[k-1], isidx)]} else {}
  }

  /** Only words of the dictionaries are suggested. */
  lemma {:induction false} SuggestedInVocabulary(libs: Libs, cur: seq<CurrentIndex>, isidx: bool, k: nat)
    requires InRange(libs, cur) && k <= |cur|
    ensures Suggested(libs, cur, isidx, k) <= libs.Vocabulary()
  {
    if k > 0 {
      SuggestedInVocabulary(libs, cur, isidx, k - 1);
      if Suggests(libs, cur, isidx, k - 1) {
        libs.InWords(k - 1, isidx, |cur|, SuggestAt(cur[k-1], isidx));
      }
    }
  }

  lemma {:induction false} InSuggested(libs: Libs, cur: seq<CurrentIndex>, isidx: bool, k: nat, w: Word)
    requires InRange(libs, cur) && k <= |cur|
    ensures w in Suggested(libs, cur, isidx, k) <==>
            exists i | 0 <= i < k :: Suggests(libs, cur, isidx, i) && libs.List(i, isidx)[SuggestAt(cur[i], isidx)] == w
  {
    hide libs.List, SuggestAt;
    if k > 0 {
      InSuggested(libs, cur, isidx, k - 1, w);
    }
  }

  /** What is suggested are the words at the suggestion indexes, in the dictionaries that the mask names. */
  lemma SuggestedWords(libs: Libs, cur: seq<CurrentIndex>, w: Word)
    requires libs.Valid() && InRange(libs, cur)
    ensures w in Suggested(libs, cur, true, |cur|) + Suggested(libs, cur, false, |cur|) <==>
            exists i | 0 <= i < |cur| && libs.dictmask[i].local ::
              var d, c := libs.oLib[libs.dictmask[i].index], cur[i];
              || (0 <= c.idx_suggest < |d.words| && d.words[c.idx_suggest] == w)
              || (c.synidx_suggest != UNSET_INDEX && d.syns.Some?
                  && 0 <= c.synidx_suggest < |d.syns.value| && d.syns.value[c.synidx_suggest] == w)
  {
    hide TotalOrder, Sorted, Suggested;
    InSuggested(libs, cur, true, |cur|, w);
    InSuggested(libs, cur, false, |cur|, w);
    forall i | 0 <= i < |cur|
      ensures Suggests(libs, cur, true, i) <==> libs.dictmask[i].local
      ensures libs.dictmask[i].local ==>
                libs.List(i, true) == libs.oLib[libs.dictmask[i].index].words
                && 0 <= cur[i].idx_suggest < |libs.List(i, true)|
      ensures Suggests(libs, cur, false, i) <==> libs.dictmask[i].local && cur[i].synidx_suggest != UNSET_INDEX
      ensures libs.dictmask[i].local && cur[i].synidx_suggest != UNSET_INDEX ==>
                libs.oLib[libs.dictmask[i].index].syns.Some?
                && libs.List(i, false) == libs.oLib[libs.dictmask[i].index].syns.value
                && 0 <= cur[i].synidx_suggest < |libs.List(i, false)|
    {
      assert Suggests(libs, cur, true, i) ==> 0 <= SuggestAt(cur[i], true) < |libs.List(i, true)|;
      assert Suggests(libs, cur, false, i) ==> 0 <= SuggestAt(cur[i], false) < |libs.List(i, false)|;
    }
  }

  /** a matches str further than b, or as far and does not come after it. */
  predicate NoWorse(cmp: Comparator, pm: PrefixMatch, str: Word, a: Word, b: Word) {
    pm(str, a) > pm(str, b) || (pm(str, a) == pm(str, b) && cmp(a, b) <= 0)
  }

  ghost predicate IsBest(cmp: Comparator, pm: PrefixMatch, str: Word, w: Option<Word>, s: set<Word>) {
    match w
    case None => s == {}
    case Some(a) => a in s && forall b | b in s :: NoWorse(cmp, pm, str, a, b)
  }

  lemma NoWorseTransitive(cmp: Comparator, pm: PrefixMatch, str: Word, a: Word, b: Word, c: Word)
    requires TotalOrder(cmp) && NoWorse(cmp, pm, str, a, b) && NoWorse(cmp, pm, str, b, c)
    ensures NoWorse(cmp, pm, str, a, c)
  {
    OrderSigns(cmp, a, b);
    OrderSigns(cmp, b, c);
    OrderSigns(cmp, a, c);
  }

  /** The better one of the best so far and one more word. */
  method Consider(cmp: Comparator, pm: PrefixMatch, str: Word, current: Option<Word>, best0: nat, word: Word,
                  ghost s: set<Word>)
    returns (w: Option<Word>, best: nat)
    requires TotalOrder(cmp) && IsBest(cmp, pm, str, current, s) && (current.Some? ==> best0 == pm(str, current.value))
    ensures IsBest(cmp, pm, str, w, s + {word}) && w.Some? && best == pm(str, w.value)
  {
    OrderSigns(cmp, word, word);
    if current.None? {
      return Some(word), pm(str, word);
    }
    OrderSigns(cmp, current.value, word);
    w, best := current, best0;
    var back := pm(str, word);
    if back > best {
      best := back;
      w := Some(word);
    } else if back == best {
      var x := cmp(current.value, word);
      if x > 0 {
        w := Some(word);
      }
    }
    forall b | b in s
      ensures NoWorse(cmp, pm, str, w.value, b)
    {
      NoWorseTransitive(cmp, pm, str, w.value, current.value, b);
    }
  }

  method Scan(libs: Libs, str: Word, cur: seq<CurrentIndex>, isidx: bool, current: Option<Word>, best0: nat,
              ghost s: set<Word>)
    returns (w: Option<Word>, best: nat)
    requires libs.Valid() && InRange(libs, cur)
    requires IsBest(libs.cmp, libs.pm, str, current, s) && (current.Some? ==> best0 == libs.pm(str, current.value))
    ensures IsBest(libs.cmp, libs.pm, str, w, s + Suggested(libs, cur, isidx, |cur|))
    ensures w.Some? ==> best == libs.pm(str, w.value)
  {
    assert TotalOrder(libs.cmp);
    hide TotalOrder, Sorted, IsBest, NoWorse, libs.List;
    w, best := current, best0;
    assert s + Suggested(libs, cur, isidx, 0) == s;
    for i := 0 to |cur|
      invariant IsBest(libs.cmp, libs.pm, str, w, s + Suggested(libs, cur, isidx, i))
      invariant w.Some? ==> best == libs.pm(str, w.value)
    {
      ghost var before := s + Suggested(libs, cur, isidx, i);
      if !Suggests(libs, cur, isidx, i) {
        assert s + Suggested(libs, cur, isidx, i + 1) == before;
      } else {
        var word := libs.List(i, isidx)[SuggestAt(cur[i], isidx)];
        assert s + Suggested(libs, cur, isidx, i + 1) == before + {word};
        w, best := Consider(libs.cmp, libs.pm, str, w, best, word, before);
      }
    }
  }

  /** Of all suggested words the one that matches furthest, and of these the first in order. */
  method GetSuggestWord(libs: Libs, sWord: Word, iCurrent: seq<CurrentIndex>) returns (w: Option<Word>)
    requires libs.Valid() && InRange(libs, iCurrent)
    ensures IsBest(libs.cmp, libs.pm, sWord, w,
                   Suggested(libs, iCurrent, true, |iCurrent|) + Suggested(libs, iCurrent, false, |iCurrent|))
  {
    var best;
    w, best := Scan(libs, sWord, iCurrent, true, None, 0, {});
    ghost var words := Suggested(libs, iCurrent, true, |iCurrent|);
    assert {} + words == words;
    w, best := Scan(libs, sWord, iCurrent, false, w, best, words);
  }

  /** Every other word matches less far, or as far and comes later. */
  lemma BestMeans(cmp: Comparator, pm: PrefixMatch, str: Word, a: Word, s: set<Word>)
    requires TotalOrder(cmp)
    ensures IsBest(cmp, pm, str, Some(a), s) <==>
            a in s && forall b | b in s && b != a ::
              pm(str, b) < pm(str, a) || (pm(str, b) == pm(str, a) && cmp(b, a) > 0)
    ensures IsBest(cmp, pm, str, None, s) <==> s == {}
  {
    forall b | b in s
      ensures NoWorse(cmp, pm, str, a, b) <==>
              b == a || pm(str, b) < pm(str, a) || (pm(str, b) == pm(str, a) && cmp(b, a) > 0)
    {
      OrderSigns(cmp, a, b);
    }
  }

  /** There is only one best word. */
  lemma BestIsUnique(cmp: Comparator, pm: PrefixMatch, str: Word, w: Option<Word>, w': Option<Word>, s: set<Word>)
    requires TotalOrder(cmp) && IsBest(cmp, pm, str, w, s) && IsBest(cmp, pm, str, w', s)
    ensures w == w'
  {
    if w.Some? && w'.Some? {
      OrderSigns(cmp, w.value, w'.value);
    }
  }

  /** The best word of a set. */
  ghost function BestOf(cmp: Comparator, pm: PrefixMatch, str: Word, s: set<Word>): (w: Option<Word>)
    requires TotalOrder(cmp)
    ensures IsBest(cmp, pm, str, w, s)
  {
    BestExists(cmp, pm, str, s);
    var w :| IsBest(cmp, pm, str, w, s);
    w
  }

  lemma {:induction false} BestExists(cmp: Comparator, pm: PrefixMatch, str: Word, s: set<Word>)
    requires TotalOrder(cmp)
    ensures exists w :: IsBest(cmp, pm, str, w, s)
    decreases s
  {
    if s == {} {
      assert IsBest(cmp, pm, str, None, s);
    } else {
      var v :| v in s;
      BestExists(cmp, pm, str, s - {v});
      var u :| IsBest(cmp, pm, str, u, s - {v});
      Better(cmp, pm, str, u, v, s);
    }
  }

  lemma Better(cmp: Comparator, pm: PrefixMatch, str: Word, u: Option<Word>, v: Word, s: set<Word>)
    requires TotalOrder(cmp) && v in s && IsBest(cmp, pm, str, u, s - {v})
    ensures exists w :: IsBest(cmp, pm, str, w, s)
  {
    OrderSigns(cmp, v, v);
    if u.None? {
      assert s == {v};
      assert IsBest(cmp, pm, str, Some(v), s);
      return;
    }
    OrderSigns(cmp, u.value, v);
    var w := if NoWorse(cmp, pm, str, u.value, v) then u else Some(v);
    forall b | b in s
      ensures NoWorse(cmp, pm, str, w.value, b)
    {
      if b != v && w == Some(v) {
        NoWorseTransitive(cmp, pm, str, v, u.value, b);
      }
    }
    assert IsBest(cmp, pm, str, w, s);
  }
}
