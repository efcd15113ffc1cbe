/**
 The merge over many dictionaries and synonym files: a cursor into every list, a scan for the
 least or greatest word at hand, and a step that moves every cursor at that word past its run.
 */
module Cursors {
  import opened Words
  import opened WordList

  datatype Option<+T> = None | Some(value: T)

  /** The lists of a dictionary as the collation in force presents them. */
  datatype Dict = Dict(words: seq<Word>, syns: Option<seq<Word>>)

  datatype InstantDictIndex = InstantDictIndex(local: bool, index: nat)

  datatype CurrentIndex = CurrentIndex(idx: int, idx_suggest: int, synidx: int, synidx_suggest: int)

  /** Whether a lookup found the word itself, and whether it found a synonym. */
  datatype Found = Found(word: bool, synonym: bool)

  /** A word and the cursor it was found at. */
  datatype Pick = Pick(word: Word, iLib: nat, isLib: bool)

  function At(c: CurrentIndex, isidx: bool): int {
    if isidx then c.idx else c.synidx
  }

  function SetAt(c: CurrentIndex, isidx: bool, pos: int): CurrentIndex {
    if isidx then c.(idx := pos) else c.(synidx := pos)
  }

  class Libs {
    const cmp: Comparator
    const pm: PrefixMatch
    const oLib: seq<Dict>
    const dictmask: seq<InstantDictIndex>

    constructor (cmp: Comparator, pm: PrefixMatch, oLib: seq<Dict>, dictmask: seq<InstantDictIndex>)
      ensures this.cmp == cmp && this.pm == pm && this.oLib == oLib && this.dictmask == dictmask
    {
      this.cmp, this.pm, this.oLib, this.dictmask := cmp, pm, oLib, dictmask;
    }

    /** All lists are sorted and nonempty, and the mask names loaded dictionaries. */
    ghost predicate Valid() {
      && TotalOrder(cmp)
      && (forall i | 0 <= i < |dictmask| :: dictmask[i].local ==> dictmask[i].index < |oLib|)
      && (forall d | d in oLib :: |d.words| > 0 && Sorted(cmp, d.words))
      && (forall d | d in oLib && d.syns.Some? :: |d.syns.value| > 0 && Sorted(cmp, d.syns.value))
    }

    /** The list behind cursor i; empty if the entry is not local or has no synonym file. */
    function List(i: nat, isidx: bool): seq<Word>
      requires i < |dictmask|
    {
      if !dictmask[i].local || dictmask[i].index >= |oLib| then []
      else if isidx then oLib[dictmask[i].index].words
      else if oLib[dictmask[i].index].syns.Some? then oLib[dictmask[i].index].syns.value
      else []
    }

    lemma ListSorted(i: nat, isidx: bool)
      requires Valid() && i < |dictmask|
      ensures Sorted(cmp, List(i, isidx))
    {
    }

    /** A missing synonym file has no words, so its cursor is never past them. */
    predicate Sane(cur: seq<CurrentIndex>) {
      && |cur| == |dictmask|
      && forall i | 0 <= i < |cur| && dictmask[i].local :: List(i, false) == [] ==> cur[i].synidx != INVALID_INDEX
    }

    /** The words ahead of, or behind, one cursor. */
    ghost function View(cur: seq<CurrentIndex>, ahead: bool, isidx: bool, i: nat): set<Word>
      requires i < |cur| == |dictmask|
    {
      if ahead then Ahead(List(i, isidx), At(cur[i], isidx)) else Behind(List(i, isidx), At(cur[i], isidx))
    }

    /** The union over the first k cursors of one kind. */
    ghost function Part(cur: seq<CurrentIndex>, ahead: bool, isidx: bool, k: nat): set<Word>
      requires k <= |cur| == |dictmask|
    {
      if k == 0 then {} else Part(cur, ahead, isidx, k - 1) + View(cur, ahead, isidx, k - 1)
    }

    ghost function Union(cur: seq<CurrentIndex>, ahead: bool): set<Word>
      requires |cur| == |dictmask|
    {
      Part(cur, ahead, true, |cur|) + Part(cur, ahead, false, |cur|)
    }

    lemma {:induction false} InPart(cur: seq<CurrentIndex>, ahead: bool, isidx: bool, k: nat, w: Word)
      requires k <= |cur| == |dictmask|
      ensures w in Part(cur, ahead, isidx, k) <==> exists i | 0 <= i < k :: w in View(cur, ahead, isidx, i)
    {
      if k > 0 {
        InPart(cur, ahead, isidx, k - 1, w);
      }
    }

    /** If every cursor loses w, the union does. */
    lemma {:induction false} PartLoses(cur: seq<CurrentIndex>, cur': seq<CurrentIndex>, ahead: bool, isidx: bool,
                                       k: nat, w: Word)
      requires k <= |cur| == |cur'| == |dictmask|
      requires forall i | 0 <= i < k :: View(cur', ahead, isidx, i) == View(cur, ahead, isidx, i) - {w}
      ensures Part(cur', ahead, isidx, k) == Part(cur, ahead, isidx, k) - {w}
    {
      if k > 0 {
        PartLoses(cur, cur', ahead, isidx, k - 1, w);
      }
    }

    // ----- Going forward -----

    ghost predicate LeastPick(p: Option<Pick>, s: set<Word>) {
      match p
      case None => s == {}
      case Some(pick) => IsLeast(cmp, pick.word, s)
    }

    /** The pick is the word under its cursor. */
    ghost predicate UnderCursor(p: Option<Pick>, cur: seq<CurrentIndex>) {
      p.Some? ==>
        var i, isidx := p.value.iLib, p.value.isLib;
        && i < |cur| == |dictmask|
        && 0 <= At(cur[i], isidx) < |List(i, isidx)|
        && List(i, isidx)[At(cur[i], isidx)] == p.value.word
    }

    lemma LeastOfBoth(p: Option<Pick>, s: set<Word>, t: set<Word>, pick: Pick)
      requires Valid() && LeastPick(p, s) && IsLeast(cmp, pick.word, t)
      ensures LeastPick(Some(if p.None? || cmp(p.value.word, pick.word) > 0 then pick else p.value), s + t)
    {
      var best := if p.None? || cmp(p.value.word, pick.word) > 0 then pick else p.value;
      forall v | v in s + t
        ensures cmp(best.word, v) <= 0
      {
        if p.Some? {
          SmallerThrough(best.word, p.value.word, v);
        }
        SmallerThrough(best.word, pick.word, v);
      }
    }

    lemma SmallerThrough(a: Word, b: Word, c: Word)
      requires Valid()
      ensures cmp(a, b) <= 0 && cmp(b, c) <= 0 ==> cmp(a, c) <= 0
      ensures cmp(a, a) == 0
    {
    }

    /** Takes the word under cursor i if it is less than the best so far. */
    method ConsiderLeast(c: CurrentIndex, i: nat, isidx: bool, p0: Option<Pick>, ghost s: set<Word>,
                         ghost cur: seq<CurrentIndex>)
      returns (p: Option<Pick>)
      requires Valid() && i < |cur| == |dictmask| && cur[i] == c
      requires LeastPick(p0, s) && UnderCursor(p0, cur)
      ensures LeastPick(p, s + View(cur, true, isidx, i)) && UnderCursor(p, cur)
    {
      p := p0;
      var list, pos := List(i, isidx), At(c, isidx);
      if dictmask[i].local && pos != INVALID_INDEX && pos != UNSET_INDEX && 0 <= pos < |list| {
        ListSorted(i, isidx);
        HeadIsLeast(cmp, list, pos);
        LeastOfBoth(p0, s, Ahead(list, pos), Pick(list[pos], i, isidx));
        if p.None? || cmp(p.value.word, list[pos]) > 0 {
          p := Some(Pick(list[pos], i, isidx));
        }
      } else {
        assert s + View(cur, true, isidx, i) == s;
      }
    }

    /** One of the two scanning loops of PoGetCurrentWord and PoGetNextWord. */
    method ScanLeast(iCurrent: array<CurrentIndex>, isidx: bool, p0: Option<Pick>, ghost s: set<Word>)
      returns (p: Option<Pick>)
      requires Valid() && iCurrent.Length == |dictmask|
      requires LeastPick(p0, s) && UnderCursor(p0, iCurrent[..])
      ensures LeastPick(p, s + Part(iCurrent[..], true, isidx, |dictmask|)) && UnderCursor(p, iCurrent[..])
    {
      hide Valid, LeastPick, UnderCursor;
      p := p0;
      ghost var cur, sofar := iCurrent[..], s;
      PartNext(s, cur, true, isidx, 0);
      for iLib := 0 to |dictmask|
        invariant LeastPick(p, sofar) && UnderCursor(p, cur)
        invariant sofar == s + Part(cur, true, isidx, iLib)
      {
        PartNext(s, cur, true, isidx, iLib);
        p := ConsiderLeast(iCurrent[iLib], iLib, isidx, p, sofar, cur);
        sofar := sofar + View(cur, true, isidx, iLib);
      }
    }

    lemma PartNext(s: set<Word>, cur: seq<CurrentIndex>, ahead: bool, isidx: bool, k: nat)
      requires k <= |cur| == |dictmask|
      ensures s + Part(cur, ahead, isidx, 0) == s
      ensures k < |cur| ==>
                s + Part(cur, ahead, isidx, k + 1) == s + Part(cur, ahead, isidx, k) + View(cur, ahead, isidx, k)
    {
    }

    /** The least word under any cursor, with its cursor. */
    method Least(iCurrent: array<CurrentIndex>) returns (p: Option<Pick>)
      requires Valid() && iCurrent.Length == |dictmask|
      ensures LeastPick(p, Union(iCurrent[..], true)) && UnderCursor(p, iCurrent[..])
    {
      p := ScanLeast(iCurrent, true, None, {});
      p := ScanLeast(iCurrent, false, p, {} + Part(iCurrent[..], true, true, |dictmask|));
      assert {} + Part(iCurrent[..], true, true, |dictmask|) + Part(iCurrent[..], true, false, |dictmask|)
          == Union(iCurrent[..], true);
    }

    method PoGetCurrentWord(iCurrent: array<CurrentIndex>) returns (w: Option<Word>)
      requires Valid() && iCurrent.Length == |dictmask|
      ensures w.None? <==> Union(iCurrent[..], true) == {}
      ensures w.Some? ==> IsLeast(cmp, w.value, Union(iCurrent[..], true))
    {
      var p := Least(iCurrent);
      w := if p.None? then None else Some(p.value.word);
    }

    /** Cursor i of one kind went past w if it was there, and nothing else changed in entry i. */
    ghost predicate Moved(c: CurrentIndex, c': CurrentIndex, i: nat, ahead: bool, isidx: bool, w: Word)
      requires i < |dictmask|
    {
      && c' == SetAt(c, isidx, At(c', isidx))
      && (if ahead then Ahead(List(i, isidx), At(c', isidx)) == Ahead(List(i, isidx), At(c, isidx)) - {w}
          else Behind(List(i, isidx), At(c', isidx)) == Behind(List(i, isidx), At(c, isidx)) - {w})
      && (List(i, isidx) == [] ==> c' == c)
    }

    lemma NotLeast(list: seq<Word>, pos: int, w: Word, s: set<Word>)
      requires Valid() && Sorted(cmp, list) && IsLeast(cmp, w, s) && Ahead(list, pos) <= s
      ensures 0 <= pos < |list| && list[pos] != w ==> w !in Ahead(list, pos)
    {
      if 0 <= pos < |list| {
        HeadIsLeast(cmp, list, pos);
        assert cmp(w, list[pos]) <= 0;
      }
    }

    /** Moves one cursor past w if it is at w. */
    method AdvanceOne(c: CurrentIndex, i: nat, isidx: bool, w: Word, ghost s: set<Word>) returns (c': CurrentIndex)
      requires Valid() && i < |dictmask|
      requires IsLeast(cmp, w, s) && Ahead(List(i, isidx), At(c, isidx)) <= s
      ensures Moved(c, c', i, true, isidx, w)
    {
      c' := c;
      var list, pos := List(i, isidx), At(c, isidx);
      if dictmask[i].local && pos != INVALID_INDEX && pos != UNSET_INDEX && 0 <= pos < |list| {
        ListSorted(i, isidx);
        NotLeast(list, pos, w, s);
        if list[pos] == w {
          pos := GetWordNext(cmp, list, pos);
          c' := SetAt(c, isidx, pos);
        }
      }
    }

    /** One of the two moving loops of PoGetNextWord; the cursor the word came from goes last. */
    method AdvanceOthers(iCurrent: array<CurrentIndex>, isidx: bool, pick: Pick, ghost s: set<Word>)
      requires Valid() && iCurrent.Length == |dictmask|
      requires IsLeast(cmp, pick.word, s)
      requires forall i | 0 <= i < |dictmask| :: View(iCurrent[..], true, isidx, i) <= s
      modifies iCurrent
      ensures forall i | 0 <= i < |dictmask| ::
                if pick.isLib == isidx && pick.iLib == i then iCurrent[i] == old(iCurrent[i])
                else Moved(old(iCurrent[i]), iCurrent[i], i, true, isidx, pick.word)
    {
      hide Valid, IsLeast, Moved;
      ghost var cur := iCurrent[..];
      for iLib := 0 to |dictmask|
        invariant forall i | 0 <= i < iLib ::
                    if pick.isLib == isidx && pick.iLib == i then iCurrent[i] == cur[i]
                    else Moved(cur[i], iCurrent[i], i, true, isidx, pick.word)
        invariant forall i | iLib <= i < |dictmask| :: iCurrent[i] == cur[i]
      {
        if pick.isLib == isidx && iLib == pick.iLib {
          continue;
        }
        assert View(cur, true, isidx, iLib) <= s;
        iCurrent[iLib] := AdvanceOne(iCurrent[iLib], iLib, isidx, pick.word, s);
      }
    }

    lemma ViewInUnion(cur: seq<CurrentIndex>, ahead: bool, isidx: bool, i: nat)
      requires i < |cur| == |dictmask|
      ensures View(cur, ahead, isidx, i) <= Union(cur, ahead)
    {
      forall w | w in View(cur, ahead, isidx, i)
        ensures w in Union(cur, ahead)
      {
        InPart(cur, ahead, isidx, |cur|, w);
      }
    }

    /** One pass over the cursors of one kind: all but the picked one went past w. */
    ghost predicate Passed(cur: seq<CurrentIndex>, cur': seq<CurrentIndex>, ahead: bool, isidx: bool, pick: Pick) {
      && |cur| == |cur'| == |dictmask|
      && forall i | 0 <= i < |cur| ::
           if pick.isLib == isidx && pick.iLib == i then cur'[i] == cur[i]
           else Moved(cur[i], cur'[i], i, ahead, isidx, pick.word)
    }

    /** After both passes and the move of the picked cursor itself, the union has lost the word. */
    lemma UnionLoses(cur: seq<CurrentIndex>, cur1: seq<CurrentIndex>, cur2: seq<CurrentIndex>, cur3: seq<CurrentIndex>,
                     ahead: bool, pick: Pick)
      requires Passed(cur, cur1, ahead, true, pick) && Passed(cur1, cur2, ahead, false, pick)
      requires pick.iLib < |cur3| == |cur2|
      requires forall i | 0 <= i < |cur3| && i != pick.iLib :: cur3[i] == cur2[i]
      requires Moved(cur2[pick.iLib], cur3[pick.iLib], pick.iLib, ahead, pick.isLib, pick.word)
      ensures Union(cur3, ahead) == Union(cur, ahead) - {pick.word}
      ensures Sane(cur) ==> Sane(cur3)
    {
      hide Part, List;
      forall i | 0 <= i < |cur|
        ensures View(cur3, ahead, true, i) == View(cur, ahead, true, i) - {pick.word}
        ensures View(cur3, ahead, false, i) == View(cur, ahead, false, i) - {pick.word}
        ensures List(i, false) == [] ==> cur3[i].synidx == cur[i].synidx
      {
        assert At(cur1[i], false) == At(cur[i], false);
        assert At(cur2[i], true) == At(cur1[i], true);
      }
      PartLoses(cur, cur3, ahead, true, |cur|, pick.word);
      PartLoses(cur, cur3, ahead, false, |cur|, pick.word);
    }

    /** Every cursor at the picked word goes past it. */
    method Advance(iCurrent: array<CurrentIndex>, pick: Pick)
      requires Valid() && iCurrent.Length == |dictmask| && Sane(iCurrent[..])
      requires LeastPick(Some(pick), Union(iCurrent[..], true)) && UnderCursor(Some(pick), iCurrent[..])
      modifies iCurrent
      ensures Union(iCurrent[..], true) == old(Union(iCurrent[..], true)) - {pick.word} && Sane(iCurrent[..])
    {
      hide Valid, IsLeast, Part;
      ghost var cur := iCurrent[..];
      ghost var s := Union(cur, true);
      forall i | 0 <= i < |dictmask|
        ensures View(cur, true, true, i) <= s && View(cur, true, false, i) <= s
      {
        ViewInUnion(cur, true, true, i);
        ViewInUnion(cur, true, false, i);
      }
      AdvanceOthers(iCurrent, true, pick, s);
      ghost var cur1 := iCurrent[..];
      assert Passed(cur, cur1, true, true, pick);
      forall i | 0 <= i < |dictmask|
        ensures View(cur1, true, false, i) == View(cur, true, false, i)
      {
        assert At(cur1[i], false) == At(cur[i], false);
      }
      AdvanceOthers(iCurrent, false, pick, s);
      ghost var cur2 := iCurrent[..];
      assert Passed(cur1, cur2, true, false, pick);
      assert At(cur2[pick.iLib], pick.isLib) == At(cur[pick.iLib], pick.isLib);
      assert View(cur, true, pick.isLib, pick.iLib) <= s;
      iCurrent[pick.iLib] := AdvanceOne(iCurrent[pick.iLib], pick.iLib, pick.isLib, pick.word, s);
      UnionLoses(cur, cur1, cur2, iCurrent[..], true, pick);
    }

    // ----- Placing the cursors at a word -----

    ghost function ListWordSet(i: nat, isidx: bool): set<Word>
      requires i < |dictmask|
    {
      set j | 0 <= j < |List(i, isidx)| :: List(i, isidx)[j]
    }

    ghost function WordsUpTo(isidx: bool, k: nat): set<Word>
      requires k <= |dictmask|
    {
      if k == 0 then {} else WordsUpTo(isidx, k - 1) + ListWordSet(k - 1, isidx)
    }

    /** All words of all dictionaries in the mask and of their synonym files. */
    ghost function Vocabulary(): set<Word> {
      WordsUpTo(true, |dictmask|) + WordsUpTo(false, |dictmask|)
    }

    lemma {:induction false} PartInWords(cur: seq<CurrentIndex>, ahead: bool, isidx: bool, k: nat)
      requires k <= |cur| == |dictmask|
      ensures Part(cur, ahead, isidx, k) <= WordsUpTo(isidx, k)
    {
      if k > 0 {
        PartInWords(cur, ahead, isidx, k - 1);
      }
    }

    /** Cursors see only words of the vocabulary. */
    lemma UnionInVocabulary(cur: seq<CurrentIndex>, ahead: bool)
      requires |cur| == |dictmask|
      ensures Union(cur, ahead) <= Vocabulary()
    {
      PartInWords(cur, ahead, true, |cur|);
      PartInWords(cur, ahead, false, |cur|);
    }

    lemma {:induction false} InWords(i: nat, isidx: bool, k: nat, j: nat)
      requires i < k <= |dictmask| && j < |List(i, isidx)|
      ensures List(i, isidx)[j] in WordsUpTo(isidx, k)
    {
      if i < k - 1 {
        InWords(i, isidx, k - 1, j);
      }
    }

    /** A word of the vocabulary is in some list. */
    lemma {:induction false} WhoseWord(isidx: bool, k: nat, w: Word) returns (i: nat)
      requires k <= |dictmask| && w in WordsUpTo(isidx, k)
      ensures i < k && w in List(i, isidx)
    {
      if w in ListWordSet(k - 1, isidx) {
        i := k - 1;
      } else {
        i := WhoseWord(isidx, k - 1, w);
      }
    }

    /** The words of s that are not below w, or those that are. */
    ghost function Side(s: set<Word>, w: Word, ahead: bool): set<Word> {
      set v | v in s && (cmp(v, w) >= 0) == ahead
    }

    lemma {:induction false} PartIsSide(cur: seq<CurrentIndex>, ahead: bool, isidx: bool, k: nat, w: Word)
      requires k <= |cur| == |dictmask|
      requires forall i | 0 <= i < k :: View(cur, ahead, isidx, i) == Side(ListWordSet(i, isidx), w, ahead)
      ensures Part(cur, ahead, isidx, k) == Side(WordsUpTo(isidx, k), w, ahead)
    {
      if k > 0 {
        PartIsSide(cur, ahead, isidx, k - 1, w);
      }
    }

    /** Cursor i of one kind stands where the lookup of w put it. */
    ghost predicate Placed(c: CurrentIndex, i: nat, isidx: bool, w: Word)
      requires i < |dictmask|
    {
      dictmask[i].local ==>
        if List(i, isidx) == [] then At(c, isidx) == UNSET_INDEX
        else Located(cmp, List(i, isidx), w, w in List(i, isidx), At(c, isidx))
    }

    /** A cursor placed at a word that the list has points at it. */
    lemma PlacedAtWord(c: CurrentIndex, i: nat, isidx: bool, w: Word)
      requires i < |dictmask| && Placed(c, i, isidx, w)
      ensures w in List(i, isidx) ==> 0 <= At(c, isidx) < |List(i, isidx)| && List(i, isidx)[At(c, isidx)] == w
    {
    }

    lemma PlacedSplits(cur: seq<CurrentIndex>, i: nat, isidx: bool, w: Word, ahead: bool)
      requires Valid() && i < |cur| == |dictmask| && Placed(cur[i], i, isidx, w)
      ensures View(cur, ahead, isidx, i) == Side(ListWordSet(i, isidx), w, ahead)
    {
      var list, pos := List(i, isidx), At(cur[i], isidx);
      if list != [] {
        ListSorted(i, isidx);
        LocatedSplits(cmp, list, w, w in list, pos);
      }
    }

    lemma PlacedUnion(cur: seq<CurrentIndex>, w: Word, ahead: bool)
      requires Valid() && |cur| == |dictmask|
      requires forall i | 0 <= i < |cur| :: Placed(cur[i], i, true, w) && Placed(cur[i], i, false, w)
      ensures Union(cur, ahead) == Side(Vocabulary(), w, ahead)
    {
      forall i | 0 <= i < |cur|
        ensures View(cur, ahead, true, i) == Side(ListWordSet(i, true), w, ahead)
        ensures View(cur, ahead, false, i) == Side(ListWordSet(i, false), w, ahead)
      {
        PlacedSplits(cur, i, true, w, ahead);
        PlacedSplits(cur, i, false, w, ahead);
      }
      PartIsSide(cur, ahead, true, |cur|, w);
      PartIsSide(cur, ahead, false, |cur|, w);
    }

    /** Lookup and LookupSynonym for one entry of the mask. */
    method LookupOne(c: CurrentIndex, i: nat, sWord: Word) returns (c': CurrentIndex, f: Found)
      requires Valid() && i < |dictmask|
      ensures Placed(c', i, true, sWord) && Placed(c', i, false, sWord)
      ensures f == Found(sWord in List(i, true), sWord in List(i, false))
    {
      c', f := c, Found(false, false);
      if dictmask[i].local {
        ListSorted(i, true);
        ListSorted(i, false);
        var found, idx, idx_suggest := FlatLookup(cmp, pm, List(i, true), sWord);
        c' := c'.(idx := idx, idx_suggest := idx_suggest);
        f := f.(word := found);
        if List(i, false) == [] {
          c' := c'.(synidx := UNSET_INDEX, synidx_suggest := UNSET_INDEX);
        } else {
          found, idx, idx_suggest := FlatLookup(cmp, pm, List(i, false), sWord);
          c' := c'.(synidx := idx, synidx_suggest := idx_suggest);
          f := f.(synonym := found);
        }
      }
    }

    /** The lookups at the head of PoGetNextWord and PoGetPreWord; each touches its own entry only. */
    method LookupAll(iCurrent: array<CurrentIndex>, sWord: Word) returns (found: seq<Found>)
      requires Valid() && iCurrent.Length == |dictmask|
      modifies iCurrent
      ensures forall ahead :: Union(iCurrent[..], ahead) == Side(Vocabulary(), sWord, ahead)
      ensures Sane(iCurrent[..])
      ensures |found| == |dictmask|
      ensures forall i | 0 <= i < |dictmask| ::
                Placed(iCurrent[i], i, true, sWord) && Placed(iCurrent[i], i, false, sWord)
                && found[i] == Found(sWord in List(i, true), sWord in List(i, false))
    {
      hide Valid;
      found := [];
      for iLib := 0 to |dictmask|
        invariant |found| == iLib
        invariant forall i | 0 <= i < iLib ::
                    Placed(iCurrent[i], i, true, sWord) && Placed(iCurrent[i], i, false, sWord)
                    && found[i] == Found(sWord in List(i, true), sWord in List(i, false))
      {
        var c, f := LookupOne(iCurrent[iLib], iLib, sWord);
        iCurrent[iLib] := c;
        found := found + [f];
      }
      PlacedUnion(iCurrent[..], sWord, true);
      PlacedUnion(iCurrent[..], sWord, false);
    }

    /**
     With a word, places the cursors there first. Then goes past the least word ahead, `gone`, and
     returns the least word that is left.
     */
    method PoGetNextWord(sWord: Option<Word>, iCurrent: array<CurrentIndex>)
      returns (w: Option<Word>, ghost gone: Option<Word>)
      requires Valid() && iCurrent.Length == |dictmask| && (sWord.None? ==> Sane(iCurrent[..]))
      modifies iCurrent
      ensures Sane(iCurrent[..])
      ensures var start := if sWord.Some? then Side(Vocabulary(), sWord.value, true)
                           else old(Union(iCurrent[..], true));
              var left := Union(iCurrent[..], true);
              && (gone.None? ==> start == {} == left && w.None?)
              && (gone.Some? ==> IsLeast(cmp, gone.value, start) && left == start - {gone.value})
              && (w.None? ==> left == {})
              && (w.Some? ==> IsLeast(cmp, w.value, left))
    {
      hide Valid, IsLeast, Side, Part;
      if sWord.Some? {
        var _ := LookupAll(iCurrent, sWord.value);
      }
      var p := Least(iCurrent);
      gone := None;
      w := None;
      if p.Some? {
        gone := Some(p.value.word);
        Advance(iCurrent, p.value);
        w := PoGetCurrentWord(iCurrent);
      }
    }

    // ----- Going back -----

    ghost predicate GreatestPick(p: Option<Pick>, s: set<Word>) {
      match p
      case None => s == {}
      case Some(pick) => IsGreatest(cmp, pick.word, s) && pick.iLib < |dictmask|
    }

    lemma GreatestOfBoth(p: Option<Pick>, s: set<Word>, t: set<Word>, pick: Pick)
      requires Valid() && GreatestPick(p, s) && IsGreatest(cmp, pick.word, t) && pick.iLib < |dictmask|
      ensures GreatestPick(Some(if p.None? || cmp(p.value.word, pick.word) < 0 then pick else p.value), s + t)
    {
      var best := if p.None? || cmp(p.value.word, pick.word) < 0 then pick else p.value;
      forall v | v in s + t
        ensures cmp(v, best.word) <= 0
      {
        if p.Some? {
          SmallerThrough(v, p.value.word, best.word);
        }
        SmallerThrough(v, pick.word, best.word);
      }
    }

    /** Whether PoGetPreWord looks behind cursor i at all. */
    predicate LooksBack(c: CurrentIndex, i: nat, isidx: bool)
      requires i < |dictmask|
    {
      var pos := At(c, isidx);
      && dictmask[i].local
      && (!isidx ==> pos != UNSET_INDEX)
      && (pos != INVALID_INDEX ==> 0 < pos < |List(i, isidx)|)
    }

    lemma NothingBehind(c: CurrentIndex, i: nat, isidx: bool)
      requires Valid() && i < |dictmask|
      requires dictmask[i].local && !isidx && List(i, isidx) == [] ==> c.synidx != INVALID_INDEX
      ensures LooksBack(c, i, isidx) ==> List(i, isidx) != []
      ensures !LooksBack(c, i, isidx) ==> Behind(List(i, isidx), At(c, isidx)) == {}
    {
    }

    /** Takes the word before cursor i if it is greater than the best so far. */
    method ConsiderGreatest(c: CurrentIndex, i: nat, isidx: bool, p0: Option<Pick>, ghost s: set<Word>,
                            ghost cur: seq<CurrentIndex>)
      returns (p: Option<Pick>)
      requires Valid() && i < |cur| == |dictmask| && cur[i] == c && Sane(cur)
      requires GreatestPick(p0, s)
      ensures GreatestPick(p, s + View(cur, false, isidx, i))
    {
      p := p0;
      NothingBehind(c, i, isidx);
      ListSorted(i, isidx);
      var list, pos := List(i, isidx), At(c, isidx);
      ghost var t := Behind(list, pos);
      assert t == {} ==> s + t == s;
      if LooksBack(c, i, isidx) {
        var found, pidx := GetWordPrev(cmp, list, pos);
        if found {
          GreatestOfBoth(p0, s, t, Pick(list[pidx], i, isidx));
          if p.None? || cmp(p.value.word, list[pidx]) < 0 {
            p := Some(Pick(list[pidx], i, isidx));
          }
        }
      }
    }

    method ScanGreatest(iCurrent: array<CurrentIndex>, isidx: bool, p0: Option<Pick>, ghost s: set<Word>)
      returns (p: Option<Pick>)
      requires Valid() && iCurrent.Length == |dictmask| && Sane(iCurrent[..])
      requires GreatestPick(p0, s)
      ensures GreatestPick(p, s + Part(iCurrent[..], false, isidx, |dictmask|))
    {
      hide Valid, GreatestPick, Sane;
      p := p0;
      ghost var cur, sofar := iCurrent[..], s;
      PartNext(s, cur, false, isidx, 0);
      for iLib := 0 to |dictmask|
        invariant GreatestPick(p, sofar)
        invariant sofar == s + Part(cur, false, isidx, iLib)
      {
        PartNext(s, cur, false, isidx, iLib);
        p := ConsiderGreatest(iCurrent[iLib], iLib, isidx, p, sofar, cur);
        sofar := sofar + View(cur, false, isidx, iLib);
      }
    }

    lemma NotGreatest(list: seq<Word>, pos: int, pidx: int, w: Word, s: set<Word>)
      requires Valid() && IsGreatest(cmp, w, s) && Behind(list, pos) <= s
      requires 0 <= pidx < |list| && IsGreatest(cmp, list[pidx], Behind(list, pos)) && list[pidx] != w
      ensures w !in Behind(list, pos)
    {
      assert cmp(list[pidx], w) <= 0;
    }

    /** Moves one cursor back to w if w is the word before it. */
    method RetreatOne(c: CurrentIndex, i: nat, isidx: bool, w: Word, ghost s: set<Word>) returns (c': CurrentIndex)
      requires Valid() && i < |dictmask|
      requires dictmask[i].local && !isidx && List(i, isidx) == [] ==> c.synidx != INVALID_INDEX
      requires IsGreatest(cmp, w, s) && Behind(List(i, isidx), At(c, isidx)) <= s
      ensures Moved(c, c', i, false, isidx, w)
    {
      c' := c;
      NothingBehind(c, i, isidx);
      ListSorted(i, isidx);
      var list, pos := List(i, isidx), At(c, isidx);
      if LooksBack(c, i, isidx) {
        var found, pidx := GetWordPrev(cmp, list, pos);
        if found {
          if list[pidx] == w {
            c' := SetAt(c, isidx, pidx);
          } else {
            NotGreatest(list, pos, pidx, w, s);
          }
        }
      }
    }

    /** One of the two moving loops of PoGetPreWord; the cursor the word came from goes last. */
    method RetreatOthers(iCurrent: array<CurrentIndex>, isidx: bool, pick: Pick, ghost s: set<Word>)
      requires Valid() && iCurrent.Length == |dictmask| && Sane(iCurrent[..])
      requires IsGreatest(cmp, pick.word, s)
      requires forall i | 0 <= i < |dictmask| :: View(iCurrent[..], false, isidx, i) <= s
      modifies iCurrent
      ensures Passed(old(iCurrent[..]), iCurrent[..], false, isidx, pick)
    {
      hide Valid, IsGreatest, Moved, List;
      ghost var cur := iCurrent[..];
      for iLib := 0 to |dictmask|
        invariant forall i | 0 <= i < iLib ::
                    if pick.isLib == isidx && pick.iLib == i then iCurrent[i] == cur[i]
                    else Moved(cur[i], iCurrent[i], i, false, isidx, pick.word)
        invariant forall i | iLib <= i < |dictmask| :: iCurrent[i] == cur[i]
      {
        if pick.isLib == isidx && iLib == pick.iLib {
          continue;
        }
        assert View(cur, false, isidx, iLib) <= s;
        iCurrent[iLib] := RetreatOne(iCurrent[iLib], iLib, isidx, pick.word, s);
      }
    }

    lemma PassedKeepsSane(cur: seq<CurrentIndex>, cur': seq<CurrentIndex>, ahead: bool, isidx: bool, pick: Pick)
      requires Passed(cur, cur', ahead, isidx, pick) && Sane(cur)
      ensures Sane(cur')
      ensures forall i | 0 <= i < |dictmask| :: At(cur'[i], !isidx) == At(cur[i], !isidx)
    {
      hide List;
    }

    /** Every cursor that has the picked word before it goes back to it. */
    method Retreat(iCurrent: array<CurrentIndex>, pick: Pick)
      requires Valid() && iCurrent.Length == |dictmask| && Sane(iCurrent[..])
      requires GreatestPick(Some(pick), Union(iCurrent[..], false))
      modifies iCurrent
      ensures Union(iCurrent[..], false) == old(Union(iCurrent[..], false)) - {pick.word} && Sane(iCurrent[..])
    {
      hide Valid, IsGreatest, Part, List, Passed, Sane;
      ghost var cur := iCurrent[..];
      ghost var s := Union(cur, false);
      forall i | 0 <= i < |dictmask|
        ensures View(cur, false, true, i) <= s && View(cur, false, false, i) <= s
      {
        ViewInUnion(cur, false, true, i);
        ViewInUnion(cur, false, false, i);
      }
      RetreatOthers(iCurrent, true, pick, s);
      ghost var cur1 := iCurrent[..];
      PassedKeepsSane(cur, cur1, false, true, pick);
      forall i | 0 <= i < |dictmask|
        ensures View(cur1, false, false, i) == View(cur, false, false, i)
      {
        assert At(cur1[i], false) == At(cur[i], false);
      }
      RetreatOthers(iCurrent, false, pick, s);
      ghost var cur2 := iCurrent[..];
      PassedKeepsSane(cur1, cur2, false, false, pick);
      PickedUntouched(cur, cur1, cur2, false, pick);
      assert View(cur, false, pick.isLib, pick.iLib) <= s;
      iCurrent[pick.iLib] := RetreatOne(iCurrent[pick.iLib], pick.iLib, pick.isLib, pick.word, s);
      UnionLoses(cur, cur1, cur2, iCurrent[..], false, pick);
    }

    lemma PickedUntouched(cur: seq<CurrentIndex>, cur1: seq<CurrentIndex>, cur2: seq<CurrentIndex>, ahead: bool,
                          pick: Pick)
      requires Passed(cur, cur1, ahead, true, pick) && Passed(cur1, cur2, ahead, false, pick) && pick.iLib < |cur|
      requires Sane(cur2)
      ensures At(cur2[pick.iLib], pick.isLib) == At(cur[pick.iLib], pick.isLib)
      ensures dictmask[pick.iLib].local && List(pick.iLib, false) == [] ==> cur2[pick.iLib].synidx != INVALID_INDEX
    {
      hide List;
    }

    /** With a word, places the cursors there first. Then goes back to the greatest word behind, and returns it. */
    method PoGetPreWord(sWord: Option<Word>, iCurrent: array<CurrentIndex>) returns (w: Option<Word>)
      requires Valid() && iCurrent.Length == |dictmask| && (sWord.None? ==> Sane(iCurrent[..]))
      modifies iCurrent
      ensures Sane(iCurrent[..])
      ensures var start := if sWord.Some? then Side(Vocabulary(), sWord.value, false)
                           else old(Union(iCurrent[..], false));
              var left := Union(iCurrent[..], false);
              && (w.None? ==> start == {} == left)
              && (w.Some? ==> IsGreatest(cmp, w.value, start) && left == start - {w.value})
    {
      hide Valid, IsGreatest, Side, Part;
      if sWord.Some? {
        var _ := LookupAll(iCurrent, sWord.value);
      }
      ghost var cur := iCurrent[..];
      var p := ScanGreatest(iCurrent, true, None, {});
      p := ScanGreatest(iCurrent, false, p, {} + Part(cur, false, true, |dictmask|));
      assert {} + Part(cur, false, true, |dictmask|) + Part(cur, false, false, |dictmask|) == Union(cur, false);
      w := None;
      if p.Some? {
        w := Some(p.value.word);
        Retreat(iCurrent, p.value);
      }
    }

    // ----- In terms of the dictionaries loaded and chosen -----

    /** The vocabulary has exactly the words and synonyms of the dictionaries that the mask names. */
    lemma InVocabulary(w: Word)
      requires Valid()
      ensures w in Vocabulary() <==>
              exists i | 0 <= i < |dictmask| && dictmask[i].local ::
                var d := oLib[dictmask[i].index];
                w in d.words || (d.syns.Some? && w in d.syns.value)
    {
      hide TotalOrder, Sorted;
      if w in Vocabulary() {
        var isidx := w in WordsUpTo(true, |dictmask|);
        var i := WhoseWord(isidx, |dictmask|, w);
        assert dictmask[i].local;
      }
      if i :| 0 <= i < |dictmask| && dictmask[i].local &&
              var d := oLib[dictmask[i].index]; w in d.words || (d.syns.Some? && w in d.syns.value)
      {
        var isidx := w in oLib[dictmask[i].index].words;
        var j :| 0 <= j < |List(i, isidx)| && List(i, isidx)[j] == w;
        InWords(i, isidx, |dictmask|, j);
      }
    }

    /** The words ahead are those from the cursor on, in some dictionary that the mask names. */
    lemma InUnionAhead(cur: seq<CurrentIndex>, w: Word)
      requires Valid() && |cur| == |dictmask|
      ensures w in Union(cur, true) <==>
              exists i | 0 <= i < |dictmask| && dictmask[i].local ::
                var d, c := oLib[dictmask[i].index], cur[i];
                || (exists k :: 0 <= c.idx <= k < |d.words| && d.words[k] == w)
                || (d.syns.Some? && exists k :: 0 <= c.synidx <= k < |d.syns.value| && d.syns.value[k] == w)
    {
      hide TotalOrder, Sorted;
      InPart(cur, true, true, |cur|, w);
      InPart(cur, true, false, |cur|, w);
      forall i | 0 <= i < |cur|
        ensures w in View(cur, true, true, i) <==>
                dictmask[i].local && exists k :: 0 <= cur[i].idx <= k < |oLib[dictmask[i].index].words|
                                                 && oLib[dictmask[i].index].words[k] == w
        ensures w in View(cur, true, false, i) <==>
                dictmask[i].local && oLib[dictmask[i].index].syns.Some? &&
                exists k :: 0 <= cur[i].synidx <= k < |oLib[dictmask[i].index].syns.value|
                            && oLib[dictmask[i].index].syns.value[k] == w
      {
      }
    }

    /** The words behind are those before the run of the cursor, in some dictionary that the mask names. */
    lemma InUnionBehind(cur: seq<CurrentIndex>, w: Word)
      requires Valid() && |cur| == |dictmask|
      ensures w in Union(cur, false) <==>
              exists i | 0 <= i < |dictmask| && dictmask[i].local ::
                var d, c := oLib[dictmask[i].index], cur[i];
                || StandsBefore(d.words, c.idx, w)
                || (d.syns.Some? && StandsBefore(d.syns.value, c.synidx, w))
    {
      hide TotalOrder, Sorted, Behind, StandsBefore;
      InPart(cur, false, true, |cur|, w);
      InPart(cur, false, false, |cur|, w);
      forall i | 0 <= i < |cur|
        ensures w in View(cur, false, true, i) <==>
                dictmask[i].local && StandsBefore(oLib[dictmask[i].index].words, cur[i].idx, w)
        ensures w in View(cur, false, false, i) <==>
                dictmask[i].local && oLib[dictmask[i].index].syns.Some?
                && StandsBefore(oLib[dictmask[i].index].syns.value, cur[i].synidx, w)
      {
        InBehind(List(i, true), cur[i].idx, w);
        InBehind(List(i, false), cur[i].synidx, w);
      }
    }

    lemma InBehind(list: seq<Word>, pos: int, w: Word)
      ensures w in Behind(list, pos) <==> StandsBefore(list, pos, w)
      ensures list == [] ==> !StandsBefore(list, pos, w)
    {
    }

    /** w stands in the list before a place of another word, or anywhere if the cursor is past the end. */
    ghost predicate StandsBefore(list: seq<Word>, pos: int, w: Word) {
      exists k :: 0 <= k < |list| && list[k] == w && (pos == INVALID_INDEX || (k < pos < |list| && list[pos] != w))
    }
  }
}
