/** The replies of stardictdmain.cpp that list words: ListWords, previous and next. */
module WordLists {
  import opened Words
  import opened WordList
  import opened Cursors

  function Flip(cmp: Comparator): Comparator {
    (a: Word, b: Word) => cmp(b, a)
  }

  ghost predicate Ascending(cmp: Comparator, out: seq<Word>) {
    forall i, j | 0 <= i < j < |out| :: cmp(out[i], out[j]) < 0
  }

  /** out is the first n elements of s in ascending order, or all of s if it has no more. */
  ghost predicate First(cmp: Comparator, out: seq<Word>, s: set<Word>, n: nat) {
    && Ascending(cmp, out) && |out| <= n
    && (forall w | w in out :: w in s)
    && (forall v, i | v in s && v !in out && 0 <= i < |out| :: cmp(out[i], v) < 0)
    && (|out| < n ==> forall v | v in s :: v in out)
  }

  /** There is only one such list. */
  lemma FirstIsUnique(cmp: Comparator, out: seq<Word>, out': seq<Word>, s: set<Word>, n: nat)
    requires TotalOrder(cmp) && First(cmp, out, s, n) && First(cmp, out', s, n)
    ensures out == out'
  {
    hide TotalOrder;
    SamePrefix(cmp, out, out', s, n, if |out| < |out'| then |out| else |out'|);
    if |out| < |out'| {
      NoMore(cmp, out, out', s, n);
    } else if |out'| < |out| {
      NoMore(cmp, out', out, s, n);
    }
  }

  lemma NoMore(cmp: Comparator, out: seq<Word>, out': seq<Word>, s: set<Word>, n: nat)
    requires TotalOrder(cmp) && First(cmp, out, s, n) && First(cmp, out', s, n)
    requires out <= out'
    ensures |out| == |out'|
  {
    forall k | 0 <= k < |out'|
      ensures out'[k] in s && out'[k] !in out'[..k]
    {
      assert out'[k] in out';
      assert forall j | 0 <= j < k :: cmp(out'[j], out'[k]) < 0;
    }
    assert out == out'[..|out|];
    if |out| < |out'| {
      assert false;
    }
  }

  lemma {:induction false} SamePrefix(cmp: Comparator, out: seq<Word>, out': seq<Word>, s: set<Word>, n: nat, k: nat)
    requires TotalOrder(cmp) && First(cmp, out, s, n) && First(cmp, out', s, n)
    requires k <= |out| && k <= |out'|
    ensures out[..k] == out'[..k]
  {
    if k > 0 {
      SamePrefix(cmp, out, out', s, n, k - 1);
      SameNext(cmp, out, out', s, n, k - 1);
      SameNext(cmp, out', out, s, n, k - 1);
      assert out[k-1] == out'[k-1];
      assert out[..k] == out[..k-1] + [out[k-1]] && out'[..k] == out'[..k-1] + [out'[k-1]];
    }
  }

  lemma SameNext(cmp: Comparator, out: seq<Word>, out': seq<Word>, s: set<Word>, n: nat, k: nat)
    requires TotalOrder(cmp) && First(cmp, out, s, n) && First(cmp, out', s, n)
    requires k < |out| && k < |out'| && out[..k] == out'[..k]
    ensures cmp(out'[k], out[k]) <= 0
  {
    var v := out[k];
    assert v in out && v in s;
    forall j | 0 <= j < k
      ensures out'[j] != v
    {
      assert out[j] == out[..k][j] == out'[..k][j] == out'[j];
      assert cmp(out[j], out[k]) < 0;
    }
  }

  /** A non-empty set of words has a least one. */
  lemma {:induction false} LeastOf(cmp: Comparator, s: set<Word>) returns (w: Word)
    requires TotalOrder(cmp) && s != {}
    ensures IsLeast(cmp, w, s)
    decreases s
  {
    var v :| v in s;
    if s == {v} {
      OrderSigns(cmp, v, v);
      return v;
    }
    var u := LeastOf(cmp, s - {v});
    OrderSigns(cmp, u, v);
    OrderSigns(cmp, v, v);
    w := if cmp(u, v) <= 0 then u else v;
    forall x | x in s
      ensures cmp(w, x) <= 0
    {
      OrderSigns(cmp, u, x);
      OrderSigns(cmp, w, x);
    }
  }

  /** The list itself: the least word, then the least of the others, and so on. */
  ghost function FirstOf(cmp: Comparator, s: set<Word>, n: nat): (out: seq<Word>)
    requires TotalOrder(cmp)
    ensures First(cmp, out, s, n)
    decreases n
  {
    if n == 0 || s == {} then
      FirstOfNothing(cmp, s, n);
      []
    else
      LeastExists(cmp, s);
      var w :| IsLeast(cmp, w, s);
      FirstPrepends(cmp, w, s, FirstOf(cmp, s - {w}, n - 1), n);
      [w] + FirstOf(cmp, s - {w}, n - 1)
  }

  lemma LeastExists(cmp: Comparator, s: set<Word>)
    requires TotalOrder(cmp) && s != {}
    ensures exists w :: IsLeast(cmp, w, s)
  {
    var w := LeastOf(cmp, s);
  }

  lemma FirstOfNothing(cmp: Comparator, s: set<Word>, n: nat)
    requires n == 0 || s == {}
    ensures First(cmp, [], s, n)
  {
  }

  lemma FirstPrepends(cmp: Comparator, w: Word, s: set<Word>, out: seq<Word>, n: nat)
    requires TotalOrder(cmp) && IsLeast(cmp, w, s) && n > 0 && First(cmp, out, s - {w}, n - 1)
    ensures First(cmp, [w] + out, s, n)
  {
    hide TotalOrder;
    var r := [w] + out;
    assert forall x | x in out :: x in r;
    forall v | v in s && v != w
      ensures cmp(w, v) < 0
    {
      Strict(cmp, w, v);
    }
    forall i, j | 0 <= i < j < |r|
      ensures cmp(r[i], r[j]) < 0
    {
      assert r[j] == out[j-1] && out[j-1] in out;
      if i > 0 {
        assert r[i] == out[i-1];
      }
    }
    forall v, i | v in s && v !in r && 0 <= i < |r|
      ensures cmp(r[i], v) < 0
    {
      assert v != r[0] && v !in out && v in s - {w};
      if i > 0 {
        assert r[i] == out[i-1];
      }
    }
    forall v | v in s && |r| < n
      ensures v in r
    {
      assert v != w ==> v in out;
    }
  }

  /** The words written so far, the last of which is the least of those still ahead. */
  ghost predicate Progress(cmp: Comparator, out: seq<Word>, ahead: set<Word>, s: set<Word>) {
    && |out| > 0 && Ascending(cmp, out)
    && IsLeast(cmp, out[|out|-1], ahead) && ahead <= s
    && (forall w | w in out :: w in s)
    && (forall v | v in s :: v in ahead || v in out)
    && (forall v, i | v in ahead && 0 <= i < |out| - 1 :: cmp(out[i], v) < 0)
  }

  lemma Start(cmp: Comparator, w: Word, s: set<Word>)
    requires IsLeast(cmp, w, s)
    ensures Progress(cmp, [w], s, s)
  {
  }

  lemma Strict(cmp: Comparator, a: Word, b: Word)
    requires TotalOrder(cmp) && cmp(a, b) <= 0 && a != b
    ensures cmp(a, b) < 0
  {
  }

  lemma Extend(cmp: Comparator, out: seq<Word>, ahead: set<Word>, s: set<Word>, w: Word)
    requires TotalOrder(cmp) && Progress(cmp, out, ahead, s)
    requires IsLeast(cmp, w, ahead - {out[|out|-1]})
    ensures Progress(cmp, out + [w], ahead - {out[|out|-1]}, s)
  {
    hide TotalOrder;
    var last, out', ahead' := out[|out|-1], out + [w], ahead - {out[|out|-1]};
    forall v, i | v in ahead' && 0 <= i < |out|
      ensures cmp(out[i], v) < 0
    {
      if i == |out| - 1 {
        Strict(cmp, last, v);
      }
    }
    assert Ascending(cmp, out');
    assert out'[|out|-1] == last && forall v | v in out :: v in out';
  }

  lemma Stop(cmp: Comparator, out: seq<Word>, ahead: set<Word>, s: set<Word>, n: nat)
    requires TotalOrder(cmp) && Progress(cmp, out, ahead, s)
    requires |out| == n || (|out| <= n && ahead == {out[|out|-1]})
    ensures First(cmp, out, s, n)
  {
    forall v, i | v in s && v !in out && 0 <= i < |out|
      ensures cmp(out[i], v) < 0
    {
      assert v in ahead && cmp(out[|out|-1], v) <= 0 && v != out[|out|-1];
    }
  }

  lemma FlipIsTotal(cmp: Comparator)
    requires TotalOrder(cmp)
    ensures TotalOrder(Flip(cmp))
  {
  }

  function AtLeastOne(n: int): nat {
    if n < 1 then 1 else n
  }

  /** The words a ListWords reply carries: those ahead of the cursors, ascending. */
  method ListWords(libs: Libs, iCurrent: array<CurrentIndex>, maxwordcount: int) returns (out: seq<Word>)
    requires libs.Valid() && iCurrent.Length == |libs.dictmask| && libs.Sane(iCurrent[..])
    modifies iCurrent
    ensures First(libs.cmp, out, old(libs.Union(iCurrent[..], true)), AtLeastOne(maxwordcount))
  {
    ghost var s := libs.Union(iCurrent[..], true);
    var w := libs.PoGetCurrentWord(iCurrent);
    out := [];
    if w.Some? {
      Start(libs.cmp, w.value, s);
      out := [w.value];
      out := ListOn(libs, iCurrent, maxwordcount, out, s);
    }
  }

  /** The shared tail of ListWords and next. */
  method ListOn(libs: Libs, iCurrent: array<CurrentIndex>, maxwordcount: int, out0: seq<Word>, ghost s: set<Word>)
    returns (out: seq<Word>)
    requires libs.Valid() && iCurrent.Length == |libs.dictmask| && libs.Sane(iCurrent[..])
    requires Progress(libs.cmp, out0, libs.Union(iCurrent[..], true), s) && |out0| == 1
    modifies iCurrent
    ensures First(libs.cmp, out, s, AtLeastOne(maxwordcount))
  {
    out := out0;
    while |out| < maxwordcount
      invariant libs.Sane(iCurrent[..]) && |out| <= AtLeastOne(maxwordcount)
      invariant Progress(libs.cmp, out, libs.Union(iCurrent[..], true), s)
    {
      ghost var ahead := libs.Union(iCurrent[..], true);
      var w, gone := libs.PoGetNextWord(None, iCurrent);
      SameLeast(libs.cmp, out[|out|-1], gone, ahead);
      if w.None? {
        assert ahead == {out[|out|-1]};
        Stop(libs.cmp, out, ahead, s, AtLeastOne(maxwordcount));
        return;
      }
      Extend(libs.cmp, out, ahead, s, w.value);
      out := out + [w.value];
    }
    Stop(libs.cmp, out, libs.Union(iCurrent[..], true), s, AtLeastOne(maxwordcount));
  }

  lemma SameLeast(cmp: Comparator, w: Word, gone: Option<Word>, s: set<Word>)
    requires TotalOrder(cmp) && IsLeast(cmp, w, s)
    requires gone.Some? ==> IsLeast(cmp, gone.value, s)
    ensures gone.Some? ==> gone.value == w
  {
  }

  /** The words a `previous` reply carries: those below sWord, descending. */
  method Previous(libs: Libs, sWord: Word, maxwordcount: int) returns (out: seq<Word>)
    requires libs.Valid()
    ensures First(Flip(libs.cmp), out, libs.Side(libs.Vocabulary(), sWord, false), AtLeastOne(maxwordcount))
  {
    hide TotalOrder, Progress, First;
    var iPreIndex := new CurrentIndex[|libs.dictmask|](_ => CurrentIndex(0, 0, 0, 0));
    ghost var s, flip := libs.Side(libs.Vocabulary(), sWord, false), Flip(libs.cmp);
    assert TotalOrder(libs.cmp) by {
      ValidOrder(libs);
    }
    FlipIsTotal(libs.cmp);
    var preword := libs.PoGetPreWord(Some(sWord), iPreIndex);
    out := [];
    if preword.None? {
      FirstOfNone(flip, AtLeastOne(maxwordcount));
      return;
    }
    Start(flip, preword.value, s);
    out := [preword.value];
    ghost var ahead := s;
    while |out| < maxwordcount
      invariant libs.Sane(iPreIndex[..]) && 1 <= |out| <= AtLeastOne(maxwordcount)
      invariant Progress(flip, out, ahead, s) && libs.Union(iPreIndex[..], false) == ahead - {out[|out|-1]}
    {
      preword := libs.PoGetPreWord(None, iPreIndex);
      if preword.None? {
        LastOne(flip, out, ahead, s);
        Stop(flip, out, ahead, s, AtLeastOne(maxwordcount));
        return;
      }
      Extend(flip, out, ahead, s, preword.value);
      ahead := ahead - {out[|out|-1]};
      out := out + [preword.value];
    }
    Stop(flip, out, ahead, s, AtLeastOne(maxwordcount));
  }

  lemma ValidOrder(libs: Libs)
    requires libs.Valid()
    ensures TotalOrder(libs.cmp)
  {
  }

  lemma FirstOfNone(cmp: Comparator, n: nat)
    ensures First(cmp, [], {}, n)
  {
  }

  lemma LastOne(cmp: Comparator, out: seq<Word>, ahead: set<Word>, s: set<Word>)
    requires Progress(cmp, out, ahead, s) && ahead - {out[|out|-1]} == {}
    ensures ahead == {out[|out|-1]}
  {
  }

  /** All of s but its least word. */
  ghost function AllButLeast(cmp: Comparator, s: set<Word>): set<Word> {
    set v | v in s && exists u | u in s :: cmp(u, v) < 0
  }

  lemma LeastLeft(cmp: Comparator, w: Word, s: set<Word>)
    requires TotalOrder(cmp) && IsLeast(cmp, w, s)
    ensures AllButLeast(cmp, s) == s - {w}
  {
    forall v | v in s
      ensures v != w <==> exists u | u in s :: cmp(u, v) < 0
    {
      if v != w {
        OrderSigns(cmp, w, v);
        assert cmp(w, v) < 0;
      } else {
        forall u | u in s
          ensures cmp(u, v) >= 0
        {
          OrderSigns(cmp, w, u);
        }
      }
    }
  }

  /** The words a `next` reply carries: those not below sWord, without the least of them. */
  method Next(libs: Libs, sWord: Word, maxwordcount: int) returns (out: seq<Word>)
    requires libs.Valid()
    ensures First(libs.cmp, out, AllButLeast(libs.cmp, libs.Side(libs.Vocabulary(), sWord, true)),
                  AtLeastOne(maxwordcount))
  {
    ValidOrder(libs);
    hide TotalOrder, Progress, First;
    var iNextIndex := new CurrentIndex[|libs.dictmask|](_ => CurrentIndex(0, 0, 0, 0));
    var nextword, gone := libs.PoGetNextWord(Some(sWord), iNextIndex);
    ghost var rest := libs.Union(iNextIndex[..], true);
    if gone.Some? {
      LeastLeft(libs.cmp, gone.value, libs.Side(libs.Vocabulary(), sWord, true));
    }
    out := [];
    if nextword.Some? {
      Start(libs.cmp, nextword.value, rest);
      out := [nextword.value];
      out := ListOn(libs, iNextIndex, maxwordcount, out, rest);
    } else {
      FirstOfNone(libs.cmp, AtLeastOne(maxwordcount));
    }
  }

  ghost function Above(libs: Libs, w: Word): set<Word> {
    set v | v in libs.Vocabulary() && libs.cmp(v, w) > 0
  }

  /**
   A `next` reply lists the words above sWord exactly when sWord is in some dictionary or nothing is
   above it; otherwise it leaves out the first word above.
   */
  lemma NextListsAbove(libs: Libs, sWord: Word)
    requires libs.Valid()
    ensures AllButLeast(libs.cmp, libs.Side(libs.Vocabulary(), sWord, true)) == Above(libs, sWord)
            <==> sWord in libs.Vocabulary() || Above(libs, sWord) == {}
  {
    ValidOrder(libs);
    var s := libs.Side(libs.Vocabulary(), sWord, true);
    OrderSigns(libs.cmp, sWord, sWord);
    if sWord in libs.Vocabulary() {
      LeastLeft(libs.cmp, sWord, s);
    } else if s != {} {
      var w := LeastOf(libs.cmp, s);
      LeastLeft(libs.cmp, w, s);
      assert forall v | v in s :: libs.cmp(v, sWord) != 0;
    }
  }

  /** A dictionary of "a" and "c": `next` of "b" leaves out "c". */
  lemma NextLeavesOut(libs: Libs)
    requires libs.cmp == StardictStrcmp() && libs.dictmask == [InstantDictIndex(true, 0)]
    requires libs.oLib == [Dict([[97], [99]], None)]
    ensures Above(libs, [98]) == {[99]}
    ensures AllButLeast(libs.cmp, libs.Side(libs.Vocabulary(), [98], true)) == {}
  {
    var a: Word, b: Word, c: Word := [97], [98], [99];
    SmallLetters(a, b, 0);
    SmallLetters(b, c, 0);
    StardictStrcmpIsTotal();
    OrderSigns(libs.cmp, c, c);
    hide StardictStrcmp;
    assert libs.List(0, true) == [a, c] && libs.List(0, false) == [];
    assert libs.ListWordSet(0, true) == {a, c} by {
      assert libs.List(0, true)[0] == a && libs.List(0, true)[1] == c;
    }
    assert libs.ListWordSet(0, false) == {};
    assert libs.WordsUpTo(true, 1) == {a, c} && libs.WordsUpTo(false, 1) == {};
    assert libs.Vocabulary() == {a, c};
    assert libs.Side({a, c}, b, true) == {c};
  }

  /** Around a word that is present, the two replies split the vocabulary. */
  lemma RepliesPartition(libs: Libs, sWord: Word)
    requires libs.Valid() && sWord in libs.Vocabulary()
    ensures libs.Side(libs.Vocabulary(), sWord, false) + {sWord} + Above(libs, sWord) == libs.Vocabulary()
    ensures libs.Side(libs.Vocabulary(), sWord, false) !! {sWord} + Above(libs, sWord)
  {
    ValidOrder(libs);
    assert libs.cmp(sWord, sWord) == 0;
  }
}
