/** Move-to-front lists: which items were used most recently. */
module Recency {

  function Without(s: seq<int>, c: int): (r: seq<int>)
    ensures forall x | x in r :: x in s && x != c
    ensures forall x | x in s && x != c :: x in r
    ensures |r| <= |s|
  {
    if s == [] then [] else (if s[0] == c then [] else [s[0]]) + Without(s[1..], c)
  }

  ghost predicate Distinct(s: seq<int>) {
    forall i, j | 0 <= i < j < |s| :: s[i] != s[j]
  }

  /** c becomes the most recent one. */
  function Touch(s: seq<int>, c: int): seq<int> {
    [c] + Without(s, c)
  }

  /** The distinct items of a history, the most recently used first. */
  function MostRecent(history: seq<int>): seq<int> {
    if history == [] then [] else Touch(MostRecent(history[..|history|-1]), history[|history|-1])
  }

  /** The other items used since c was used last. */
  function UsedSince(history: seq<int>, c: int): set<int> {
    if history == [] || history[|history|-1] == c then {}
    else UsedSince(history[..|history|-1], c) + {history[|history|-1]}
  }

  lemma {:induction false} WithoutAbsent(s: seq<int>, c: int)
    requires c !in s
    ensures Without(s, c) == s
  {
    if s != [] {
      WithoutAbsent(s[1..], c);
    }
  }

  /** Without c, everything before it stays and everything after it moves up. */
  lemma {:induction false} WithoutAt(s: seq<int>, p: nat)
    requires Distinct(s) && p < |s|
    ensures Without(s, s[p]) == s[..p] + s[p+1..]
  {
    var first, rest := s[0], s[1..];
    assert forall i, j | 0 <= i < j < |rest| :: rest[i] == s[i+1] && rest[j] == s[j+1];
    if p == 0 {
      forall i | 0 <= i < |rest|
        ensures rest[i] != first
      {
        assert rest[i] == s[i+1];
      }
      WithoutAbsent(rest, first);
      assert s[..0] + rest == rest;
    } else {
      assert rest[p-1] == s[p] && s[0] != s[p];
      WithoutAt(rest, p - 1);
      assert Without(s, s[p]) == [first] + Without(rest, s[p]);
      hide Without;
      CutAt(s, p);
    }
  }

  lemma CutAt(s: seq<int>, p: nat)
    requires 0 < p < |s|
    ensures s[..p] + s[p+1..] == [s[0]] + (s[1..][..p-1] + s[1..][p..])
  {
  }

  lemma TouchDistinct(s: seq<int>, c: int)
    requires Distinct(s)
    ensures Distinct(Touch(s, c))
  {
    if c in s {
      var p :| 0 <= p < |s| && s[p] == c;
      WithoutAt(s, p);
    } else {
      WithoutAbsent(s, c);
    }
  }

  lemma {:induction false} MostRecentDistinct(history: seq<int>)
    ensures Distinct(MostRecent(history))
    ensures forall c :: c in MostRecent(history) <==> c in history
  {
    if history != [] {
      var h, last := history[..|history|-1], history[|history|-1];
      MostRecentDistinct(h);
      TouchDistinct(MostRecent(h), last);
      assert history == h + [last];
    }
  }

  /** The items ahead of c. */
  function FrontOf(s: seq<int>, c: int): set<int> {
    if s == [] || s[0] == c then {} else {s[0]} + FrontOf(s[1..], c)
  }

  lemma {:induction false} FrontWithout(s: seq<int>, c: int, x: int)
    requires x != c
    ensures FrontOf(Without(s, x), c) == FrontOf(s, c) - {x}
  {
    if s != [] {
      FrontWithout(s[1..], c, x);
      assert s[0] != x ==> Without(s, x)[1..] == Without(s[1..], x);
      assert s[0] == x ==> Without(s, x) == Without(s[1..], x);
    }
  }

  /** The items ahead of c are exactly those used since c. */
  lemma {:induction false} FrontIsUsedSince(history: seq<int>, c: int)
    ensures c in history ==> FrontOf(MostRecent(history), c) == UsedSince(history, c)
  {
    if history != [] {
      var h, last := history[..|history|-1], history[|history|-1];
      assert history == h + [last];
      FrontIsUsedSince(h, c);
      if last != c {
        FrontWithout(MostRecent(h), c, last);
        assert Touch(MostRecent(h), last)[1..] == Without(MostRecent(h), last);
      }
    }
  }

  lemma {:induction false} FrontSize(s: seq<int>, c: int) returns (p: nat)
    requires Distinct(s) && c in s
    ensures p < |s| && s[p] == c && p == |FrontOf(s, c)|
    ensures forall x :: x in FrontOf(s, c) ==> x in s
  {
    if s[0] == c {
      p := 0;
    } else {
      p := FrontSize(s[1..], c);
      assert s[0] !in FrontOf(s[1..], c);
      p := p + 1;
    }
  }

  /** The place of c in the list is the number of other items used since c. */
  lemma PlaceIsDistance(history: seq<int>, c: int) returns (p: nat)
    requires c in history
    ensures p < |MostRecent(history)| && MostRecent(history)[p] == c && p == |UsedSince(history, c)|
  {
    MostRecentDistinct(history);
    FrontIsUsedSince(history, c);
    p := FrontSize(MostRecent(history), c);
  }
}
