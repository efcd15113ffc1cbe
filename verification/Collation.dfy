/** Comparing UTF-8 words by the weights of their characters. */
module Collation {
  import opened Integers
  import opened Strings
  import opened Words
  import opened WordList

  // ----- UTF-8 -----

  /** A decoded character and its length, or nothing if the bytes are not those of a character. */
  datatype Decoded = IllFormed | Character(wc: nat, len: nat)

  predicate IsTail(b: Byte) {
    0x80 <= b < 0xc0
  }

  /** my_utf8_uni, for characters of up to three bytes. */
  function Uni(s: Word): (d: Decoded)
    ensures d.Character? ==> 1 <= d.len <= |s|
  {
    if s == [] then IllFormed
    else
      var c := s[0] as nat;
      if c < 0x80 then Character(c, 1)
      else if c < 0xc2 then IllFormed
      else if c < 0xe0 then
        if |s| < 2 || !IsTail(s[1]) then IllFormed
        else Character((c - 0xc0) * 0x40 + (s[1] as nat - 0x80), 2)
      else if c < 0xf0 then
        if |s| < 3 || !(IsTail(s[1]) && IsTail(s[2]) && (c >= 0xe1 || s[1] >= 0xa0)) then IllFormed
        else Character((c - 0xe0) * 0x1000 + (s[1] as nat - 0x80) * 0x40 + (s[2] as nat - 0x80), 3)
      else IllFormed
  }

  predicate WellFormed(s: Word)
    decreases |s|
  {
    s == [] || (Uni(s).Character? && WellFormed(s[Uni(s).len..]))
  }

  /** The bytes of a character (section 2 of RFC 2279). */
  function Utf8(wc: nat): (r: Word)
    requires wc < 0x1_0000
    ensures 1 <= |r| <= 3
  {
    if wc < 0x80 then [wc as Byte]
    else if wc < 0x800 then [(0xc0 + wc / 0x40) as Byte, (0x80 + wc % 0x40) as Byte]
    else [(0xe0 + wc / 0x1000) as Byte, (0x80 + wc / 0x40 % 0x40) as Byte, (0x80 + wc % 0x40) as Byte]
  }

  lemma Sixes(a: nat, b: nat, c: nat)
    requires b < 0x40 && c < 0x40
    ensures var wc := a * 0x1000 + b * 0x40 + c; wc / 0x1000 == a && wc / 0x40 % 0x40 == b && wc % 0x40 == c
  {
    var wc := a * 0x1000 + b * 0x40 + c;
    assert wc / 0x40 == a * 0x40 + b;
  }

  lemma EncodedIsRead(wc: nat, s: Word)
    requires wc < 0x1_0000 && Utf8(wc) <= s
    ensures Uni(s) == Character(wc, |Utf8(wc)|)
  {
    assert forall i | 0 <= i < |Utf8(wc)| :: s[i] == Utf8(wc)[i];
    if wc >= 0x800 {
      assert wc == wc / 0x1000 * 0x1000 + wc / 0x40 % 0x40 * 0x40 + wc % 0x40;
    }
  }

  lemma ReadIsEncoded(s: Word)
    requires Uni(s).Character?
    ensures Uni(s).wc < 0x1_0000 && Utf8(Uni(s).wc) == s[..Uni(s).len]
  {
    var c, wc := s[0] as nat, Uni(s).wc;
    if 0xc2 <= c < 0xe0 {
      Sixes(0, c - 0xc0, s[1] as nat - 0x80);
      assert s[..2] == [s[0], s[1]];
    } else if c >= 0xe0 {
      Sixes(c - 0xe0, s[1] as nat - 0x80, s[2] as nat - 0x80);
      assert wc >= 0x800;
      assert s[..3] == [s[0], s[1], s[2]];
    }
  }

  /** The decoder reads a character exactly where its bytes stand. */
  lemma UniReadsUtf8(wc: nat, s: Word)
    requires wc < 0x1_0000
    ensures Utf8(wc) <= s <==> Uni(s) == Character(wc, |Utf8(wc)|)
  {
    hide Utf8, Uni;
    if Utf8(wc) <= s {
      EncodedIsRead(wc, s);
    } else if Uni(s) == Character(wc, |Utf8(wc)|) {
      ReadIsEncoded(s);
    }
  }

  function Encoded(chars: seq<nat>): Word
    requires forall i | 0 <= i < |chars| :: chars[i] < 0x1_0000
  {
    if chars == [] then [] else Utf8(chars[0]) + Encoded(chars[1..])
  }

  function Chars(s: Word): (r: seq<nat>)
    requires WellFormed(s)
    decreases |s|
  {
    if s == [] then [] else [Uni(s).wc] + Chars(s[Uni(s).len..])
  }

  lemma EncodedPrepend(wc: nat, chars: seq<nat>)
    requires wc < 0x1_0000 && forall i | 0 <= i < |chars| :: chars[i] < 0x1_0000
    ensures forall i | 0 <= i < |[wc] + chars| :: ([wc] + chars)[i] < 0x1_0000
    ensures Encoded([wc] + chars) == Utf8(wc) + Encoded(chars)
  {
    assert ([wc] + chars)[1..] == chars;
  }

  lemma {:induction false} CharsEncode(s: Word)
    requires WellFormed(s)
    ensures (forall i | 0 <= i < |Chars(s)| :: Chars(s)[i] < 0x1_0000) && Encoded(Chars(s)) == s
    decreases |s|
  {
    hide Utf8, Uni;
    if s != [] {
      var d, rest := Uni(s), s[Uni(s).len..];
      ReadIsEncoded(s);
      CharsEncode(rest);
      EncodedPrepend(d.wc, Chars(rest));
      assert s == s[..d.len] + rest;
    }
  }

  lemma {:induction false} EncodedReads(chars: seq<nat>)
    requires forall i | 0 <= i < |chars| :: chars[i] < 0x1_0000
    ensures WellFormed(Encoded(chars)) && Chars(Encoded(chars)) == chars
  {
    if chars != [] {
      EncodedReads(chars[1..]);
      var s := Encoded(chars);
      UniReadsUtf8(chars[0], s);
      assert s[|Utf8(chars[0])|..] == Encoded(chars[1..]);
      assert chars == [chars[0]] + chars[1..];
    }
  }

  // ----- Comparing by weights -----

  type Weight = nat -> nat

  function Coll(weight: Weight, s: Word, t: Word): int
    decreases |s|
  {
    if s == [] || t == [] then |s| - |t|
    else
      var s_res, t_res := Uni(s), Uni(t);
      if s_res.IllFormed? || t_res.IllFormed? then Strcmp(s, t)
      else if weight(s_res.wc) != weight(t_res.wc) then if weight(s_res.wc) > weight(t_res.wc) then 1 else -1
      else Coll(weight, s[s_res.len..], t[t_res.len..])
  }

  method MyStrnncoll(weight: Weight, s0: Word, t0: Word) returns (r: int)
    ensures r == Coll(weight, s0, t0)
  {
    var s, t := s0, t0;
    while s != [] && t != []
      invariant Coll(weight, s, t) == Coll(weight, s0, t0)
      decreases |s|
    {
      var s_res, t_res := Uni(s), Uni(t);
      if s_res.IllFormed? || t_res.IllFormed? {
        return Strcmp(s, t);
      }
      var s_wc, t_wc := weight(s_res.wc), weight(t_res.wc);
      if s_wc != t_wc {
        return if s_wc > t_wc then 1 else -1;
      }
      s, t := s[s_res.len..], t[t_res.len..];
    }
    return |s| - |t|;
  }

  /** stardict_collate: weights first, then the bytes. */
  function StardictCollate(weight: Weight): Comparator {
    (a: Word, b: Word) => if Coll(weight, a, b) == 0 then Strcmp(a, b) else Coll(weight, a, b)
  }

  /** The weights of the characters. */
  function Weights(weight: Weight, s: Word): seq<nat>
    decreases |s|
  {
    if s == [] || Uni(s).IllFormed? then [] else [weight(Uni(s).wc)] + Weights(weight, s[Uni(s).len..])
  }

  lemma {:induction false} CollComparesWeights(weight: Weight, s: Word, t: Word)
    requires WellFormed(s) && WellFormed(t)
    ensures Sign(Coll(weight, s, t)) == Sign(Lex(Weights(weight, s), Weights(weight, t)))
    decreases |s|
  {
    if s != [] && t != [] {
      var s', t' := s[Uni(s).len..], t[Uni(t).len..];
      CollComparesWeights(weight, s', t');
      assert Weights(weight, s)[1..] == Weights(weight, s') && Weights(weight, t)[1..] == Weights(weight, t');
    }
  }

  /** The total order that stardict_collate computes on well-formed words. */
  function ByWeights(weight: Weight): Comparator {
    ByKey(s => Weights(weight, s))
  }

  lemma CollateIsByWeights(weight: Weight, a: Word, b: Word)
    requires WellFormed(a) && WellFormed(b)
    ensures Sign(StardictCollate(weight)(a, b)) == Sign(ByWeights(weight)(a, b))
    ensures StardictCollate(weight)(a, b) == 0 <==> a == b
  {
    CollComparesWeights(weight, a, b);
    StrcmpEqual(a, b);
    LexEqual(Weights(weight, a), Weights(weight, b));
    hide Coll, Weights, Lex, Strcmp, WellFormed;
  }

  lemma ByWeightsIsTotal(weight: Weight)
    ensures TotalOrder(ByWeights(weight))
  {
    ByKeyIsTotal(s => Weights(weight, s));
  }

  lemma CollFirst(weight: Weight, c: nat, x: Word, d: nat, y: Word)
    requires c < 0x1_0000 && d < 0x1_0000
    ensures Coll(weight, Utf8(c) + x, Utf8(d) + y) ==
            if weight(c) > weight(d) then 1 else if weight(c) < weight(d) then -1 else Coll(weight, x, y)
  {
    var s, t := Utf8(c) + x, Utf8(d) + y;
    EncodedIsRead(c, s);
    EncodedIsRead(d, t);
    assert s[|Utf8(c)|..] == x && t[|Utf8(d)|..] == y;
    hide Utf8, Uni, Strcmp;
  }

  predicate AreChars(cs: seq<nat>) {
    forall i | 0 <= i < |cs| :: cs[i] < 0x1_0000
  }

  lemma EncodedFirst(cs: seq<nat>)
    requires AreChars(cs) && cs != []
    ensures cs[0] < 0x1_0000 && AreChars(cs[1..]) && Encoded(cs) == Utf8(cs[0]) + Encoded(cs[1..]) != []
  {
  }

  lemma {:induction false} SameWeights(weight: Weight, cs: seq<nat>, ds: seq<nat>, k: nat)
    requires AreChars(cs) && AreChars(ds) && k <= |cs| && k <= |ds|
    requires forall i | 0 <= i < k :: weight(cs[i]) == weight(ds[i])
    ensures AreChars(cs[k..]) && AreChars(ds[k..])
    ensures Coll(weight, Encoded(cs), Encoded(ds)) == Coll(weight, Encoded(cs[k..]), Encoded(ds[k..]))
    decreases k
  {
    if k == 0 {
      assert cs[0..] == cs && ds[0..] == ds;
    } else {
      hide Coll, Encoded, AreChars;
      EncodedFirst(cs);
      EncodedFirst(ds);
      CollFirst(weight, cs[0], Encoded(cs[1..]), ds[0], Encoded(ds[1..]));
      SameWeights(weight, cs[1..], ds[1..], k - 1);
      assert cs[1..][k-1..] == cs[k..] && ds[1..][k-1..] == ds[k..];
    }
  }

  lemma NoneEncoded()
    ensures Encoded([]) == []
  {
  }

  lemma CollEnds(weight: Weight, s: Word, t: Word)
    ensures s == [] || t == [] ==> Coll(weight, s, t) == |s| - |t|
  {
  }

  /** The words of two texts: the first characters of different weight decide, and a text comes before those that go
      on behind characters of the same weights; only if neither decides, the bytes do. */
  lemma CharactersDecide(weight: Weight, cs: seq<nat>, ds: seq<nat>, k: nat)
    requires AreChars(cs) && AreChars(ds) && k <= |cs| && k <= |ds|
    requires forall i | 0 <= i < k :: weight(cs[i]) == weight(ds[i])
    ensures var r := StardictCollate(weight)(Encoded(cs), Encoded(ds));
            && (k < |cs| && k < |ds| && weight(cs[k]) < weight(ds[k]) ==> r < 0)
            && (k < |cs| && k < |ds| && weight(cs[k]) > weight(ds[k]) ==> r > 0)
            && (k == |cs| < |ds| ==> r < 0)
            && (k == |ds| < |cs| ==> r > 0)
            && (k == |cs| == |ds| ==> r == Strcmp(Encoded(cs), Encoded(ds)))
  {
    hide Utf8, Coll, Encoded, Strcmp;
    SameWeights(weight, cs, ds, k);
    var x, y := cs[k..], ds[k..];
    CollEnds(weight, Encoded(x), Encoded(y));
    NoneEncoded();
    if x != [] {
      EncodedFirst(x);
    }
    if y != [] {
      EncodedFirst(y);
    }
    if x != [] && y != [] {
      CollFirst(weight, x[0], Encoded(x[1..]), y[0], Encoded(y[1..]));
    }
  }

  /** On well-formed words stardict_collate is a total order. */
  lemma CollateIsTotalOnWellFormed(weight: Weight, a: Word, b: Word, c: Word)
    requires WellFormed(a) && WellFormed(b) && WellFormed(c)
    ensures var cmp := StardictCollate(weight);
            && (cmp(a, b) == 0 <==> a == b)
            && (cmp(a, b) < 0 <==> cmp(b, a) > 0)
            && (cmp(a, b) < 0 && cmp(b, c) < 0 ==> cmp(a, c) < 0)
  {
    CollateIsByWeights(weight, a, b);
    CollateIsByWeights(weight, b, a);
    CollateIsByWeights(weight, b, c);
    CollateIsByWeights(weight, a, c);
    ByWeightsIsTotal(weight);
  }

  /** On others it is not: if e acute weighs less than f, as in the table, a stray byte closes a cycle. */
  lemma CollateCycles(weight: Weight)
    requires weight(0xe9) < weight(0x46)
    ensures var cmp := StardictCollate(weight);
            var eAcute, f, stray := [0xc3, 0xa9], [0x46], [0x80];
            WellFormed(eAcute) && WellFormed(f) && !WellFormed(stray)
            && cmp(eAcute, f) < 0 && cmp(f, stray) < 0 && cmp(stray, eAcute) < 0
  {
    assert Uni([0xc3, 0xa9]) == Character(0xe9, 2) && [0xc3, 0xa9][2..] == [];
    assert Uni([0x46]) == Character(0x46, 1) && [0x46][1..] == [];
    assert Uni([0x80]).IllFormed?;
  }

  /** stardict_collate on well-formed words, which are all an index has here; its order extended to the others. */
  function Collating(weight: Weight): Comparator {
    (a: Word, b: Word) =>
      if WellFormed(a) && WellFormed(b) then StardictCollate(weight)(a, b) else ByWeights(weight)(a, b)
  }

  lemma CollationIsTotal(weight: Weight)
    ensures TotalOrder(Collating(weight))
  {
    var cmp, weighed := Collating(weight), ByWeights(weight);
    ByWeightsIsTotal(weight);
    forall a, b
      ensures Sign(cmp(a, b)) == Sign(weighed(a, b))
    {
      if WellFormed(a) && WellFormed(b) {
        CollateIsByWeights(weight, a, b);
      }
    }
    hide ByWeights, Collating;
    SameSigns(weighed, cmp);
  }

  lemma SameSigns(weighed: Comparator, cmp: Comparator)
    requires TotalOrder(weighed) && forall a, b :: Sign(cmp(a, b)) == Sign(weighed(a, b))
    ensures TotalOrder(cmp)
  {
    forall a, b, c | cmp(a, b) < 0 && cmp(b, c) < 0
      ensures cmp(a, c) < 0
    {
      assert Sign(weighed(a, b)) == Sign(weighed(b, c)) == -1;
    }
    forall a, b
      ensures (cmp(a, b) == 0 <==> a == b) && (cmp(a, b) < 0 <==> cmp(b, a) > 0)
    {
      assert Sign(cmp(a, b)) == Sign(weighed(a, b)) && Sign(cmp(b, a)) == Sign(weighed(b, a));
    }
  }
}
