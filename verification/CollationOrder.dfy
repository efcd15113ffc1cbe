/** For which weights stardict_collate orders all words, ill-formed ones among them. */
module CollationOrder {
  import opened Integers
  import opened Strings
  import opened Words
  import opened Collation

  /** Characters between which no ill-formed bytes stand: ASCII, and those that differ in their last byte only. */
  function Block(wc: nat): nat {
    if wc < 0x80 then 0 else wc / 0x40
  }

  /** Every character weighs more than all characters of the blocks before its own. */
  ghost predicate BlocksRise(weight: Weight) {
    forall x: nat, y: nat | x < 0x1_0000 && y < 0x1_0000 && Block(x) < Block(y) :: weight(x) < weight(y)
  }

  // ----- The first three bytes of a word as a number -----

  function ByteAt(s: Word, k: nat): (b: nat)
    ensures b <= 256
  {
    if k < |s| then s[k] as nat + 1 else 0
  }

  function Front(s: Word): nat {
    Number(ByteAt(s, 0), ByteAt(s, 1), ByteAt(s, 2))
  }

  function Number(a: nat, b: nat, c: nat): nat {
    (a * 257 + b) * 257 + c
  }

  lemma NumbersCompare(a: nat, b: nat, c: nat, a': nat, b': nat, c': nat)
    requires b <= 256 && c <= 256 && b' <= 256 && c' <= 256
    ensures Number(a, b, c) < Number(a', b', c') <==> a < a' || (a == a' && (b < b' || (b == b' && c < c')))
  {
  }

  lemma FrontOrders(s: Word, t: Word)
    requires Front(s) < Front(t)
    ensures Strcmp(s, t) < 0 && Strcmp(t, s) > 0
  {
    NumbersCompare(ByteAt(s, 0), ByteAt(s, 1), ByteAt(s, 2), ByteAt(t, 0), ByteAt(t, 1), ByteAt(t, 2));
    var k := if ByteAt(s, 0) < ByteAt(t, 0) then 0 else if ByteAt(s, 1) < ByteAt(t, 1) then 1 else 2;
    DifferenceAt(s, t, k);
  }

  lemma DifferenceAt(s: Word, t: Word, k: nat)
    requires k < 3 && ByteAt(s, k) < ByteAt(t, k) && forall j | 0 <= j < k :: ByteAt(s, j) == ByteAt(t, j)
    ensures Strcmp(s, t) < 0 && Strcmp(t, s) > 0
  {
    forall j | 0 <= j < k
      ensures j < |s| && j < |t| && s[j] == t[j]
    {
      assert ByteAt(s, j) == ByteAt(t, j);
    }
    if k > 0 {
      assert ByteAt(s, k - 1) == ByteAt(t, k - 1) > 0;
    }
    assert Values(s)[..k] == Values(t)[..k];
    LexFirstDifference(Values(s), Values(t), k);
  }

  // ----- Where ill-formed bytes stand among the blocks -----

  /** The last block before ill-formed bytes. */
  function BlockBefore(r: Word): nat
    requires r != [] && Uni(r).IllFormed?
  {
    var c := r[0] as nat;
    if c < 0xc2 then 0
    else if c < 0xe0 then if ByteAt(r, 1) > 0xc0 then c - 0xc0 else c - 0xc1
    else if c < 0xf0 then
      var l := c - 0xe0;
      if ByteAt(r, 1) > 0xc0 then l * 0x40 + 0x3f
      else if ByteAt(r, 1) > 0x80 && (l > 0 || ByteAt(r, 1) > 0xa0) then
        var b := l * 0x40 + (ByteAt(r, 1) - 0x81);
        if ByteAt(r, 2) > 0xc0 then b else b - 1
      else if l == 0 then 0x1f else l * 0x40 - 1
    else 0x3ff
  }

  /** The block of a character from its first bytes. */
  lemma BlockOfFront(s: Word)
    requires Uni(s).Character?
    ensures var c := s[0] as nat;
            Block(Uni(s).wc) == if c < 0x80 then 0
                                else if c < 0xe0 then c - 0xc0
                                else (c - 0xe0) * 0x40 + (s[1] as nat - 0x80)
  {
    var c := s[0] as nat;
    if 0x80 <= c < 0xe0 {
      DivisionUnique(Uni(s).wc, 0x40, c - 0xc0, s[1] as nat - 0x80);
    } else if c >= 0xe0 {
      DivisionUnique(Uni(s).wc, 0x40, (c - 0xe0) * 0x40 + (s[1] as nat - 0x80), s[2] as nat - 0x80);
    }
  }

  /** A character stands before ill-formed bytes exactly if its block does. */
  lemma CharacterAndStray(s: Word, r: Word)
    requires Uni(s).Character? && r != [] && Uni(r).IllFormed?
    ensures if Block(Uni(s).wc) <= BlockBefore(r) then Front(s) < Front(r) else Front(s) > Front(r)
  {
    BlockOfFront(s);
    NumbersCompare(ByteAt(s, 0), ByteAt(s, 1), ByteAt(s, 2), ByteAt(r, 0), ByteAt(r, 1), ByteAt(r, 2));
    NumbersCompare(ByteAt(r, 0), ByteAt(r, 1), ByteAt(r, 2), ByteAt(s, 0), ByteAt(s, 1), ByteAt(s, 2));
    hide Number, Block;
  }

  /** Ill-formed bytes in an earlier place are smaller. */
  lemma StrayAndStray(r: Word, t: Word)
    requires r != [] && Uni(r).IllFormed? && t != [] && Uni(t).IllFormed?
    requires BlockBefore(r) < BlockBefore(t)
    ensures Front(r) < Front(t)
  {
    NumbersCompare(ByteAt(r, 0), ByteAt(r, 1), ByteAt(r, 2), ByteAt(t, 0), ByteAt(t, 1), ByteAt(t, 2));
    hide Number;
  }

  // ----- Rising blocks suffice -----

  /** A key by which words compare: characters at even places by weight, ill-formed bytes at odd places by bytes. */
  function Key(weight: Weight, s: Word): seq<nat>
    decreases |s|
  {
    if s == [] then []
    else if Uni(s).IllFormed? then [2 * BlockBefore(s) + 1] + Values(s)
    else [2 * Block(Uni(s).wc), weight(Uni(s).wc)] + Key(weight, s[Uni(s).len..])
  }

  lemma LexOne(x: nat, a: seq<nat>, y: nat, b: seq<nat>)
    ensures Lex([x] + a, [y] + b) == if x != y then x - y else Lex(a, b)
  {
    assert ([x] + a)[1..] == a && ([y] + b)[1..] == b;
  }

  lemma LexTwo(x: nat, x': nat, a: seq<nat>, y: nat, y': nat, b: seq<nat>)
    ensures Lex([x, x'] + a, [y, y'] + b) == if x != y then x - y else if x' != y' then x' - y' else Lex(a, b)
  {
    assert [x, x'] + a == [x] + ([x'] + a) && [y, y'] + b == [y] + ([y'] + b);
    LexOne(x, [x'] + a, y, [y'] + b);
    LexOne(x', a, y', b);
  }

  lemma {:induction false} CollComparesKeys(weight: Weight, s: Word, t: Word)
    requires BlocksRise(weight)
    ensures Sign(Coll(weight, s, t)) == Sign(Lex(Key(weight, s), Key(weight, t)))
    decreases |s|
  {
    hide Lex, Block, BlockBefore, Front;
    if s == [] || t == [] {
      EmptyKeys(weight, s, t);
    } else if Uni(s).IllFormed? || Uni(t).IllFormed? {
      StraysCompare(weight, s, t);
    } else {
      var x, y := Uni(s), Uni(t);
      ReadIsEncoded(s);
      ReadIsEncoded(t);
      var s', t' := s[x.len..], t[y.len..];
      LexTwo(2 * Block(x.wc), weight(x.wc), Key(weight, s'), 2 * Block(y.wc), weight(y.wc), Key(weight, t'));
      if weight(x.wc) == weight(y.wc) {
        CollComparesKeys(weight, s', t');
      }
      hide Key, Coll;
    }
  }

  lemma EmptyKeys(weight: Weight, s: Word, t: Word)
    requires s == [] || t == []
    ensures Sign(Coll(weight, s, t)) == Sign(Lex(Key(weight, s), Key(weight, t)))
  {
    hide Uni, Block, BlockBefore;
  }

  lemma StraysCompare(weight: Weight, s: Word, t: Word)
    requires s != [] && t != [] && (Uni(s).IllFormed? || Uni(t).IllFormed?)
    ensures Sign(Coll(weight, s, t)) == Sign(Lex(Key(weight, s), Key(weight, t)))
  {
    hide Lex, Uni, Block, BlockBefore, Front;
    assert Coll(weight, s, t) == Strcmp(s, t);
    hide Coll;
    if Uni(s).Character? {
      StrayBehind(weight, s, t);
    } else if Uni(t).Character? {
      StrayBehind(weight, t, s);
      hide Key;
      LexAntisymmetric(Key(weight, s), Key(weight, t));
      LexAntisymmetric(Key(weight, t), Key(weight, s));
      LexAntisymmetric(Values(s), Values(t));
      LexAntisymmetric(Values(t), Values(s));
    } else {
      LexOne(2 * BlockBefore(s) + 1, Values(s), 2 * BlockBefore(t) + 1, Values(t));
      if BlockBefore(s) < BlockBefore(t) {
        StrayAndStray(s, t);
        FrontOrders(s, t);
      } else if BlockBefore(t) < BlockBefore(s) {
        StrayAndStray(t, s);
        FrontOrders(t, s);
      }
    }
  }

  lemma StrayBehind(weight: Weight, s: Word, t: Word)
    requires Uni(s).Character? && t != [] && Uni(t).IllFormed?
    ensures Sign(Strcmp(s, t)) == Sign(Lex(Key(weight, s), Key(weight, t))) != 0
  {
    hide Lex, Uni, Block, BlockBefore, Front, Strcmp;
    CharacterAndStray(s, t);
    var x := Uni(s);
    var more := [weight(x.wc)] + Key(weight, s[x.len..]);
    assert Key(weight, s) == [2 * Block(x.wc)] + more;
    assert Key(weight, t) == [2 * BlockBefore(t) + 1] + Values(t);
    hide Key;
    LexOne(2 * Block(x.wc), more, 2 * BlockBefore(t) + 1, Values(t));
    if Front(s) < Front(t) {
      FrontOrders(s, t);
    } else {
      FrontOrders(t, s);
    }
  }

  lemma RisingIsTotal(weight: Weight)
    requires BlocksRise(weight)
    ensures TotalOrder(StardictCollate(weight))
  {
    var byKey := ByKey(s => Key(weight, s));
    ByKeyIsTotal(s => Key(weight, s));
    forall a, b
      ensures Sign(StardictCollate(weight)(a, b)) == Sign(byKey(a, b))
    {
      CollComparesKeys(weight, a, b);
      hide Coll, Key, Lex, Strcmp;
    }
    hide StardictCollate, BlocksRise;
    SameSigns(byKey, StardictCollate(weight));
  }

  // ----- And they are necessary -----

  /** Ill-formed bytes right behind the block of a character. */
  function Stray(wc: nat): (r: Word)
    requires wc < 0x1_0000
  {
    if wc < 0x80 then [0x80] else if wc < 0x800 then [Utf8(wc)[0], 0xff] else [Utf8(wc)[0], Utf8(wc)[1], 0xff]
  }

  lemma StrayStandsBehind(wc: nat)
    requires wc < 0x1_0000
    ensures Stray(wc) != [] && Uni(Stray(wc)).IllFormed? && BlockBefore(Stray(wc)) == Block(wc)
  {
    EncodedIsRead(wc, Utf8(wc));
    BlockOfFront(Utf8(wc));
    hide Block;
  }

  /** If a character of a later block weighs no more, the order is not transitive. */
  lemma FallingCycles(weight: Weight, x: nat, y: nat)
    requires x < 0x1_0000 && y < 0x1_0000 && Block(x) < Block(y) && weight(x) >= weight(y)
    ensures var cmp := StardictCollate(weight);
            var a, b, c := Utf8(x) + [1], Stray(x), Utf8(y);
            cmp(a, b) < 0 && cmp(b, c) < 0 && cmp(a, c) > 0
  {
    var a, b, c := Utf8(x) + [1], Stray(x), Utf8(y);
    StrayStandsBehind(x);
    EncodedIsRead(x, a);
    EncodedIsRead(y, c);
    hide Uni, Block, BlockBefore, Front, Stray, Utf8;
    CharacterAndStray(a, b);
    CharacterAndStray(c, b);
    FrontOrders(a, b);
    FrontOrders(b, c);
    assert a[|Utf8(x)|..] == [1] && c[|Utf8(y)|..] == [];
    assert Coll(weight, [1], []) == 1;
  }

  /** stardict_collate orders all words, ill-formed ones among them, exactly if the weights rise from block to block. */
  lemma CollateIsTotalExactly(weight: Weight)
    ensures TotalOrder(StardictCollate(weight)) <==> BlocksRise(weight)
  {
    hide StardictCollate, Block, Stray, Utf8;
    if BlocksRise(weight) {
      RisingIsTotal(weight);
    } else {
      var x: nat, y: nat :| x < 0x1_0000 && y < 0x1_0000 && Block(x) < Block(y) && weight(x) >= weight(y);
      FallingCycles(weight, x, y);
      var cmp := StardictCollate(weight);
      var a, b, c := Utf8(x) + [1], Stray(x), Utf8(y);
      assert cmp(a, b) < 0 && cmp(b, c) < 0 && !(cmp(a, c) < 0);
    }
  }
}
