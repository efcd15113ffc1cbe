/** Dictionary words, the orders they are compared in, and sorted word lists. */
module Words {

  import opened Strings

  type Word = Bytes  // a C string, without its terminator
  type Comparator = (Word, Word) -> int

  ghost predicate TotalOrder(cmp: Comparator) {
    && (forall a, b :: cmp(a, b) == 0 <==> a == b)
    && (forall a, b :: cmp(a, b) < 0 <==> cmp(b, a) > 0)
    && (forall a, b, c :: cmp(a, b) < 0 && cmp(b, c) < 0 ==> cmp(a, c) < 0)
  }

  ghost predicate Sorted(cmp: Comparator, list: seq<Word>) {
    forall i, j | 0 <= i < j < |list| :: cmp(list[i], list[j]) <= 0
  }

  // ----- Lexicographic comparison -----

  /** The first difference decides, and a proper prefix is smaller. */
  function Lex(a: seq<nat>, b: seq<nat>): int {
    if a == [] then if b == [] then 0 else -1
    else if b == [] then 1
    else if a[0] != b[0] then a[0] - b[0]
    else Lex(a[1..], b[1..])
  }

  lemma {:induction false} LexEqual(a: seq<nat>, b: seq<nat>)
    ensures Lex(a, b) == 0 <==> a == b
  {
    if a != [] && b != [] {
      LexEqual(a[1..], b[1..]);
      assert a == [a[0]] + a[1..] && b == [b[0]] + b[1..];
    }
  }

  lemma {:induction false} LexAntisymmetric(a: seq<nat>, b: seq<nat>)
    ensures Lex(a, b) < 0 <==> Lex(b, a) > 0
  {
    if a != [] && b != [] {
      LexAntisymmetric(a[1..], b[1..]);
    }
  }

  lemma {:induction false} LexTransitive(a: seq<nat>, b: seq<nat>, c: seq<nat>)
    requires Lex(a, b) <= 0 && Lex(b, c) <= 0
    ensures Lex(a, c) <= 0
    ensures Lex(a, b) < 0 || Lex(b, c) < 0 ==> Lex(a, c) < 0
  {
    if a != [] && b != [] && c != [] && a[0] == b[0] == c[0] {
      LexTransitive(a[1..], b[1..], c[1..]);
    }
  }

  function Values(w: Word): (r: seq<nat>)
    ensures |r| == |w| && forall i | 0 <= i < |w| :: r[i] == w[i] as nat
  {
    seq(|w|, i requires 0 <= i < |w| => w[i] as nat)
  }

  function Strcmp(a: Word, b: Word): int {
    Lex(Values(a), Values(b))
  }

  lemma StrcmpEqual(a: Word, b: Word)
    ensures Strcmp(a, b) == 0 <==> a == b
  {
    LexEqual(Values(a), Values(b));
    if Values(a) == Values(b) {
      forall i | 0 <= i < |a|
        ensures a[i] == b[i]
      {
        assert Values(a)[i] == Values(b)[i];
      }
    }
  }

  /** Two words are compared by a key first, and by their bytes if the keys are equal. */
  function ByKey(key: Word -> seq<nat>): Comparator {
    (a: Word, b: Word) => if Lex(key(a), key(b)) == 0 then Strcmp(a, b) else Lex(key(a), key(b))
  }

  lemma ByKeyTransitive(key: Word -> seq<nat>, a: Word, b: Word, c: Word)
    requires ByKey(key)(a, b) < 0 && ByKey(key)(b, c) < 0
    ensures ByKey(key)(a, c) < 0
  {
    LexTransitive(key(a), key(b), key(c));
    LexEqual(key(a), key(b));
    LexEqual(key(b), key(c));
    LexEqual(key(a), key(c));
    if key(a) == key(b) == key(c) {
      LexTransitive(Values(a), Values(b), Values(c));
    }
  }

  /** Whatever the key is, the bytes break all ties. */
  lemma ByKeyIsTotal(key: Word -> seq<nat>)
    ensures TotalOrder(ByKey(key))
  {
    var cmp := ByKey(key);
    forall a, b
      ensures cmp(a, b) == 0 <==> a == b
      ensures cmp(a, b) < 0 <==> cmp(b, a) > 0
    {
      LexEqual(key(a), key(b));
      LexEqual(key(b), key(a));
      StrcmpEqual(a, b);
      LexAntisymmetric(key(a), key(b));
      LexAntisymmetric(key(b), key(a));
      LexAntisymmetric(Values(a), Values(b));
    }
    forall a, b, c | cmp(a, b) < 0 && cmp(b, c) < 0
      ensures cmp(a, c) < 0
    {
      ByKeyTransitive(key, a, b, c);
    }
  }

  function Lower(c: nat): nat {
    if 65 <= c <= 90 then c + 32 else c
  }

  function LowerCase(w: Word): seq<nat> {
    seq(|w|, i requires 0 <= i < |w| => Lower(w[i] as nat))
  }

  /** stardict_strcmp: ASCII letters regardless of case first, then the bytes. */
  function StardictStrcmp(): Comparator {
    ByKey(LowerCase)
  }

  lemma StardictStrcmpIsTotal()
    ensures TotalOrder(StardictStrcmp())
  {
    ByKeyIsTotal(LowerCase);
  }

  lemma {:induction false} LexFirstDifference(a: seq<nat>, b: seq<nat>, k: nat)
    requires k <= |a| && k < |b| && a[..k] == b[..k] && (k == |a| || a[k] < b[k])
    ensures Lex(a, b) < 0 && Lex(b, a) > 0
  {
    if k > 0 {
      assert a[0] == a[..k][0] == b[..k][0] == b[0];
      assert a[1..][..k-1] == a[..k][1..] == b[..k][1..] == b[1..][..k-1];
      LexFirstDifference(a[1..], b[1..], k - 1);
    }
  }

  /** Without ASCII capitals the bytes alone decide. */
  lemma SmallLetters(a: Word, b: Word, k: nat)
    requires (forall c | c in a :: c > 90) && (forall c | c in b :: c > 90)
    requires k <= |a| && k < |b| && a[..k] == b[..k] && (k == |a| || a[k] < b[k])
    ensures StardictStrcmp()(a, b) < 0 && StardictStrcmp()(b, a) > 0
  {
    assert forall i | 0 <= i < |a| :: a[i] in a;
    assert forall i | 0 <= i < |b| :: b[i] in b;
    assert LowerCase(a) == Values(a) && LowerCase(b) == Values(b);
    assert forall i | 0 <= i < k :: a[i] == a[..k][i] == b[..k][i] == b[i];
    LexFirstDifference(Values(a), Values(b), k);
  }

  /** The same byte, or the same ASCII letter in the other case. */
  predicate SameLetter(x: Byte, y: Byte) {
    x == y || (65 <= x <= 90 && y == x + 32) || (65 <= y <= 90 && x == y + 32)
  }

  lemma LowerLetters(x: Byte, y: Byte)
    ensures Lower(x as nat) == Lower(y as nat) <==> SameLetter(x, y)
  {
  }

  lemma SameButCase(a: Word, b: Word, k: nat)
    requires k <= |a| && k <= |b| && forall i | 0 <= i < k :: SameLetter(a[i], b[i])
    ensures LowerCase(a)[..k] == LowerCase(b)[..k]
  {
    forall i | 0 <= i < k
      ensures LowerCase(a)[i] == LowerCase(b)[i]
    {
      LowerLetters(a[i], b[i]);
    }
  }

  /**
   What stardict_strcmp compares first: where two words first differ by more than the case of a letter, capitals count
   as the small letters, which are 32 higher; and a word comes before its continuations.
   */
  lemma LettersDecide(a: Word, b: Word, k: nat)
    requires k <= |a| && k < |b| && (forall i | 0 <= i < k :: SameLetter(a[i], b[i]))
    requires k < |a| ==> (if 65 <= a[k] <= 90 then a[k] as nat + 32 else a[k] as nat)
                         < (if 65 <= b[k] <= 90 then b[k] as nat + 32 else b[k] as nat)
    ensures StardictStrcmp()(a, b) < 0 && StardictStrcmp()(b, a) > 0
  {
    SameButCase(a, b, k);
    LexFirstDifference(LowerCase(a), LowerCase(b), k);
  }

  /** And what it compares if there is no such place: the bytes, the first difference of which decides. */
  lemma CaseDecides(a: Word, b: Word, k: nat)
    requires |a| == |b| && k < |a| && (forall i | 0 <= i < |a| :: SameLetter(a[i], b[i]))
    requires a[..k] == b[..k] && a[k] < b[k]
    ensures StardictStrcmp()(a, b) < 0 && StardictStrcmp()(b, a) > 0
  {
    SameButCase(a, b, |a|);
    assert LowerCase(a) == LowerCase(a)[..|a|] && LowerCase(b) == LowerCase(b)[..|a|];
    LexEqual(LowerCase(a), LowerCase(b));
    LexEqual(LowerCase(b), LowerCase(a));
    assert Lex(LowerCase(a), LowerCase(b)) == 0 && Lex(LowerCase(b), LowerCase(a)) == 0;
    assert forall i | 0 <= i < k :: a[i] == a[..k][i] == b[..k][i] == b[i];
    LexFirstDifference(Values(a), Values(b), k);
    assert Strcmp(a, b) < 0 && Strcmp(b, a) > 0;
  }
}
