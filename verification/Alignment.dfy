/**
 The optimal string alignment distance: the number of insertions, deletions,
 substitutions and swaps of adjacent characters that turn one text into another,
 where no character is edited twice. `D` is the textbook recursion on prefixes;
 `Source`, `Target` and `Cost` define the same number from edit scripts.
 */
module Alignment {

  type Text = seq<nat>  // Unicode code points

  function Min(a: int, b: int): int {
    if b < a then b else a
  }

  function Min3(a: int, b: int, c: int): int {
    Min(Min(a, b), c)
  }

  predicate Swapped(s: Text, t: Text, i: nat, j: nat)
    requires i <= |s| && j <= |t|
  {
    i >= 2 && j >= 2 && s[i-2] == t[j-1] && s[i-1] == t[j-2]
  }

  /** The distance without the swap rule in its last step. */
  function Levenshtein(s: Text, t: Text, i: nat, j: nat): int
    requires 0 < i <= |s| && 0 < j <= |t|
    decreases i + j, 0
  {
    Min3(D(s, t, i, j-1) + 1, D(s, t, i-1, j) + 1, D(s, t, i-1, j-1) + if s[i-1] == t[j-1] then 0 else 1)
  }

  /** The distance between the prefixes s[..i] and t[..j]. */
  function D(s: Text, t: Text, i: nat, j: nat): int
    requires i <= |s| && j <= |t|
    decreases i + j, 1
  {
    if i == 0 then j
    else if j == 0 then i
    else if Swapped(s, t, i, j) then Min(Levenshtein(s, t, i, j), D(s, t, i-2, j-2) + 1)
    else Levenshtein(s, t, i, j)
  }

  /** One step of the recursion. */
  lemma Unfold(s: Text, t: Text, i: nat, j: nat)
    requires 0 < i <= |s| && 0 < j <= |t|
    ensures D(s, t, i, j) ==
            if Swapped(s, t, i, j) then Min(Levenshtein(s, t, i, j), D(s, t, i-2, j-2) + 1)
            else Levenshtein(s, t, i, j)
    ensures Levenshtein(s, t, i, j)
         == Min3(D(s, t, i, j-1) + 1, D(s, t, i-1, j) + 1, D(s, t, i-1, j-1) + if s[i-1] == t[j-1] then 0 else 1)
  {
    UnfoldD(s, t, i, j);
    hide D;
  }

  lemma UnfoldD(s: Text, t: Text, i: nat, j: nat)
    requires 0 < i <= |s| && 0 < j <= |t|
    ensures D(s, t, i, j) ==
            if Swapped(s, t, i, j) then Min(Levenshtein(s, t, i, j), D(s, t, i-2, j-2) + 1)
            else Levenshtein(s, t, i, j)
  {
    hide Levenshtein;
  }

  lemma Edge(s: Text, t: Text, i: nat, j: nat)
    requires i <= |s| && j <= |t|
    ensures i == 0 ==> D(s, t, i, j) == j
    ensures j == 0 ==> D(s, t, i, j) == i
  {
  }

  function Distance(s: Text, t: Text): int {
    D(s, t, |s|, |t|)
  }

  // ----- The distance is the least cost of an edit script -----

  /** One step from left to right through both texts. */
  datatype Edit = Keep(c: nat) | Substitute(a: nat, b: nat) | Insert(c: nat) | Delete(c: nat) | Swap(a: nat, b: nat)

  /** The characters a step takes from the one text. */
  function Taken(e: Edit): Text {
    match e
    case Keep(c) => [c]
    case Substitute(a, _) => [a]
    case Insert(_) => []
    case Delete(c) => [c]
    case Swap(a, b) => [a, b]
  }

  /** The characters it puts into the other. */
  function Put(e: Edit): Text {
    match e
    case Keep(c) => [c]
    case Substitute(_, b) => [b]
    case Insert(c) => [c]
    case Delete(_) => []
    case Swap(a, b) => [b, a]
  }

  function Source(script: seq<Edit>): Text {
    if script == [] then [] else Source(script[..|script|-1]) + Taken(script[|script|-1])
  }

  function Target(script: seq<Edit>): Text {
    if script == [] then [] else Target(script[..|script|-1]) + Put(script[|script|-1])
  }

  /** Every step but keeping a character costs one. */
  function Cost(script: seq<Edit>): nat {
    if script == [] then 0
    else Cost(script[..|script|-1]) + if script[|script|-1].Keep? then 0 else 1
  }

  lemma Append(script: seq<Edit>, e: Edit)
    ensures Source(script + [e]) == Source(script) + Taken(e)
    ensures Target(script + [e]) == Target(script) + Put(e)
    ensures Cost(script + [e]) == Cost(script) + if e.Keep? then 0 else 1
  {
    assert (script + [e])[..|script + [e]|-1] == script;
  }

  /** The part of a prefix before its last characters. */
  lemma PrefixSplits(s: Text, i: nat, x: Text, y: Text)
    requires i <= |s| && s[..i] == x + y
    ensures |x| + |y| == i && s[..|x|] == x && s[|x|..i] == y
  {
    assert s[..|x|] == s[..i][..|x|] && s[|x|..i] == s[..i][|x|..];
  }

  lemma PrefixGrows(s: Text, i: nat, y: Text)
    requires |y| <= i <= |s| && forall k | 0 <= k < |y| :: s[i-|y|+k] == y[k]
    ensures s[..i] == s[..i-|y|] + y
  {
    assert s[i-|y|..i] == y;
  }

  lemma {:induction false} NoScriptIsCheaper(script: seq<Edit>, s: Text, t: Text, i: nat, j: nat)
    requires i <= |s| && j <= |t|
    requires Source(script) == s[..i] && Target(script) == t[..j]
    ensures Cost(script) >= D(s, t, i, j)
  {
    hide D, Levenshtein, Taken, Put;
    Edge(s, t, i, j);
    if script != [] {
      var rest, e := script[..|script|-1], script[|script|-1];
      LastOf(script);
      hide Cost, Source, Target;
      PrefixSplits(s, i, Source(rest), Taken(e));
      PrefixSplits(t, j, Target(rest), Put(e));
      NoScriptIsCheaper(rest, s, t, i - |Taken(e)|, j - |Put(e)|);
      LastStep(s, t, i, j, e);
    }
  }

  lemma LastOf(script: seq<Edit>)
    requires script != []
    ensures var rest, e := script[..|script|-1], script[|script|-1];
            Source(script) == Source(rest) + Taken(e) && Target(script) == Target(rest) + Put(e)
            && Cost(script) == Cost(rest) + if e.Keep? then 0 else 1
  {
  }

  /** What the last step costs by the recursion. */
  lemma LastStep(s: Text, t: Text, i: nat, j: nat, e: Edit)
    requires |Taken(e)| <= i <= |s| && |Put(e)| <= j <= |t|
    requires s[i - |Taken(e)|..i] == Taken(e) && t[j - |Put(e)|..j] == Put(e)
    ensures D(s, t, i, j) <= D(s, t, i - |Taken(e)|, j - |Put(e)|) + if e.Keep? then 0 else 1
  {
    hide D, Levenshtein;
    Neighbours(s, t, i, j);
    if i > 0 && j > 0 {
      Unfold(s, t, i, j);
      var x, y := s[i - |Taken(e)|..i], t[j - |Put(e)|..j];
      match e
      case Swap(a, b) => assert x[0] == a && x[1] == b && y[0] == b && y[1] == a;
      case Keep(c) => assert x[0] == c && y[0] == c;
      case _ =>
    }
  }

  lemma NoSteps()
    ensures Source([]) == Target([]) == [] && Cost([]) == 0
  {
  }

  lemma {:induction false} SomeScriptCostsD(s: Text, t: Text, i: nat, j: nat) returns (script: seq<Edit>)
    requires i <= |s| && j <= |t|
    ensures Source(script) == s[..i] && Target(script) == t[..j]
    ensures Cost(script) == D(s, t, i, j)
    decreases i + j
  {
    hide D, Levenshtein, Cost, Source, Target;
    Edge(s, t, i, j);
    if i == 0 && j == 0 {
      NoSteps();
      return [];
    }
    if i == 0 {
      Edge(s, t, 0, j - 1);
    } else if j == 0 {
      Edge(s, t, i - 1, 0);
    } else {
      Unfold(s, t, i, j);
    }
    var rest, e;
    if i == 0 || (j > 0 && D(s, t, i, j) == D(s, t, i, j-1) + 1) {
      rest := SomeScriptCostsD(s, t, i, j-1);
      e := Insert(t[j-1]);
    } else if j == 0 || D(s, t, i, j) == D(s, t, i-1, j) + 1 {
      rest := SomeScriptCostsD(s, t, i-1, j);
      e := Delete(s[i-1]);
    } else if Swapped(s, t, i, j) && D(s, t, i, j) == D(s, t, i-2, j-2) + 1 {
      rest := SomeScriptCostsD(s, t, i-2, j-2);
      e := Swap(s[i-2], s[i-1]);
    } else {
      rest := SomeScriptCostsD(s, t, i-1, j-1);
      e := if s[i-1] == t[j-1] then Keep(s[i-1]) else Substitute(s[i-1], t[j-1]);
    }
    script := rest + [e];
    OneMore(rest, e, s, t, i, j);
  }

  lemma OneMore(rest: seq<Edit>, e: Edit, s: Text, t: Text, i: nat, j: nat)
    requires |Taken(e)| <= i <= |s| && |Put(e)| <= j <= |t|
    requires Source(rest) == s[..i - |Taken(e)|] && Target(rest) == t[..j - |Put(e)|]
    requires forall k | 0 <= k < |Taken(e)| :: s[i-|Taken(e)|+k] == Taken(e)[k]
    requires forall k | 0 <= k < |Put(e)| :: t[j-|Put(e)|+k] == Put(e)[k]
    ensures Source(rest + [e]) == s[..i] && Target(rest + [e]) == t[..j]
    ensures Cost(rest + [e]) == Cost(rest) + if e.Keep? then 0 else 1
  {
    hide Source, Target, Cost, Taken, Put;
    Append(rest, e);
    PrefixGrows(s, i, Taken(e));
    PrefixGrows(t, j, Put(e));
  }

  /** The distance is the least cost of all scripts that turn s into t. */
  lemma DistanceIsLeastCost(s: Text, t: Text)
    ensures exists script :: Source(script) == s && Target(script) == t && Cost(script) == Distance(s, t)
    ensures forall script | Source(script) == s && Target(script) == t :: Cost(script) >= Distance(s, t)
  {
    assert s[..|s|] == s && t[..|t|] == t;
    var best := SomeScriptCostsD(s, t, |s|, |t|);
    forall script | Source(script) == s && Target(script) == t
      ensures Cost(script) >= Distance(s, t)
    {
      NoScriptIsCheaper(script, s, t, |s|, |t|);
    }
  }

  // ----- Single edits -----

  lemma {:induction false} Joined(u: seq<Edit>, v: seq<Edit>)
    ensures Source(u + v) == Source(u) + Source(v)
    ensures Target(u + v) == Target(u) + Target(v)
    ensures Cost(u + v) == Cost(u) + Cost(v)
  {
    hide Source, Target, Cost, Taken, Put;
    if v == [] {
      NoSteps();
      assert u + v == u;
    } else {
      var v', e := v[..|v|-1], v[|v|-1];
      Joined(u, v');
      LastOf(v);
      Append(u + v', e);
      assert u + v == (u + v') + [e];
    }
  }

  /** Edits of disjoint parts of the texts add up. */
  lemma PartsAddUp(s: Text, t: Text, s': Text, t': Text)
    ensures Distance(s + s', t + t') <= Distance(s, t) + Distance(s', t')
  {
    DistanceIsLeastCost(s, t);
    DistanceIsLeastCost(s', t');
    DistanceIsLeastCost(s + s', t + t');
    var u :| Source(u) == s && Target(u) == t && Cost(u) == Distance(s, t);
    var v :| Source(v) == s' && Target(v) == t' && Cost(v) == Distance(s', t');
    Joined(u, v);
  }

  lemma {:induction false} FreeIsSame(script: seq<Edit>)
    requires Cost(script) == 0
    ensures Source(script) == Target(script)
  {
    if script != [] {
      FreeIsSame(script[..|script|-1]);
    }
  }

  lemma {:induction false} AllKept(s: Text) returns (script: seq<Edit>)
    ensures Source(script) == Target(script) == s && Cost(script) == 0
  {
    if s == [] {
      return [];
    }
    var rest := AllKept(s[..|s|-1]);
    script := rest + [Keep(s[|s|-1])];
    Append(rest, Keep(s[|s|-1]));
  }

  /** Only equal texts are at distance zero. */
  lemma ZeroIsEqual(s: Text, t: Text)
    ensures Distance(s, t) >= 0
    ensures Distance(s, t) == 0 <==> s == t
  {
    DistanceIsLeastCost(s, t);
    var best :| Source(best) == s && Target(best) == t && Cost(best) == Distance(s, t);
    if Distance(s, t) == 0 {
      FreeIsSame(best);
    }
    if s == t {
      var kept := AllKept(s);
    }
  }

  /** A single edit anywhere in a text: a character put in, taken out or replaced, or two neighbours exchanged. */
  lemma OneEdit(x: Text, y: Text, a: nat, b: nat)
    ensures Distance(x + y, x + [a] + y) == 1
    ensures Distance(x + [a] + y, x + y) == 1
    ensures a != b ==> Distance(x + [a] + y, x + [b] + y) == 1
    ensures a != b ==> Distance(x + [a, b] + y, x + [b, a] + y) == 1
  {
    hide Distance;
    OneStep(x, Insert(a), y);
    assert x + [] + y == x + y;
    OneStep(x, Delete(a), y);
    if a != b {
      assert (x + [a] + y)[|x|] == a && (x + [b] + y)[|x|] == b;
      OneStep(x, Substitute(a, b), y);
      assert (x + [a, b] + y)[|x|] == a && (x + [b, a] + y)[|x|] == b;
      OneStep(x, Swap(a, b), y);
    }
  }

  lemma OneStep(x: Text, e: Edit, y: Text)
    requires !e.Keep?
    ensures var s, t := x + Taken(e) + y, x + Put(e) + y; s != t ==> Distance(s, t) == 1
  {
    var s, t := x + Taken(e) + y, x + Put(e) + y;
    var u := AllKept(x);
    var v := AllKept(y);
    Append(u, e);
    Joined(u + [e], v);
    hide Source, Target, Cost, Taken, Put, Distance;
    DistanceIsLeastCost(s, t);
    ZeroIsEqual(s, t);
  }

  // ----- Bounds and monotonicity -----

  lemma {:induction false} LengthBounds(s: Text, t: Text, i: nat, j: nat)
    requires i <= |s| && j <= |t|
    ensures i - j <= D(s, t, i, j) && j - i <= D(s, t, i, j)
    ensures D(s, t, i, j) <= i + j
    decreases i + j
  {
    hide D, Levenshtein;
    Edge(s, t, i, j);
    if i > 0 && j > 0 {
      Unfold(s, t, i, j);
      LengthBounds(s, t, i-1, j);
      LengthBounds(s, t, i, j-1);
      LengthBounds(s, t, i-1, j-1);
      if Swapped(s, t, i, j) {
        LengthBounds(s, t, i-2, j-2);
      }
    }
  }

  /** One more character costs at most one. */
  lemma Neighbours(s: Text, t: Text, i: nat, j: nat)
    requires i <= |s| && j <= |t|
    ensures i > 0 ==> D(s, t, i, j) <= D(s, t, i-1, j) + 1
    ensures j > 0 ==> D(s, t, i, j) <= D(s, t, i, j-1) + 1
  {
    hide D, Levenshtein;
    if i > 0 && j > 0 {
      Unfold(s, t, i, j);
    } else {
      Edge(s, t, i, j);
      if i > 0 {
        Edge(s, t, i-1, j);
      }
      if j > 0 {
        Edge(s, t, i, j-1);
      }
    }
  }

  /** The distance never falls along a diagonal, and rises by at most one per step. */
  lemma {:induction false} Diagonal(s: Text, t: Text, i: nat, j: nat)
    requires 0 < i <= |s| && 0 < j <= |t|
    ensures D(s, t, i-1, j-1) <= D(s, t, i, j) <= D(s, t, i-1, j-1) + 1
    decreases i + j
  {
    hide D, Levenshtein;
    Unfold(s, t, i, j);
    if i > 1 {
      Diagonal(s, t, i-1, j);
      Neighbours(s, t, i-1, j-1);
    }
    if j > 1 {
      Diagonal(s, t, i, j-1);
      Neighbours(s, t, i-1, j-1);
    }
    if i == 1 || j == 1 {
      LengthBounds(s, t, i, j);
      Edge(s, t, i-1, j-1);
    } else {
      Diagonal(s, t, i-1, j-1);
    }
  }

  lemma {:induction false} DiagonalWalk(s: Text, t: Text, i: nat, j: nat, steps: nat)
    requires i + steps <= |s| && j + steps <= |t|
    ensures D(s, t, i, j) <= D(s, t, i + steps, j + steps)
  {
    if steps > 0 {
      DiagonalWalk(s, t, i, j, steps - 1);
      Diagonal(s, t, i + steps, j + steps);
    }
  }

  /** Lowering a cell that is two above its diagonal predecessor is the swap rule. */
  lemma FixUp(s: Text, t: Text, i: nat, j: nat)
    requires 0 < i <= |s| && 0 < j <= |t|
    ensures D(s, t, i, j) ==
            var v := Levenshtein(s, t, i, j);
            if Swapped(s, t, i, j) && v - D(s, t, i-2, j-2) == 2 then v - 1 else v
  {
    hide D, Levenshtein;
    Unfold(s, t, i, j);
    if Swapped(s, t, i, j) {
      Diagonal(s, t, i-1, j-1);
      Diagonal(s, t, i, j);
    }
  }

  // ----- Stripping and swapping the operands -----

  lemma {:induction false} Symmetric(s: Text, t: Text, i: nat, j: nat)
    requires i <= |s| && j <= |t|
    ensures D(s, t, i, j) == D(t, s, j, i)
    decreases i + j
  {
    hide D, Levenshtein;
    if i > 0 && j > 0 {
      Symmetric(s, t, i-1, j);
      Symmetric(s, t, i, j-1);
      Symmetric(s, t, i-1, j-1);
      Unfold(s, t, i, j);
      Unfold(t, s, j, i);
      if Swapped(s, t, i, j) {
        Symmetric(s, t, i-2, j-2);
      }
    } else {
      Edge(s, t, i, j);
      Edge(t, s, j, i);
    }
  }

  lemma CommonLast(s: Text, t: Text, i: nat, j: nat)
    requires 0 < i <= |s| && 0 < j <= |t| && s[i-1] == t[j-1]
    ensures D(s, t, i, j) == D(s, t, i-1, j-1)
  {
    hide D, Levenshtein;
    Unfold(s, t, i, j);
    Diagonal(s, t, i, j);
  }

  lemma {:induction false} CommonFirstAtEdge(c: nat, s: Text, t: Text, j: nat)
    requires j <= |t|
    ensures D([c] + s, [c] + t, 1, j+1) == j
  {
    hide D, Levenshtein;
    var cs, ct := [c] + s, [c] + t;
    LengthBounds(cs, ct, 1, j+1);
    if j == 0 {
      CommonLast(cs, ct, 1, 1);
      Edge(cs, ct, 0, 0);
    } else {
      CommonFirstAtEdge(c, s, t, j-1);
      Neighbours(cs, ct, 1, j+1);
    }
  }

  /** At an edge the longer texts may allow one more swap, which is never cheaper. */
  lemma SwapAtEdge(c: nat, s: Text, t: Text, i: nat, j: nat)
    requires 0 < i <= |s| && 0 < j <= |t| && (i == 1 || j == 1)
    ensures Levenshtein(s, t, i, j) <= D([c] + s, [c] + t, i-1, j-1) + 1
  {
    hide D, Levenshtein;
    Unfold(s, t, i, j);
    LengthBounds(s, t, i-1, j-1);
    LengthBounds([c] + s, [c] + t, i-1, j-1);
  }

  lemma LevenshteinFromNeighbours(s: Text, t: Text, i: nat, j: nat, s': Text, t': Text, i': nat, j': nat)
    requires 0 < i <= |s| && 0 < j <= |t| && 0 < i' <= |s'| && 0 < j' <= |t'|
    requires s'[i'-1] == s[i-1] && t'[j'-1] == t[j-1]
    requires D(s', t', i', j'-1) == D(s, t, i, j-1)
    requires D(s', t', i'-1, j') == D(s, t, i-1, j)
    requires D(s', t', i'-1, j'-1) == D(s, t, i-1, j-1)
    ensures Levenshtein(s', t', i', j') == Levenshtein(s, t, i, j)
  {
    hide D, Levenshtein;
    Unfold(s, t, i, j);
    Unfold(s', t', i', j');
  }

  lemma CommonFirstStep(c: nat, s: Text, t: Text, i: nat, j: nat)
    requires 0 < i <= |s| && 0 < j <= |t|
    requires Levenshtein([c] + s, [c] + t, i+1, j+1) == Levenshtein(s, t, i, j)
    requires i > 1 && j > 1 ==> D([c] + s, [c] + t, i-1, j-1) == D(s, t, i-2, j-2)
    ensures D([c] + s, [c] + t, i+1, j+1) == D(s, t, i, j)
  {
    hide D, Levenshtein;
    var cs, ct := [c] + s, [c] + t;
    Unfold(s, t, i, j);
    Unfold(cs, ct, i+1, j+1);
    if i == 1 || j == 1 {
      SwapAtEdge(c, s, t, i, j);
    } else {
      assert Swapped(cs, ct, i+1, j+1) == Swapped(s, t, i, j);
    }
  }

  lemma {:induction false} CommonFirst(c: nat, s: Text, t: Text, i: nat, j: nat)
    requires i <= |s| && j <= |t|
    ensures D([c] + s, [c] + t, i+1, j+1) == D(s, t, i, j)
    decreases i + j
  {
    hide D, Levenshtein;
    var cs, ct := [c] + s, [c] + t;
    Edge(s, t, i, j);
    if i == 0 {
      CommonFirstAtEdge(c, s, t, j);
    } else if j == 0 {
      CommonFirstAtEdge(c, t, s, i);
      Symmetric(cs, ct, i+1, 1);
    } else {
      CommonFirst(c, s, t, i-1, j);
      CommonFirst(c, s, t, i, j-1);
      CommonFirst(c, s, t, i-1, j-1);
      assert cs[i] == s[i-1] && ct[j] == t[j-1];
      LevenshteinFromNeighbours(s, t, i, j, cs, ct, i+1, j+1);
      if i > 1 && j > 1 {
        CommonFirst(c, s, t, i-2, j-2);
      }
      CommonFirstStep(c, s, t, i, j);
    }
  }

  lemma PopFirst(s: Text, t: Text)
    requires |s| > 0 && |t| > 0 && s[0] == t[0]
    ensures Distance(s, t) == Distance(s[1..], t[1..])
  {
    assert s == [s[0]] + s[1..] && t == [t[0]] + t[1..];
    CommonFirst(s[0], s[1..], t[1..], |s| - 1, |t| - 1);
  }
}
