/** The bounded distance of distance.cpp, computed in one reusable table. */
module BoundedDistance {
  import opened Integers
  import opened Alignment

  /** A C string: its characters, then the terminator. */
  ghost predicate Terminated(s: seq<nat>) {
    |s| > 0 && s[|s|-1] == 0 && forall i | 0 <= i < |s| - 1 :: s[i] != 0
  }

  function TextOf(s: seq<nat>): Text
    requires |s| > 0
  {
    s[..|s|-1]
  }

  lemma TextOfRest(s: seq<nat>)
    requires |s| > 1
    ensures TextOf(s[1..]) == TextOf(s)[1..]
  {
  }

  lemma RowsApart(j: nat, j': nat, n: nat)
    requires j < j'
    ensures j * n + n <= j' * n == n * j'
  {
    MulMonotone(j + 1, j', n);
    assert (j + 1) * n == j * n + n;
  }

  /** The table slot of column i (prefix of s) and row j (prefix of t), in a table of m rows of n. */
  function Slot(i: nat, j: nat, n: nat, m: nat): (w: nat)
    requires i < n && j < m
    ensures w < n * m
  {
    RowsApart(j, m, n);
    j * n + i
  }

  lemma LastSlot(n: nat, m: nat)
    requires n > 0 && m > 0
    ensures Slot(n - 1, m - 1, n, m) == n * m - 1
  {
    assert (m - 1) * n + n == n * m;
  }

  lemma SlotsDiffer(i: nat, j: nat, i': nat, j': nat, n: nat, m: nat)
    requires i < n && j < m && i' < n && j' < m
    requires i != i' || j != j'
    ensures Slot(i, j, n, m) != Slot(i', j', n, m)
  {
    if j < j' {
      RowsApart(j, j', n);
    } else if j' < j {
      RowsApart(j', j, n);
    }
  }

  lemma SlotApart(i: nat, j: nat, n: nat, m: nat)
    requires i < n && j < m
    ensures forall i', j' {:trigger Slot(i', j', n, m)} ::
      0 <= i' < n && 0 <= j' < m && (i' != i || j' != j) ==> Slot(i', j', n, m) != Slot(i, j, n, m)
  {
    forall i', j' | 0 <= i' < n && 0 <= j' < m && (i' != i || j' != j)
      ensures Slot(i', j', n, m) != Slot(i, j, n, m)
    {
      SlotsDiffer(i', j', i, j, n, m);
    }
  }

  lemma {:induction false} OnlyPrefixesMatter(s: Text, t: Text, s': Text, t': Text, i: nat, j: nat)
    requires i <= |s| && j <= |t| && i <= |s'| && j <= |t'|
    requires forall k | 0 <= k < i :: s[k] == s'[k]
    requires forall k | 0 <= k < j :: t[k] == t'[k]
    ensures D(s, t, i, j) == D(s', t', i, j)
    decreases i + j
  {
    hide D, Levenshtein;
    Edge(s, t, i, j);
    Edge(s', t', i, j);
    if i > 0 && j > 0 {
      OnlyPrefixesMatter(s, t, s', t', i-1, j);
      OnlyPrefixesMatter(s, t, s', t', i, j-1);
      OnlyPrefixesMatter(s, t, s', t', i-1, j-1);
      LevenshteinFromNeighbours(s, t, i, j, s', t', i, j);
      Unfold(s, t, i, j);
      Unfold(s', t', i, j);
      if i > 1 && j > 1 {
        OnlyPrefixesMatter(s, t, s', t', i-2, j-2);
      }
    }
  }

  /** Slot (i, j) of the table holds the distance of the prefixes of length i and j. */
  ghost predicate Holds(d: seq<int>, s: Text, t: Text, n: nat, m: nat, i: nat, j: nat)
    requires n - 1 <= |s| && m - 1 <= |t| && n * m <= |d|
    requires i < n && j < m
  {
    d[Slot(i, j, n, m)] == D(s, t, i, j)
  }

  /** The table as it stands once columns 1..i have been completed. */
  ghost predicate FilledTo(d: seq<int>, s: Text, t: Text, n: nat, m: nat, i: nat)
    requires n - 1 <= |s| && m - 1 <= |t| && n * m <= |d|
    requires n <= m && i < n
  {
    && (forall k | 0 <= k < n && 0 < m :: Holds(d, s, t, n, m, k, 0))
    && (forall j | 0 <= j < m && 0 < n :: Holds(d, s, t, n, m, 0, j))
    && (forall k, j | 0 <= k <= i && 0 <= j <= m - n + i :: Holds(d, s, t, n, m, k, j))
  }

  class EditDistance {
    var d: array?<int>
    var currentelements: nat

    ghost predicate Valid()
      reads this
    {
      d != null ==> d.Length == currentelements
    }

    /** `memory` says whether the allocator had memory. */
    constructor (memory: bool)
      ensures Valid()
      ensures (d != null <==> memory) && currentelements == 2500
      ensures d != null ==> fresh(d)
    {
      currentelements := 2500;
      d := null;
      new;
      if memory {
        d := new int[2500];
      }
    }

    /** Computes one slot from its neighbours, with the swap fix-up. */
    method Relax(table: array<int>, s: Text, t: Text, n: nat, m: nat, i: nat, j: nat)
      requires n - 1 <= |s| && m - 1 <= |t| && n * m <= table.Length
      requires 0 < i < n && 0 < j < m
      requires Holds(table[..], s, t, n, m, i, j-1)
      requires Holds(table[..], s, t, n, m, i-1, j)
      requires Holds(table[..], s, t, n, m, i-1, j-1)
      requires i >= 2 && j >= 2 ==> Holds(table[..], s, t, n, m, i-2, j-2)
      modifies table
      ensures Holds(table[..], s, t, n, m, i, j)
      ensures forall i', j' | 0 <= i' < n && 0 <= j' < m && old(Holds(table[..], s, t, n, m, i', j')) ::
                Holds(table[..], s, t, n, m, i', j')
    {
      SlotApart(i, j, n, m);
      var w := Slot(i, j, n, m);
      var cost := if s[i-1] == t[j-1] then 0 else 1;
      table[w] := Min3(table[Slot(i, j-1, n, m)] + 1,
                       table[Slot(i-1, j, n, m)] + 1,
                       table[Slot(i-1, j-1, n, m)] + cost);
      FixUp(s, t, i, j);
      if i >= 2 && j >= 2 && table[w] - table[Slot(i-2, j-2, n, m)] == 2 && s[i-2] == t[j-1] && s[i-1] == t[j-2] {
        table[w] := table[w] - 1;
      }
    }

    /** An empty prefix is turned into the other one by inserting its characters. */
    method PutBorder(table: array<int>, s: Text, t: Text, n: nat, m: nat, i: nat, j: nat)
      requires n - 1 <= |s| && m - 1 <= |t| && n * m <= table.Length
      requires i < n && j < m && (i == 0 || j == 0)
      modifies table
      ensures Holds(table[..], s, t, n, m, i, j)
      ensures forall i', j' | 0 <= i' < n && 0 <= j' < m && old(Holds(table[..], s, t, n, m, i', j')) ::
                Holds(table[..], s, t, n, m, i', j')
    {
      SlotApart(i, j, n, m);
      table[Slot(i, j, n, m)] := i + j;
    }

    method FillBorders(table: array<int>, s: Text, t: Text, n: nat, m: nat)
      requires 0 < n <= m && n - 1 <= |s| && m - 1 <= |t| && n * m <= table.Length
      modifies table
      ensures FilledTo(table[..], s, t, n, m, 0)
    {
      for k := 0 to n
        invariant forall i | 0 <= i < k :: Holds(table[..], s, t, n, m, i, 0)
      {
        PutBorder(table, s, t, n, m, k, 0);
      }
      for k := 1 to m
        invariant forall i | 0 <= i < n :: Holds(table[..], s, t, n, m, i, 0)
        invariant forall j | 0 <= j < k :: Holds(table[..], s, t, n, m, 0, j)
      {
        PutBorder(table, s, t, n, m, 0, k);
      }
    }

    /** Column i above the layer's corner, then the row through the corner. */
    method FillLayer(table: array<int>, s: Text, t: Text, n: nat, m: nat, i: nat)
      requires 0 < i < n <= m && n - 1 <= |s| && m - 1 <= |t| && n * m <= table.Length
      requires FilledTo(table[..], s, t, n, m, i-1)
      modifies table
      ensures FilledTo(table[..], s, t, n, m, i)
    {
      hide D, Levenshtein, Slot;
      var iLenDif := m - n;
      var j := 1;
      while j < iLenDif + i
        invariant 1 <= j <= iLenDif + i
        invariant FilledTo(table[..], s, t, n, m, i-1)
        invariant forall j' | 0 <= j' < j :: Holds(table[..], s, t, n, m, i, j')
      {
        Relax(table, s, t, n, m, i, j);
        j := j + 1;
      }
      for k := 1 to i + 1
        invariant FilledTo(table[..], s, t, n, m, i-1)
        invariant forall j' | 0 <= j' < j :: Holds(table[..], s, t, n, m, i, j')
        invariant forall k' | 0 <= k' < k :: Holds(table[..], s, t, n, m, k', j)
      {
        Relax(table, s, t, n, m, k, j);
      }
    }

    /** Fills the table in L-shaped layers; layer i ends on the diagonal that leads to the last slot. */
    method Fill(table: array<int>, s: Text, t: Text, n: nat, m: nat, limit: int) returns (r: int)
      requires 0 < n <= m && n - 1 <= |s| && m - 1 <= |t| && n * m <= table.Length
      modifies table
      ensures Min(r, limit) == Min(D(s, t, n-1, m-1), limit)
    {
      hide D, Levenshtein, Slot;
      FillBorders(table, s, t, n, m);
      for i := 1 to n
        invariant FilledTo(table[..], s, t, n, m, i-1)
      {
        FillLayer(table, s, t, n, m, i);
        var j := m - n + i;
        assert Holds(table[..], s, t, n, m, i, j);
        if table[Slot(i, j, n, m)] >= limit {
          DiagonalWalk(s, t, i, j, n - 1 - i);
          return table[Slot(i, j, n, m)];
        }
      }
      assert Holds(table[..], s, t, n, m, n-1, m-1);
      LastSlot(n, m);
      return table[n * m - 1];
    }

    /** Removes the common ends: what is left of s0 is s[..n], what is left of t0 is t[..m]. */
    method Strip(s0: seq<nat>, t0: seq<nat>) returns (s: seq<nat>, t: seq<nat>, n: nat, m: nat)
      requires Terminated(s0) && Terminated(t0)
      ensures n < |s| && m < |t|
      ensures D(s, t, n, m) == Distance(TextOf(s0), TextOf(t0))
      ensures n > 0 && m > 0 ==> s[0] != t[0] && s[n-1] != t[m-1]
    {
      hide D, Levenshtein;
      // Equal first characters cost nothing; what the source points at is the rest of its string.
      s, t := s0, t0;
      while s[0] != 0 && s[0] == t[0]
        invariant Terminated(s) && Terminated(t)
        invariant Distance(TextOf(s), TextOf(t)) == Distance(TextOf(s0), TextOf(t0))
        decreases |s|
      {
        PopFirst(TextOf(s), TextOf(t));
        TextOfRest(s);
        TextOfRest(t);
        s, t := s[1..], t[1..];
      }
      n, m := 0, 0;
      while s[n] != 0
        invariant n <= |s| - 1
        decreases |s| - n
      {
        n := n + 1;
      }
      while t[m] != 0
        invariant m <= |t| - 1
        decreases |t| - m
      {
        m := m + 1;
      }
      OnlyPrefixesMatter(s, t, TextOf(s), TextOf(t), n, m);
      // Nor do equal last characters.
      while n > 0 && m > 0 && s[n-1] == t[m-1]
        invariant n <= |s| - 1 && m <= |t| - 1
        invariant D(s, t, n, m) == Distance(TextOf(s0), TextOf(t0))
        decreases n
      {
        CommonLast(s, t, n, m);
        n, m := n - 1, m - 1;
      }
    }

    /**
     The distance of two C strings, exact below `limit` and at least `limit` otherwise.
     `memory` says whether the allocator can enlarge the table. Without a table the result
     is the sum of the remaining lengths, which is never too small.
     */
    method CalEditDistance(s0: seq<nat>, t0: seq<nat>, limit: int, memory: bool) returns (r: int)
      requires Valid() && Terminated(s0) && Terminated(t0)
      modifies this, d
      ensures Valid()
      ensures old(d) == null ==> d == null
      ensures d == old(d) || d == null || fresh(d)
      ensures old(d) != null && memory ==> d != null
      ensures d != null ==> Min(r, limit) == Min(Distance(TextOf(s0), TextOf(t0)), limit)
      ensures Min(r, limit) >= Min(Distance(TextOf(s0), TextOf(t0)), limit)
    {
      var s, t, n, m := Strip(s0, t0);
      LengthBounds(s, t, n, m);
      if m == 0 || n == 0 || d == null {
        return m + n;
      }
      if m < n {
        Symmetric(s, t, n, m);
        s, t, n, m := t, s, m, n;
      }
      var iLenDif := m - n;
      if iLenDif >= limit {
        return iLenDif;
      }
      n, m := n + 1, m + 1;
      if m * n > currentelements {
        currentelements := m * n * 2;
        if memory {
          d := new int[currentelements];
        } else {
          d := null;
          return m + n;
        }
      }
      r := Fill(d, s, t, n, m, limit);
    }
  }
}
