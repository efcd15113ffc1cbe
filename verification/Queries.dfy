/** What kind of lookup a query asks for, and how to ask for a plain one. */
module Queries {
  import opened Strings

  datatype QueryType = QtSimple | QtRegex | QtPattern | QtFuzzy | QtData

  /** The query without its escapes; a backslash at the very end is dropped. */
  function Unescaped(s: Bytes): Bytes {
    if s == [] then []
    else if s[0] == BACKSLASH then if |s| == 1 then [] else [s[1]] + Unescaped(s[2..])
    else [s[0]] + Unescaped(s[1..])
  }

  /** Some wildcard is not escaped. */
  predicate HasWildcard(s: Bytes) {
    s != [] &&
    if s[0] == BACKSLASH then |s| > 1 && HasWildcard(s[2..])
    else s[0] == STAR || s[0] == QUESTION || HasWildcard(s[1..])
  }

  function Analysis(s: Bytes): (QueryType, Bytes) {
    if s == [] then (QtSimple, [])
    else if s[0] == SLASH then (QtFuzzy, s[1..])
    else if s[0] == COLON then (QtRegex, s[1..])
    else if s[0] == BAR then (QtData, s[1..])
    else (if HasWildcard(s) then QtPattern else QtSimple, Unescaped(s))
  }

  method AnalyseQuery(s: Bytes) returns (kind: QueryType, res: Bytes)
    ensures (kind, res) == Analysis(s)
  {
    if s == [] {
      return QtSimple, [];
    }
    if s[0] == SLASH {
      return QtFuzzy, s[1..];
    }
    if s[0] == COLON {
      return QtRegex, s[1..];
    }
    if s[0] == BAR {
      return QtData, s[1..];
    }
    kind, res := AnalysePlain(s);
  }

  /** The loop over a query without a mark in front. */
  method AnalysePlain(s: Bytes) returns (kind: QueryType, res: Bytes)
    ensures kind == (if HasWildcard(s) then QtPattern else QtSimple) && res == Unescaped(s)
  {
    var pattern, p := false, 0;
    res := [];
    WholeQuery(s);
    hide Unescaped, HasWildcard;
    while p < |s|
      invariant 0 <= p <= |s|
      invariant res + Unescaped(s[p..]) == Unescaped(s)
      invariant pattern || HasWildcard(s[p..]) <==> HasWildcard(s)
    {
      NextInQuery(s, p, res);
      if s[p] == BACKSLASH {
        p := p + 1;
        if p == |s| {
          break;
        }
      } else if s[p] == STAR || s[p] == QUESTION {
        pattern := true;
      }
      res := res + [s[p]];
      p := p + 1;
    }
    QueryEnds(s, res);
    kind := if pattern then QtPattern else QtSimple;
  }

  lemma WholeQuery(s: Bytes)
    ensures [] + Unescaped(s[0..]) == Unescaped(s) && (HasWildcard(s[0..]) <==> HasWildcard(s))
  {
    assert s[0..] == s;
  }

  lemma QueryEnds(s: Bytes, res: Bytes)
    ensures res + Unescaped(s[|s|..]) == res && !HasWildcard(s[|s|..])
  {
    assert s[|s|..] == [];
  }

  lemma NextInQuery(s: Bytes, p: nat, res: Bytes)
    requires p < |s|
    ensures s[p] == BACKSLASH && p + 1 == |s| ==>
              Unescaped(s[p..]) == Unescaped(s[p+1..]) && (HasWildcard(s[p..]) <==> HasWildcard(s[p+1..]))
    ensures s[p] == BACKSLASH && p + 1 < |s| ==>
              res + Unescaped(s[p..]) == res + [s[p+1]] + Unescaped(s[p+2..]) &&
                (HasWildcard(s[p..]) <==> HasWildcard(s[p+2..]))
    ensures s[p] != BACKSLASH ==>
              res + Unescaped(s[p..]) == res + [s[p]] + Unescaped(s[p+1..])
              && (HasWildcard(s[p..]) <==> s[p] == STAR || s[p] == QUESTION || HasWildcard(s[p+1..]))
  {
    Suffix(s, p, 1);
    if s[p] != BACKSLASH {
      Regroup(res, [s[p]], Unescaped(s[p+1..]));
    } else if p + 1 < |s| {
      Suffix(s, p, 2);
      Regroup(res, [s[p+1]], Unescaped(s[p+2..]));
    } else {
      assert s[p+1..] == [];
    }
  }

  predicate IsSpecial(c: Byte) {
    c == BACKSLASH || c == STAR || c == QUESTION
  }

  predicate IsPrefixMark(c: Byte) {
    c == SLASH || c == BAR || c == COLON
  }

  function Escaped(s: Bytes): Bytes {
    if s == [] then [] else (if IsSpecial(s[0]) then [BACKSLASH, s[0]] else [s[0]]) + Escaped(s[1..])
  }

  function InputEscape(s: Bytes): Bytes {
    if s != [] && IsPrefixMark(s[0]) then [BACKSLASH, s[0]] + Escaped(s[1..]) else Escaped(s)
  }

  method StardictInputEscape(text: Bytes) returns (res: Bytes)
    ensures res == InputEscape(text)
  {
    res := [];
    var p := 0;
    if text != [] && IsPrefixMark(text[0]) {
      res := [BACKSLASH];
      res := res + [text[0]];
      p := 1;
    }
    EscapeStarts(text);
    hide Escaped, InputEscape, IsSpecial;
    while p < |text|
      invariant 0 <= p <= |text| && res + Escaped(text[p..]) == InputEscape(text)
    {
      ghost var one := if IsSpecial(text[p]) then [BACKSLASH, text[p]] else [text[p]];
      Extend(res, one, text, p);
      if IsSpecial(text[p]) {
        res := res + [BACKSLASH];
        res := res + [text[p]];
      } else {
        res := res + [text[p]];
      }
      p := p + 1;
    }
    EscapeEnds(res, text);
  }

  lemma EscapeStarts(text: Bytes)
    ensures if text != [] && IsPrefixMark(text[0])
            then [BACKSLASH] + [text[0]] + Escaped(text[1..]) == InputEscape(text)
            else [] + Escaped(text[0..]) == InputEscape(text)
  {
    assert text[0..] == text;
    hide Escaped;
    assert [] + Escaped(text) == Escaped(text);
    if text != [] {
      assert [BACKSLASH] + [text[0]] == [BACKSLASH, text[0]];
    }
  }

  lemma EscapeEnds(res: Bytes, text: Bytes)
    ensures res + Escaped(text[|text|..]) == res
  {
    assert text[|text|..] == [];
  }

  lemma Extend(res: Bytes, one: Bytes, text: Bytes, p: nat)
    requires p < |text| && one == if IsSpecial(text[p]) then [BACKSLASH, text[p]] else [text[p]]
    ensures res + Escaped(text[p..]) == (res + one) + Escaped(text[p+1..])
    ensures IsSpecial(text[p]) ==> (res + [BACKSLASH]) + [text[p]] == res + one
  {
    Suffix(text, p, 1);
    assert Escaped(text[p..]) == one + Escaped(text[p+1..]);
    hide Escaped;
    Regroup(res, one, Escaped(text[p+1..]));
  }

  lemma FirstRead(c: Byte, e: Bytes)
    ensures Unescaped([BACKSLASH, c] + e) == [c] + Unescaped(e)
    ensures HasWildcard([BACKSLASH, c] + e) <==> HasWildcard(e)
    ensures !IsSpecial(c) ==> Unescaped([c] + e) == [c] + Unescaped(e)
    ensures !IsSpecial(c) ==> (HasWildcard([c] + e) <==> HasWildcard(e))
  {
    assert ([BACKSLASH, c] + e)[2..] == e && ([c] + e)[1..] == e;
  }

  lemma {:induction false} EscapedReads(s: Bytes)
    ensures Unescaped(Escaped(s)) == s && !HasWildcard(Escaped(s))
  {
    if s != [] {
      EscapedReads(s[1..]);
      FirstRead(s[0], Escaped(s[1..]));
      assert s == [s[0]] + s[1..];
      hide Unescaped, HasWildcard;
    }
  }

  /** An escaped text is a plain query for that text. */
  lemma EscapeIsUndone(s: Bytes)
    ensures Analysis(InputEscape(s)) == (QtSimple, s)
  {
    EscapedReads(s);
    if s != [] && IsPrefixMark(s[0]) {
      EscapedReads(s[1..]);
      assert InputEscape(s)[2..] == Escaped(s[1..]);
    } else if s != [] {
      assert Escaped(s)[0] == if IsSpecial(s[0]) then BACKSLASH else s[0];
    }
  }

  lemma {:induction false} UnescapedShorter(s: Bytes)
    ensures |Unescaped(s)| <= |s|
    ensures BACKSLASH in s ==> |Unescaped(s)| < |s|
    decreases |s|
  {
    if s != [] {
      if s[0] == BACKSLASH {
        if |s| > 1 {
          UnescapedShorter(s[2..]);
        }
      } else {
        UnescapedShorter(s[1..]);
        assert s == [s[0]] + s[1..];
      }
    }
  }

  lemma {:induction false} PlainText(s: Bytes)
    requires BACKSLASH !in s
    ensures HasWildcard(s) <==> STAR in s || QUESTION in s
    ensures !HasWildcard(s) ==> Escaped(s) == s
    ensures Unescaped(s) == s
  {
    if s != [] {
      PlainText(s[1..]);
      assert s == [s[0]] + s[1..];
    }
  }

  lemma {:induction false} EscapedLonger(s: Bytes)
    ensures |Escaped(s)| >= |s| && (Escaped(s) == s ==> forall c | c in s :: !IsSpecial(c))
  {
    if s != [] {
      EscapedLonger(s[1..]);
      assert s == [s[0]] + s[1..];
      assert Escaped(s) == s ==> Escaped(s)[1..] == s[1..];
    }
  }

  /** A text asks for itself, unescaped, exactly when escaping does not change it. */
  lemma EscapeIsNeeded(s: Bytes)
    ensures Analysis(s) == (QtSimple, s) <==> InputEscape(s) == s
  {
    UnescapedShorter(s);
    EscapedLonger(s);
    if BACKSLASH !in s {
      PlainText(s);
    }
    if s != [] && IsPrefixMark(s[0]) {
      EscapedLonger(s[1..]);
    } else if InputEscape(s) == s {
      EscapeIsUndone(s);
    }
  }

  // ----- Queries byte by byte -----

  /** A slash asks for a fuzzy search, a colon for a regular expression, a bar for a search in the records. */
  lemma MarksTellKinds(t: Bytes)
    ensures Analysis([47] + t) == (QtFuzzy, t)
    ensures Analysis([58] + t) == (QtRegex, t)
    ensures Analysis([124] + t) == (QtData, t)
  {
    assert ([47] + t)[1..] == ([58] + t)[1..] == ([124] + t)[1..] == t;
  }

  lemma {:induction false} PlainBefore(x: Bytes, r: Bytes)
    requires 92 !in x
    ensures Unescaped(x + r) == x + Unescaped(r)
    ensures HasWildcard(x + r) <==> 42 in x || 63 in x || HasWildcard(r)
  {
    if x == [] {
      assert x + r == r;
    } else {
      PlainBefore(x[1..], r);
      assert (x + r)[1..] == x[1..] + r;
      FirstAndRest(x);
      hide Unescaped;
      Regroup([x[0]], x[1..], Unescaped(r));
    }
  }

  /** Without a mark in front, an asterisk or a question mark makes the query a pattern. */
  lemma WildcardsTellKinds(s: Bytes)
    requires 92 !in s && (s != [] ==> s[0] != 47 && s[0] != 58 && s[0] != 124)
    ensures Analysis(s) == (if 42 in s || 63 in s then QtPattern else QtSimple, s)
  {
    PlainText(s);
  }

  /** A backslash makes the next byte stand for itself. */
  lemma BackslashQuotes(x: Bytes, c: Byte, y: Bytes)
    requires 92 !in x && 92 !in y && (x != [] ==> x[0] != 47 && x[0] != 58 && x[0] != 124)
    ensures Analysis(x + ([92, c] + y)) ==
            (if 42 in x + y || 63 in x + y then QtPattern else QtSimple, x + ([c] + y))
  {
    PlainBefore(x, [92, c] + y);
    PlainBefore(x, y);
    PlainBefore(y, []);
    assert y + [] == y;
    FirstRead(c, y);
  }
}
