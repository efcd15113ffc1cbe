/** How the client walks through the sections of an expanded record. */
module SectionWalk {
  import opened Strings
  import opened RecordFormat

  /** The sections print_data finds in a data block; of those with an upper-case type it skips the contents. */
  function Walk(data: Bytes): Made<seq<Piece>>
    decreases |data|
  {
    if data == [] then Made([])
    else if IsUpper(data[0]) then
      if |data| < 5 then Overrun
      else
        AddPiece(Piece(data[0], []), Walk(From(data, 1 + (SizeOf(data[1..5]) + 4))))
    else
      var n := NulAt(data[1..]);
      if n == |data| - 1 then Overrun
      else AddPiece(Piece(data[0], data[1..][..n]), Walk(From(data, 1 + (n + 1))))
  }

  function AddPiece(p: Piece, more: Made<seq<Piece>>): Made<seq<Piece>> {
    match more
    case Overrun => Overrun
    case Made(pieces) => Made([p] + pieces)
  }

  function AllPieces(soFar: seq<Piece>, more: Made<seq<Piece>>): Made<seq<Piece>> {
    match more
    case Overrun => Overrun
    case Made(pieces) => Made(soFar + pieces)
  }

  method PrintData(data: Bytes) returns (r: Made<seq<Piece>>)
    ensures r == Walk(data)
  {
    hide SizeOf, Walk;
    var pieces: seq<Piece> := [];
    var p := data;      // from the pointer on
    AllOfNone(Walk(data));
    while p != []
      invariant AllPieces(pieces, Walk(p)) == Walk(data)
      decreases |p|
    {
      NextPiece(pieces, p);
      var kind, text: Bytes, secSize := p[0], [], 0;
      if IsUpper(kind) {
        if |p| < 5 {
          return Overrun;
        }
        secSize := SizeOf(p[1..5]);
        secSize := secSize + 4;
      } else {
        secSize := NulAt(p[1..]);
        if secSize == |p| - 1 {
          return Overrun;
        }
        text := p[1..][..secSize];
        secSize := secSize + 1;
      }
      pieces := pieces + [Piece(kind, text)];
      p := From(p, 1 + secSize);
    }
    NoPieces(pieces);
    return Made(pieces);
  }

  function From(data: Bytes, p: nat): Bytes {
    if p < |data| then data[p..] else []
  }

  lemma AllOfNone(more: Made<seq<Piece>>)
    ensures AllPieces([], more) == more
  {
    if more.Made? {
      assert [] + more.value == more.value;
    }
  }

  lemma NoPieces(soFar: seq<Piece>)
    ensures AllPieces(soFar, Walk([])) == Made(soFar)
  {
    assert soFar + [] == soFar;
  }

  lemma NextPiece(soFar: seq<Piece>, p: Bytes)
    requires p != []
    ensures AllPieces(soFar, Walk(p)) ==
            if IsUpper(p[0]) then
              if |p| < 5 then Overrun
              else AllPieces(soFar + [Piece(p[0], [])], Walk(From(p, 1 + (SizeOf(p[1..5]) + 4))))
            else
              var n := NulAt(p[1..]);
              if n == |p| - 1 then Overrun
              else AllPieces(soFar + [Piece(p[0], p[1..][..n])], Walk(From(p, 1 + (n + 1))))
  {
    hide SizeOf, NulAt;
    if IsUpper(p[0]) {
      if |p| >= 5 {
        AddedBehind(soFar, Piece(p[0], []), Walk(From(p, 1 + (SizeOf(p[1..5]) + 4))));
      }
    } else {
      var n := NulAt(p[1..]);
      if n < |p| - 1 {
        AddedBehind(soFar, Piece(p[0], p[1..][..n]), Walk(From(p, 1 + (n + 1))));
      }
    }
  }

  lemma AddedBehind(soFar: seq<Piece>, p: Piece, more: Made<seq<Piece>>)
    ensures AllPieces(soFar, AddPiece(p, more)) == AllPieces(soFar + [p], more)
  {
    if more.Made? {
      assert soFar + ([p] + more.value) == soFar + [p] + more.value;
    }
  }

  // ----- The client finds what the server put in -----

  /** What the walk shows of a section. */
  function Shown(p: Piece): Piece {
    if IsUpper(p.kind) then Piece(p.kind, []) else p
  }

  function AllShown(pieces: seq<Piece>): (r: seq<Piece>)
    ensures |r| == |pieces|
  {
    if pieces == [] then [] else [Shown(pieces[0])] + AllShown(pieces[1..])
  }

  /** What the client reads as the size of p. */
  function SizeRead(order: Order, p: Piece): nat {
    SizeOf(HostBytes(order, |p.text|))
  }

  /** The client reads the size of p as the server wrote it. */
  predicate SizeAgrees(order: Order, p: Piece) {
    IsUpper(p.kind) ==> SizeRead(order, p) == |p.text|
  }

  /** A section the walk passes as a whole. */
  predicate Walkable(order: Order, p: Piece) {
    SizeAgrees(order, p) && (IsUpper(p.kind) || NUL !in p.text)
  }

  /** A last section the walk ends with: it may also jump beyond its end. */
  predicate Final(order: Order, p: Piece) {
    if IsUpper(p.kind) then SizeRead(order, p) >= |p.text| else NUL !in p.text
  }

  lemma WalkString(p: Piece, rest: Bytes)
    requires !IsUpper(p.kind) && NUL !in p.text
    ensures Walk([p.kind] + (p.text + [NUL]) + rest) == AddPiece(p, Walk(rest))
  {
    var data := [p.kind] + (p.text + [NUL]) + rest;
    NulBehind(p.text, rest);
    assert data[1..] == p.text + [NUL] + rest;
    assert data[1..][..|p.text|] == p.text && From(data, 1 + (|p.text| + 1)) == rest;
  }

  lemma WalkSized(kind: Byte, size: Bytes, text: Bytes, rest: Bytes)
    requires IsUpper(kind) && |size| == 4 && SizeOf(size) == |text|
    ensures Walk([kind] + (size + text) + rest) == AddPiece(Piece(kind, []), Walk(rest))
  {
    hide SizeOf;
    var data := [kind] + (size + text) + rest;
    assert data[1..5] == size;
    assert From(data, 1 + (|text| + 4)) == rest;
  }

  lemma WalkPiece(order: Order, p: Piece, rest: Bytes)
    requires Walkable(order, p)
    ensures Walk([p.kind] + Raw(order, p) + rest) == AddPiece(Shown(p), Walk(rest))
  {
    hide Walk, SizeOf, HostBytes;
    if IsUpper(p.kind) {
      WalkSized(p.kind, HostBytes(order, |p.text|), p.text, rest);
    } else {
      WalkString(p, rest);
    }
  }

  lemma {:induction false} WalkTyped(order: Order, pieces: seq<Piece>, rest: Bytes)
    requires forall i | 0 <= i < |pieces| :: Walkable(order, pieces[i])
    ensures Walk(Typed(order, pieces) + rest) == AllPieces(AllShown(pieces), Walk(rest))
  {
    hide Walk, Raw, Walkable;
    if pieces == [] {
      assert Typed(order, pieces) + rest == rest;
      AllOfNone(Walk(rest));
    } else {
      var p, more := pieces[0], pieces[1..];
      WalkTyped(order, more, rest);
      WalkPiece(order, p, Typed(order, more) + rest);
      assert Typed(order, pieces) == [p.kind] + Raw(order, p) + Typed(order, more);
      assert AllShown(pieces) == [Shown(p)] + AllShown(more);
      hide Typed, AllShown, Shown;
      Regroup([p.kind] + Raw(order, p), Typed(order, more), rest);
      Prepended(Shown(p), AllShown(more), Walk(rest));
    }
  }

  lemma Prepended(p: Piece, more: seq<Piece>, rest: Made<seq<Piece>>)
    ensures AddPiece(p, AllPieces(more, rest)) == AllPieces([p] + more, rest)
  {
    if rest.Made? {
      assert [p] + (more + rest.value) == [p] + more + rest.value;
    }
  }

  // ----- When the walk finds all sections -----

  /** No size before the last is misread, or one that is leads past the end of the data. */
  predicate Decided(order: Order, ps: seq<Piece>, end: nat) {
    forall i | 0 <= i < |ps| - 1 :: SizeAgrees(order, ps[i]) || SizeRead(order, ps[i]) >= end
  }

  predicate HeadsAgree(order: Order, ps: seq<Piece>) {
    forall i | 0 <= i < |ps| - 1 :: SizeAgrees(order, ps[i])
  }

  /** Unless a misread size leads to some other place inside the data, the client's walk finds the sections of the
      record exactly when it reads all sizes before the last section as they were written, and the last section is a
      string without a NUL inside or has a size read as no smaller. */
  lemma WalkFindsSections(order: Order, types: Bytes, record: Bytes)
    requires types != [] && Sections(order, types, record).Made?
    requires Decided(order, Sections(order, types, record).value, |record| + |types| + LastExtra(types))
    ensures var ps := Sections(order, types, record).value;
            Expansion(order, types, record).Made? && ps != [] &&
            (Walk(Expansion(order, types, record).value) == Made(AllShown(ps))
             <==> HeadsAgree(order, ps) && Final(order, ps[|ps|-1]))
  {
    SectionsHaveTypes(order, types, record);
    ExpansionSize(order, types, record);
    var ps := Sections(order, types, record).value;
    hide Sections, Walk, SizeAgrees, SizeRead, Final;
    assert Expansion(order, types, record) == Made(Typed(order, ps));
    WalkEnds(order, ps, |Typed(order, ps)|);
  }

  lemma {:induction false} WalkEnds(order: Order, ps: seq<Piece>, end: nat)
    requires ps != [] && Decided(order, ps, end) && end >= |Typed(order, ps)|
    requires forall i | 0 <= i < |ps| - 1 :: IsUpper(ps[i].kind) || NUL !in ps[i].text
    ensures Walk(Typed(order, ps)) == Made(AllShown(ps)) <==> HeadsAgree(order, ps) && Final(order, ps[|ps|-1])
  {
    hide Walk, SizeAgrees, SizeRead, Final, Shown, Raw, Typed, AllShown, HeadsAgree;
    var p, more := ps[0], ps[1..];
    if |ps| == 1 {
      WalkEndsOne(order, ps);
    } else {
      FirstAndRest(ps);
      TypedPrepend(order, p, more);
      ShownPrepend(p, more);
      HeadsOfRest(order, ps);
      if SizeAgrees(order, p) {
        forall i | 0 <= i < |more| - 1
          ensures SizeAgrees(order, more[i]) || SizeRead(order, more[i]) >= end
          ensures IsUpper(more[i].kind) || NUL !in more[i].text
        {
          assert more[i] == ps[i+1];
        }
        WalkEnds(order, more, end);
        FirstWalked(order, p, more);
      } else {
        OnlyUpperDisagrees(order, p);
        FirstMisled(order, p, more);
      }
    }
  }

  lemma WalkEndsOne(order: Order, ps: seq<Piece>)
    requires |ps| == 1
    ensures HeadsAgree(order, ps)
    ensures Walk(Typed(order, ps)) == Made(AllShown(ps)) <==> Final(order, ps[0])
  {
    hide Walk, Final, Shown, Raw;
    var p := ps[0];
    assert ps == [p] + [];
    TypedPrepend(order, p, []);
    ShownPrepend(p, []);
    assert Typed(order, []) == [] && AllShown([]) == [];
    hide Typed, AllShown;
    assert [p.kind] + Raw(order, p) + [] == [p.kind] + Raw(order, p) && [Shown(p)] + [] == [Shown(p)];
    LastWalked(order, p);
  }

  lemma ShownPrepend(p: Piece, more: seq<Piece>)
    ensures AllShown([p] + more) == [Shown(p)] + AllShown(more)
  {
    assert ([p] + more)[1..] == more;
  }

  lemma OnlyUpperDisagrees(order: Order, p: Piece)
    requires !SizeAgrees(order, p)
    ensures IsUpper(p.kind)
  {
  }

  lemma HeadsOfRest(order: Order, ps: seq<Piece>)
    requires |ps| > 1
    ensures HeadsAgree(order, ps) <==> SizeAgrees(order, ps[0]) && HeadsAgree(order, ps[1..])
  {
    hide SizeAgrees;
    if SizeAgrees(order, ps[0]) && HeadsAgree(order, ps[1..]) {
      forall i | 0 <= i < |ps| - 1
        ensures SizeAgrees(order, ps[i])
      {
        if i > 0 {
          assert ps[i] == ps[1..][i-1];
        }
      }
    }
    if HeadsAgree(order, ps) {
      forall i | 0 <= i < |ps[1..]| - 1
        ensures SizeAgrees(order, ps[1..][i])
      {
        assert ps[1..][i] == ps[i+1];
      }
    }
  }

  lemma FirstWalked(order: Order, p: Piece, more: seq<Piece>)
    requires SizeAgrees(order, p) && (IsUpper(p.kind) || NUL !in p.text)
    ensures Walk([p.kind] + Raw(order, p) + Typed(order, more)) == Made([Shown(p)] + AllShown(more))
            <==> Walk(Typed(order, more)) == Made(AllShown(more))
  {
    WalkPiece(order, p, Typed(order, more));
    hide Walk, Typed, AllShown, Shown, Raw;
    var r := Walk(Typed(order, more));
    if r.Made? && [Shown(p)] + r.value == [Shown(p)] + AllShown(more) {
      assert r.value == ([Shown(p)] + r.value)[1..] == AllShown(more);
    }
  }

  /** A size that leads past the end hides everything behind it. */
  lemma FirstMisled(order: Order, p: Piece, more: seq<Piece>)
    requires more != [] && IsUpper(p.kind) && SizeRead(order, p) >= |[p.kind] + Raw(order, p) + Typed(order, more)|
    ensures Walk([p.kind] + Raw(order, p) + Typed(order, more)) == Made([Piece(p.kind, [])])
    ensures [Shown(p)] + AllShown(more) != [Piece(p.kind, [])]
  {
    hide Walk, SizeOf, HostBytes, Typed;
    WalkMisled(p.kind, HostBytes(order, |p.text|), p.text, Typed(order, more));
    assert |[Shown(p)] + AllShown(more)| > 1;
  }

  lemma LastWalked(order: Order, last: Piece)
    ensures Walk([last.kind] + Raw(order, last)) == Made([Shown(last)]) <==> Final(order, last)
  {
    if IsUpper(last.kind) {
      LastSized(last.kind, HostBytes(order, |last.text|), last.text);
    } else if NUL !in last.text {
      var data := [last.kind] + Raw(order, last);
      WalkPiece(order, last, []);
      NothingWalked();
      hide Walk;
      assert data + [] == data;
      assert [Shown(last)] + [] == [Shown(last)];
    } else {
      CutShort(last);
      Regroup([last.kind], last.text, [NUL]);
    }
  }

  lemma LastSized(kind: Byte, size: Bytes, text: Bytes)
    requires IsUpper(kind) && |size| == 4
    ensures Walk([kind] + (size + text)) == Made([Piece(kind, [])]) <==> SizeOf(size) >= |text|
  {
    hide SizeOf;
    var data := [kind] + (size + text);
    assert data[1..5] == size;
    FirstPiece(data);
    hide Walk;
    var rest := From(data, 1 + (SizeOf(size) + 4));
    NothingWalked();
    assert [Piece(kind, [])] + [] == [Piece(kind, [])];
    if rest != [] {
      SomethingWalked(rest);
    }
  }

  lemma SomethingWalked(data: Bytes)
    requires data != []
    ensures Walk(data).Made? ==> Walk(data).value != []
  {
    hide SizeOf, NulAt;
  }

  lemma CutShort(last: Piece)
    requires !IsUpper(last.kind) && NUL in last.text
    ensures var r := Walk([last.kind] + last.text + [NUL]); r.Made? ==> r.value != [last]
  {
    var data := [last.kind] + last.text + [NUL];
    var rest := last.text + [NUL];
    assert data[1..] == rest;
    var n := NulAt(rest);
    NulAtIsFirst(rest);
    var k :| 0 <= k < |last.text| && last.text[k] == NUL;
    assert rest[k] == NUL && n <= k;
    WalkFirst(data, n);
  }

  lemma WalkFirst(data: Bytes, n: nat)
    requires data != [] && !IsUpper(data[0]) && n == NulAt(data[1..])
    ensures Walk(data).Made? ==> Walk(data).value != [] && |Walk(data).value[0].text| == n
  {
    hide NulAt;
  }

  // ----- The two orders of bytes -----

  lemma {:induction false} TextsWithin(order: Order, ps: seq<Piece>, i: nat)
    requires i < |ps|
    ensures |ps[i].text| < |Typed(order, ps)|
  {
    if i > 0 {
      TextsWithin(order, ps[1..], i - 1);
    }
  }

  /** On a host of network order the client's walk finds the sections exactly when the last one is not a string with a
      NUL inside. */
  lemma WalkOnNetworkOrder(types: Bytes, record: Bytes)
    requires types != [] && Sections(BigEndian, types, record).Made? && |record| + |types| + 4 < SIZE_LIMIT
    ensures var ps := Sections(BigEndian, types, record).value;
            Expansion(BigEndian, types, record).Made? && ps != [] &&
            (Walk(Expansion(BigEndian, types, record).value) == Made(AllShown(ps))
             <==> IsUpper(ps[|ps|-1].kind) || NUL !in ps[|ps|-1].text)
  {
    var ps := Sections(BigEndian, types, record).value;
    SectionsHaveTypes(BigEndian, types, record);
    ExpansionSize(BigEndian, types, record);
    hide Sections, Walk, Typed, SizeRead;
    forall i | 0 <= i < |ps|
      ensures SizeRead(BigEndian, ps[i]) == |ps[i].text|
    {
      TextsWithin(BigEndian, ps, i);
      NetworkSize(ps[i]);
    }
    WalkFindsSections(BigEndian, types, record);
  }

  lemma NetworkSize(p: Piece)
    requires |p.text| < SIZE_LIMIT
    ensures SizeRead(BigEndian, p) == |p.text|
  {
    SizeReads(|p.text|);
  }

  /** On a host of the other order, with records below 64 KiB, it finds them exactly when moreover all upper-case
      sections before the last are empty. In larger records a misread size may lead to some other place inside. */
  lemma WalkOnOtherOrder(types: Bytes, record: Bytes)
    requires types != [] && Sections(LittleEndian, types, record).Made? && |record| + |types| + 4 <= 0x1_0000
    ensures var ps := Sections(LittleEndian, types, record).value;
            Expansion(LittleEndian, types, record).Made? && ps != [] &&
            (Walk(Expansion(LittleEndian, types, record).value) == Made(AllShown(ps))
             <==> (forall i | 0 <= i < |ps| - 1 :: IsUpper(ps[i].kind) ==> ps[i].text == [])
                  && (IsUpper(ps[|ps|-1].kind) || NUL !in ps[|ps|-1].text))
  {
    hide Walk, SizeRead, Expansion, AllShown, IsUpper;
    var ps := Sections(LittleEndian, types, record).value;
    SectionsHaveTypes(LittleEndian, types, record);
    ExpansionSize(LittleEndian, types, record);
    hide Sections, Typed;
    forall i | 0 <= i < |ps|
      ensures if ps[i].text == [] then SizeRead(LittleEndian, ps[i]) == 0 else SizeRead(LittleEndian, ps[i]) >= 0x1_0000
      ensures |ps[i].text| < 0x1_0000
    {
      TextsWithin(LittleEndian, ps, i);
      OtherSize(ps[i]);
    }
    WalkFindsSections(LittleEndian, types, record);
  }

  lemma OtherSize(p: Piece)
    requires |p.text| < 0x1_0000
    ensures if p.text == [] then SizeRead(LittleEndian, p) == 0 else SizeRead(LittleEndian, p) >= 0x1_0000
  {
    hide SizeOf, SizeBytes, HostBytes;
    var n := |p.text|;
    var r, t := SizeBytes(n), HostBytes(LittleEndian, n);
    TurnedBytes(n);
    SizeReads(n);
    SizeValue(r);
    SizeValue(t);
    Swapped(r[0] as nat, r[1] as nat, r[2] as nat, r[3] as nat, n);
  }

  lemma TurnedBytes(n: nat)
    requires n < SIZE_LIMIT
    ensures var r, t := SizeBytes(n), HostBytes(LittleEndian, n);
            t[0] == r[3] && t[1] == r[2] && t[2] == r[1] && t[3] == r[0]
  {
    hide SizeBytes;
  }

  lemma Swapped(a: nat, b: nat, c: nat, d: nat, n: nat)
    requires n == a * 0x100_0000 + b * 0x1_0000 + c * 0x100 + d < 0x1_0000
    ensures if n == 0 then d * 0x100_0000 + c * 0x1_0000 + b * 0x100 + a == 0
            else d * 0x100_0000 + c * 0x1_0000 + b * 0x100 + a >= 0x1_0000
  {
  }

  /** What the client then finds: a first section with some contents hides all others. */
  lemma SizesGoWrong(types: Bytes, record: Bytes)
    requires |types| > 1 && IsUpper(types[0]) && Sections(LittleEndian, types, record).Made?
    requires Sections(LittleEndian, types, record).value[0].text != [] && |record| + |types| + 4 <= 0x1_0000
    ensures Expansion(LittleEndian, types, record).Made?
    ensures Walk(Expansion(LittleEndian, types, record).value) == Made([Piece(types[0], [])])
  {
    var ps := Sections(LittleEndian, types, record).value;
    SectionsHaveTypes(LittleEndian, types, record);
    ExpansionSize(LittleEndian, types, record);
    hide Sections;
    TextsWithin(LittleEndian, ps, 0);
    OtherSize(ps[0]);
    FirstAndRest(ps);
    TypedPrepend(LittleEndian, ps[0], ps[1..]);
    hide Walk, SizeRead, Typed;
    FirstMisled(LittleEndian, ps[0], ps[1..]);
  }

  lemma WalkMisled(kind: Byte, size: Bytes, content: Bytes, rest: Bytes)
    requires IsUpper(kind) && |size| == 4 && SizeOf(size) >= |content| + |rest|
    ensures Walk([kind] + (size + content) + rest) == Made([Piece(kind, [])])
  {
    hide Walk, SizeOf;
    var data := [kind] + (size + content) + rest;
    assert |data| == 5 + |content| + |rest| && data[0] == kind;
    assert data[1..5] == size;
    FirstPiece(data);
    NothingFrom(data, 1 + (SizeOf(size) + 4));
    NothingWalked();
    assert [Piece(kind, [])] + [] == [Piece(kind, [])];
  }

  lemma NothingFrom(data: Bytes, p: nat)
    requires p >= |data|
    ensures From(data, p) == []
  {
  }

  lemma NothingWalked()
    ensures Walk([]) == Made([])
  {
  }

  lemma FirstPiece(data: Bytes)
    requires |data| >= 5 && IsUpper(data[0])
    ensures Walk(data) == AddPiece(Piece(data[0], []), Walk(From(data, 1 + (SizeOf(data[1..5]) + 4))))
  {
    hide SizeOf;
  }
}
