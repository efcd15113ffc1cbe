/** Records of a dictionary whose section types are left out of the file, and how the server puts them back. */
module RecordFormat {
  import opened Integers
  import opened Strings

  /** A typed section. */
  datatype Piece = Piece(kind: Byte, text: Bytes)

  /** What is made of some bytes, unless a section in them runs past their end. */
  datatype Made<T> = Made(value: T) | Overrun

  predicate IsUpper(c: Byte) {
    65 <= c <= 90
  }

  // ----- Sizes in the order of the host -----

  datatype Order = BigEndian | LittleEndian

  function InOrder(order: Order, r: Bytes): (s: Bytes)
    requires |r| == 4
    ensures |s| == 4
  {
    if order.BigEndian? then r else [r[3], r[2], r[1], r[0]]
  }

  lemma Turned(order: Order, r: Bytes)
    requires |r| == 4
    ensures InOrder(order, InOrder(order, r)) == r
  {
  }

  function HostSize(order: Order, r: Bytes): nat
    requires |r| == 4
  {
    SizeOf(InOrder(order, r))
  }

  /** A number of 32 bits. */
  function Uint32(n: nat): (r: nat)
    ensures r < SIZE_LIMIT && (n < SIZE_LIMIT ==> r == n)
  {
    n % SIZE_LIMIT
  }

  /** A size as four bytes. */
  function HostBytes(order: Order, n: nat): (r: Bytes)
    ensures |r| == 4
  {
    InOrder(order, SizeBytes(Uint32(n)))
  }

  lemma HostPrints(order: Order, r: Bytes)
    requires |r| == 4
    ensures HostSize(order, r) < SIZE_LIMIT && HostBytes(order, HostSize(order, r)) == r
  {
    SizePrints(InOrder(order, r));
    Turned(order, r);
    hide SizeOf, SizeBytes, InOrder, Uint32;
  }

  // ----- Sections -----

  /** strlen: where the first NUL is. */
  function NulAt(s: Bytes): (n: nat)
    ensures n <= |s|
  {
    if s == [] || s[0] == NUL then 0 else 1 + NulAt(s[1..])
  }

  lemma {:induction false} NulAtIsFirst(s: Bytes)
    ensures var n := NulAt(s); (forall k | 0 <= k < n :: s[k] != NUL) && (n < |s| ==> s[n] == NUL)
  {
    if s != [] && s[0] != NUL {
      NulAtIsFirst(s[1..]);
      assert forall k | 0 < k < NulAt(s) :: s[k] == s[1..][k-1];
    }
  }

  /** The first section of a record and the bytes it takes: a string with its NUL, or with an upper-case type a
      size and that many bytes. */
  datatype Cut = Taken(text: Bytes, used: nat) | PastEnd

  function CutSection(order: Order, kind: Byte, record: Bytes): (c: Cut)
    ensures c.Taken? ==> c.used <= |record|
  {
    if IsUpper(kind) then
      if |record| < 4 then PastEnd
      else
        var n := HostSize(order, record[..4]);
        if |record| < 4 + n then PastEnd else Taken(record[4..4 + n], 4 + n)
    else
      var n := NulAt(record);
      if n == |record| then PastEnd else Taken(record[..n], n + 1)
  }

  /** The sections of a record: the last one has no size and no NUL. */
  function Sections(order: Order, types: Bytes, record: Bytes): Made<seq<Piece>>
    requires types != []
    decreases |types|
  {
    if |types| == 1 then Made([Piece(types[0], record)])
    else
      match CutSection(order, types[0], record)
      case PastEnd => Overrun
      case Taken(text, used) =>
        match Sections(order, types[1..], record[used..])
        case Overrun => Overrun
        case Made(more) => Made([Piece(types[0], text)] + more)
  }

  /** The bytes of a section behind its type. */
  function Raw(order: Order, p: Piece): Bytes {
    if IsUpper(p.kind) then HostBytes(order, |p.text|) + p.text else p.text + [NUL]
  }

  function Typed(order: Order, pieces: seq<Piece>): Bytes {
    if pieces == [] then [] else [pieces[0].kind] + Raw(order, pieces[0]) + Typed(order, pieces[1..])
  }

  /** What a record is expanded to. */
  function Expansion(order: Order, types: Bytes, record: Bytes): Made<Bytes> {
    if types == [] then Made(record)
    else
      match Sections(order, types, record)
      case Overrun => Overrun
      case Made(pieces) => Made(Typed(order, pieces))
  }

  lemma CutIsRaw(order: Order, kind: Byte, record: Bytes)
    requires CutSection(order, kind, record).Taken?
    ensures var c := CutSection(order, kind, record); record[..c.used] == Raw(order, Piece(kind, c.text))
    ensures !IsUpper(kind) ==> NUL !in CutSection(order, kind, record).text
  {
    var c := CutSection(order, kind, record);
    if IsUpper(kind) {
      HostPrints(order, record[..4]);
      hide HostSize, HostBytes;
      assert record[..c.used] == record[..4] + c.text;
    } else {
      NulAtIsFirst(record);
      assert record[..c.used] == c.text + [NUL];
    }
  }

  // ----- Expanding a record -----

  method Copy(dst: array<Byte>, at: nat, src: Bytes)
    requires at + |src| <= dst.Length
    modifies dst
    ensures dst[..at] == old(dst[..at]) && dst[at..at + |src|] == src
  {
    for i := 0 to |src|
      invariant dst[..at] == old(dst[..at]) && dst[at..at + i] == src[..i]
    {
      dst[at + i] := src[i];
    }
  }

  /** A type and the bytes behind it. */
  method PutSection(dst: array<Byte>, at: nat, kind: Byte, raw: Bytes) returns (next: nat)
    requires at + 1 + |raw| <= dst.Length
    modifies dst
    ensures next == at + 1 + |raw|
    ensures dst[..next] == old(dst[..at]) + ([kind] + raw)
  {
    dst[at] := kind;
    ghost var before := dst[..at + 1];
    Copy(dst, at + 1, raw);
    next := at + 1 + |raw|;
    assert dst[..next] == dst[..at + 1] + dst[at + 1..next];
    assert dst[..at + 1] == before == old(dst[..at]) + [kind];
  }

  /** How many bytes the section at the front of rest takes. */
  method SectionSize(order: Order, kind: Byte, rest: Bytes) returns (ok: bool, secSize: nat)
    ensures ok <==> CutSection(order, kind, rest).Taken?
    ensures ok ==> secSize == CutSection(order, kind, rest).used
  {
    secSize := 0;
    if IsUpper(kind) {
      if |rest| < 4 {
        return false, 0;
      }
      secSize := HostSize(order, rest[..4]);
      secSize := secSize + 4;
      ok := secSize <= |rest|;
    } else {
      secSize := NulAt(rest);
      ok := secSize < |rest|;
      secSize := secSize + 1;
    }
  }

  /** The room needed beyond the record and one byte for each type. */
  function LastExtra(types: Bytes): nat
    requires types != []
  {
    if IsUpper(types[|types|-1]) then 4 else 1
  }

  /** The record with its types put back. The size reserved is the size written. */
  method Expand(order: Order, types: Bytes, record: Bytes) returns (ok: bool, data: array<Byte>)
    requires types != []
    ensures ok ==> Expansion(order, types, record) == Made(data[..])
    ensures data.Length == |record| + |types| + LastExtra(types)
    ensures !ok ==> Expansion(order, types, record) == Overrun
    ensures fresh(data)
  {
    hide Written, Sections, Expansion, CutSection, HostBytes;
    var dataSize := |record| + |types|;
    var last := types[|types|-1];
    dataSize := dataSize + if IsUpper(last) then 4 else 1;
    data := new Byte[dataSize](_ => 0);
    var p1, p2, i := 0, 0, 0;
    NoneWritten(order, types, record);
    assert data[..0] == [];
    while i < |types| - 1
      invariant 0 <= i < |types| && 0 <= p2 <= |record| && p1 == p2 + i
      invariant data.Length == dataSize && Written(order, types, record, i, p2, data[..p1])
      invariant fresh(data)
    {
      var secSize;
      ok, secSize := SectionSize(order, types[i], record[p2..]);
      OneWritten(order, types, record, i, p2, data[..p1]);
      if !ok {
        return false, data;
      }
      p1 := PutSection(data, p1, types[i], record[p2..p2 + secSize]);
      p2 := p2 + secSize;
      i := i + 1;
    }
    AllWritten(order, types, record, p2, data[..p1]);
    var raw := if IsUpper(last) then HostBytes(order, |record[p2..]|) + record[p2..] else record[p2..] + [NUL];
    p1 := PutSection(data, p1, last, raw);
    assert data[..p1] == data[..];
    ok := true;
  }

  /** With this written, the sections from i on, which start at p2, are still to be written. */
  ghost predicate Written(order: Order, types: Bytes, record: Bytes, i: nat, p2: nat, done: Bytes) {
    i < |types| && p2 <= |record| &&
    StillToWrite(order, Sections(order, types[i..], record[p2..]), Sections(order, types, record), done)
  }

  ghost predicate StillToWrite(order: Order, rest: Made<seq<Piece>>, all: Made<seq<Piece>>, done: Bytes) {
    (rest.Overrun? <==> all.Overrun?) && (all.Made? ==> done + Typed(order, rest.value) == Typed(order, all.value))
  }

  lemma NoneWritten(order: Order, types: Bytes, record: Bytes)
    requires types != []
    ensures Written(order, types, record, 0, 0, [])
  {
    hide Typed, Sections;
    assert types[0..] == types && record[0..] == record;
    var all := Sections(order, types, record);
    if all.Made? {
      assert [] + Typed(order, all.value) == Typed(order, all.value);
    }
  }

  lemma OneWritten(order: Order, types: Bytes, record: Bytes, i: nat, p2: nat, done: Bytes)
    requires Written(order, types, record, i, p2, done) && i < |types| - 1
    ensures var c := CutSection(order, types[i], record[p2..]);
            if c.PastEnd? then Expansion(order, types, record) == Overrun
            else Written(order, types, record, i + 1, p2 + c.used, done + ([types[i]] + record[p2..p2 + c.used]))
  {
    hide Sections, CutSection, Typed, StillToWrite, SectionAhead, Raw;
    var c := CutSection(order, types[i], record[p2..]);
    NextSection(order, types[i..], record[p2..]);
    Suffix(types, i, 1);
    if c.PastEnd? {
      NothingToWrite(order, Sections(order, types[i..], record[p2..]), Sections(order, types, record), done);
    } else {
      CutIsRaw(order, types[i], record[p2..]);
      Suffix(record, p2, c.used);
      WriteOne(order, Piece(types[i], c.text), Sections(order, types[i..], record[p2..]),
               Sections(order, types[i+1..], record[p2 + c.used..]), Sections(order, types, record), done);
    }
  }

  lemma NothingToWrite(order: Order, rest: Made<seq<Piece>>, all: Made<seq<Piece>>, done: Bytes)
    requires StillToWrite(order, rest, all, done) && rest.Overrun?
    ensures all.Overrun?
  {
  }

  lemma WriteOne(order: Order, p: Piece, rest: Made<seq<Piece>>, more: Made<seq<Piece>>, all: Made<seq<Piece>>,
                 done: Bytes)
    requires StillToWrite(order, rest, all, done) && SectionAhead(p, more, rest)
    ensures StillToWrite(order, more, all, done + ([p.kind] + Raw(order, p)))
  {
    if more.Made? {
      TypedPrepend(order, p, more.value);
      hide Typed, Raw;
      Regroup(done, [p.kind] + Raw(order, p), Typed(order, more.value));
    }
  }

  lemma AllWritten(order: Order, types: Bytes, record: Bytes, p2: nat, done: Bytes)
    requires types != [] && Written(order, types, record, |types| - 1, p2, done)
    ensures Expansion(order, types, record) ==
            Made(done + ([types[|types|-1]] + Raw(order, Piece(types[|types|-1], record[p2..]))))
  {
    hide Raw;
    LastSection(order, types[|types|-1..], record[p2..]);
  }

  lemma NextSection(order: Order, types: Bytes, record: Bytes)
    requires |types| > 1
    ensures var c := CutSection(order, types[0], record);
            if c.PastEnd? then Sections(order, types, record) == Overrun
            else SectionAhead(Piece(types[0], c.text), Sections(order, types[1..], record[c.used..]),
                              Sections(order, types, record))
  {
    hide CutSection;
  }

  ghost predicate SectionAhead(p: Piece, more: Made<seq<Piece>>, all: Made<seq<Piece>>) {
    if more.Made? then all == Made([p] + more.value) else all == Overrun
  }

  lemma TypedPrepend(order: Order, p: Piece, more: seq<Piece>)
    ensures Typed(order, [p] + more) == [p.kind] + Raw(order, p) + Typed(order, more)
  {
    hide Raw;
    assert ([p] + more)[1..] == more;
  }

  lemma LastSection(order: Order, types: Bytes, record: Bytes)
    requires |types| == 1
    ensures var p := Piece(types[0], record);
            Sections(order, types, record) == Made([p]) && Typed(order, [p]) == [p.kind] + Raw(order, p)
  {
    hide Raw;
    assert [Piece(types[0], record)][1..] == [];
    assert Typed(order, []) == [];
  }

  /** The sections of a record have the types given, and all strings but the last are free of NUL. */
  lemma {:induction false} SectionsHaveTypes(order: Order, types: Bytes, record: Bytes)
    requires types != [] && Sections(order, types, record).Made?
    ensures var ps := Sections(order, types, record).value;
            |ps| == |types| && (forall i | 0 <= i < |ps| :: ps[i].kind == types[i])
            && (forall i | 0 <= i < |ps| - 1 :: IsUpper(ps[i].kind) || NUL !in ps[i].text)
    decreases |types|
  {
    if |types| > 1 {
      NextSection(order, types, record);
      var c := CutSection(order, types[0], record);
      CutIsRaw(order, types[0], record);
      SectionsHaveTypes(order, types[1..], record[c.used..]);
      hide CutSection, Sections;
    }
  }

  /** An expanded record is longer than the record by its types and what its last section lacked. */
  lemma {:induction false} ExpansionSize(order: Order, types: Bytes, record: Bytes)
    requires types != [] && Sections(order, types, record).Made?
    ensures |Typed(order, Sections(order, types, record).value)| == |record| + |types| + LastExtra(types)
    decreases |types|
  {
    hide HostBytes, HostSize, NulAt, SizeOf;
    if |types| == 1 {
      LastSection(order, types, record);
      hide Sections, Typed;
    } else {
      NextSection(order, types, record);
      var c := CutSection(order, types[0], record);
      CutIsRaw(order, types[0], record);
      ExpansionSize(order, types[1..], record[c.used..]);
      var p, more := Piece(types[0], c.text), Sections(order, types[1..], record[c.used..]).value;
      hide CutSection, Sections, Raw, Typed;
      TypedPrepend(order, p, more);
      assert |Raw(order, p)| == c.used;
      assert LastExtra(types[1..]) == LastExtra(types);
    }
  }

  // ----- When reading runs past the end -----

  function NulCount(s: Bytes): nat {
    if s == [] then 0 else (if s[0] == NUL then 1 else 0) + NulCount(s[1..])
  }

  lemma {:induction false} CountFromFirst(s: Bytes)
    ensures var n := NulAt(s); NulCount(s) == if n == |s| then 0 else 1 + NulCount(s[n+1..])
  {
    if s != [] && s[0] != NUL {
      CountFromFirst(s[1..]);
      var n := NulAt(s[1..]);
      if n < |s[1..]| {
        assert s[1..][n+1..] == s[n+2..];
      }
    }
  }

  /** With strings only, a section runs past the end of the record exactly if there are fewer NULs than separators. */
  lemma {:induction false} OverrunExactly(order: Order, types: Bytes, record: Bytes)
    requires types != [] && forall i | 0 <= i < |types| :: !IsUpper(types[i])
    ensures Sections(order, types, record).Overrun? <==> NulCount(record) < |types| - 1
    decreases |types|
  {
    if |types| > 1 {
      var n := NulAt(record);
      CountFromFirst(record);
      if n < |record| {
        OverrunExactly(order, types[1..], record[n+1..]);
      }
    }
  }

  // ----- Records as a dictionary holds them -----

  /** A size as a host keeps it in memory. */
  function InMemory(order: Order, n: nat): (r: Bytes)
    requires n < SIZE_LIMIT
    ensures |r| == 4
  {
    var bytes := [n % 0x100, n / 0x100 % 0x100, n / 0x1_0000 % 0x100, n / 0x100_0000];
    if order.LittleEndian? then [bytes[0] as Byte, bytes[1] as Byte, bytes[2] as Byte, bytes[3] as Byte]
    else [bytes[3] as Byte, bytes[2] as Byte, bytes[1] as Byte, bytes[0] as Byte]
  }

  /** A section with an upper-case type has its size in front, any other a NUL behind it. */
  function Bounded(order: Order, p: Piece): Bytes
    requires |p.text| < SIZE_LIMIT
  {
    if 'A' <= p.kind as char <= 'Z' then InMemory(order, |p.text|) + p.text else p.text + [0]
  }

  /** The sections of a record as they are stored: without types, and the last one without its bounds. */
  function Stored(order: Order, pieces: seq<Piece>): Bytes
    requires forall i | 0 <= i < |pieces| :: |pieces[i].text| < SIZE_LIMIT
  {
    if pieces == [] then []
    else if |pieces| == 1 then pieces[0].text
    else Bounded(order, pieces[0]) + Stored(order, pieces[1..])
  }

  /** And as they are sent: each with its type and its bounds. */
  function Sent(order: Order, pieces: seq<Piece>): Bytes
    requires forall i | 0 <= i < |pieces| :: |pieces[i].text| < SIZE_LIMIT
  {
    if pieces == [] then [] else [pieces[0].kind] + Bounded(order, pieces[0]) + Sent(order, pieces[1..])
  }

  function Kinds(pieces: seq<Piece>): (r: Bytes)
    ensures |r| == |pieces| && forall i | 0 <= i < |r| :: r[i] == pieces[i].kind
  {
    seq(|pieces|, i requires 0 <= i < |pieces| => pieces[i].kind)
  }

  lemma MemoryIsHost(order: Order, n: nat)
    requires n < SIZE_LIMIT
    ensures InMemory(order, n) == HostBytes(order, n)
  {
    SizeReads(n);
    SizeValue(SizeBytes(n));
    var r := SizeBytes(n);
    FourParts(r[0] as nat, r[1] as nat, r[2] as nat, r[3] as nat, n);
    hide SizeBytes;
  }

  lemma FourParts(a: nat, b: nat, c: nat, d: nat, n: nat)
    requires a < 0x100 && b < 0x100 && c < 0x100 && d < 0x100
    requires n == a * 0x100_0000 + b * 0x1_0000 + c * 0x100 + d
    ensures n % 0x100 == d && n / 0x100 % 0x100 == c && n / 0x1_0000 % 0x100 == b && n / 0x100_0000 == a
  {
    DivisionUnique(n, 0x100, a * 0x1_0000 + b * 0x100 + c, d);
    DivisionUnique(a * 0x1_0000 + b * 0x100 + c, 0x100, a * 0x100 + b, c);
    DivisionUnique(n, 0x1_0000, a * 0x100 + b, c * 0x100 + d);
    DivisionUnique(a * 0x100 + b, 0x100, a, b);
    DivisionUnique(n, 0x100_0000, a, b * 0x1_0000 + c * 0x100 + d);
  }

  lemma BoundedIsRaw(order: Order, p: Piece)
    requires |p.text| < SIZE_LIMIT
    ensures Bounded(order, p) == Raw(order, p)
  {
    MemoryIsHost(order, |p.text|);
    hide InMemory, HostBytes;
  }

  lemma {:induction false} NulBehind(s: Bytes, t: Bytes)
    requires NUL !in s
    ensures NulAt(s + [NUL] + t) == |s|
  {
    if s != [] {
      NulBehind(s[1..], t);
      assert (s + [NUL] + t)[1..] == s[1..] + [NUL] + t;
    }
  }

  lemma CutsOff(order: Order, p: Piece, rest: Bytes)
    requires |p.text| < SIZE_LIMIT && (IsUpper(p.kind) || NUL !in p.text)
    ensures CutSection(order, p.kind, Raw(order, p) + rest) == Taken(p.text, |Raw(order, p)|)
  {
    var record := Raw(order, p) + rest;
    if IsUpper(p.kind) {
      Turned(order, SizeBytes(|p.text|));
      SizeReads(|p.text|);
      assert record[..4] == HostBytes(order, |p.text|) && record[4..4 + |p.text|] == p.text;
    } else {
      NulBehind(p.text, rest);
      assert record[..|p.text|] == p.text;
    }
  }

  lemma {:induction false} SentIsTyped(order: Order, pieces: seq<Piece>)
    requires forall i | 0 <= i < |pieces| :: |pieces[i].text| < SIZE_LIMIT
    ensures Sent(order, pieces) == Typed(order, pieces)
  {
    if pieces != [] {
      BoundedIsRaw(order, pieces[0]);
      hide Bounded, Raw;
      SentIsTyped(order, pieces[1..]);
    }
  }

  lemma {:induction false} StoredIsRead(order: Order, pieces: seq<Piece>)
    requires pieces != [] && forall i | 0 <= i < |pieces| :: |pieces[i].text| < SIZE_LIMIT
    requires forall i | 0 <= i < |pieces| - 1 :: IsUpper(pieces[i].kind) || NUL !in pieces[i].text
    ensures Sections(order, Kinds(pieces), Stored(order, pieces)) == Made(pieces)
  {
    var p, more := pieces[0], pieces[1..];
    var types, record := Kinds(pieces), Stored(order, pieces);
    FirstAndRest(pieces);
    if |pieces| > 1 {
      StoredIsRead(order, more);
      BoundedIsRaw(order, p);
      CutsOff(order, p, Stored(order, more));
      hide Raw, Bounded, CutSection;
      assert types[1..] == Kinds(more) && record[|Raw(order, p)|..] == Stored(order, more);
    } else {
      assert pieces == [Piece(types[0], record)];
    }
  }

  /** The server finds the sections that were stored, and sends each with its type and its bounds. */
  lemma StoredIsSent(order: Order, pieces: seq<Piece>)
    requires pieces != [] && forall i | 0 <= i < |pieces| :: |pieces[i].text| < SIZE_LIMIT
    requires forall i | 0 <= i < |pieces| - 1 :: 'A' <= pieces[i].kind as char <= 'Z' || 0 !in pieces[i].text
    ensures var types, record := Kinds(pieces), Stored(order, pieces);
            && Sections(order, types, record) == Made(pieces)
            && Expansion(order, types, record) == Made(Sent(order, pieces))
  {
    StoredIsRead(order, pieces);
    SentIsTyped(order, pieces);
  }
}
