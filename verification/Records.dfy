/** The last ten expanded records, kept by offset. */
module Records {
  import opened Strings
  import opened RecordFormat

  const WORDDATA_CACHE_NUM := 10

  datatype Request = Request(offset: nat, size: nat)

  datatype CacheItem = Empty | CacheItem(offset: nat, data: Bytes)

  /** A slot of the ring, and what it is filled with. */
  datatype Slot = Unused | Held(request: Request)

  predicate Holds(ring: seq<Slot>, offset: nat) {
    exists j | 0 <= j < |ring| :: ring[j].Held? && ring[j].request.offset == offset
  }

  predicate HoldsOtherSize(ring: seq<Slot>, x: Request) {
    exists j | 0 <= j < |ring| :: ring[j].Held? && ring[j].request.offset == x.offset && ring[j].request.size != x.size
  }

  /** The ring after these requests, the oldest result first. */
  function Ring(history: seq<Request>): (ring: seq<Slot>)
    ensures |ring| == WORDDATA_CACHE_NUM
  {
    if history == [] then seq(WORDDATA_CACHE_NUM, _ => Unused)
    else
      var ring, x := Ring(history[..|history|-1]), history[|history|-1];
      if Holds(ring, x.offset) then ring else ring[1..] + [Held(x)]
  }

  predicate NoneTwice(ring: seq<Slot>) {
    forall j, k | 0 <= j < k < |ring| :: ring[j].Held? && ring[k].Held? ==>
      ring[j].request.offset != ring[k].request.offset
  }

  predicate AskedFor(ring: seq<Slot>, history: seq<Request>) {
    forall j | 0 <= j < |ring| :: ring[j].Held? ==> ring[j].request in history
  }

  /** No offset is held twice, and what is held was asked for. */
  lemma {:induction false} RingDistinct(history: seq<Request>)
    ensures NoneTwice(Ring(history)) && AskedFor(Ring(history), history)
  {
    if history != [] {
      var h, x := history[..|history|-1], history[|history|-1];
      RingDistinct(h);
      var ring := Ring(h);
      assert history == h + [x];
      assert forall r | r in h :: r in history;
      assert AskedFor(ring, history);
      if !Holds(ring, x.offset) {
        assert forall j | 0 <= j < |ring| - 1 :: (ring[1..] + [Held(x)])[j] == ring[j+1];
      }
    }
  }

  // ----- The ring in terms of all results ever made -----

  predicate MadeLately(made: seq<Request>, offset: nat) {
    exists j | 0 <= j < |made| && |made| - 10 <= j :: made[j].offset == offset
  }

  /** The requests a new result was made for, in order: those whose offset was not among the last ten before. */
  function AllMade(history: seq<Request>): seq<Request> {
    if history == [] then []
    else
      var made, x := AllMade(history[..|history|-1]), history[|history|-1];
      if MadeLately(made, x.offset) then made else made + [x]
  }

  ghost predicate IsLastTen(ring: seq<Slot>, made: seq<Request>) {
    |ring| == 10 && forall j | 0 <= j < 10 ::
      ring[j] == if |made| - 10 + j < 0 then Unused else Held(made[|made| - 10 + j])
  }

  lemma LastTenHold(ring: seq<Slot>, made: seq<Request>, offset: nat)
    requires IsLastTen(ring, made)
    ensures Holds(ring, offset) <==> MadeLately(made, offset)
  {
    if Holds(ring, offset) {
      var j :| 0 <= j < |ring| && ring[j].Held? && ring[j].request.offset == offset;
      assert made[|made| - 10 + j].offset == offset;
    }
    if MadeLately(made, offset) {
      var j :| 0 <= j < |made| && |made| - 10 <= j && made[j].offset == offset;
      assert ring[j - |made| + 10] == Held(made[j]);
    }
  }

  /** The ring holds the last ten results made. */
  lemma {:induction false} RingIsLastTen(history: seq<Request>)
    ensures IsLastTen(Ring(history), AllMade(history))
  {
    if history != [] {
      var before, x := history[..|history|-1], history[|history|-1];
      RingIsLastTen(before);
      LastTenHold(Ring(before), AllMade(before), x.offset);
    }
  }

  class DictBase {
    const types: Bytes        // sametypesequence
    const order: Order        // of the bytes of a number on the host
    const file: Bytes
    const cache: array<CacheItem>
    var cacheCur: nat
    ghost var history: seq<Request>

    predicate InFile(x: Request) {
      x.offset + x.size <= |file|
    }

    function Fresh(x: Request): Made<Bytes> {
      if InFile(x) then Expansion(order, types, file[x.offset..x.offset + x.size]) else Overrun
    }

    ghost predicate Matches(item: CacheItem, slot: Slot) {
      match slot
      case Unused => item.Empty?
      case Held(x) => Fresh(x).Made? && item == CacheItem(x.offset, Fresh(x).value)
    }

    /** The place of slot j of the ring. */
    function Place(cur: nat, j: nat): nat {
      if cur + j < WORDDATA_CACHE_NUM then cur + j else cur + j - WORDDATA_CACHE_NUM
    }

    ghost predicate Valid()
      reads this, cache
    {
      && cache.Length == WORDDATA_CACHE_NUM && cacheCur < WORDDATA_CACHE_NUM
      && forall j | 0 <= j < WORDDATA_CACHE_NUM :: Matches(cache[Place(cacheCur, j)], Ring(history)[j])
    }

    constructor (types: Bytes, order: Order, file: Bytes)
      ensures Valid() && this.types == types && this.order == order && this.file == file && history == []
    {
      this.types, this.order, this.file := types, order, file;
      cache := new CacheItem[WORDDATA_CACHE_NUM](_ => Empty);
      cacheCur := 0;
      history := [];
    }

    /** What a request is answered with: the expansion of what is held for its offset, if anything is. */
    ghost function Answer(history: seq<Request>, x: Request): Made<Bytes>
    {
      if Holds(Ring(history), x.offset) then
        var j :| 0 <= j < WORDDATA_CACHE_NUM && Ring(history)[j].Held? && Ring(history)[j].request.offset == x.offset;
        Fresh(Ring(history)[j].request)
      else Fresh(x)
    }

    /** The data of a record, from the ring or else from the file. */
    method GetWordData(x: Request) returns (r: Made<Bytes>)
      requires Valid() && InFile(x)
      modifies `cacheCur, `history, cache
      ensures Valid() && r == Answer(old(history), x)
      ensures history == if r.Made? then old(history) + [x] else old(history)
    {
      hide Ring, Expansion;
      var i := 0;
      while i < WORDDATA_CACHE_NUM
        invariant 0 <= i <= WORDDATA_CACHE_NUM
        invariant forall k | 0 <= k < i :: !(cache[k].CacheItem? && cache[k].offset == x.offset)
      {
        if cache[i].CacheItem? && cache[i].offset == x.offset {
          Hit(x, i);
          NextRing(history, x);
          history := history + [x];
          return Made(cache[i].data);
        }
        i := i + 1;
      }
      NotHeld(x);
      var origin := file[x.offset..x.offset + x.size];
      if types != [] {
        var ok, data := Expand(order, types, origin);
        if !ok {
          return Overrun;
        }
        r := Made(data[..]);
      } else {
        assert Expansion(order, types, origin) == Made(origin) by { Untyped(origin); }
        r := Made(origin);
      }
      Keep(x, r.value);
    }

    /** The newest result takes the place of the oldest. */
    method Keep(x: Request, data: Bytes)
      requires Valid() && InFile(x) && Fresh(x) == Made(data) && !Holds(Ring(history), x.offset)
      modifies `cacheCur, `history, cache
      ensures Valid() && history == old(history) + [x]
    {
      hide Ring, Expansion;
      ghost var was, cur := cache[..], cacheCur;
      cache[cacheCur] := CacheItem(x.offset, data);
      cacheCur := cacheCur + 1;
      if cacheCur == WORDDATA_CACHE_NUM {
        cacheCur := 0;
      }
      NextRing(history, x);
      ghost var ring := Ring(history);
      history := history + [x];
      forall j | 0 <= j < WORDDATA_CACHE_NUM
        ensures Matches(cache[Place(cacheCur, j)], Ring(history)[j])
      {
        if j < WORDDATA_CACHE_NUM - 1 {
          assert Place(cacheCur, j) == Place(cur, j + 1) != cur;
          assert Matches(was[Place(cur, j + 1)], ring[j + 1]);
        }
      }
    }

    lemma NextRing(history: seq<Request>, x: Request)
      ensures Ring(history + [x]) ==
              if Holds(Ring(history), x.offset) then Ring(history) else Ring(history)[1..] + [Held(x)]
    {
      assert (history + [x])[..|history|] == history;
    }

    /** A request is answered with the result made last for its offset if fewer than ten others have been made
        since, and with a fresh one if not. */
    lemma AnsweredBy(history: seq<Request>, x: Request)
      ensures var made := AllMade(history);
              if MadeLately(made, x.offset) then
                exists j | 0 <= j < |made| && |made| - 10 <= j ::
                  made[j].offset == x.offset && Answer(history, x) == Fresh(made[j])
              else Answer(history, x) == Fresh(x)
    {
      var made, ring := AllMade(history), Ring(history);
      RingIsLastTen(history);
      LastTenHold(ring, made, x.offset);
      hide Fresh, AllMade, Ring;
      if MadeLately(made, x.offset) {
        var j :| 0 <= j < WORDDATA_CACHE_NUM && ring[j].Held? && ring[j].request.offset == x.offset
                 && Answer(history, x) == Fresh(ring[j].request);
        assert made[|made| - 10 + j] == ring[j].request;
      }
    }

    lemma Untyped(record: Bytes)
      requires types == []
      ensures Expansion(order, types, record) == Made(record)
    {
    }

    lemma Hit(x: Request, i: nat)
      requires Valid() && InFile(x) && i < WORDDATA_CACHE_NUM && cache[i].CacheItem? && cache[i].offset == x.offset
      ensures Answer(history, x) == Made(cache[i].data) && Holds(Ring(history), x.offset)
    {
      hide Ring, Expansion;
      RingDistinct(history);
      var ring := Ring(history);
      var j := if cacheCur <= i then i - cacheCur else i + WORDDATA_CACHE_NUM - cacheCur;
      assert Place(cacheCur, j) == i && Matches(cache[i], ring[j]);
      assert ring[j].Held? && ring[j].request.offset == x.offset;
      forall k | 0 <= k < WORDDATA_CACHE_NUM && ring[k].Held?
        ensures ring[k].request.offset == x.offset ==> k == j
      {
        assert Matches(cache[Place(cacheCur, k)], ring[k]);
        assert k < j || j < k || j == k;
      }
    }

    lemma NotHeld(x: Request)
      requires Valid() && InFile(x)
      requires forall k | 0 <= k < WORDDATA_CACHE_NUM :: !(cache[k].CacheItem? && cache[k].offset == x.offset)
      ensures !Holds(Ring(history), x.offset)
    {
      hide Ring, Expansion;
      forall j | 0 <= j < WORDDATA_CACHE_NUM && Ring(history)[j].Held?
        ensures Ring(history)[j].request.offset != x.offset
      {
        var p := Place(cacheCur, j);
        assert 0 <= p < WORDDATA_CACHE_NUM && Matches(cache[p], Ring(history)[j]);
        var held := Ring(history)[j].request;
        assert cache[p] == CacheItem(held.offset, Fresh(held).value);
      }
    }

    lemma SizeShows(x: Request)
      requires InFile(x) && Fresh(x).Made?
      ensures |Fresh(x).value| == x.size + if types == [] then 0 else |types| + LastExtra(types)
    {
      var record := file[x.offset..x.offset + x.size];
      if types != [] {
        ExpansionSize(order, types, record);
      }
    }

    /** The answer is fresh exactly if what is held for the offset, if anything, has the size asked for. */
    lemma FreshExactly(x: Request)
      requires Valid() && InFile(x)
      ensures Answer(history, x) == Fresh(x) <==> !HoldsOtherSize(Ring(history), x)
    {
      hide Ring, Expansion;
      RingDistinct(history);
      var ring := Ring(history);
      forall j | 0 <= j < WORDDATA_CACHE_NUM && ring[j].Held? && ring[j].request.offset == x.offset
        ensures Answer(history, x) == Fresh(ring[j].request)
        ensures Fresh(ring[j].request) == Fresh(x) <==> ring[j].request.size == x.size
      {
        var y := ring[j].request;
        assert Matches(cache[Place(cacheCur, j)], ring[j]);
        SizeShows(y);
        if Fresh(x).Made? {
          SizeShows(x);
        }
        assert y.size == x.size ==> y == x;
      }
    }

    /** Two bytes at an offset of which one byte was asked for before: only this byte is answered. */
    lemma OtherSizeAnswered()
      requires types == [] && file == [1, 2]
      ensures Answer([Request(0, 1)], Request(0, 2)) == Made([1])
      ensures Fresh(Request(0, 2)) == Made([1, 2])
    {
      var x := Request(0, 1);
      assert AllMade([x]) == [x] && MadeLately([x], 0);
      AnsweredBy([x], Request(0, 2));
      assert file[0..1] == [1] && file[0..2] == [1, 2];
    }

    /** A fresh result is the stored sections, each with its type and its bounds. */
    lemma FreshIsSent(before: Bytes, pieces: seq<Piece>, after: Bytes)
      requires pieces != [] && forall i | 0 <= i < |pieces| :: |pieces[i].text| < SIZE_LIMIT
      requires forall i | 0 <= i < |pieces| - 1 :: 'A' <= pieces[i].kind as char <= 'Z' || 0 !in pieces[i].text
      requires types == Kinds(pieces) && file == before + Stored(order, pieces) + after
      ensures Fresh(Request(|before|, |Stored(order, pieces)|)) == Made(Sent(order, pieces))
    {
      var record := Stored(order, pieces);
      assert file[|before|..|before| + |record|] == record;
      StoredIsSent(order, pieces);
    }

    /** When every offset is asked for with one size, the ring cannot be noticed. */
    lemma OneSizePerOffset(history: seq<Request>, x: Request)
      requires forall h | h in history && h.offset == x.offset :: h.size == x.size
      ensures Answer(history, x) == Fresh(x)
    {
      hide Ring, Expansion, Fresh;
      RingDistinct(history);
      var ring := Ring(history);
      forall j | 0 <= j < |ring| && ring[j].Held? && ring[j].request.offset == x.offset
        ensures ring[j].request == x
      {
        assert ring[j].request in history;
      }
    }
  }
}
