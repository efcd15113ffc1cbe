/** The replies of the server, as bytes: strings end with a NUL, data blocks start with their size, and every
    list ends with an empty string or block. */
module Wire {
  import opened Strings

  /** A definition block groups the words found by dictionary, and with each word its data blocks. */
  datatype Entry = Entry(word: Bytes, first: Bytes, more: seq<Bytes>)

  datatype Section = Section(name: Bytes, entries: seq<Entry>)

  datatype Definition = Definition(origin: Bytes, sections: seq<Section>)

  datatype Group = Group(name: Bytes, words: seq<Bytes>)

  /** The list that follows a definition block: plain words, or for 'd' the words of each dictionary. */
  datatype WordList = Plain(mark: Bytes, words: seq<Bytes>) | ByDictionary(groups: seq<Group>)

  datatype Reply = Reply(definition: Definition, list: WordList)

  const DATA_MARK: Bytes := [100]     // "d"
  const LIST_MARK: Bytes := [108]     // "l"
  const RULE_MARK: Bytes := [114]     // "r"
  const REGEX_MARK: Bytes := [103]    // "g"
  const FUZZY_MARK: Bytes := [102]    // "f"

  // ----- Printing -----

  function StrBytes(s: Bytes): Bytes {
    s + [NUL]
  }

  predicate IsBlock(d: Bytes) {
    |d| < SIZE_LIMIT
  }

  function DataBytes(d: Bytes): Bytes
    requires IsBlock(d)
  {
    SizeBytes(|d|) + d
  }

  /** What the parser of the client can tell apart. */
  predicate IsName(s: Bytes) {
    s != [] && NUL !in s
  }

  predicate EntryValid(e: Entry) {
    IsName(e.word) && IsBlock(e.first) && BlocksValid(e.more)
  }

  predicate BlocksValid(ds: seq<Bytes>) {
    forall i | 0 <= i < |ds| :: ds[i] != [] && IsBlock(ds[i])
  }

  predicate SectionValid(s: Section) {
    IsName(s.name) && EntriesValid(s.entries)
  }

  predicate EntriesValid(es: seq<Entry>) {
    forall i | 0 <= i < |es| :: EntryValid(es[i])
  }

  predicate SectionsValid(ss: seq<Section>) {
    forall i | 0 <= i < |ss| :: SectionValid(ss[i])
  }

  predicate DefinitionValid(d: Definition) {
    NUL !in d.origin && SectionsValid(d.sections)
  }

  predicate NamesValid(ws: seq<Bytes>) {
    forall i | 0 <= i < |ws| :: IsName(ws[i])
  }

  predicate GroupsValid(gs: seq<Group>) {
    forall i | 0 <= i < |gs| :: IsName(gs[i].name) && NamesValid(gs[i].words)
  }

  predicate ListValid(l: WordList) {
    match l
    case Plain(mark, words) => NUL !in mark && mark != DATA_MARK && NamesValid(words)
    case ByDictionary(groups) => GroupsValid(groups)
  }

  predicate ReplyValid(r: Reply) {
    DefinitionValid(r.definition) && ListValid(r.list)
  }

  /** Printing needs less: that the size of each block fits. */
  predicate EntriesFit(es: seq<Entry>) {
    forall i | 0 <= i < |es| :: IsBlock(es[i].first) && BlocksFit(es[i].more)
  }

  predicate BlocksFit(ds: seq<Bytes>) {
    forall i | 0 <= i < |ds| :: IsBlock(ds[i])
  }

  predicate SectionsFit(ss: seq<Section>) {
    forall i | 0 <= i < |ss| :: EntriesFit(ss[i].entries)
  }

  function BlocksBytes(ds: seq<Bytes>): Bytes
    requires BlocksFit(ds)
  {
    if ds == [] then DataBytes([]) else DataBytes(ds[0]) + BlocksBytes(ds[1..])
  }

  function EntriesBytes(es: seq<Entry>): Bytes
    requires EntriesFit(es)
  {
    if es == [] then StrBytes([])
    else StrBytes(es[0].word) + DataBytes(es[0].first) + BlocksBytes(es[0].more) + EntriesBytes(es[1..])
  }

  function SectionsBytes(ss: seq<Section>): Bytes
    requires SectionsFit(ss)
  {
    if ss == [] then StrBytes([])
    else StrBytes(ss[0].name) + EntriesBytes(ss[0].entries) + SectionsBytes(ss[1..])
  }

  function DefinitionBytes(d: Definition): Bytes
    requires SectionsFit(d.sections)
  {
    StrBytes(d.origin) + SectionsBytes(d.sections)
  }

  function WordsBytes(ws: seq<Bytes>): Bytes {
    if ws == [] then StrBytes([]) else StrBytes(ws[0]) + WordsBytes(ws[1..])
  }

  function GroupsBytes(gs: seq<Group>): Bytes {
    if gs == [] then StrBytes([]) else StrBytes(gs[0].name) + WordsBytes(gs[0].words) + GroupsBytes(gs[1..])
  }

  function ListBytes(l: WordList): Bytes {
    match l
    case Plain(mark, words) => StrBytes(mark) + WordsBytes(words)
    case ByDictionary(groups) => StrBytes(DATA_MARK) + GroupsBytes(groups)
  }

  function ReplyBytes(r: Reply): Bytes
    requires SectionsFit(r.definition.sections)
  {
    DefinitionBytes(r.definition) + ListBytes(r.list)
  }

  // ----- Parsing -----

  /** What a reader gets of the input, and the input that is left. */
  datatype Read<T> = Short | Got(value: T, rest: Bytes)

  function ReadStr(input: Bytes): (r: Read<Bytes>)
    ensures r.Got? ==> input == StrBytes(r.value) + r.rest && NUL !in r.value
  {
    if input == [] then Short
    else if input[0] == NUL then Got([], input[1..])
    else
      match ReadStr(input[1..])
      case Short => Short
      case Got(s, rest) => Got([input[0]] + s, rest)
  }

  lemma ThreeParts(input: Bytes, size: nat)
    requires 4 + size <= |input|
    ensures input == input[..4] + input[4..4+size] + input[4+size..]
  {
  }

  function ReadData(input: Bytes): (r: Read<Bytes>)
    ensures r.Got? ==> IsBlock(r.value) && input == DataBytes(r.value) + r.rest
  {
    if |input| < 4 then Short
    else
      SizePrints(input[..4]);
      var size := SizeOf(input[..4]);
      if |input| < 4 + size then Short
      else
        ThreeParts(input, size);
        Got(input[4..4+size], input[4+size..])
  }

  function ReadBlocks(input: Bytes): (r: Read<seq<Bytes>>)
    ensures r.Got? ==> |r.rest| < |input|
    decreases |input|
  {
    match ReadData(input)
    case Short => Short
    case Got(d, rest) =>
      if d == [] then Got([], rest)
      else
        match ReadBlocks(rest)
        case Short => Short
        case Got(ds, rest') => Got([d] + ds, rest')
  }

  function ReadEntries(input: Bytes): (r: Read<seq<Entry>>)
    ensures r.Got? ==> |r.rest| < |input|
    decreases |input|
  {
    match ReadStr(input)
    case Short => Short
    case Got(word, rest) =>
      if word == [] then Got([], rest)
      else
        match ReadData(rest)
        case Short => Short
        case Got(first, rest1) =>
          match ReadBlocks(rest1)
          case Short => Short
          case Got(more, rest2) =>
            match ReadEntries(rest2)
            case Short => Short
            case Got(es, rest3) => Got([Entry(word, first, more)] + es, rest3)
  }

  function ReadSections(input: Bytes): (r: Read<seq<Section>>)
    ensures r.Got? ==> |r.rest| < |input|
    decreases |input|
  {
    match ReadStr(input)
    case Short => Short
    case Got(name, rest) =>
      if name == [] then Got([], rest)
      else
        match ReadEntries(rest)
        case Short => Short
        case Got(es, rest1) =>
          match ReadSections(rest1)
          case Short => Short
          case Got(ss, rest2) => Got([Section(name, es)] + ss, rest2)
  }

  function ReadDefinition(input: Bytes): Read<Definition> {
    match ReadStr(input)
    case Short => Short
    case Got(origin, rest) =>
      match ReadSections(rest)
      case Short => Short
      case Got(ss, rest1) => Got(Definition(origin, ss), rest1)
  }

  function ReadWords(input: Bytes): (r: Read<seq<Bytes>>)
    ensures r.Got? ==> |r.rest| < |input|
    decreases |input|
  {
    match ReadStr(input)
    case Short => Short
    case Got(w, rest) =>
      if w == [] then Got([], rest)
      else
        match ReadWords(rest)
        case Short => Short
        case Got(ws, rest1) => Got([w] + ws, rest1)
  }

  function ReadGroups(input: Bytes): (r: Read<seq<Group>>)
    ensures r.Got? ==> |r.rest| < |input|
    decreases |input|
  {
    match ReadStr(input)
    case Short => Short
    case Got(name, rest) =>
      if name == [] then Got([], rest)
      else
        match ReadWords(rest)
        case Short => Short
        case Got(ws, rest1) =>
          match ReadGroups(rest1)
          case Short => Short
          case Got(gs, rest2) => Got([Group(name, ws)] + gs, rest2)
  }

  function ReadList(input: Bytes): Read<WordList> {
    match ReadStr(input)
    case Short => Short
    case Got(mark, rest) =>
      if mark == DATA_MARK then
        match ReadGroups(rest)
        case Short => Short
        case Got(gs, rest1) => Got(ByDictionary(gs), rest1)
      else
        match ReadWords(rest)
        case Short => Short
        case Got(ws, rest1) => Got(Plain(mark, ws), rest1)
  }

  function ReadReply(input: Bytes): Read<Reply> {
    match ReadDefinition(input)
    case Short => Short
    case Got(d, rest) =>
      match ReadList(rest)
      case Short => Short
      case Got(l, rest1) => Got(Reply(d, l), rest1)
  }

  // ----- Parsing what was printed -----

  lemma {:induction false} StrReads(s: Bytes, rest: Bytes)
    requires NUL !in s
    ensures ReadStr(StrBytes(s) + rest) == Got(s, rest)
  {
    var input := StrBytes(s) + rest;
    if s == [] {
      assert input[1..] == rest;
    } else {
      StrReads(s[1..], rest);
      assert input[1..] == StrBytes(s[1..]) + rest;
      assert s == [s[0]] + s[1..];
    }
  }

  lemma DataReads(d: Bytes, rest: Bytes)
    requires IsBlock(d)
    ensures ReadData(DataBytes(d) + rest) == Got(d, rest)
  {
    SizeReads(|d|);
    var input := DataBytes(d) + rest;
    assert input[..4] == SizeBytes(|d|);
    assert input[4..4+|d|] == d && input[4+|d|..] == rest;
  }

  lemma {:induction false} BlocksRead(ds: seq<Bytes>, rest: Bytes)
    requires BlocksValid(ds)
    ensures ReadBlocks(BlocksBytes(ds) + rest) == Got(ds, rest)
  {
    hide ReadData, DataBytes;
    if ds == [] {
      DataReads([], rest);
    } else {
      var more := BlocksBytes(ds[1..]) + rest;
      DataReads(ds[0], more);
      BlocksRead(ds[1..], rest);
      Regroup(DataBytes(ds[0]), BlocksBytes(ds[1..]), rest);
      FirstAndRest(ds);
    }
  }

  lemma {:induction false} EntriesRead(es: seq<Entry>, rest: Bytes)
    requires EntriesValid(es)
    ensures EntriesFit(es) && ReadEntries(EntriesBytes(es) + rest) == Got(es, rest)
  {
    hide ReadData, DataBytes, StrBytes, ReadStr, BlocksBytes, ReadBlocks;
    if es == [] {
      StrReads([], rest);
    } else {
      var e := es[0];
      EntriesRead(es[1..], rest);
      var rest2 := EntriesBytes(es[1..]) + rest;
      var rest1 := BlocksBytes(e.more) + rest2;
      var rest0 := DataBytes(e.first) + rest1;
      StrReads(e.word, rest0);
      DataReads(e.first, rest1);
      BlocksRead(e.more, rest2);
      assert EntriesBytes(es) + rest == StrBytes(e.word) + rest0 by {
        Regroup(StrBytes(e.word) + DataBytes(e.first) + BlocksBytes(e.more), EntriesBytes(es[1..]), rest);
        Regroup(StrBytes(e.word) + DataBytes(e.first), BlocksBytes(e.more), rest2);
        Regroup(StrBytes(e.word), DataBytes(e.first), rest1);
      }
      FirstAndRest(es);
    }
  }

  lemma {:induction false} SectionsRead(ss: seq<Section>, rest: Bytes)
    requires SectionsValid(ss)
    ensures SectionsFit(ss) && ReadSections(SectionsBytes(ss) + rest) == Got(ss, rest)
  {
    hide StrBytes, ReadStr, EntriesBytes, ReadEntries;
    if ss == [] {
      StrReads([], rest);
    } else {
      var s := ss[0];
      SectionsRead(ss[1..], rest);
      var rest1 := SectionsBytes(ss[1..]) + rest;
      EntriesRead(s.entries, rest1);
      var rest0 := EntriesBytes(s.entries) + rest1;
      StrReads(s.name, rest0);
      Regroup(StrBytes(s.name) + EntriesBytes(s.entries), SectionsBytes(ss[1..]), rest);
      Regroup(StrBytes(s.name), EntriesBytes(s.entries), rest1);
      FirstAndRest(ss);
    }
  }

  lemma DefinitionReads(d: Definition, rest: Bytes)
    requires DefinitionValid(d)
    ensures SectionsFit(d.sections) && ReadDefinition(DefinitionBytes(d) + rest) == Got(d, rest)
  {
    hide StrBytes, ReadStr, SectionsBytes, ReadSections;
    SectionsRead(d.sections, rest);
    StrReads(d.origin, SectionsBytes(d.sections) + rest);
    assert DefinitionBytes(d) + rest == StrBytes(d.origin) + (SectionsBytes(d.sections) + rest);
  }

  lemma {:induction false} WordsRead(ws: seq<Bytes>, rest: Bytes)
    requires NamesValid(ws)
    ensures ReadWords(WordsBytes(ws) + rest) == Got(ws, rest)
  {
    hide StrBytes, ReadStr;
    if ws == [] {
      StrReads([], rest);
    } else {
      WordsRead(ws[1..], rest);
      var more := WordsBytes(ws[1..]) + rest;
      StrReads(ws[0], more);
      Regroup(StrBytes(ws[0]), WordsBytes(ws[1..]), rest);
      FirstAndRest(ws);
    }
  }

  lemma {:induction false} GroupsRead(gs: seq<Group>, rest: Bytes)
    requires GroupsValid(gs)
    ensures ReadGroups(GroupsBytes(gs) + rest) == Got(gs, rest)
  {
    hide StrBytes, ReadStr, WordsBytes, ReadWords;
    if gs == [] {
      StrReads([], rest);
    } else {
      GroupsRead(gs[1..], rest);
      var g, more := gs[0], GroupsBytes(gs[1..]) + rest;
      WordsRead(g.words, more);
      StrReads(g.name, WordsBytes(g.words) + more);
      Regroup(StrBytes(g.name) + WordsBytes(g.words), GroupsBytes(gs[1..]), rest);
      Regroup(StrBytes(g.name), WordsBytes(g.words), more);
      FirstAndRest(gs);
    }
  }

  lemma ListReads(l: WordList, rest: Bytes)
    requires ListValid(l)
    ensures ReadList(ListBytes(l) + rest) == Got(l, rest)
  {
    hide StrBytes, ReadStr, WordsBytes, ReadWords, GroupsBytes, ReadGroups;
    match l
    case Plain(mark, words) =>
      WordsRead(words, rest);
      StrReads(mark, WordsBytes(words) + rest);
      assert ListBytes(l) + rest == StrBytes(mark) + (WordsBytes(words) + rest);
    case ByDictionary(groups) =>
      GroupsRead(groups, rest);
      StrReads(DATA_MARK, GroupsBytes(groups) + rest);
      assert ListBytes(l) + rest == StrBytes(DATA_MARK) + (GroupsBytes(groups) + rest);
  }

  lemma ReplyReads(r: Reply, rest: Bytes)
    requires ReplyValid(r)
    ensures SectionsFit(r.definition.sections) && ReadReply(ReplyBytes(r) + rest) == Got(r, rest)
  {
    hide DefinitionBytes, ReadDefinition, ListBytes, ReadList;
    DefinitionReads(r.definition, ListBytes(r.list) + rest);
    ListReads(r.list, rest);
    assert ReplyBytes(r) + rest == DefinitionBytes(r.definition) + (ListBytes(r.list) + rest);
  }

  // ----- Whatever is parsed is what was printed -----

  lemma BlocksPrepend(d: Bytes, ds: seq<Bytes>, rest: Bytes)
    requires BlocksFit(ds) && IsBlock(d)
    ensures BlocksFit([d] + ds) && BlocksBytes([d] + ds) + rest == DataBytes(d) + (BlocksBytes(ds) + rest)
  {
    hide DataBytes;
    assert ([d] + ds)[1..] == ds;
    Regroup(DataBytes(d), BlocksBytes(ds), rest);
  }

  lemma EntriesPrepend(e: Entry, es: seq<Entry>, rest: Bytes)
    requires EntriesFit(es) && IsBlock(e.first) && BlocksFit(e.more)
    ensures EntriesFit([e] + es)
    ensures EntriesBytes([e] + es) + rest
            == StrBytes(e.word) + (DataBytes(e.first) + (BlocksBytes(e.more) + (EntriesBytes(es) + rest)))
  {
    hide DataBytes, StrBytes, BlocksBytes;
    assert ([e] + es)[1..] == es;
    Regroup(StrBytes(e.word) + DataBytes(e.first) + BlocksBytes(e.more), EntriesBytes(es), rest);
    Regroup(StrBytes(e.word) + DataBytes(e.first), BlocksBytes(e.more), EntriesBytes(es) + rest);
    Regroup(StrBytes(e.word), DataBytes(e.first), BlocksBytes(e.more) + (EntriesBytes(es) + rest));
  }

  lemma SectionsPrepend(s: Section, ss: seq<Section>, rest: Bytes)
    requires SectionsFit(ss) && EntriesFit(s.entries)
    ensures SectionsFit([s] + ss)
    ensures SectionsBytes([s] + ss) + rest == StrBytes(s.name) + (EntriesBytes(s.entries) + (SectionsBytes(ss) + rest))
  {
    hide StrBytes, EntriesBytes;
    assert ([s] + ss)[1..] == ss;
    Regroup(StrBytes(s.name) + EntriesBytes(s.entries), SectionsBytes(ss), rest);
    Regroup(StrBytes(s.name), EntriesBytes(s.entries), SectionsBytes(ss) + rest);
  }

  lemma GroupsPrepend(g: Group, gs: seq<Group>, rest: Bytes)
    ensures GroupsBytes([g] + gs) + rest == StrBytes(g.name) + (WordsBytes(g.words) + (GroupsBytes(gs) + rest))
  {
    hide StrBytes, WordsBytes;
    assert ([g] + gs)[1..] == gs;
    Regroup(StrBytes(g.name) + WordsBytes(g.words), GroupsBytes(gs), rest);
    Regroup(StrBytes(g.name), WordsBytes(g.words), GroupsBytes(gs) + rest);
  }

  lemma DataShrinks(d: Bytes, rest: Bytes)
    requires IsBlock(d)
    ensures |rest| < |DataBytes(d) + rest|
  {
  }

  lemma {:induction false} BlocksPrint(input: Bytes)
    requires ReadBlocks(input).Got?
    ensures var r := ReadBlocks(input);
            BlocksValid(r.value) && BlocksFit(r.value) && input == BlocksBytes(r.value) + r.rest
    decreases |input|
  {
    hide DataBytes, ReadData, IsBlock;
    var d := ReadData(input);
    if d.value == [] {
      assert ReadBlocks(input) == Got([], d.rest);
      hide ReadBlocks;
    } else {
      DataShrinks(d.value, d.rest);
      BlocksPrint(d.rest);
      var ds := ReadBlocks(d.rest);
      assert ReadBlocks(input) == Got([d.value] + ds.value, ds.rest);
      hide ReadBlocks, BlocksBytes;
      BlocksPrepend(d.value, ds.value, ds.rest);
    }
  }

  lemma {:induction false} EntriesPrint(input: Bytes)
    requires ReadEntries(input).Got?
    ensures var r := ReadEntries(input);
            EntriesValid(r.value) && EntriesFit(r.value) && input == EntriesBytes(r.value) + r.rest
    decreases |input|
  {
    hide DataBytes, StrBytes, BlocksBytes;
    var word := ReadStr(input);
    if word.value != [] {
      var first := ReadData(word.rest);
      BlocksPrint(first.rest);
      var more := ReadBlocks(first.rest);
      EntriesPrint(more.rest);
      var e, es := Entry(word.value, first.value, more.value), ReadEntries(more.rest);
      assert ReadEntries(input) == Got([e] + es.value, es.rest);
      hide ReadStr, ReadData, ReadBlocks, ReadEntries, EntriesBytes;
      EntriesPrepend(e, es.value, es.rest);
    }
  }

  lemma {:induction false} SectionsPrint(input: Bytes)
    requires ReadSections(input).Got?
    ensures var r := ReadSections(input);
            SectionsValid(r.value) && SectionsFit(r.value) && input == SectionsBytes(r.value) + r.rest
    decreases |input|
  {
    hide StrBytes, EntriesBytes;
    var name := ReadStr(input);
    if name.value != [] {
      EntriesPrint(name.rest);
      var es := ReadEntries(name.rest);
      SectionsPrint(es.rest);
      var s, ss := Section(name.value, es.value), ReadSections(es.rest);
      assert ReadSections(input) == Got([s] + ss.value, ss.rest);
      hide ReadStr, ReadEntries, ReadSections, SectionsBytes;
      SectionsPrepend(s, ss.value, ss.rest);
    }
  }

  lemma {:induction false} WordsPrint(input: Bytes)
    requires ReadWords(input).Got?
    ensures var r := ReadWords(input); NamesValid(r.value) && input == WordsBytes(r.value) + r.rest
    decreases |input|
  {
    hide StrBytes;
    var w := ReadStr(input);
    if w.value != [] {
      WordsPrint(w.rest);
      var ws := ReadWords(w.rest).value;
      assert ([w.value] + ws)[1..] == ws;
    }
  }

  lemma {:induction false} GroupsPrint(input: Bytes)
    requires ReadGroups(input).Got?
    ensures var r := ReadGroups(input); GroupsValid(r.value) && input == GroupsBytes(r.value) + r.rest
    decreases |input|
  {
    hide StrBytes, WordsBytes;
    var name := ReadStr(input);
    if name.value != [] {
      WordsPrint(name.rest);
      var ws := ReadWords(name.rest);
      GroupsPrint(ws.rest);
      var g, gs := Group(name.value, ws.value), ReadGroups(ws.rest);
      assert ReadGroups(input) == Got([g] + gs.value, gs.rest);
      hide ReadStr, ReadWords, ReadGroups, GroupsBytes;
      GroupsPrepend(g, gs.value, gs.rest);
    }
  }

  lemma ListPrints(input: Bytes)
    requires ReadList(input).Got?
    ensures var r := ReadList(input); ListValid(r.value) && input == ListBytes(r.value) + r.rest
  {
    hide StrBytes, WordsBytes, GroupsBytes;
    var mark := ReadStr(input);
    if mark.value == DATA_MARK {
      GroupsPrint(mark.rest);
    } else {
      WordsPrint(mark.rest);
    }
  }

  /** The parser accepts only printed replies, and takes exactly their bytes. */
  lemma ReplyPrints(input: Bytes)
    requires ReadReply(input).Got?
    ensures var r := ReadReply(input);
            ReplyValid(r.value) && SectionsFit(r.value.definition.sections) && input == ReplyBytes(r.value) + r.rest
  {
    hide ReadDefinition, ReadList, DefinitionBytes, ListBytes, ListValid, DefinitionValid;
    var d := ReadDefinition(input);
    DefinitionPrints(input);
    ListPrints(d.rest);
    var l := ReadList(d.rest);
    assert ReadReply(input) == Got(Reply(d.value, l.value), l.rest);
    Regroup(DefinitionBytes(d.value), ListBytes(l.value), l.rest);
  }

  lemma DefinitionPrints(input: Bytes)
    requires ReadDefinition(input).Got?
    ensures var r := ReadDefinition(input);
            DefinitionValid(r.value) && SectionsFit(r.value.sections) && input == DefinitionBytes(r.value) + r.rest
  {
    hide StrBytes, SectionsBytes, ReadSections;
    var origin := ReadStr(input);
    hide ReadStr;
    SectionsPrint(origin.rest);
    var ss := ReadSections(origin.rest);
    Regroup(StrBytes(origin.value), SectionsBytes(ss.value), ss.rest);
  }

  /** The parser recovers a printed reply, with nothing more and nothing less, exactly when every name is
      non-empty and free of NUL, every follow-up block is non-empty, and "d" marks only nested lists. */
  lemma ReplyRoundTrip(r: Reply, rest: Bytes)
    requires SectionsFit(r.definition.sections)
    ensures ReadReply(ReplyBytes(r) + rest) == Got(r, rest) <==> ReplyValid(r)
  {
    if ReplyValid(r) {
      ReplyReads(r, rest);
    } else if ReadReply(ReplyBytes(r) + rest) == Got(r, rest) {
      ReplyPrints(ReplyBytes(r) + rest);
    }
  }

  // ----- Replies byte by byte -----

  /** One word with two data blocks, found in one dictionary, and one word listed: strings end with a NUL, the sizes of
      blocks take four bytes, an empty block ends the blocks, and an empty string each of the other lists. */
  lemma ReplyLayout(origin: Bytes, name: Bytes, word: Bytes, first: Bytes, next: Bytes, mark: Bytes, listed: Bytes)
    requires IsBlock(first) && IsBlock(next)
    ensures var entries := [Entry(word, first, [next])];
            SectionsFit([Section(name, entries)]) && SectionsFit([]) &&
            ReplyBytes(Reply(Definition(origin, [Section(name, entries)]), Plain(mark, [listed])))
            == (origin + [0])
               + ((name + [0])
                  + ((word + [0]) + (SizeBytes(|first|) + first) + (SizeBytes(|next|) + next + [0, 0, 0, 0]) + [0])
                  + [0])
               + ((mark + [0]) + ((listed + [0]) + [0]))
    ensures ReplyBytes(Reply(Definition(origin, []), ByDictionary([Group(name, [listed])])))
            == ((origin + [0]) + [0]) + ([100, 0] + ((name + [0]) + ((listed + [0]) + [0]) + [0]))
  {
    var entries := [Entry(word, first, [next])];
    assert SizeBytes(0) + [] == [0, 0, 0, 0];
    assert BlocksBytes([next]) == DataBytes(next) + [0, 0, 0, 0];
    assert EntriesBytes(entries) == StrBytes(word) + DataBytes(first) + BlocksBytes([next]) + StrBytes([]);
    assert StrBytes([]) == [0] && DATA_MARK + [0] == [100, 0];
    assert SectionsBytes([Section(name, entries)]) == StrBytes(name) + EntriesBytes(entries) + [0];
    assert SectionsBytes([]) == WordsBytes([]) == GroupsBytes([]) == [0];
    assert WordsBytes([listed]) == StrBytes(listed) + [0];
    assert GroupsBytes([Group(name, [listed])]) == StrBytes(name) + WordsBytes([listed]) + [0];
  }
}
