/** The client's side of a lookup: it sends the command and takes the reply apart. */
module Client {
  import opened Strings
  import opened Wire
  import CommandLine

  const CODE_OK := 250

  predicate IsBlank(c: Byte) {
    c == SPACE || 9 <= c <= 13
  }

  predicate IsDigit(c: Byte) {
    48 <= c <= 57
  }

  /** atoi, for numbers that do not overflow. */
  function Atoi(s: Bytes): int {
    if s == [] then 0
    else if IsBlank(s[0]) then Atoi(s[1..])
    else if s[0] == 45 then 0 - Digits(s[1..], 0) as int
    else if s[0] == 43 then Digits(s[1..], 0)
    else Digits(s, 0)
  }

  function Digits(s: Bytes, soFar: nat): nat {
    if s == [] || !IsDigit(s[0]) then soFar else Digits(s[1..], soFar * 10 + (s[0] as nat - 48))
  }

  lemma {:induction false} DigitsAppend(s: Bytes, d: Byte, soFar: nat)
    requires (forall i | 0 <= i < |s| :: IsDigit(s[i])) && IsDigit(d)
    ensures Digits(s + [d], soFar) == Digits(s, soFar) * 10 + (d as nat - 48)
    decreases |s|
  {
    if s == [] {
      assert s + [d] == [d];
    } else {
      assert (s + [d])[1..] == s[1..] + [d];
      DigitsAppend(s[1..], d, soFar * 10 + (s[0] as nat - 48));
    }
  }

  /** Digits are read as a decimal number, with blanks and a sign in front. */
  lemma AtoiReadsDecimals(s: Bytes, d: Byte)
    requires (forall i | 0 <= i < |s| :: 48 <= s[i] <= 57) && 48 <= d <= 57
    ensures Atoi([d]) == d as int - 48
    ensures s != [] ==> Atoi(s + [d]) == 10 * Atoi(s) + (d as int - 48)
    ensures s != [] ==> Atoi([45] + s) == -Atoi(s) && Atoi([43] + s) == Atoi([32] + s) == Atoi(s)
  {
    DigitsAppend([], d, 0);
    DigitsAppend(s, d, 0);
    assert [] + [d] == [d];
    DigitsFirst([d]);
    if s != [] {
      DigitsFirst(s);
      DigitsFirst(s + [d]);
      hide Digits, IsDigit;
      assert ([45] + s)[1..] == ([43] + s)[1..] == ([32] + s)[1..] == s;
    }
  }

  lemma DigitsFirst(s: Bytes)
    requires s != [] && IsDigit(s[0])
    ensures Atoi(s) == Digits(s, 0)
  {
    hide Digits;
  }

  ghost predicate Yields<T>(failed: bool, value: T, rest: Bytes, r: Read<T>) {
    if failed then r.Short? else r == Got(value, rest)
  }

  /** What is read when soFar has been read before. */
  function After<T>(soFar: seq<T>, r: Read<seq<T>>): Read<seq<T>> {
    match r
    case Short => Short
    case Got(value, rest) => Got(soFar + value, rest)
  }

  /** What a lookup gets of the input: a reply, or nothing if the status is not that of success. */
  function ReadAnswer(input: Bytes): Read<Reply> {
    match CommandLine.FirstLine(input, |input|)
    case NoLine => Short
    case Line(text, rest) => if Atoi(text) == CODE_OK then ReadReply(rest) else Short
  }

  /** A status line is what is read first of a reply. */
  lemma StatusIsRead(status: Bytes, rest: Bytes)
    requires NEWLINE !in status && RETURN !in status
    ensures ReadAnswer(status + [NEWLINE] + rest) == if Atoi(status) == CODE_OK then ReadReply(rest) else Short
  {
    hide Atoi, ReadReply;
    var input := status + [NEWLINE] + rest;
    CommandLine.LineIsRead(status, rest, |input|);
    CommandLine.NoReturnsKeepsAll(status);
  }

  class Socket {
    var input: Bytes     // what is still to be read

    constructor (input: Bytes)
      ensures this.input == input
    {
      this.input := input;
    }

    method NetReadStr() returns (failed: bool, str: Bytes)
      modifies this
      ensures Yields(failed, str, input, ReadStr(old(input)))
    {
      str := [];
      AfterNone(ReadStr(input));
      while input != []
        invariant After(str, ReadStr(input)) == ReadStr(old(input))
        decreases |input|
      {
        var c := input[0];
        NextChar(str, input);
        input := input[1..];
        if c == NUL {
          return false, str;
        }
        str := str + [c];
      }
      failed := true;
    }

    /** Reads len bytes, in whatever portions the connection delivers them. */
    method NetRead(len: nat) returns (failed: bool, data: Bytes)
      modifies this
      ensures if |old(input)| < len then failed
              else !failed && data == old(input)[..len] && input == old(input)[len..]
    {
      data := [];
      var left := len;
      while left > 0
        invariant 0 <= left <= len && len - left <= |old(input)|
        invariant data == old(input)[..len - left] && input == old(input)[len - left..]
      {
        if input == [] {
          return true, data;
        }
        var count: nat :| 0 < count <= left && count <= |input|;
        data := data + input[..count];
        input := input[count..];
        left := left - count;
      }
      failed := false;
    }

    method NetReadData() returns (failed: bool, data: Bytes)
      modifies this
      ensures Yields(failed, data, input, ReadData(old(input)))
    {
      hide SizeOf;
      var size;
      failed, size := NetRead(4);
      if failed {
        return true, [];
      }
      ghost var rest := input;
      failed, data := NetRead(SizeOf(size));
      if !failed {
        assert old(input)[4..] == rest;
        assert rest[..|data|] == old(input)[4..4+|data|] && rest[|data|..] == old(input)[4+|data|..];
      }
    }

    method NetReadLine() returns (failed: bool, buf: Bytes)
      modifies this
      ensures var line := CommandLine.FirstLine(old(input), |old(input)|);
              if failed then line.NoLine? else line == CommandLine.Line(buf, input)
    {
      buf := [];
      while input != []
        invariant CommandLine.Behind(buf, CommandLine.FirstLine(input, |input|)) ==
                  CommandLine.FirstLine(old(input), |old(input)|)
        decreases |input|
      {
        CommandLine.NextByte(buf, input, |input|);
        var c := input[0];
        input := input[1..];
        if c == NEWLINE {
          return false, buf;
        } else if c != RETURN {
          buf := buf + [c];
        }
      }
      failed := true;
    }

    // ----- The nested loops -----

    method PrintBlocks() returns (failed: bool, more: seq<Bytes>)
      modifies this
      ensures Yields(failed, more, input, ReadBlocks(old(input)))
    {
      hide ReadData;
      more := [];
      AfterNone(ReadBlocks(input));
      while true
        invariant After(more, ReadBlocks(input)) == ReadBlocks(old(input))
        decreases |input|
      {
        NextBlock(more, input);
        var data;
        failed, data := NetReadData();
        if failed {
          return;
        }
        if |data| == 0 {
          return;
        }
        more := more + [data];
      }
    }

    method PrintEntries() returns (failed: bool, entries: seq<Entry>)
      modifies this
      ensures Yields(failed, entries, input, ReadEntries(old(input)))
    {
      hide ReadData, ReadStr, ReadBlocks;
      entries := [];
      AfterNone(ReadEntries(input));
      while true
        invariant After(entries, ReadEntries(input)) == ReadEntries(old(input))
        decreases |input|
      {
        NextEntry(entries, input);
        var word, first, more;
        failed, word := NetReadStr();
        if failed || |word| == 0 {
          return;
        }
        failed, first := NetReadData();
        if failed {
          return;
        }
        failed, more := PrintBlocks();
        if failed {
          return;
        }
        entries := entries + [Entry(word, first, more)];
      }
    }

    method PrintSections() returns (failed: bool, sections: seq<Section>)
      modifies this
      ensures Yields(failed, sections, input, ReadSections(old(input)))
    {
      hide ReadStr, ReadEntries;
      sections := [];
      AfterNone(ReadSections(input));
      while true
        invariant After(sections, ReadSections(input)) == ReadSections(old(input))
        decreases |input|
      {
        NextSection(sections, input);
        var name, entries;
        failed, name := NetReadStr();
        if failed || |name| == 0 {
          return;
        }
        failed, entries := PrintEntries();
        if failed {
          return;
        }
        sections := sections + [Section(name, entries)];
      }
    }

    /** print_dict_result without its status line. */
    method PrintDefinition() returns (failed: bool, definition: Definition)
      modifies this
      ensures Yields(failed, definition, input, ReadDefinition(old(input)))
    {
      hide ReadStr, ReadSections;
      definition := Definition([], []);
      var origin, sections;
      failed, origin := NetReadStr();
      if failed {
        return;
      }
      failed, sections := PrintSections();
      if failed {
        return;
      }
      definition := Definition(origin, sections);
    }

    method PrintDictResult() returns (failed: bool, definition: Definition)
      modifies this
      ensures match CommandLine.FirstLine(old(input), |old(input)|)
              case NoLine => failed
              case Line(text, rest) =>
                if Atoi(text) == CODE_OK then Yields(failed, definition, input, ReadDefinition(rest)) else failed
    {
      hide Atoi, ReadDefinition;
      definition := Definition([], []);
      var str;
      failed, str := NetReadLine();
      if failed {
        return;
      }
      var status := Atoi(str);
      if status != CODE_OK {
        failed := true;
        return;
      }
      failed, definition := PrintDefinition();
    }

    method PrintWords() returns (failed: bool, words: seq<Bytes>)
      modifies this
      ensures Yields(failed, words, input, ReadWords(old(input)))
    {
      hide ReadStr;
      words := [];
      AfterNone(ReadWords(input));
      while true
        invariant After(words, ReadWords(input)) == ReadWords(old(input))
        decreases |input|
      {
        NextWord(words, input);
        var str;
        failed, str := NetReadStr();
        if failed || |str| == 0 {
          return;
        }
        words := words + [str];
      }
    }

    method PrintGroups() returns (failed: bool, groups: seq<Group>)
      modifies this
      ensures Yields(failed, groups, input, ReadGroups(old(input)))
    {
      hide ReadStr, ReadWords;
      groups := [];
      AfterNone(ReadGroups(input));
      while true
        invariant After(groups, ReadGroups(input)) == ReadGroups(old(input))
        decreases |input|
      {
        NextGroup(groups, input);
        var name, words;
        failed, name := NetReadStr();
        if failed || |name| == 0 {
          return;
        }
        failed, words := PrintWords();
        if failed {
          return;
        }
        groups := groups + [Group(name, words)];
      }
    }

    /** The list that follows the definition block. */
    method PrintList() returns (failed: bool, list: WordList)
      modifies this
      ensures Yields(failed, list, input, ReadList(old(input)))
    {
      hide ReadStr, ReadWords, ReadGroups;
      list := Plain([], []);
      var str;
      failed, str := NetReadStr();
      if failed {
        return;
      }
      if str == DATA_MARK {
        var groups;
        failed, groups := PrintGroups();
        list := ByDictionary(groups);
      } else {
        var words;
        failed, words := PrintWords();
        list := Plain(str, words);
      }
    }

    method ProcessCommandLookup() returns (failed: bool, reply: Reply)
      modifies this
      ensures Yields(failed, reply, input, ReadAnswer(old(input)))
    {
      hide Atoi, ReadDefinition, ReadList;
      var definition, list;
      failed, definition := PrintDictResult();
      reply := Reply(definition, Plain([], []));
      if failed {
        return;
      }
      failed, list := PrintList();
      reply := Reply(definition, list);
    }
  }

  lemma AfterNone<T>(r: Read<seq<T>>)
    ensures After([], r) == r
  {
    if r.Got? {
      assert [] + r.value == r.value;
    }
  }

  lemma AfterMore<T>(soFar: seq<T>, x: T, r: Read<seq<T>>)
    ensures After(soFar + [x], r) == After(soFar, After([x], r))
  {
    if r.Got? {
      assert soFar + [x] + r.value == soFar + ([x] + r.value);
    }
  }

  lemma NextChar(str: Bytes, input: Bytes)
    requires input != []
    ensures After(str, ReadStr(input)) ==
            if input[0] == NUL then Got(str, input[1..]) else After(str + [input[0]], ReadStr(input[1..]))
  {
    assert str + [] == str;
    AfterMore(str, input[0], ReadStr(input[1..]));
  }

  lemma NextBlock(soFar: seq<Bytes>, input: Bytes)
    ensures After(soFar, ReadBlocks(input)) ==
            match ReadData(input)
            case Short => Short
            case Got(d, rest) => if d == [] then Got(soFar, rest) else After(soFar + [d], ReadBlocks(rest))
  {
    assert soFar + [] == soFar;
    hide ReadData;
    var r := ReadData(input);
    if r.Got? {
      AfterMore(soFar, r.value, ReadBlocks(r.rest));
    }
  }

  lemma NextEntry(soFar: seq<Entry>, input: Bytes)
    ensures After(soFar, ReadEntries(input)) ==
            match ReadStr(input)
            case Short => Short
            case Got(word, rest) =>
              if word == [] then Got(soFar, rest)
              else
                match ReadData(rest)
                case Short => Short
                case Got(first, rest1) =>
                  match ReadBlocks(rest1)
                  case Short => Short
                  case Got(more, rest2) => After(soFar + [Entry(word, first, more)], ReadEntries(rest2))
  {
    assert soFar + [] == soFar;
    hide ReadStr, ReadData, ReadBlocks;
    var word := ReadStr(input);
    if word.Got? && word.value != [] {
      var first := ReadData(word.rest);
      if first.Got? {
        var more := ReadBlocks(first.rest);
        if more.Got? {
          AfterMore(soFar, Entry(word.value, first.value, more.value), ReadEntries(more.rest));
        }
      }
    }
  }

  lemma NextSection(soFar: seq<Section>, input: Bytes)
    ensures After(soFar, ReadSections(input)) ==
            match ReadStr(input)
            case Short => Short
            case Got(name, rest) =>
              if name == [] then Got(soFar, rest)
              else
                match ReadEntries(rest)
                case Short => Short
                case Got(es, rest1) => After(soFar + [Section(name, es)], ReadSections(rest1))
  {
    assert soFar + [] == soFar;
    hide ReadStr, ReadEntries;
    var name := ReadStr(input);
    if name.Got? && name.value != [] {
      var es := ReadEntries(name.rest);
      if es.Got? {
        AfterMore(soFar, Section(name.value, es.value), ReadSections(es.rest));
      }
    }
  }

  lemma NextWord(soFar: seq<Bytes>, input: Bytes)
    ensures After(soFar, ReadWords(input)) ==
            match ReadStr(input)
            case Short => Short
            case Got(w, rest) => if w == [] then Got(soFar, rest) else After(soFar + [w], ReadWords(rest))
  {
    assert soFar + [] == soFar;
    hide ReadStr;
    var w := ReadStr(input);
    if w.Got? {
      AfterMore(soFar, w.value, ReadWords(w.rest));
    }
  }

  lemma NextGroup(soFar: seq<Group>, input: Bytes)
    ensures After(soFar, ReadGroups(input)) ==
            match ReadStr(input)
            case Short => Short
            case Got(name, rest) =>
              if name == [] then Got(soFar, rest)
              else
                match ReadWords(rest)
                case Short => Short
                case Got(ws, rest1) => After(soFar + [Group(name, ws)], ReadGroups(rest1))
  {
    assert soFar + [] == soFar;
    hide ReadStr, ReadWords;
    var name := ReadStr(input);
    if name.Got? && name.value != [] {
      var ws := ReadWords(name.rest);
      if ws.Got? {
        AfterMore(soFar, Group(name.value, ws.value), ReadGroups(ws.rest));
      }
    }
  }
}
