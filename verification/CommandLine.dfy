/** Command lines: escaped and sent by the client, read and taken apart by the server. */
module CommandLine {
  import opened Strings

  // ----- The client -----

  function EscapedByte(c: Byte): Bytes {
    if c == BACKSLASH then [BACKSLASH, BACKSLASH]
    else if c == SPACE then [BACKSLASH, SPACE]
    else if c == NEWLINE then [BACKSLASH, LOWER_N]
    else [c]
  }

  function Escaped(arg: Bytes): Bytes {
    if arg == [] then [] else EscapedByte(arg[0]) + Escaped(arg[1..])
  }

  method ArgEscape(arg: Bytes) returns (earg: Bytes)
    ensures earg == Escaped(arg)
  {
    earg := [];
    var p := 0;
    while p < |arg|
      invariant 0 <= p <= |arg|
      invariant earg + Escaped(arg[p..]) == Escaped(arg)
    {
      assert arg[p..][1..] == arg[p+1..];
      assert earg + (EscapedByte(arg[p]) + Escaped(arg[p+1..])) == (earg + EscapedByte(arg[p])) + Escaped(arg[p+1..]);
      ghost var e := earg + EscapedByte(arg[p]);
      if arg[p] == BACKSLASH {
        earg := earg + [BACKSLASH, BACKSLASH];
      } else if arg[p] == SPACE {
        earg := earg + [BACKSLASH, SPACE];
      } else if arg[p] == NEWLINE {
        earg := earg + [BACKSLASH, LOWER_N];
      } else {
        earg := earg + [arg[p]];
      }
      assert earg == e;
      p := p + 1;
    }
  }

  /** The escaped arguments, with a space between any two. */
  function Joined(args: seq<Bytes>): Bytes
    requires args != []
  {
    if |args| == 1 then Escaped(args[0]) else Escaped(args[0]) + [SPACE] + Joined(args[1..])
  }

  // ----- The server -----

  /** The arguments, or a backslash that escapes the end of the line, past which the loop then reads on. */
  datatype Parsed = Args(args: seq<Bytes>) | Overrun

  /** What an escaped byte stands for. */
  function Meaning(c: Byte): Byte {
    if c == LOWER_N then NEWLINE else c
  }

  /** The arguments of s, when str has been read of the first one. */
  function ArgsFrom(str: Bytes, s: Bytes): Parsed
    decreases |s|
  {
    if s == [] then Args([str])
    else if s[0] == BACKSLASH then if |s| == 1 then Overrun else ArgsFrom(str + [Meaning(s[1])], s[2..])
    else if s[0] == SPACE then
      match ArgsFrom([], s[1..])
      case Args(more) => Args([str] + more)
      case Overrun => Overrun
    else ArgsFrom(str + [s[0]], s[1..])
  }

  function Prepend(args: seq<Bytes>, more: Parsed): Parsed {
    match more
    case Args(rest) => Args(args + rest)
    case Overrun => Overrun
  }

  /** A string as C sees it, up to its first NUL. */
  function CString(s: Bytes): (r: Bytes)
    ensures NUL !in r && (NUL !in s ==> r == s)
  {
    if s == [] || s[0] == NUL then [] else [s[0]] + CString(s[1..])
  }

  method ArgsNew(buf: Bytes) returns (r: Parsed)
    requires NUL !in buf
    ensures r == ArgsFrom([], buf)
  {
    var args: seq<Bytes> := [];
    var str: Bytes := [];
    var p := 0;
    while p < |buf|
      invariant 0 <= p <= |buf|
      invariant Prepend(args, ArgsFrom(str, buf[p..])) == ArgsFrom([], buf)
    {
      ghost var rest := buf[p..];
      assert rest[1..] == buf[p+1..];
      if buf[p] == BACKSLASH {
        p := p + 1;
        if p == |buf| {
          return Overrun;
        }
        assert rest[2..] == buf[p+1..];
        if buf[p] == LOWER_N {
          str := str + [NEWLINE];
        } else {
          str := str + [buf[p]];
        }
      } else if buf[p] == SPACE {
        ghost var more := ArgsFrom([], buf[p+1..]);
        assert more.Args? ==> args + ([str] + more.args) == (args + [str]) + more.args;
        args := args + [str];
        str := [];
      } else {
        str := str + [buf[p]];
      }
      p := p + 1;
    }
    args := args + [str];
    return Args(args);
  }

  // ----- The escapes are undone -----

  lemma ByteIsRead(str: Bytes, c: Byte, e: Bytes)
    ensures ArgsFrom(str, EscapedByte(c) + e) == ArgsFrom(str + [c], e)
  {
    assert (EscapedByte(c) + e)[|EscapedByte(c)|..] == e;
  }

  lemma {:induction false} EscapedIsRead(str: Bytes, arg: Bytes, rest: Bytes)
    ensures ArgsFrom(str, Escaped(arg) + rest) == ArgsFrom(str + arg, rest)
    decreases |arg|
  {
    hide ArgsFrom, EscapedByte;
    if arg == [] {
      assert str + arg == str && Escaped(arg) + rest == rest;
    } else {
      var c, more := arg[0], arg[1..];
      assert Escaped(arg) == EscapedByte(c) + Escaped(more);
      EscapedIsRead(str + [c], more, rest);
      hide Escaped;
      Regroup(EscapedByte(c), Escaped(more), rest);
      ByteIsRead(str, c, Escaped(more) + rest);
      FirstAndRest(arg);
      Regroup(str, [c], more);
    }
  }

  /** The server reads the arguments the client was given. */
  lemma {:induction false} ArgumentsSurvive(args: seq<Bytes>)
    requires args != []
    ensures ArgsFrom([], Joined(args)) == Args(args)
    decreases |args|
  {
    hide Escaped;
    assert [] + args[0] == args[0];
    if |args| == 1 {
      EscapedIsRead([], args[0], []);
      assert Escaped(args[0]) + [] == Escaped(args[0]);
      assert args == [args[0]];
    } else {
      ArgumentsSurvive(args[1..]);
      var rest := [SPACE] + Joined(args[1..]);
      EscapedIsRead([], args[0], rest);
      assert Joined(args) == Escaped(args[0]) + rest;
      assert rest[1..] == Joined(args[1..]);
      assert args == [args[0]] + args[1..];
    }
  }

  /** The number of backslashes that end s. */
  function TrailingBackslashes(s: Bytes): nat {
    if s == [] || s[|s|-1] != BACKSLASH then 0 else 1 + TrailingBackslashes(s[..|s|-1])
  }

  lemma {:induction false} TrailingOf(c: Byte, s: Bytes)
    ensures TrailingBackslashes([c] + s) ==
            if TrailingBackslashes(s) < |s| then TrailingBackslashes(s) else if c == BACKSLASH then |s| + 1 else |s|
    ensures TrailingBackslashes(s) <= |s|
  {
    if s == [] {
      assert ([c] + s)[..0] == [];
    } else {
      TrailingOf(c, s[..|s|-1]);
      assert ([c] + s)[..|s|] == [c] + s[..|s|-1];
    }
  }

  lemma {:induction false} DanglingOverruns(str: Bytes, s: Bytes)
    ensures ArgsFrom(str, s) == Overrun <==> TrailingBackslashes(s) % 2 == 1
    decreases |s|
  {
    hide TrailingBackslashes;
    if s == [] {
      NoTrailing();
    } else {
      TrailingOf(s[0], s[1..]);
      FirstAndRest(s);
      if s[0] == BACKSLASH {
        if |s| == 1 {
          NoTrailing();
        } else {
          var rest := s[2..];
          TrailingOf(s[1], rest);
          assert s[1..] == [s[1]] + rest;
          AllBackslashes(rest);
          DanglingOverruns(str + [Meaning(s[1])], rest);
        }
      } else {
        DanglingOverruns(if s[0] == SPACE then [] else str + [s[0]], s[1..]);
      }
    }
  }

  lemma NoTrailing()
    ensures TrailingBackslashes([]) == 0
  {
  }

  /** The arguments are read to the end of the line unless an odd number of backslashes ends it. */
  lemma OverrunIffDangling(line: Bytes)
    ensures ArgsFrom([], CString(line)) == Overrun <==> TrailingBackslashes(CString(line)) % 2 == 1
  {
    DanglingOverruns([], CString(line));
  }

  lemma {:induction false} AllBackslashes(s: Bytes)
    ensures TrailingBackslashes(s) == |s| <==> forall c | c in s :: c == BACKSLASH
    ensures TrailingBackslashes(s) <= |s|
  {
    if s != [] {
      var init, last := s[..|s|-1], s[|s|-1];
      AllBackslashes(init);
      assert s == init + [last];
      assert forall c | c in init :: c in s;
      assert last in s;
    }
  }

  // ----- Lines -----

  const LINE_LIMIT := 10240

  datatype Line = Line(text: Bytes, rest: Bytes) | NoLine

  function WithoutReturns(s: Bytes): Bytes {
    if s == [] then [] else (if s[0] == RETURN then [] else [s[0]]) + WithoutReturns(s[1..])
  }

  /** The line that starts the input, when at most limit more bytes may be read. */
  function FirstLine(input: Bytes, limit: nat): Line {
    if input == [] || limit == 0 then NoLine
    else if input[0] == NEWLINE then Line([], input[1..])
    else
      match FirstLine(input[1..], limit - 1)
      case NoLine => NoLine
      case Line(text, rest) => Line((if input[0] == RETURN then [] else [input[0]]) + text, rest)
  }

  function Behind(buf: Bytes, line: Line): Line {
    match line
    case NoLine => NoLine
    case Line(text, rest) => Line(buf + text, rest)
  }

  lemma NextByte(buf: Bytes, input: Bytes, limit: nat)
    requires input != [] && limit > 0
    ensures input[0] == NEWLINE ==> Behind(buf, FirstLine(input, limit)) == Line(buf, input[1..])
    ensures input[0] == RETURN ==> Behind(buf, FirstLine(input, limit)) == Behind(buf, FirstLine(input[1..], limit - 1))
    ensures input[0] != NEWLINE && input[0] != RETURN ==>
              Behind(buf, FirstLine(input, limit)) == Behind(buf + [input[0]], FirstLine(input[1..], limit - 1))
  {
    var line := FirstLine(input[1..], limit - 1);
    if line.Line? {
      Regroup(buf, [input[0]], line.text);
    }
  }

  /** The command at the front of the input; none if its line is not complete or too long. */
  function CommandOf(input: Bytes): Parsed {
    match FirstLine(input, LINE_LIMIT)
    case NoLine => Args([])
    case Line(text, _) => ArgsFrom([], CString(text))
  }

  class Connection {
    var input: Bytes     // what is still to be read

    constructor (input: Bytes)
      ensures this.input == input
    {
      this.input := input;
    }

    method NetReadLine() returns (failed: bool, buf: Bytes)
      modifies this
      ensures failed <==> FirstLine(old(input), LINE_LIMIT).NoLine?
      ensures !failed ==> FirstLine(old(input), LINE_LIMIT) == Line(buf, input)
    {
      buf := [];
      var readLen := 0;
      while input != []
        invariant readLen <= LINE_LIMIT
        invariant Behind(buf, FirstLine(input, LINE_LIMIT - readLen)) == FirstLine(old(input), LINE_LIMIT)
        decreases |input|
      {
        if readLen < LINE_LIMIT {
          NextByte(buf, input, LINE_LIMIT - readLen);
        }
        var c := input[0];
        input := input[1..];
        readLen := readLen + 1;
        if readLen > LINE_LIMIT {
          return true, buf;
        }
        if c == NEWLINE {
          return false, buf;
        } else if c != RETURN {
          buf := buf + [c];
        }
      }
      failed := true;
    }

    /** A command line becomes its arguments. */
    method ReadCommand() returns (r: Parsed)
      modifies this
      ensures r == CommandOf(old(input))
      ensures FirstLine(old(input), LINE_LIMIT).Line? ==> input == FirstLine(old(input), LINE_LIMIT).rest
    {
      var failed, buf := NetReadLine();
      if failed {
        return Args([]);
      }
      r := ArgsNew(CString(buf));
    }
  }

  lemma {:induction false} LineIsRead(text: Bytes, rest: Bytes, limit: nat)
    requires NEWLINE !in text
    ensures FirstLine(text + [NEWLINE] + rest, limit) ==
            if |text| < limit then Line(WithoutReturns(text), rest) else NoLine
  {
    var input := text + [NEWLINE] + rest;
    if limit > 0 {
      if text == [] {
        assert input[1..] == rest;
      } else {
        assert input[1..] == text[1..] + [NEWLINE] + rest;
        LineIsRead(text[1..], rest, limit - 1);
      }
    }
  }

  lemma {:induction false} EscapedHasNoNewline(arg: Bytes)
    ensures NEWLINE !in Escaped(arg)
  {
    if arg != [] {
      EscapedHasNoNewline(arg[1..]);
    }
  }

  lemma {:induction false} JoinedHasNoNewline(args: seq<Bytes>)
    requires args != []
    ensures NEWLINE !in Joined(args)
  {
    EscapedHasNoNewline(args[0]);
    if |args| > 1 {
      JoinedHasNoNewline(args[1..]);
    }
  }

  lemma WithoutReturnsFirst(c: Byte, s: Bytes)
    ensures WithoutReturns([c] + s) == (if c == RETURN then [] else [c]) + WithoutReturns(s)
  {
    assert ([c] + s)[1..] == s;
  }

  lemma {:induction false} WithoutReturnsAppend(s: Bytes, t: Bytes)
    ensures WithoutReturns(s + t) == WithoutReturns(s) + WithoutReturns(t)
  {
    if s == [] {
      assert s + t == t;
    } else {
      WithoutReturnsAppend(s[1..], t);
      WithoutReturnsFirst(s[0], s[1..]);
      WithoutReturnsFirst(s[0], s[1..] + t);
      FirstAndRest(s);
      Regroup([s[0]], s[1..], t);
      hide WithoutReturns;
    }
  }

  lemma {:induction false} EscapedWithoutReturns(arg: Bytes)
    ensures Escaped(WithoutReturns(arg)) == WithoutReturns(Escaped(arg))
  {
    if arg != [] {
      EscapedWithoutReturns(arg[1..]);
      WithoutReturnsAppend(EscapedByte(arg[0]), Escaped(arg[1..]));
      ByteWithoutReturns(arg[0]);
      if arg[0] != RETURN {
        assert WithoutReturns(arg)[1..] == WithoutReturns(arg[1..]);
      } else {
        assert WithoutReturns(arg) == WithoutReturns(arg[1..]);
      }
    }
  }

  lemma ByteWithoutReturns(c: Byte)
    ensures WithoutReturns(EscapedByte(c)) == if c == RETURN then [] else EscapedByte(c)
  {
    var e := EscapedByte(c);
    assert e == [e[0]] + e[1..];
    assert WithoutReturns([]) == [];
    if |e| == 2 {
      assert e[1..] == [e[1]] && [e[1]][1..] == [];
      assert WithoutReturns([e[1]]) == [e[1]];
    } else {
      assert e[1..] == [];
    }
  }

  lemma SpaceIsKept()
    ensures WithoutReturns([SPACE]) == [SPACE]
  {
    assert [SPACE][1..] == [];
  }

  function EachWithoutReturns(args: seq<Bytes>): (r: seq<Bytes>)
    ensures |r| == |args| && forall i | 0 <= i < |args| :: r[i] == WithoutReturns(args[i])
  {
    if args == [] then [] else [WithoutReturns(args[0])] + EachWithoutReturns(args[1..])
  }

  lemma {:induction false} JoinedWithoutReturns(args: seq<Bytes>)
    requires args != []
    ensures Joined(EachWithoutReturns(args)) == WithoutReturns(Joined(args))
  {
    EscapedWithoutReturns(args[0]);
    if |args| > 1 {
      hide Escaped;
      JoinedWithoutReturns(args[1..]);
      WithoutReturnsAppend(Escaped(args[0]) + [SPACE], Joined(args[1..]));
      WithoutReturnsAppend(Escaped(args[0]), [SPACE]);
      SpaceIsKept();
      assert EachWithoutReturns(args)[1..] == EachWithoutReturns(args[1..]);
      hide WithoutReturns;
    }
  }

  lemma {:induction false} NoReturnsKeepsAll(s: Bytes)
    ensures |WithoutReturns(s)| <= |s|
    ensures WithoutReturns(s) == s <==> RETURN !in s
  {
    if s != [] {
      NoReturnsKeepsAll(s[1..]);
      assert s == [s[0]] + s[1..];
      assert s[0] != RETURN ==> WithoutReturns(s)[1..] == WithoutReturns(s[1..]);
    }
  }

  /** What the server makes of the line the client sends for these arguments. */
  function Received(args: seq<Bytes>, rest: Bytes): Parsed
    requires args != []
  {
    CommandOf(Joined(args) + [NEWLINE] + rest)
  }

  predicate CStrings(args: seq<Bytes>) {
    forall i | 0 <= i < |args| :: NUL !in args[i]
  }

  lemma {:induction false} EscapedHasNoNul(arg: Bytes)
    requires NUL !in arg
    ensures NUL !in Escaped(arg)
  {
    if arg != [] {
      EscapedHasNoNul(arg[1..]);
    }
  }

  lemma {:induction false} JoinedHasNoNul(args: seq<Bytes>)
    requires args != [] && CStrings(args)
    ensures NUL !in Joined(args)
  {
    EscapedHasNoNul(args[0]);
    if |args| > 1 {
      JoinedHasNoNul(args[1..]);
    }
  }

  lemma {:induction false} WithoutReturnsHasNoNul(s: Bytes)
    ensures NUL !in s ==> NUL !in WithoutReturns(s)
  {
    if s != [] {
      WithoutReturnsHasNoNul(s[1..]);
    }
  }

  /** A line that is short enough arrives, with all carriage returns lost. */
  lemma CommandsArrive(args: seq<Bytes>, rest: Bytes)
    requires args != [] && CStrings(args)
    ensures Received(args, rest) == if |Joined(args)| < 10240 then Args(EachWithoutReturns(args)) else Args([])
  {
    JoinedHasNoNewline(args);
    LineIsRead(Joined(args), rest, LINE_LIMIT);
    JoinedWithoutReturns(args);
    JoinedHasNoNul(args);
    WithoutReturnsHasNoNul(Joined(args));
    ArgumentsSurvive(EachWithoutReturns(args));
  }

  /** The server gets the client's arguments exactly when they hold no carriage return and are short enough. */
  lemma ArrivesIff(args: seq<Bytes>, rest: Bytes)
    requires args != [] && CStrings(args)
    ensures Received(args, rest) == Args(args)
            <==> |Joined(args)| < 10240 && forall arg: Bytes | arg in args :: 13 !in arg
  {
    CommandsArrive(args, rest);
    forall arg | arg in args
      ensures WithoutReturns(arg) == arg <==> RETURN !in arg
    {
      NoReturnsKeepsAll(arg);
    }
    if forall arg | arg in args :: RETURN !in arg {
      assert EachWithoutReturns(args) == args;
    } else {
      var i :| 0 <= i < |args| && RETURN in args[i];
      assert EachWithoutReturns(args)[i] != args[i];
    }
  }

  /** Carriage returns vanish, and nothing else does. */
  lemma ReturnsVanish(x: Bytes, y: Bytes)
    ensures WithoutReturns(x + ([13] + y)) == WithoutReturns(x) + WithoutReturns(y)
    ensures 13 !in x ==> WithoutReturns(x) == x
  {
    WithoutReturnsAppend(x, [13] + y);
    WithoutReturnsFirst(13, y);
    NoReturnsKeepsAll(x);
  }

  // ----- Lines byte by byte -----

  lemma {:induction false} PlainIsRead(str: Bytes, x: Bytes, r: Bytes)
    requires 92 !in x && 32 !in x
    ensures ArgsFrom(str, x + r) == ArgsFrom(str + x, r)
    decreases |x|
  {
    if x == [] {
      assert x + r == r && str + x == str;
    } else {
      PlainIsRead(str + [x[0]], x[1..], r);
      assert (x + r)[1..] == x[1..] + r;
      FirstAndRest(x);
      Regroup(str, [x[0]], x[1..]);
    }
  }

  /** On the server's side a space ends an argument, and behind a backslash n is a newline and all else itself. */
  lemma LineIsTakenApart(x: Bytes, c: Byte, y: Bytes)
    requires 92 !in x && 32 !in x && 92 !in y && 32 !in y
    ensures ArgsFrom([], x + ([32] + y)) == Args([x, y])
    ensures ArgsFrom([], x + ([92, c] + y)) == Args([x + [if c == 110 then 10 else c] + y])
  {
    PlainIsRead([], x, [32] + y);
    PlainIsRead([], x, [92, c] + y);
    assert [] + x == x && y + [] == y && [] + y == y;
    assert ([32] + y)[1..] == y && ([92, c] + y)[2..] == y;
    PlainIsRead([], y, []);
    PlainIsRead(x + [if c == 110 then 10 else c], y, []);
  }

  /** On the client's side plain arguments are joined as they are. */
  lemma {:induction false} PlainIsSent(x: Bytes)
    requires 92 !in x && 32 !in x && 10 !in x
    ensures Escaped(x) == x
  {
    if x != [] {
      PlainIsSent(x[1..]);
      FirstAndRest(x);
    }
  }
}
