/** Content-Length framing (LSP 3.17, Base Protocol): the client's writer and reader.
    A byte stream is a `string`; each character stands for one byte. */
module LspFrames {
  import opened Characters
  import opened Options
  import opened Sequences

  // Numbers.

  function Digit(n: nat): (c: char)
    requires n < 10
  {
    ('0' as int + n) as char
  }

  function Decimal(n: nat): (r: string)
    ensures r != ""
  {
    if n < 10 then [Digit(n)] else Decimal(n / 10) + [Digit(n % 10)]
  }

  predicate IsDigit(c: char)
  {
    '0' <= c <= '9'
  }

  /** Decimal digits, with single underscores allowed between them. */
  function ParseDigits(s: string): (r: Option<int>)
    decreases |s|
  {
    if s == "" || !IsDigit(s[|s| - 1]) then None
    else
      var d, init := s[|s| - 1] as int - '0' as int, s[..|s| - 1];
      if init == "" then Some(d)
      else
        var more := ParseDigits(if init[|init| - 1] == '_' then init[..|init| - 1] else init);
        if more.None? then None else Some(more.value * 10 + d)
  }

  /** Python's `int` on a stripped text. */
  function ParseInt(s: string): (r: Option<int>)
  {
    if s != "" && s[0] == '-' then
      var n := ParseDigits(s[1..]);
      if n.None? then None else Some(-n.value)
    else if s != "" && s[0] == '+' then ParseDigits(s[1..])
    else ParseDigits(s)
  }

  lemma {:induction false} DecimalDigits(n: nat)
    ensures ParseDigits(Decimal(n)) == Some(n)
    ensures forall i :: 0 <= i < |Decimal(n)| ==> IsDigit(Decimal(n)[i])
  {
    if n >= 10 {
      DecimalDigits(n / 10);
      var init := Decimal(n / 10);
      assert Decimal(n)[..|init|] == init;
      assert IsDigit(init[|init| - 1]);
    }
  }

  /** Every length survives being printed and parsed. */
  lemma {:induction false} DecimalRoundTrip(n: nat)
    ensures ParseInt(Decimal(n)) == Some(n)
  {
    DecimalDigits(n);
    assert IsDigit(Decimal(n)[0]);
  }

  // Lines and headers.

  function StripLeft(s: string): (r: string)
    ensures |r| <= |s|
  {
    if s != "" && IsSpace(s[0]) then StripLeft(s[1..]) else s
  }

  function Strip(s: string): (r: string)
  {
    StripRight(StripLeft(s))
  }

  /** `rstrip("\r\n")`. */
  function StripLineEnd(s: string): (r: string)
  {
    if s != "" && (s[|s| - 1] == '\r' || s[|s| - 1] == '\n') then StripLineEnd(s[..|s| - 1]) else s
  }

  function LowerCase(s: string): (r: string)
  {
    seq(|s|, i requires 0 <= i < |s| => if 'A' <= s[i] <= 'Z' then (s[i] as int + 32) as char else s[i])
  }

  const Capitals := "ABCDEFGHIJKLMNOPQRSTUVWXYZ"
  const Smalls := "abcdefghijklmnopqrstuvwxyz"

  lemma {:induction false} LettersAre(k: nat)
    requires k < 26
    ensures |Capitals| == 26 && |Smalls| == 26
    ensures Capitals[k] as int == 'A' as int + k
    ensures Smalls[k] as int == 'a' as int + k
  {
  }

  /** Field names are compared without case: every capital letter becomes its small letter, and nothing else changes. */
  lemma {:induction false} LowerCaseIs(s: string, i: nat, k: nat)
    requires i < |s| && k < 26
    ensures |LowerCase(s)| == |s|
    ensures s[i] == Capitals[k] ==> LowerCase(s)[i] == Smalls[k]
    ensures s[i] !in Capitals ==> LowerCase(s)[i] == s[i]
  {
    hide Capitals, Smalls;
    LettersAre(k);
    if 'A' <= s[i] <= 'Z' {
      var at := s[i] as int - 'A' as int;
      LettersAre(at);
      assert s[i] == Capitals[at];
    }
  }

  /** `readline`: how long the first line is, its newline included. */
  function LineLength(s: string): (n: nat)
    ensures n <= |s|
    ensures s != "" ==> n > 0
  {
    if s == "" then 0 else if s[0] == '\n' then 1 else 1 + LineLength(s[1..])
  }

  function IndexOf(s: string, c: char): (i: int)
    ensures -1 <= i < |s|
    ensures i >= 0 ==> s[i] == c && c !in s[..i]
    ensures i < 0 ==> c !in s
  {
    if s == "" then -1
    else if s[0] == c then 0
    else var i := IndexOf(s[1..], c); if i < 0 then -1 else i + 1
  }

  type Fields = map<string, string>

  function AddField(fields: Fields, line: string): (r: Fields)
  {
    var i := IndexOf(line, ':');
    if i < 0 then fields else fields[LowerCase(Strip(line[..i])) := Strip(line[i + 1..])]
  }

  datatype Head = EndOfStream | Head(fields: Fields, rest: string)

  function ReadHead(s: string, fields: Fields): (h: Head)
    ensures h.Head? ==> |h.rest| < |s|
    decreases |s|
  {
    if s == "" then EndOfStream
    else
      var n := LineLength(s);
      var line := StripLineEnd(s[..n]);
      if line == "" then Head(fields, s[n..]) else ReadHead(s[n..], AddField(fields, line))
  }

  /** What the reader hands on: the bodies in order, and whether a length it cannot use ended it. */
  datatype Read = Read(bodies: seq<string>, crashed: bool)

  function Prepend(bodies: seq<string>, r: Read): (x: Read)
  {
    Read(bodies + r.bodies, r.crashed)
  }

  function ContentLength(fields: Fields): (n: Option<int>)
  {
    if "content-length" in fields then ParseInt(fields["content-length"]) else Some(0)
  }

  /** `read(n)`: at most `n` bytes, and everything when `n` is -1; lower numbers are refused. */
  function BodyLength(n: int, rest: string): (k: nat)
    requires n >= -1
    ensures k <= |rest|
  {
    if 0 <= n <= |rest| then n else |rest|
  }

  function ReadFrames(s: string): (r: Read)
    decreases |s|
  {
    match ReadHead(s, map[])
    case EndOfStream => Read([], false)
    case Head(fields, rest) =>
      match ContentLength(fields)
      case None => Read([], true)
      case Some(n) =>
        if n == 0 then ReadFrames(rest)
        else if n < -1 then Read([], true)
        else
          var k := BodyLength(n, rest);
          Prepend([rest[..k]], ReadFrames(rest[k..]))
  }

  function Frame(body: string): (r: string)
  {
    "Content-Length: " + Decimal(|body|) + "\r\n" + ("\r\n" + body)
  }

  function Frames(bodies: seq<string>): (r: string)
  {
    if bodies == [] then "" else Frame(bodies[0]) + Frames(bodies[1..])
  }

  // The reader undoes the writer.

  lemma {:induction false} FirstLine(line: string, rest: string)
    requires '\n' !in line
    ensures LineLength(line + "\n" + rest) == |line| + 1
  {
    var s := line + "\n" + rest;
    if line == "" {
    } else {
      assert s[1..] == line[1..] + "\n" + rest;
      FirstLine(line[1..], rest);
    }
  }

  lemma {:induction false} StripsToItself(s: string)
    requires s != "" && !IsSpace(s[0]) && !IsSpace(s[|s| - 1])
    ensures Strip(s) == s && Strip(" " + s) == s
  {
    assert (" " + s)[1..] == s;
  }

  lemma {:induction false} DigitsAreNotSpace(n: nat)
    ensures var d := Decimal(n); !IsSpace(d[0]) && !IsSpace(d[|d| - 1]) && '\n' !in d && '\r' !in d
  {
    DecimalDigits(n);
    var d := Decimal(n);
    assert IsDigit(d[0]) && IsDigit(d[|d| - 1]);
  }

  const LengthName := "Content-Length"

  lemma {:induction false} LengthField(n: nat)
    ensures AddField(map[], LengthName + ": " + Decimal(n)) == map["content-length" := Decimal(n)]
  {
    var d := Decimal(n);
    var line := LengthName + ": " + d;
    DigitsAreNotSpace(n);
    assert line[14] == ':' && ':' !in line[..14];
    assert IndexOf(line, ':') == 14;
    assert line[..14] == LengthName;
    assert line[15..] == " " + d;
    StripsToItself(LengthName);
    StripsToItself(d);
    assert LowerCase(LengthName) == "content-length";
  }

  lemma {:induction false} LineEndStripped(line: string)
    requires line != "" && line[|line| - 1] != '\r' && line[|line| - 1] != '\n'
    ensures StripLineEnd(line + "\r\n") == line
  {
    var s := line + "\r\n";
    assert s[..|s| - 1] == line + "\r";
    assert (line + "\r")[..|line|] == line;
    assert StripLineEnd(line + "\r") == StripLineEnd(line);
  }

  lemma {:induction false} ReadHeadOfFrame(n: nat, body: string)
    ensures ReadHead("Content-Length: " + Decimal(n) + "\r\n" + ("\r\n" + body), map[]) ==
              Head(map["content-length" := Decimal(n)], body)
  {
    var d := Decimal(n);
    var line := "Content-Length: " + d;
    var after := "\r\n" + body;
    var s := line + "\r\n" + after;
    DigitsAreNotSpace(n);
    assert line == LengthName + ": " + d;
    assert line[|line| - 1] == d[|d| - 1];
    assert '\n' !in line + "\r";
    assert s == (line + "\r") + "\n" + after;
    FirstLine(line + "\r", after);
    assert s[..|line| + 2] == line + "\r\n" && s[|line| + 2..] == after;
    LineEndStripped(line);
    LengthField(n);
    BlankLine(body, map["content-length" := d]);
  }

  lemma {:induction false} BlankLine(body: string, fields: Fields)
    ensures ReadHead("\r\n" + body, fields) == Head(fields, body)
  {
    var s := "\r\n" + body;
    assert s == "\r" + "\n" + body;
    FirstLine("\r", body);
    assert s[..2] == "\r\n" && s[2..] == body;
    assert "\r\n"[..1] == "\r" && "\r"[..0] == "";
    assert StripLineEnd("\r") == "" && StripLineEnd("\r\n") == "";
  }

  /** One frame is read as its body, and the reader goes on right after it; an empty body is skipped. */
  lemma {:induction false} ReadOneFrame(body: string, tail: string)
    ensures ReadFrames(Frame(body) + tail) == Prepend(if body == "" then [] else [body], ReadFrames(tail))
  {
    var head := "Content-Length: " + Decimal(|body|) + "\r\n";
    ReadHeadOfFrame(|body|, body + tail);
    DecimalRoundTrip(|body|);
    assert Frame(body) + tail == head + ("\r\n" + (body + tail));
    DropPrefix(body, tail);
    if body == "" {
      assert body + tail == tail;
      assert [] + ReadFrames(tail).bodies == ReadFrames(tail).bodies;
    }
  }

  ghost function NonEmpty(bodies: seq<string>): (r: seq<string>)
  {
    if bodies == [] then []
    else (if bodies[0] == "" then [] else [bodies[0]]) + NonEmpty(bodies[1..])
  }

  /** Reading what was written gives the non-empty bodies back in order, whatever bytes they hold. */
  lemma {:induction false} ReadWritten(bodies: seq<string>, tail: string)
    ensures ReadFrames(Frames(bodies) + tail) == Prepend(NonEmpty(bodies), ReadFrames(tail))
  {
    if bodies == [] {
      assert Frames(bodies) + tail == tail;
      assert [] + ReadFrames(tail).bodies == ReadFrames(tail).bodies;
    } else {
      var rest := Frames(bodies[1..]);
      Associates(Frame(bodies[0]), rest, tail);
      ReadOneFrame(bodies[0], rest + tail);
      ReadWritten(bodies[1..], tail);
      Associates(if bodies[0] == "" then [] else [bodies[0]], NonEmpty(bodies[1..]), ReadFrames(tail).bodies);
    }
  }

  lemma {:induction false} NonEmptyKeeps(bodies: seq<string>)
    ensures |NonEmpty(bodies)| <= |bodies|
    ensures NonEmpty(bodies) == bodies <==> forall i :: 0 <= i < |bodies| ==> bodies[i] != ""
  {
    if bodies == [] {
    } else {
      NonEmptyKeeps(bodies[1..]);
      HeadTail(bodies);
      assert forall i :: 0 <= i < |bodies| - 1 ==> bodies[1..][i] == bodies[i + 1];
      if bodies[0] != "" {
        assert NonEmpty(bodies)[1..] == NonEmpty(bodies[1..]);
      }
    }
  }

  /** The frames of a sequence of bodies read back as exactly that sequence when, and only when, no body is empty. */
  lemma {:induction false} FramesRoundTrip(bodies: seq<string>)
    ensures ReadFrames(Frames(bodies)) == Read(bodies, false) <==> forall i :: 0 <= i < |bodies| ==> bodies[i] != ""
  {
    ReadWritten(bodies, "");
    assert Frames(bodies) + "" == Frames(bodies);
    assert ReadFrames("") == Read([], false);
    assert NonEmpty(bodies) + [] == NonEmpty(bodies);
    NonEmptyKeeps(bodies);
  }

  /** An empty body is lost on the way. */
  lemma {:induction false} EmptyBodyIsLost()
    ensures ReadFrames(Frames([""])) == Read([], false)
  {
    ReadWritten([""], "");
    assert Frames([""]) + "" == Frames([""]);
    assert [""][1..] == [] && NonEmpty([""]) == [];
    assert ReadFrames("") == Read([], false);
  }

  // Frames as another writer may send them.

  /** A header line: a name, blanks after its colon, a value, and either line end. */
  datatype Header = Header(name: string, pad: string, value: string, crlf: bool)

  ghost predicate Trimmed(s: string)
  {
    s != "" && !IsSpace(s[0]) && !IsSpace(s[|s| - 1]) && '\n' !in s && '\r' !in s
  }

  ghost predicate HeaderOk(h: Header)
  {
    && Trimmed(h.name) && ':' !in h.name && Trimmed(h.value)
    && forall i :: 0 <= i < |h.pad| ==> h.pad[i] == ' ' || h.pad[i] == '\t'
  }

  function LineOf(h: Header): (s: string)
  {
    h.name + ":" + (h.pad + h.value)
  }

  function LineBreak(crlf: bool): (s: string)
  {
    if crlf then "\r\n" else "\n"
  }

  function ShowHeaders(hs: seq<Header>): (s: string)
  {
    if hs == [] then "" else LineOf(hs[0]) + LineBreak(hs[0].crlf) + ShowHeaders(hs[1..])
  }

  /** The fields that the lines add: names in lower case, the last line for a name wins. */
  function AddAll(fields: Fields, hs: seq<Header>): (r: Fields)
    decreases |hs|
  {
    if hs == [] then fields else AddAll(fields[LowerCase(hs[0].name) := hs[0].value], hs[1..])
  }

  lemma {:induction false} StripPadded(pad: string, value: string)
    requires (forall i :: 0 <= i < |pad| ==> IsSpace(pad[i])) && Trimmed(value)
    ensures Strip(pad + value) == value
    decreases |pad|
  {
    if pad == "" {
      assert pad + value == value;
      StripsToItself(value);
    } else {
      assert (pad + value)[1..] == pad[1..] + value;
      StripPadded(pad[1..], value);
    }
  }

  lemma {:induction false} IndexOfFirst(a: string, b: string, c: char)
    requires c !in a
    ensures IndexOf(a + [c] + b, c) == |a|
  {
    if a == "" {
      assert a + [c] + b == [c] + b;
    } else {
      IndexOfFirst(a[1..], b, c);
      assert (a + [c] + b)[1..] == a[1..] + [c] + b;
    }
  }

  lemma {:induction false} HeaderIsRead(fields: Fields, h: Header)
    requires HeaderOk(h)
    ensures AddField(fields, LineOf(h)) == fields[LowerCase(h.name) := h.value]
  {
    var line := LineOf(h);
    IndexOfFirst(h.name, h.pad + h.value, ':');
    assert line[..|h.name|] == h.name && line[|h.name| + 1..] == h.pad + h.value;
    StripsToItself(h.name);
    StripPadded(h.pad, h.value);
    hide LowerCase, Strip, IndexOf;
  }

  lemma {:induction false} LineIsRead(line: string, crlf: bool, rest: string)
    requires '\n' !in line && (line != "" ==> line[|line| - 1] != '\r')
    ensures var s := line + LineBreak(crlf) + rest;
      && LineLength(s) == |line| + |LineBreak(crlf)| && s[LineLength(s)..] == rest
      && StripLineEnd(s[..LineLength(s)]) == line
  {
    var s := line + LineBreak(crlf) + rest;
    if crlf {
      assert s == (line + "\r") + "\n" + rest;
      FirstLine(line + "\r", rest);
      assert s[..|line| + 2] == line + "\r\n";
      assert (line + "\r\n")[..|line| + 1] == line + "\r" && (line + "\r")[..|line|] == line;
      assert StripLineEnd(line + "\r\n") == StripLineEnd(line + "\r") == StripLineEnd(line);
    } else {
      FirstLine(line, rest);
      assert s[..|line| + 1] == line + "\n" && (line + "\n")[..|line|] == line;
      assert StripLineEnd(line + "\n") == StripLineEnd(line);
    }
    assert line != "" ==> line[|line| - 1] in line;
  }

  /** Header lines in any order, of any names, are read up to the empty line. */
  lemma {:induction false} HeadersAreRead(hs: seq<Header>, crlf: bool, rest: string, fields: Fields)
    requires forall i :: 0 <= i < |hs| ==> HeaderOk(hs[i])
    ensures ReadHead(ShowHeaders(hs) + (LineBreak(crlf) + rest), fields) == Head(AddAll(fields, hs), rest)
    decreases |hs|
  {
    if hs == [] {
      hide LineLength, StripLineEnd;
      LineIsRead("", crlf, rest);
      assert ShowHeaders(hs) + (LineBreak(crlf) + rest) == "" + LineBreak(crlf) + rest;
    } else {
      hide ReadHead, HeaderOk, LineBreak, LowerCase, ShowHeaders;
      FirstHeaderIsRead(hs, LineBreak(crlf) + rest, fields);
      HeadersAreRead(hs[1..], crlf, rest, fields[LowerCase(hs[0].name) := hs[0].value]);
    }
  }

  lemma {:induction false} FirstHeaderIsRead(hs: seq<Header>, tail: string, fields: Fields)
    requires hs != [] && HeaderOk(hs[0])
    ensures ReadHead(ShowHeaders(hs) + tail, fields) ==
              ReadHead(ShowHeaders(hs[1..]) + tail, fields[LowerCase(hs[0].name) := hs[0].value])
  {
    hide HeaderOk, LineOf, LineBreak, AddField, LowerCase, ReadHead;
    var h, more := hs[0], ShowHeaders(hs[1..]);
    LineEndsWell(h);
    Associates(LineOf(h) + LineBreak(h.crlf), more, tail);
    OneLineIsRead(LineOf(h), h.crlf, more + tail, fields);
    HeaderIsRead(fields, h);
  }

  lemma {:induction false} OneLineIsRead(line: string, crlf: bool, more: string, fields: Fields)
    requires line != "" && '\n' !in line && line[|line| - 1] != '\r'
    ensures ReadHead(line + LineBreak(crlf) + more, fields) == ReadHead(more, AddField(fields, line))
  {
    LineIsRead(line, crlf, more);
    hide AddField, LineLength, StripLineEnd, LineBreak;
  }

  lemma {:induction false} LineEndsWell(h: Header)
    requires HeaderOk(h)
    ensures var line := LineOf(h); line != "" && '\n' !in line && line[|line| - 1] != '\r'
  {
    var line := LineOf(h);
    assert line[|line| - 1] == h.value[|h.value| - 1];
    assert h.value[|h.value| - 1] in h.value;
  }

  /** What the reader makes of a header block and what follows it. */
  lemma {:induction false} BlockIsRead(hs: seq<Header>, crlf: bool, rest: string)
    requires forall i :: 0 <= i < |hs| ==> HeaderOk(hs[i])
    ensures var fields := AddAll(map[], hs);
      var n := if "content-length" in fields then ParseInt(fields["content-length"]) else Some(0);
      ReadFrames(ShowHeaders(hs) + (LineBreak(crlf) + rest)) ==
        if n == None || n.value < -1 then Read([], true)
        else if n.value == 0 then ReadFrames(rest)
        else if n.value == -1 || n.value > |rest| then Prepend([rest], ReadFrames(""))
        else Prepend([rest[..n.value]], ReadFrames(rest[n.value..]))
  {
    HeadersAreRead(hs, crlf, rest, map[]);
    assert rest[..|rest|] == rest && rest[|rest|..] == "";
    hide ReadHead, ParseInt, AddAll;
  }

  /** What counts as a length: a sign is allowed, and single underscores between digits; nothing else. */
  lemma {:induction false} LengthsAreRead(n: int)
    requires n >= 0
    ensures ParseInt("-" + Decimal(n)) == Some(-n) && ParseInt("+" + Decimal(n)) == Some(n)
    ensures ParseInt("") == None && ParseInt("-") == None && ParseInt("+-1") == None
    ensures ParseInt("1_0") == Some(10) && ParseInt("_1") == None && ParseInt("1_") == None && ParseInt("1__0") == None
  {
    DecimalDigits(n);
    DropPrefix("-", Decimal(n));
    DropPrefix("+", Decimal(n));
    Underscores();
    hide Decimal, ParseDigits;
    assert "-"[1..] == "" && "+-1"[1..] == "-1";
  }

  lemma {:induction false} Underscores()
    ensures ParseDigits("") == None && ParseDigits("-1") == None
    ensures ParseDigits("1_0") == Some(10) && ParseDigits("_1") == None
    ensures ParseDigits("1_") == None && ParseDigits("1__0") == None
  {
    assert "-1"[..1] == "-" && "_1"[..1] == "_" && "_"[..0] == "";
    assert "1_0"[..2] == "1_" && "1_"[..1] == "1" && "1"[..0] == "";
    assert "1__0"[..3] == "1__" && "1__"[..2] == "1_";
    assert ParseDigits("-") == None && ParseDigits("1") == Some(1) && ParseDigits("1_") == None;
  }

  // The read loop.

  method ReadHeaders(stream: string) returns (h: Head)
    ensures h == ReadHead(stream, map[])
  {
    var rest, fields: Fields := stream, map[];
    while true
      invariant ReadHead(stream, map[]) == ReadHead(rest, fields)
      decreases |rest|
    {
      var n := LineLength(rest);
      if n == 0 {
        return EndOfStream;
      }
      var line := StripLineEnd(rest[..n]);
      rest := rest[n..];
      if line == "" {
        return Head(fields, rest);
      }
      fields := AddField(fields, line);
    }
  }

  lemma {:induction false} PrependTwice(a: seq<string>, b: seq<string>, r: Read)
    ensures Prepend(a, Prepend(b, r)) == Prepend(a + b, r)
  {
    Associates(a, b, r.bodies);
  }

  method ReadLoop(stream: string) returns (bodies: seq<string>, crashed: bool)
    ensures Read(bodies, crashed) == ReadFrames(stream)
  {
    bodies := [];
    var rest := stream;
    assert [] + ReadFrames(stream).bodies == ReadFrames(stream).bodies;
    while true
      invariant ReadFrames(stream) == Prepend(bodies, ReadFrames(rest))
      decreases |rest|
    {
      var head := ReadHeaders(rest);
      if head.EndOfStream? {
        assert bodies + [] == bodies;
        return bodies, false;
      }
      var length := ContentLength(head.fields);
      if length.None? {
        assert bodies + [] == bodies;
        return bodies, true;
      }
      if length.value == 0 {
        rest := head.rest;
        continue;
      }
      if length.value < -1 {
        assert bodies + [] == bodies;
        return bodies, true;
      }
      var k := BodyLength(length.value, head.rest);
      PrependTwice(bodies, [head.rest[..k]], ReadFrames(head.rest[k..]));
      bodies := bodies + [head.rest[..k]];
      rest := head.rest[k..];
    }
  }
}
