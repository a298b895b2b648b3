/** The Tcl list codec: `Tcl_SplitList` and `Tcl_Merge`, and the law that one undoes the other. */
module TclList {
  import opened Sequences
  import opened TclBackslash

  datatype ListError = UnmatchedBrace | UnmatchedQuote | BraceFollowedByJunk | QuoteFollowedByJunk

  datatype Result<+T> = Ok(value: T) | Err(error: ListError)

  predicate IsListSpace(c: char)
  {
    c == ' ' || c == '\t' || c == '\n' || c == '\r' || c == '\U{0B}' || c == '\U{0C}'
  }

  function SkipSpace(t: string): (r: string)
    ensures |r| <= |t|
    ensures r != "" ==> !IsListSpace(r[0])
  {
    if t != "" && IsListSpace(t[0]) then SkipSpace(t[1..]) else t
  }

  /** An element read off the front of a text: its raw interior, whether that interior needs no
      decoding, and what follows the closing delimiter. */
  datatype Scan = Closed(raw: string, literal: bool, rest: string) | Bad(error: ListError)

  function Prepend(taken: string, literal: bool, s: Scan): (r: Scan)
  {
    if s.Closed? then Closed(taken + s.raw, literal && s.literal, s.rest) else s
  }

  /** How many characters a backslash at the head of `t` protects from the boundary scan. */
  function EscapeSpan(t: string, braced: bool): (n: nat)
    requires t != ""
    ensures 1 <= n <= |t|
  {
    if |t| == 1 then 1
    else if !braced && t[1] == '\n' then 2 + BlankRun(t[2..])
    else 2
  }

  function Close(rest: string, junk: ListError): (s: Scan)
  {
    if rest != "" && !IsListSpace(rest[0]) then Bad(junk) else Closed("", true, rest)
  }

  /** One step of the boundary scan at the head of a text: stop here, or take characters and go on. */
  datatype Step = Stop(scan: Scan) | Take(n: nat, open: nat, keepsLiteral: bool)

  function BodyStep(t: string, open: nat, quoted: bool): (st: Step)
    requires t != ""
    ensures st.Take? ==> 1 <= st.n <= |t|
  {
    if t[0] == '{' && open != 0 then Take(1, open + 1, true)
    else if t[0] == '}' && open == 1 then Stop(Close(t[1..], BraceFollowedByJunk))
    else if t[0] == '}' && open > 1 then Take(1, open - 1, true)
    else if t[0] == '"' && quoted then Stop(Close(t[1..], QuoteFollowedByJunk))
    else if t[0] == '\\' then Take(EscapeSpan(t, open != 0), open, open != 0)
    else if open == 0 && !quoted && IsListSpace(t[0]) then Stop(Closed("", true, t))
    else Take(1, open, true)
  }

  /** The element body at the head of `t`, `open` braces deep or inside quotes. */
  function ScanBody(t: string, open: nat, quoted: bool): (s: Scan)
    ensures s.Closed? ==> |s.rest| <= |t|
    ensures s.Closed? && open == 0 && !quoted && t != "" && !IsListSpace(t[0]) ==> |s.rest| < |t|
    decreases |t|
  {
    if t == "" then
      if open != 0 then Bad(UnmatchedBrace)
      else if quoted then Bad(UnmatchedQuote)
      else Closed("", true, "")
    else match BodyStep(t, open, quoted)
      case Stop(scan) => scan
      case Take(n, o, keepsLiteral) => Prepend(t[..n], keepsLiteral, ScanBody(t[n..], o, quoted))
  }

  function ScanWord(t: string): (s: Scan)
    requires t != "" && !IsListSpace(t[0])
    ensures s.Closed? ==> |s.rest| < |t|
  {
    if t[0] == '{' then ScanBody(t[1..], 1, false)
    else if t[0] == '"' then ScanBody(t[1..], 0, true)
    else ScanBody(t, 0, false)
  }

  /** `Tcl_SplitList`: the decoded elements of a list string. */
  function Split(t: string): (r: Result<seq<string>>)
    decreases |t|
  {
    var u := SkipSpace(t);
    if u == "" then Ok([])
    else match ScanWord(u)
      case Bad(error) => Err(error)
      case Closed(raw, literal, rest) =>
        var first := if literal then raw else Subst(raw);
        match Split(rest)
        case Err(error) => Err(error)
        case Ok(others) => Ok([first] + others)
  }

  // Rendering.

  datatype Quote = Verbatim | Brace | EscapeAll | Mask

  datatype Flags = Flags(forbidNone: bool, requireEscape: bool, preferEscape: bool, preferBrace: bool, depth: int)

  function InitialFlags(b: string, hashUnsafe: bool): (f: Flags)
    requires b != ""
  {
    var lead := b[0] == '{' || b[0] == '"';
    Flags(lead, false, false, lead || (hashUnsafe && b[0] == '#'), 0)
  }

  /** What one step of the quoting scan does at the head of `t`: the new flags and the characters taken. */
  function FlagStep(t: string, f: Flags): (r: (Flags, nat))
    requires t != ""
    ensures 1 <= r.1 <= |t|
  {
    var c := t[0];
    if c == '{' then (f.(depth := f.depth + 1), 1)
    else if c == '}' then
      (f.(depth := f.depth - 1, requireEscape := f.requireEscape || f.depth < 1), 1)
    else if c == ']' || c == '"' then (f.(forbidNone := true, preferEscape := true), 1)
    else if c == '[' || c == '$' || c == ';' || IsListSpace(c) then
      (f.(forbidNone := true, preferBrace := true), 1)
    else if c == '\\' then
      if |t| == 1 then (f.(requireEscape := true), 1)
      else if t[1] == '\n' then (f.(requireEscape := true), 2)
      else (f.(forbidNone := true, preferBrace := true), if t[1] == '{' || t[1] == '}' || t[1] == '\\' then 2 else 1)
    else (f, 1)
  }

  function ScanFlags(t: string, f: Flags): (r: Flags)
    decreases |t|
  {
    if t == "" then f.(requireEscape := f.requireEscape || f.depth > 0)
    else var (g, n) := FlagStep(t, f); ScanFlags(t[n..], g)
  }

  function Decide(f: Flags): (q: Quote)
  {
    if f.requireEscape then EscapeAll
    else if !f.forbidNone then Verbatim
    else if f.preferEscape && !f.preferBrace then Mask
    else Brace
  }

  /** `TclScanElement`: how a value must be quoted to stand as one element. */
  function QuoteFor(b: string, hashUnsafe: bool): (q: Quote)
  {
    if b == "" then Brace else Decide(ScanFlags(b, InitialFlags(b, hashUnsafe)))
  }

  predicate NeedsEscape(c: char, braces: bool)
  {
    || c == '[' || c == ']' || c == '$' || c == ';' || c == '\\' || c == '"'
    || IsListSpace(c)
    || (braces && (c == '{' || c == '}'))
  }

  /** The character written after the backslash. */
  function EscapeLetter(c: char): (r: char)
  {
    match c
    case '\n' => 'n'
    case '\t' => 't'
    case '\r' => 'r'
    case '\U{0B}' => 'v'
    case '\U{0C}' => 'f'
    case _ => c
  }

  function EscapeChar(c: char, braces: bool): (r: string)
  {
    if NeedsEscape(c, braces) then ['\\', EscapeLetter(c)] else [c]
  }

  function EscapeText(b: string, braces: bool): (r: string)
  {
    if b == "" then "" else EscapeChar(b[0], braces) + EscapeText(b[1..], braces)
  }

  /** `TclConvertElement`: one value rendered as one list element. */
  function Render(b: string, hashUnsafe: bool): (r: string)
  {
    var q := QuoteFor(b, hashUnsafe);
    var leadHash := hashUnsafe && b != "" && b[0] == '#';
    match if leadHash && q != EscapeAll then Brace else q
    case Verbatim => b
    case Brace => "{" + b + "}"
    case Mask => EscapeText(b, false)
    case EscapeAll => if leadHash then "\\#" + EscapeText(b[1..], true) else EscapeText(b, true)
  }

  function JoinTail(xs: seq<string>): (r: string)
  {
    if xs == [] then "" else " " + Render(xs[0], false) + JoinTail(xs[1..])
  }

  /** `Tcl_Merge`: values joined into a list string. */
  function Join(xs: seq<string>): (r: string)
  {
    if xs == [] then "" else Render(xs[0], true) + JoinTail(xs[1..])
  }

  // Reading back a brace-quoted element.

  /** Braces nest from `depth`, every backslash protects the character after it, none dangles. */
  ghost predicate BraceSafe(t: string, depth: nat)
    decreases |t|
  {
    if t == "" then depth == 0
    else if t[0] == '\\' then |t| >= 2 && BraceSafe(t[2..], depth)
    else if t[0] == '{' then BraceSafe(t[1..], depth + 1)
    else if t[0] == '}' then depth > 0 && BraceSafe(t[1..], depth - 1)
    else BraceSafe(t[1..], depth)
  }

  lemma {:induction false} FlagsOnlyGrow(t: string, f: Flags)
    ensures f.requireEscape ==> ScanFlags(t, f).requireEscape
    ensures f.forbidNone ==> ScanFlags(t, f).forbidNone
    ensures f.preferBrace ==> ScanFlags(t, f).preferBrace
    decreases |t|
  {
    if t == "" {
    } else {
      var (g, n) := FlagStep(t, f);
      FlagsOnlyGrow(t[n..], g);
    }
  }

  lemma {:induction false} BraceSafeStep(t: string, f: Flags)
    requires t != "" && f.depth >= 0 && !FlagStep(t, f).0.requireEscape
    ensures var (g, n) := FlagStep(t, f);
            g.depth >= 0 && (BraceSafe(t[n..], g.depth) ==> BraceSafe(t, f.depth))
  {
    if t[0] == '\\' {
      assert |t| > 1 && FlagStep(t, f).0.depth == f.depth;
      if FlagStep(t, f).1 == 1 {
        assert t[1..][0] != '\\' && t[1..][0] != '{' && t[1..][0] != '}';
        assert t[1..][1..] == t[2..];
      }
    }
  }

  lemma {:induction false} UnescapedIsBraceSafe(t: string, f: Flags)
    requires f.depth >= 0 && !ScanFlags(t, f).requireEscape
    ensures BraceSafe(t, f.depth)
    decreases |t|
  {
    FlagsOnlyGrow(t, f);
    if t == "" {
    } else {
      var (g, n) := FlagStep(t, f);
      FlagsOnlyGrow(t[n..], g);
      BraceSafeStep(t, f);
      hide FlagStep, BraceSafe;
      UnescapedIsBraceSafe(t[n..], g);
    }
  }

  predicate EndsElement(post: string)
  {
    post == "" || IsListSpace(post[0])
  }

  lemma {:induction false} BracedScan(t: string, depth: nat, post: string)
    requires BraceSafe(t, depth) && EndsElement(post)
    ensures ScanBody(t + "}" + post, depth + 1, false) == Closed(t, true, post)
    decreases |t|
  {
    if t == "" {
      assert t + "}" + post == "}" + post;
      assert ("}" + post)[1..] == post;
    } else {
      var n := if t[0] == '\\' then 2 else 1;
      var d := if t[0] == '{' then depth + 1 else if t[0] == '}' then depth - 1 else depth;
      BracedStep(t, depth, n, d, post);
      BracedScan(t[n..], d, post);
      assert t[..n] + t[n..] == t;
    }
  }

  lemma {:induction false} BracedStep(t: string, depth: nat, n: nat, d: nat, post: string)
    requires t != "" && n == (if t[0] == '\\' then 2 else 1) && n <= |t|
    requires t[0] == '}' ==> depth > 0
    requires d == if t[0] == '{' then depth + 1 else if t[0] == '}' then depth - 1 else depth
    ensures ScanBody(t + "}" + post, depth + 1, false) ==
              Prepend(t[..n], true, ScanBody(t[n..] + "}" + post, d + 1, false))
  {
    var whole := t + "}" + post;
    assert whole[n..] == t[n..] + "}" + post;
    assert whole[..n] == t[..n];
  }

  // Reading back an escaped or verbatim element.

  lemma {:induction false} DecodeEscaped(c: char, braces: bool, tail: string)
    requires NeedsEscape(c, braces)
    ensures Decode(['\\', EscapeLetter(c)] + tail) == Escape(2, c)
    ensures EscapeLetter(c) != '\n'
  {
  }

  lemma {:induction false} EscapedCharSubst(c: char, braces: bool, tail: string)
    ensures Subst(EscapeChar(c, braces) + tail) == [c] + Subst(tail)
  {
    var t := EscapeChar(c, braces) + tail;
    assert t[|EscapeChar(c, braces)|..] == tail;
    if NeedsEscape(c, braces) {
      DecodeEscaped(c, braces, tail);
    }
  }

  lemma {:induction false} EscapedCharScan(c: char, braces: bool, tail: string)
    ensures var e := EscapeChar(c, braces);
            ScanBody(e + tail, 0, false) == Prepend(e, '\\' !in e, ScanBody(tail, 0, false))
  {
    var e := EscapeChar(c, braces);
    var t := e + tail;
    assert t[|e|..] == tail && t[..|e|] == e;
    if NeedsEscape(c, braces) {
      DecodeEscaped(c, braces, tail);
      assert EscapeSpan(t, false) == 2;
    }
  }

  /** An escaped text is read back as one element whose decoding is the original text. */
  lemma {:induction false} EscapedScan(b: string, braces: bool, post: string)
    requires EndsElement(post)
    ensures var e := EscapeText(b, braces);
            && ScanBody(e + post, 0, false) == Closed(e, '\\' !in e, post)
            && Subst(e) == b
    decreases |b|
  {
    if b == "" {
      assert EscapeText(b, braces) + post == post;
    } else {
      var head, rest := EscapeChar(b[0], braces), EscapeText(b[1..], braces);
      EscapedScan(b[1..], braces, post);
      EscapedCharScan(b[0], braces, rest + post);
      EscapedCharSubst(b[0], braces, rest);
      Associates(head, rest, post);
      HeadTail(b);
    }
  }

  lemma {:induction false} VerbatimStep(t: string, f: Flags)
    requires t != "" && !FlagStep(t, f).0.requireEscape && !FlagStep(t, f).0.forbidNone
    ensures FlagStep(t, f).1 == 1 && EscapeChar(t[0], false) == [t[0]]
  {
  }

  /** Nothing in a value the scan lets through verbatim would have been escaped. */
  lemma {:induction false} VerbatimIsEscaped(t: string, f: Flags)
    requires !ScanFlags(t, f).requireEscape && !ScanFlags(t, f).forbidNone
    ensures EscapeText(t, false) == t
    decreases |t|
  {
    if t == "" {
    } else {
      var (g, n) := FlagStep(t, f);
      FlagsOnlyGrow(t[n..], g);
      VerbatimStep(t, f);
      VerbatimIsEscaped(t[1..], g);
      HeadTail(t);
    }
  }

  ghost predicate ReadsBack(r: string, b: string, post: string)
  {
    && r != "" && !IsListSpace(r[0])
    && var s := ScanWord(r + post);
       && s.Closed? && s.rest == post
       && (if s.literal then s.raw else Subst(s.raw)) == b
  }

  /** A bare word that scans to its own end reads back as its decoding. */
  lemma {:induction false} BareReadsBack(e: string, b: string, post: string)
    requires e != "" && !IsListSpace(e[0]) && e[0] != '{' && e[0] != '"'
    requires ScanBody(e + post, 0, false) == Closed(e, '\\' !in e, post)
    requires Subst(e) == b
    ensures ReadsBack(e, b, post)
  {
    if '\\' !in e {
      SubstPlain(e);
    }
  }

  lemma {:induction false} EscapedReadsBack(b: string, braces: bool, post: string)
    requires EndsElement(post) && b != ""
    requires !braces ==> b[0] != '{' && b[0] != '"'
    ensures ReadsBack(EscapeText(b, braces), b, post)
  {
    EscapedScan(b, braces, post);
    BareReadsBack(EscapeText(b, braces), b, post);
  }

  lemma {:induction false} BracedReadsBack(b: string, post: string)
    requires EndsElement(post) && BraceSafe(b, 0)
    ensures ReadsBack("{" + b + "}", b, post)
  {
    var r := "{" + b + "}";
    BracedScan(b, 0, post);
    hide ScanBody, Subst, BraceSafe;
    assert (r + post)[1..] == b + "}" + post;
  }

  lemma {:induction false} HashScan(tail: string)
    ensures ScanBody("\\#" + tail, 0, false) == Prepend("\\#", false, ScanBody(tail, 0, false))
    ensures Subst("\\#" + tail) == "#" + Subst(tail)
  {
    DropPrefix("\\#", tail);
  }

  lemma {:induction false} HashReadsBack(b: string, post: string)
    requires EndsElement(post) && b != "" && b[0] == '#'
    ensures ReadsBack("\\#" + EscapeText(b[1..], true), b, post)
  {
    var e := EscapeText(b[1..], true);
    EscapedScan(b[1..], true, post);
    HashScan(e + post);
    HashScan(e);
    Associates("\\#", e, post);
    HeadTail(b);
    BareReadsBack("\\#" + e, b, post);
  }

  /** Whatever quoting is chosen, the rendered element reads back as exactly the value. */
  lemma {:induction false} RenderReadsBack(b: string, hashUnsafe: bool, post: string)
    requires EndsElement(post)
    ensures ReadsBack(Render(b, hashUnsafe), b, post)
  {
    if b == "" {
      BracedReadsBack(b, post);
      return;
    }
    var f := InitialFlags(b, hashUnsafe);
    FlagsOnlyGrow(b, f);
    var q := QuoteFor(b, hashUnsafe);
    if q == EscapeAll {
      if hashUnsafe && b[0] == '#' {
        HashReadsBack(b, post);
      } else {
        EscapedReadsBack(b, true, post);
      }
    } else {
      UnescapedIsBraceSafe(b, f);
      BracedReadsBack(b, post);
      if q == Mask {
        EscapedReadsBack(b, false, post);
      } else if q == Verbatim {
        VerbatimIsEscaped(b, f);
        EscapedReadsBack(b, false, post);
      }
    }
  }

  lemma {:induction false} SplitStep(r: string, b: string, post: string, others: seq<string>)
    requires ReadsBack(r, b, post) && Split(post) == Ok(others)
    ensures Split(r + post) == Ok([b] + others)
  {
    assert SkipSpace(r + post) == r + post;
  }

  lemma {:induction false} SplitAfterSpace(t: string)
    ensures Split(" " + t) == Split(t)
  {
    assert (" " + t)[1..] == t;
    assert SkipSpace(" " + t) == SkipSpace(t);
  }

  lemma {:induction false} SplitJoinTail(xs: seq<string>)
    ensures EndsElement(JoinTail(xs)) && Split(JoinTail(xs)) == Ok(xs)
    decreases |xs|
  {
    if xs == [] {
    } else {
      var r, post := Render(xs[0], false), JoinTail(xs[1..]);
      SplitJoinTail(xs[1..]);
      RenderReadsBack(xs[0], false, post);
      SplitStep(r, xs[0], post, xs[1..]);
      Associates(" ", r, post);
      SplitAfterSpace(r + post);
      HeadTail(xs);
    }
  }

  /** Joining and then splitting gives back every list of values, whatever characters they hold. */
  lemma {:induction false} SplitJoin(xs: seq<string>)
    ensures Split(Join(xs)) == Ok(xs)
  {
    if xs != [] {
      var post := JoinTail(xs[1..]);
      SplitJoinTail(xs[1..]);
      RenderReadsBack(xs[0], true, post);
      SplitStep(Render(xs[0], true), xs[0], post, xs[1..]);
      HeadTail(xs);
    }
  }

  /** `normalise_spacing`: split, then join. */
  function Normalise(t: string): (r: Result<string>)
  {
    match Split(t)
    case Err(error) => Err(error)
    case Ok(xs) => Ok(Join(xs))
  }

  /** Normalising keeps the elements, succeeds exactly on well-formed lists, and is idempotent. */
  lemma {:induction false} NormaliseKeepsElements(t: string)
    ensures Normalise(t).Ok? <==> Split(t).Ok?
    ensures Normalise(t).Ok? ==>
              && Split(Normalise(t).value) == Split(t)
              && Normalise(Normalise(t).value) == Normalise(t)
  {
    if Split(t).Ok? {
      SplitJoin(Split(t).value);
    }
  }

  lemma {:induction false} EscapeKeepsLead(b: string, braces: bool)
    requires b != "" && b[0] != '#'
    ensures EscapeText(b, braces) != "" && EscapeText(b, braces)[0] != '#'
  {
  }

  /** A joined list never begins with `#`, so no rendered list can be read as a comment. */
  lemma {:induction false} JoinIsNotAComment(xs: seq<string>)
    ensures Join(xs) != "" ==> Join(xs)[0] != '#'
  {
    if xs != [] {
      var b := xs[0];
      RenderReadsBack(b, true, "");
      if b != "" && b[0] != '#' {
        EscapeKeepsLead(b, true);
        EscapeKeepsLead(b, false);
      }
      assert Join(xs)[0] == Render(b, true)[0];
    }
  }

  // The loops.

  /** A located element: its interior range, the `literal` and `braced` flags, and where to resume. */
  datatype Element = Element(start: nat, end: nat, literal: bool, braced: bool, next: nat)

  datatype Find = Found(element: Element) | NoMore | Malformed(error: ListError)

  /** What `find_element` must answer at `start`, stated on the remaining text. */
  ghost predicate Locates(s: string, start: nat, found: Find)
    requires start <= |s|
  {
    var u := SkipSpace(s[start..]);
    match found
    case NoMore => u == ""
    case Malformed(error) => u != "" && ScanWord(u) == Bad(error)
    case Found(el) =>
      && u != "" && start < el.next <= |s| && el.start <= el.end <= |s|
      && el.braced == (u[0] == '{')
      && ScanWord(u).Closed?
      && ScanWord(u).raw == s[el.start..el.end]
      && ScanWord(u).literal == el.literal
      && SkipSpace(ScanWord(u).rest) == s[el.next..]
  }

  method SkipSpaceFrom(s: string, start: nat) returns (pos: nat)
    requires start <= |s|
    ensures start <= pos <= |s| && s[pos..] == SkipSpace(s[start..])
  {
    pos := start;
    while pos < |s| && IsListSpace(s[pos])
      invariant start <= pos <= |s|
      invariant SkipSpace(s[pos..]) == SkipSpace(s[start..])
    {
      assert s[pos..][1..] == s[pos + 1..];
      pos := pos + 1;
    }
  }

  lemma {:induction false} PrependTwice(a: string, l: bool, b: string, m: bool, s: Scan)
    ensures Prepend(a, l, Prepend(b, m, s)) == Prepend(a + b, l && m, s)
  {
    if s.Closed? {
      Associates(a, b, s.raw);
    }
  }

  lemma {:induction false} SliceSteps(s: string, from: nat, pos: nat, n: nat)
    requires from <= pos <= pos + n <= |s|
    ensures s[pos..][n..] == s[pos + n..]
    ensures s[from..pos] + s[pos..][..n] == s[from..pos + n]
  {
  }

  /** The scan begun at `from` is what was taken up to `pos` and the scan that goes on there. */
  ghost predicate ScannedTo(s: string, from: nat, pos: nat, braces: nat, quotes: bool, literal: bool, open: nat)
    requires from <= pos <= |s|
  {
    ScanBody(s[from..], braces, quotes) == Prepend(s[from..pos], literal, ScanBody(s[pos..], open, quotes))
  }

  lemma {:induction false} ScannedNothing(s: string, from: nat, braces: nat, quotes: bool)
    requires from <= |s|
    ensures ScannedTo(s, from, from, braces, quotes, true, braces)
  {
    var scan := ScanBody(s[from..], braces, quotes);
    assert scan.Closed? ==> s[from..from] + scan.raw == scan.raw;
  }

  lemma {:induction false} ScanBodyStep(t: string, open: nat, quoted: bool)
    requires t != ""
    ensures match BodyStep(t, open, quoted)
            case Stop(scan) => ScanBody(t, open, quoted) == scan
            case Take(n, o, keeps) => ScanBody(t, open, quoted) == Prepend(t[..n], keeps, ScanBody(t[n..], o, quoted))
  {
  }

  lemma {:induction false} ScannedFurther(
    s: string, from: nat, pos: nat, braces: nat, quotes: bool, literal: bool, open: nat, n: nat, o: nat, keeps: bool)
    requires from <= pos < |s| && ScannedTo(s, from, pos, braces, quotes, literal, open)
    requires BodyStep(s[pos..], open, quotes) == Take(n, o, keeps)
    ensures ScannedTo(s, from, pos + n, braces, quotes, literal && keeps, o)
  {
    ScanBodyStep(s[pos..], open, quotes);
    hide ScanBody, BodyStep, Prepend;
    SliceSteps(s, from, pos, n);
    PrependTwice(s[from..pos], literal, s[pos..][..n], keeps, ScanBody(s[pos..][n..], o, quotes));
  }

  lemma {:induction false} ScannedAll(
    s: string, from: nat, braces: nat, quotes: bool, literal: bool, open: nat)
    requires from <= |s| && ScannedTo(s, from, |s|, braces, quotes, literal, open)
    ensures ScanBody(s[from..], braces, quotes) ==
              if open != 0 then Bad(UnmatchedBrace)
              else if quotes then Bad(UnmatchedQuote)
              else Closed(s[from..], literal, "")
  {
    assert s[|s|..] == "";
    assert s[from..|s|] + "" == s[from..];
  }

  /** The boundary scan: where the element body that begins at `from` ends. */
  method FindBody(s: string, from: nat, braces: nat, quotes: bool) returns (scan: Scan, end: nat, next: nat)
    requires from <= |s|
    ensures scan == ScanBody(s[from..], braces, quotes)
    ensures scan.Closed? ==> from <= end <= next <= |s| && scan.raw == s[from..end] && scan.rest == s[next..]
  {
    hide ScanBody;
    var pos, open, literal := from, braces, true;
    ScannedNothing(s, from, braces, quotes);
    while pos < |s|
      invariant from <= pos <= |s|
      invariant ScannedTo(s, from, pos, braces, quotes, literal, open)
    {
      ScanBodyStep(s[pos..], open, quotes);
      var n, o, keeps := 1, open, true;
      if s[pos] == '{' && open != 0 {
        o := open + 1;
      } else if s[pos] == '}' && open == 1 {
        end, next := pos, pos + 1;
        scan := if next < |s| && !IsListSpace(s[next]) then Bad(BraceFollowedByJunk)
                else Closed(s[from..end], literal, s[next..]);
        return;
      } else if s[pos] == '}' && open > 1 {
        o := open - 1;
      } else if s[pos] == '"' && quotes {
        end, next := pos, pos + 1;
        scan := if next < |s| && !IsListSpace(s[next]) then Bad(QuoteFollowedByJunk)
                else Closed(s[from..end], literal, s[next..]);
        return;
      } else if s[pos] == '\\' {
        n, keeps := EscapeSpan(s[pos..], open != 0), open != 0;
      } else if open == 0 && !quotes && IsListSpace(s[pos]) {
        return Closed(s[from..pos], literal, s[pos..]), pos, pos;
      }
      ScannedFurther(s, from, pos, braces, quotes, literal, open, n, o, keeps);
      pos, open, literal := pos + n, o, literal && keeps;
    }
    ScannedAll(s, from, braces, quotes, literal, open);
    end, next := pos, pos;
    scan := if open != 0 then Bad(UnmatchedBrace)
            else if quotes then Bad(UnmatchedQuote)
            else Closed(s[from..], literal, "");
  }

  method FindElement(s: string, start: nat) returns (found: Find)
    requires start <= |s|
    ensures Locates(s, start, found)
  {
    var pos := SkipSpaceFrom(s, start);
    if pos >= |s| {
      return NoMore;
    }
    var braced, quoted := s[pos] == '{', s[pos] == '"';
    var from := if braced || quoted then pos + 1 else pos;
    assert s[pos..][1..] == s[pos + 1..];
    var scan, end, next := FindBody(s, from, if braced then 1 else 0, quoted);
    if scan.Bad? {
      return Malformed(scan.error);
    }
    var resume := SkipSpaceFrom(s, next);
    found := Found(Element(from, end, scan.literal, braced, resume));
  }

  lemma {:induction false} SplitAfterSkip(t: string)
    ensures Split(SkipSpace(t)) == Split(t)
  {
    assert SkipSpace(SkipSpace(t)) == SkipSpace(t);
  }

  function Extend(done: seq<string>, r: Result<seq<string>>): (x: Result<seq<string>>)
  {
    match r
    case Err(error) => Err(error)
    case Ok(others) => Ok(done + others)
  }

  lemma {:induction false} ExtendTwice(a: seq<string>, x: string, r: Result<seq<string>>)
    ensures Extend(a, Extend([x], r)) == Extend(a + [x], r)
  {
    if r.Ok? {
      Associates(a, [x], r.value);
    }
  }

  /** `split_list`: the loop over `find_element` computes `Split`. */
  method SplitList(s: string) returns (r: Result<seq<string>>)
    ensures r == Split(s)
  {
    var out: seq<string>, pos := [], 0;
    assert s[0..] == s;
    assert Split(s).Ok? ==> [] + Split(s).value == Split(s).value;
    while true
      invariant pos <= |s|
      invariant Split(s) == Extend(out, Split(s[pos..]))
      decreases |s| - pos
    {
      var found := FindElement(s, pos);
      match found
      case NoMore =>
        assert out + [] == out;
        return Ok(out);
      case Malformed(error) =>
        return Err(error);
      case Found(el) =>
        var raw := s[el.start..el.end];
        var value := raw;
        if !el.literal {
          value := BackslashSubst(raw);
        }
        SplitAfterSkip(ScanWord(SkipSpace(s[pos..])).rest);
        ExtendTwice(out, value, Split(s[el.next..]));
        out := out + [value];
        pos := el.next;
    }
  }

  /** `scan_element`: the flag loop decides `QuoteFor`. */
  method ScanElement(b: string, hashUnsafe: bool) returns (q: Quote)
    ensures q == QuoteFor(b, hashUnsafe)
  {
    if b == "" {
      return Brace;
    }
    var f, i := InitialFlags(b, hashUnsafe), 0;
    assert b[0..] == b;
    while i < |b|
      invariant i <= |b|
      invariant ScanFlags(b[i..], f) == ScanFlags(b, InitialFlags(b, hashUnsafe))
    {
      var (g, n) := FlagStep(b[i..], f);
      assert b[i..][n..] == b[i + n..];
      f, i := g, i + n;
    }
    q := Decide(f.(requireEscape := f.requireEscape || f.depth > 0));
  }

  lemma {:induction false} EscapeTextSnoc(b: string, c: char, braces: bool)
    ensures EscapeText(b + [c], braces) == EscapeText(b, braces) + EscapeChar(c, braces)
  {
    if b == "" {
      assert b + [c] == [c];
    } else {
      EscapeTextSnoc(b[1..], c, braces);
      assert (b + [c])[1..] == b[1..] + [c];
      Associates(EscapeChar(b[0], braces), EscapeText(b[1..], braces), EscapeChar(c, braces));
    }
  }

  /** `convert_element`: appends the rendered element to `out`. */
  method AppendListElement(out: string, b: string, hashUnsafe: bool) returns (r: string)
    ensures r == out + Render(b, hashUnsafe)
  {
    var q := ScanElement(b, hashUnsafe);
    var leadHash := hashUnsafe && b != "" && b[0] == '#';
    if leadHash && q != EscapeAll {
      q := Brace;
    }
    if q == Verbatim {
      return out + b;
    }
    if q == Brace {
      return out + ("{" + b + "}");
    }
    var escaped := AppendEscaped(b, if leadHash then 1 else 0, q == EscapeAll);
    assert b[0..] == b;
    r := out + (if leadHash then "\\#" + escaped else escaped);
  }

  /** The escaping loop, from the given place on. */
  method AppendEscaped(b: string, from: nat, braces: bool) returns (escaped: string)
    requires from <= |b|
    ensures escaped == EscapeText(b[from..], braces)
  {
    escaped := "";
    var i := from;
    while i < |b|
      invariant from <= i <= |b|
      invariant escaped == EscapeText(b[from..i], braces)
    {
      EscapeTextSnoc(b[from..i], b[i], braces);
      assert b[from..i + 1] == b[from..i] + [b[i]];
      escaped := escaped + EscapeChar(b[i], braces);
      i := i + 1;
    }
    assert b[from..|b|] == b[from..];
  }

  lemma {:induction false} JoinTailStep(out: string, xs: seq<string>, i: nat)
    requires i < |xs|
    ensures out + JoinTail(xs[i..]) == ((out + " ") + Render(xs[i], false)) + JoinTail(xs[i + 1..])
  {
    var r, rest := Render(xs[i], false), JoinTail(xs[i + 1..]);
    assert xs[i..][1..] == xs[i + 1..];
    Associates(out, " ", r);
    Associates(out, " " + r, rest);
  }

  /** `join_list`: the loop over the elements computes `Join`. */
  method JoinList(xs: seq<string>) returns (out: string)
    ensures out == Join(xs)
  {
    if xs == [] {
      return "";
    }
    out := AppendListElement("", xs[0], true);
    var i := 1;
    while i < |xs|
      invariant 1 <= i <= |xs|
      invariant Join(xs) == out + JoinTail(xs[i..])
    {
      JoinTailStep(out, xs, i);
      out := AppendListElement(out + " ", xs[i], false);
      i := i + 1;
    }
    assert xs[|xs|..] == [];
  }
}
