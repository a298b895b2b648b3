/** What `Tcl_SplitList` reads: every way to write a list, and every way to write it wrong. */
module TclListReading {
  import opened Sequences
  import opened TclBackslash
  import opened TclList

  /** What separates elements. */
  const Spaces := " \t\n\r\U{0B}\U{0C}"

  lemma {:induction false} SpacesAre(c: char)
    ensures IsListSpace(c) <==> c in Spaces
  {
    assert Spaces[0] == ' ' && Spaces[1] == '\t' && Spaces[2] == '\n' && Spaces[3] == '\r';
    assert Spaces[4] == '\U{0B}' && Spaces[5] == '\U{0C}';
  }

  /** The text is over, or a separator comes next. */
  ghost predicate Ends(post: string)
  {
    post == "" || post[0] in Spaces
  }

  /** What closing an element before `post` amounts to. */
  function ClosedBefore(raw: string, literal: bool, post: string, junk: ListError): (s: Scan)
  {
    if post == "" || post[0] in Spaces then Closed(raw, literal, post) else Bad(junk)
  }

  lemma {:induction false} CloseIs(post: string, junk: ListError)
    ensures Close(post, junk) == ClosedBefore("", true, post, junk)
  {
    if post != "" {
      SpacesAre(post[0]);
    }
  }

  lemma {:induction false} PrependClosed(
    head: string, lit: bool, raw: string, literal: bool, post: string, junk: ListError)
    ensures Prepend(head, lit, ClosedBefore(raw, literal, post, junk)) ==
              ClosedBefore(head + raw, lit && literal, post, junk)
  {
  }

  // Quoted elements.

  /** Every backslash has a character to protect, and no quote stands unprotected. */
  ghost predicate QuoteSafe(q: string)
    decreases |q|
  {
    if q == "" then true
    else if q[0] == '\\' then |q| >= 2 && QuoteSafe(q[2..])
    else q[0] != '"' && QuoteSafe(q[1..])
  }

  lemma {:induction false} BlanksAreSafe(q: string)
    requires QuoteSafe(q)
    ensures QuoteSafe(q[BlankRun(q)..])
  {
    if q == "" || BlankRun(q) == 0 {
      assert q[0..] == q;
    } else {
      BlanksAreSafe(q[1..]);
      assert q[1..][BlankRun(q[1..])..] == q[BlankRun(q)..];
    }
  }

  lemma {:induction false} BlankRunStops(q: string, tail: string)
    requires tail != "" ==> tail[0] != ' ' && tail[0] != '\t'
    ensures BlankRun(q + tail) == BlankRun(q)
  {
    if q == "" {
      assert q + tail == tail;
    } else {
      BlankRunStops(q[1..], tail);
      assert (q + tail)[1..] == q[1..] + tail;
    }
  }

  lemma {:induction false} TakeStep(t: string, open: nat, quoted: bool, n: nat, o: nat, keeps: bool)
    requires t != "" && BodyStep(t, open, quoted) == Take(n, o, keeps)
    ensures ScanBody(t, open, quoted) == Prepend(t[..n], keeps, ScanBody(t[n..], o, quoted))
  {
  }

  /** The text up to an unprotected quote is the element, spaces and braces included. */
  lemma {:induction false} QuotedScan(q: string, post: string)
    requires QuoteSafe(q)
    ensures ScanBody(q + ("\"" + post), 0, true) == ClosedBefore(q, '\\' !in q, post, QuoteFollowedByJunk)
    decreases |q|
  {
    var tail := "\"" + post;
    var t := q + tail;
    if q == "" {
      assert t == tail && t[1..] == post;
      CloseIs(post, QuoteFollowedByJunk);
    } else {
      var n := if q[0] != '\\' then 1 else if q[1] == '\n' then 2 + BlankRun(q[2..]) else 2;
      if q[0] == '\\' {
        assert t[2..] == q[2..] + tail;
        BlankRunStops(q[2..], tail);
        BlanksAreSafe(q[2..]);
        assert q[2..][BlankRun(q[2..])..] == q[2 + BlankRun(q[2..])..];
      }
      assert BodyStep(t, 0, true) == Take(n, 0, q[0] != '\\');
      TakeStep(t, 0, true, n, 0, q[0] != '\\');
      QuotedScan(q[n..], post);
      Taken(q, tail, n);
      PrependClosed(q[..n], q[0] != '\\', q[n..], '\\' !in q[n..], post, QuoteFollowedByJunk);
      BackslashIn(q, n);
    }
  }

  lemma {:induction false} Taken(q: string, tail: string, n: nat)
    requires n <= |q|
    ensures (q + tail)[..n] == q[..n] && (q + tail)[n..] == q[n..] + tail && q[..n] + q[n..] == q
  {
  }

  lemma {:induction false} BackslashIn(q: string, n: nat)
    requires 0 < n <= |q| && (q[0] != '\\' ==> n == 1)
    ensures '\\' in q <==> q[0] == '\\' || '\\' in q[n..]
  {
    assert q == q[..n] + q[n..];
    assert q[0] != '\\' ==> q[..n] == [q[0]];
  }

  /** A quote that is never closed, and one that is. */
  lemma {:induction false} QuoteOutcome(t: string) returns (n: int)
    ensures -1 <= n < |t|
    ensures n == -1 ==> ScanBody(t, 0, true) == Bad(UnmatchedQuote)
    ensures n >= 0 ==> t[n] == '"' && QuoteSafe(t[..n])
    decreases |t|
  {
    if t == "" {
      n := -1;
    } else if t[0] == '"' {
      n := 0;
    } else if t[0] == '\\' && |t| == 1 {
      assert t[1..] == "";
      n := -1;
    } else {
      var k := if t[0] == '\\' then EscapeSpan(t, false) else 1;
      assert BodyStep(t, 0, true) == Take(k, 0, t[0] != '\\');
      TakeStep(t, 0, true, k, 0, t[0] != '\\');
      var m := QuoteOutcome(t[k..]);
      n := if m == -1 then -1 else k + m;
      if m >= 0 {
        QuoteSafeGrows(t, k, m);
      }
    }
  }

  lemma {:induction false} QuoteSafeGrows(t: string, k: nat, m: nat)
    requires t != "" && t[0] != '"' && (t[0] == '\\' ==> |t| >= 2 && k == EscapeSpan(t, false))
    requires (t[0] != '\\' ==> k == 1) && k + m <= |t| && QuoteSafe(t[k..][..m])
    ensures QuoteSafe(t[..k + m])
  {
    if t[0] == '\\' {
      var blanks := t[2..k];
      BlankRunIsBlank(t[2..]);
      assert forall i :: 0 <= i < |blanks| ==> blanks[i] == t[2..][i];
      hide BlankRun, EscapeSpan;
      BlanksThenSafe(blanks, t[k..][..m]);
      assert t[..k + m][2..] == blanks + t[k..][..m];
    } else {
      assert t[..k + m][1..] == t[k..][..m];
    }
  }

  lemma {:induction false} BlankRunIsBlank(t: string)
    ensures forall i :: 0 <= i < BlankRun(t) ==> t[i] == ' ' || t[i] == '\t'
  {
    if t == "" || BlankRun(t) == 0 {
    } else {
      BlankRunIsBlank(t[1..]);
      assert forall i :: 0 < i < BlankRun(t) ==> t[i] == t[1..][i - 1];
    }
  }

  lemma {:induction false} BlanksThenSafe(blanks: string, q: string)
    requires (forall i :: 0 <= i < |blanks| ==> blanks[i] == ' ' || blanks[i] == '\t') && QuoteSafe(q)
    ensures QuoteSafe(blanks + q)
    decreases |blanks|
  {
    if blanks == "" {
      assert blanks + q == q;
    } else {
      assert (blanks + q)[1..] == blanks[1..] + q;
      BlanksThenSafe(blanks[1..], q);
    }
  }

  /** A quoted element is unmatched exactly when no unprotected quote follows. */
  lemma {:induction false} UnmatchedQuoteExactly(t: string)
    ensures ScanBody(t, 0, true) == Bad(UnmatchedQuote) <==>
              forall n :: 0 <= n < |t| && t[n] == '"' ==> !QuoteSafe(t[..n])
  {
    hide ScanBody, QuoteSafe;
    var n := QuoteOutcome(t);
    if m :| 0 <= m < |t| && t[m] == '"' && QuoteSafe(t[..m]) {
      assert t == t[..m] + ("\"" + t[m + 1..]);
      QuotedScan(t[..m], t[m + 1..]);
    }
  }

  // Braced elements.

  /** The text up to the brace that closes is the element, verbatim. */
  lemma {:induction false} BracedScanAny(t: string, depth: nat, post: string)
    requires BraceSafe(t, depth)
    ensures ScanBody(t + "}" + post, depth + 1, false) == ClosedBefore(t, true, post, BraceFollowedByJunk)
    decreases |t|
  {
    if t == "" {
      assert t + "}" + post == "}" + post && ("}" + post)[1..] == post;
      CloseIs(post, BraceFollowedByJunk);
    } else {
      var n := if t[0] == '\\' then 2 else 1;
      var d := if t[0] == '{' then depth + 1 else if t[0] == '}' then depth - 1 else depth;
      BracedStep(t, depth, n, d, post);
      BracedScanAny(t[n..], d, post);
      PrependClosed(t[..n], true, t[n..], true, post, BraceFollowedByJunk);
      assert t[..n] + t[n..] == t;
    }
  }

  lemma {:induction false} BraceOutcome(t: string, depth: nat) returns (n: int)
    ensures -1 <= n < |t|
    ensures n == -1 ==> ScanBody(t, depth + 1, false) == Bad(UnmatchedBrace)
    ensures n >= 0 ==> t[n] == '}' && BraceSafe(t[..n], depth)
    decreases |t|
  {
    if t == "" {
      n := -1;
    } else if t[0] == '}' && depth == 0 {
      n := 0;
    } else if t[0] == '\\' && |t| == 1 {
      assert t[1..] == "";
      n := -1;
    } else {
      var k := if t[0] == '\\' then 2 else 1;
      var d := if t[0] == '{' then depth + 1 else if t[0] == '}' then depth - 1 else depth;
      assert BodyStep(t, depth + 1, false) == Take(k, d + 1, true);
      TakeStep(t, depth + 1, false, k, d + 1, true);
      var m := BraceOutcome(t[k..], d);
      n := if m == -1 then -1 else k + m;
      if m >= 0 {
        BraceSafeGrows(t, depth, k, d, m);
      }
    }
  }

  lemma {:induction false} BraceSafeGrows(t: string, depth: nat, k: nat, d: nat, m: nat)
    requires t != "" && k == (if t[0] == '\\' then 2 else 1) && k + m <= |t| && (t[0] == '}' ==> depth > 0)
    requires d == if t[0] == '{' then depth + 1 else if t[0] == '}' then depth - 1 else depth
    requires BraceSafe(t[k..][..m], d)
    ensures BraceSafe(t[..k + m], depth)
  {
    assert t[..k + m][k..] == t[k..][..m];
  }

  /** A braced element is unmatched exactly when no brace closes it. */
  lemma {:induction false} UnmatchedBraceExactly(t: string)
    ensures ScanBody(t, 1, false) == Bad(UnmatchedBrace) <==>
              forall n :: 0 <= n < |t| && t[n] == '}' ==> !BraceSafe(t[..n], 0)
  {
    hide ScanBody, BraceSafe;
    var n := BraceOutcome(t, 0);
    if m :| 0 <= m < |t| && t[m] == '}' && BraceSafe(t[..m], 0) {
      assert t == t[..m] + "}" + t[m + 1..];
      BracedScanAny(t[..m], 0, t[m + 1..]);
    }
  }

  // Bare elements.

  /** The text is a bare word before `post`: no separator stands unprotected, a continuation takes all blanks with
      it, and a backslash without a character to protect is the last of the text. */
  ghost predicate BareWord(b: string, post: string)
    decreases |b|
  {
    if b == "" then Ends(post)
    else if b[0] in Spaces then false
    else if b[0] != '\\' then BareWord(b[1..], post)
    else if |b| == 1 then post == ""
    else if b[1] != '\n' then BareWord(b[2..], post)
    else
      var n := 2 + BlankRun(b[2..] + post);
      n <= |b| && BareWord(b[n..], post)
  }

  lemma {:induction false} BareScan(b: string, post: string)
    requires BareWord(b, post)
    ensures ScanBody(b + post, 0, false) == Closed(b, '\\' !in b, post)
    decreases |b|
  {
    var t := b + post;
    if b == "" {
      assert t == post;
      if post != "" {
        SpacesAre(post[0]);
      }
    } else {
      SpacesAre(b[0]);
      var n := if b[0] != '\\' || |b| == 1 then 1 else if b[1] == '\n' then 2 + BlankRun(b[2..] + post) else 2;
      if |b| > 1 {
        assert t[2..] == b[2..] + post;
      }
      assert BodyStep(t, 0, false) == Take(n, 0, b[0] != '\\');
      TakeStep(t, 0, false, n, 0, b[0] != '\\');
      Taken(b, post, n);
      if b[0] == '\\' && |b| == 1 {
        assert b[n..] + post == "";
      } else {
        BareScan(b[n..], post);
      }
      BackslashIn(b, n);
    }
  }

  // Whole lists.

  datatype Word = Bare(text: string) | Quoted(text: string) | Braced(text: string)

  function ShowWord(w: Word): (s: string)
  {
    match w
    case Bare(t) => t
    case Quoted(t) => "\"" + t + "\""
    case Braced(t) => "{" + t + "}"
  }

  /** What the element stands for: braces keep their text, other elements have their escapes decoded. */
  function Value(w: Word): (s: string)
  {
    if w.Braced? then w.text else Subst(w.text)
  }

  ghost predicate WordOk(w: Word, post: string)
  {
    match w
    case Bare(t) => t != "" && t[0] != '{' && t[0] != '"' && t[0] !in Spaces && BareWord(t, post)
    case Quoted(t) => QuoteSafe(t) && Ends(post)
    case Braced(t) => BraceSafe(t, 0) && Ends(post)
  }

  ghost predicate AllSpaces(s: string)
  {
    forall c :: c in s ==> c in Spaces
  }

  /** Words, each with the separators after it. */
  function Written(words: seq<Word>, gaps: seq<string>): (s: string)
    requires |words| == |gaps|
  {
    if words == [] then "" else ShowWord(words[0]) + (gaps[0] + Written(words[1..], gaps[1..]))
  }

  ghost predicate WrittenOk(words: seq<Word>, gaps: seq<string>, end: string)
    requires |words| == |gaps|
  {
    words != [] ==>
      && AllSpaces(gaps[0])
      && WordOk(words[0], gaps[0] + (Written(words[1..], gaps[1..]) + end))
      && WrittenOk(words[1..], gaps[1..], end)
  }

  function Values(words: seq<Word>): (r: seq<string>)
  {
    if words == [] then [] else [Value(words[0])] + Values(words[1..])
  }

  /** One written word is read as its value. */
  lemma {:induction false} WordIsRead(w: Word, post: string)
    requires WordOk(w, post)
    ensures ReadsBack(ShowWord(w), Value(w), post)
  {
    match w
    case Bare(t) =>
      SpacesAre(t[0]);
      BareScan(t, post);
      BareReadsBack(t, Subst(t), post);
    case Quoted(t) =>
      var r := "\"" + t + "\"";
      assert (r + post)[1..] == t + ("\"" + post);
      QuotedScan(t, post);
      if '\\' !in t {
        SubstPlain(t);
      }
      hide ScanBody, Subst, QuoteSafe;
    case Braced(t) =>
      if post != "" {
        SpacesAre(post[0]);
      }
      BracedReadsBack(t, post);
  }

  lemma {:induction false} SkipsSpaces(gap: string, t: string)
    requires AllSpaces(gap)
    ensures SkipSpace(gap + t) == SkipSpace(t)
    decreases |gap|
  {
    if gap == "" {
      assert gap + t == t;
    } else {
      assert gap[0] in gap;
      SpacesAre(gap[0]);
      assert forall c :: c in gap[1..] ==> c in gap;
      SkipsSpaces(gap[1..], t);
      assert (gap + t)[1..] == gap[1..] + t;
    }
  }

  lemma {:induction false} SpacesAreSkipped(gap: string, t: string)
    requires AllSpaces(gap)
    ensures Split(gap + t) == Split(t)
  {
    hide Split, SkipSpace;
    SkipsSpaces(gap, t);
    SplitAfterSkip(gap + t);
    SplitAfterSkip(t);
  }

  function After(values: seq<string>, r: Result<seq<string>>): (x: Result<seq<string>>)
  {
    match r
    case Ok(others) => Ok(values + others)
    case Err(error) => Err(error)
  }

  lemma {:induction false} WordThen(r: string, b: string, post: string)
    requires ReadsBack(r, b, post)
    ensures Split(r + post) == After([b], Split(post))
  {
    hide ReadsBack;
    match Split(post)
    case Ok(others) => SplitStep(r, b, post, others);
    case Err(error) => SplitStepErr(r, b, post);
  }

  lemma {:induction false} SplitStepErr(r: string, b: string, post: string)
    requires ReadsBack(r, b, post) && Split(post).Err?
    ensures Split(r + post) == Split(post)
  {
  }

  /** Words and separators in any of their forms are read as the words' values, and then the rest is. */
  lemma {:induction false} WrittenIsRead(words: seq<Word>, gaps: seq<string>, end: string)
    requires |words| == |gaps| && WrittenOk(words, gaps, end)
    ensures Split(Written(words, gaps) + end) == After(Values(words), Split(end))
    decreases |words|
  {
    if words == [] {
      assert Written(words, gaps) + end == end;
      assert Split(end).Ok? ==> [] + Split(end).value == Split(end).value;
    } else {
      var w, gap, more := words[0], gaps[0], Written(words[1..], gaps[1..]);
      var post := gap + (more + end);
      assert Written(words, gaps) + end == ShowWord(w) + post;
      WordIsRead(w, post);
      hide WordOk, Split, ReadsBack, ShowWord;
      WordThen(ShowWord(w), Value(w), post);
      SpacesAreSkipped(gap, more + end);
      WrittenIsRead(words[1..], gaps[1..], end);
      AfterTwice([Value(w)], Values(words[1..]), Split(end));
    }
  }

  lemma {:induction false} AfterTwice(a: seq<string>, b: seq<string>, r: Result<seq<string>>)
    ensures After(a, After(b, r)) == After(a + b, r)
  {
    if r.Ok? {
      Associates(a, b, r.value);
    }
  }

  /** A list written in any way is split into exactly its values. */
  lemma {:induction false} SplitWritten(lead: string, words: seq<Word>, gaps: seq<string>)
    requires AllSpaces(lead) && |words| == |gaps| && WrittenOk(words, gaps, "")
    ensures Split(lead + Written(words, gaps)) == Ok(Values(words))
  {
    SpacesAreSkipped(lead, Written(words, gaps));
    WrittenIsRead(words, gaps, "");
    assert Written(words, gaps) + "" == Written(words, gaps);
    assert Split("") == Ok([]) && Values(words) + [] == Values(words);
  }

  /** After any words, the first that is written wrong decides the error. */
  lemma {:induction false} SplitMalformed(words: seq<Word>, gaps: seq<string>, bad: string)
    requires |words| == |gaps| && WrittenOk(words, gaps, bad)
    requires bad != "" && bad[0] !in Spaces && ScanWord(bad).Bad?
    ensures Split(Written(words, gaps) + bad) == Err(ScanWord(bad).error)
  {
    WrittenIsRead(words, gaps, bad);
    assert SkipSpace(bad) == bad;
  }

  /** How an element is written wrong: one line for each error. */
  lemma {:induction false} MalformedExactly(t: string, q: string, post: string)
    ensures ScanWord("\"" + t) == Bad(UnmatchedQuote) <==>
              forall n :: 0 <= n < |t| && t[n] == '"' ==> !QuoteSafe(t[..n])
    ensures ScanWord("{" + t) == Bad(UnmatchedBrace) <==>
              forall n :: 0 <= n < |t| && t[n] == '}' ==> !BraceSafe(t[..n], 0)
    ensures QuoteSafe(q) ==>
              (ScanWord("\"" + (q + ("\"" + post))) == Bad(QuoteFollowedByJunk) <==> !Ends(post))
    ensures BraceSafe(q, 0) ==>
              (ScanWord("{" + (q + "}" + post)) == Bad(BraceFollowedByJunk) <==> !Ends(post))
  {
    UnmatchedQuoteExactly(t);
    UnmatchedBraceExactly(t);
    DropPrefix("\"", t);
    DropPrefix("{", t);
    DropPrefix("\"", q + ("\"" + post));
    DropPrefix("{", q + "}" + post);
    if QuoteSafe(q) {
      QuotedScan(q, post);
    }
    if BraceSafe(q, 0) {
      BracedScanAny(q, 0, post);
    }
    hide ScanBody, QuoteSafe, BraceSafe;
  }

  /** A bare word is never wrong. */
  lemma {:induction false} BareIsNeverWrong(t: string)
    ensures ScanBody(t, 0, false).Closed?
    decreases |t|
  {
    if t == "" {
    } else {
      match BodyStep(t, 0, false)
      case Stop(_) =>
      case Take(n, o, keeps) => BareIsNeverWrong(t[n..]);
    }
  }
}
