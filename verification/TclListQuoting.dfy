/** Which of its four forms `Tcl_Merge` writes an element in, stated on the element's characters. */
module TclListQuoting {
  import opened Sequences
  import opened TclList

  // The characters that matter.

  /** Written bare these would end the element, or be substituted when the list is evaluated. */
  const Guarded := "[$;\\ \t\n\r\U{0B}\U{0C}"
  const Closers := "]\""

  predicate HasAny(t: string, chars: string)
  {
    exists i :: 0 <= i < |t| && t[i] in chars
  }

  /** The text can stand in braces: they balance, every backslash has a character to protect, and it is not a
      newline, which braces would not keep. */
  ghost predicate Braceable(t: string, depth: nat)
    decreases |t|
  {
    if t == "" then depth == 0
    else if t[0] == '\\' then |t| >= 2 && t[1] != '\n' && Braceable(t[2..], depth)
    else if t[0] == '{' then Braceable(t[1..], depth + 1)
    else if t[0] == '}' then depth > 0 && Braceable(t[1..], depth - 1)
    else Braceable(t[1..], depth)
  }

  lemma {:induction false} GuardedAre(c: char)
    ensures c in Guarded <==> c == '[' || c == '$' || c == ';' || c == '\\' || IsListSpace(c)
    ensures c in Closers <==> c == ']' || c == '"'
  {
    assert Guarded[0] == '[' && Guarded[1] == '$' && Guarded[2] == ';' && Guarded[3] == '\\' && Guarded[4] == ' ';
    assert Guarded[5] == '\t' && Guarded[6] == '\n' && Guarded[7] == '\r' && Guarded[8] == '\U{0B}';
    assert Guarded[9] == '\U{0C}' && Closers[0] == ']' && Closers[1] == '"';
  }

  lemma {:induction false} HasAnyHead(t: string, chars: string)
    requires t != ""
    ensures HasAny(t, chars) <==> t[0] in chars || HasAny(t[1..], chars)
  {
    if HasAny(t, chars) {
      var i :| 0 <= i < |t| && t[i] in chars;
      assert i > 0 ==> t[1..][i - 1] == t[i];
    }
    if HasAny(t[1..], chars) {
      var i :| 0 <= i < |t[1..]| && t[1..][i] in chars;
      assert t[i + 1] == t[1..][i];
    }
  }

  // What the flag scan finds.

  /** The flags after the scan, given those before it. */
  ghost predicate FlagsSay(t: string, f: Flags, r: Flags)
    requires f.depth >= 0
  {
    && (r.requireEscape <==> !Braceable(t, f.depth))
    && (!r.requireEscape ==>
          && (r.forbidNone <==> f.forbidNone || HasAny(t, Guarded) || HasAny(t, Closers))
          && (r.preferBrace <==> f.preferBrace || HasAny(t, Guarded))
          && (r.preferEscape <==> f.preferEscape || HasAny(t, Closers)))
  }

  lemma {:induction false} OneFlagStep(t: string, f: Flags)
    requires t != "" && t[0] != '\\' && f.depth >= 0 && !f.requireEscape
    ensures var (g, n) := FlagStep(t, f);
      && n == 1
      && (g.requireEscape <==> t[0] == '}' && f.depth == 0)
      && (!g.requireEscape ==>
            && g.depth == (if t[0] == '{' then f.depth + 1 else if t[0] == '}' then f.depth - 1 else f.depth)
            && (g.forbidNone <==> f.forbidNone || t[0] in Guarded || t[0] in Closers)
            && (g.preferBrace <==> f.preferBrace || t[0] in Guarded)
            && (g.preferEscape <==> f.preferEscape || t[0] in Closers))
  {
    GuardedAre(t[0]);
  }

  lemma {:induction false} BackslashFlagStep(t: string, f: Flags)
    requires |t| >= 2 && t[0] == '\\' && f.depth >= 0 && !f.requireEscape && t[1] != '\n'
    ensures var (g, n) := FlagStep(t, f);
      && n == (if t[1] in "{}\\" then 2 else 1)
      && g == f.(forbidNone := true, preferBrace := true)
  {
    assert "{}\\"[0] == '{' && "{}\\"[1] == '}' && "{}\\"[2] == '\\';
  }

  lemma {:induction false} ScanStep(t: string, f: Flags)
    requires t != ""
    ensures var (g, n) := FlagStep(t, f); ScanFlags(t, f) == ScanFlags(t[n..], g)
  {
  }

  lemma {:induction false} FlagsAre(t: string, f: Flags)
    requires f.depth >= 0 && !f.requireEscape
    ensures FlagsSay(t, f, ScanFlags(t, f))
    decreases |t|
  {
    if t == "" {
    } else if t[0] != '\\' {
      PlainFlags(t, f);
    } else if |t| == 1 || t[1] == '\n' {
      ScanStep(t, f);
      var (g, n) := FlagStep(t, f);
      assert g.requireEscape;
      FlagsOnlyGrow(t[n..], g);
    } else {
      BackslashFlags(t, f);
    }
  }

  lemma {:induction false} PlainFlags(t: string, f: Flags)
    requires t != "" && t[0] != '\\' && f.depth >= 0 && !f.requireEscape
    ensures FlagsSay(t, f, ScanFlags(t, f))
    decreases |t|, 0
  {
    ScanStep(t, f);
    OneFlagStep(t, f);
    HasAnyHead(t, Guarded);
    HasAnyHead(t, Closers);
    var (g, n) := FlagStep(t, f);
    hide FlagStep, ScanFlags, HasAny, Guarded, Closers;
    if g.requireEscape {
      FlagsOnlyGrow(t[1..], g);
    } else {
      FlagsAre(t[1..], g);
    }
  }

  /** A backslash and its character: one step or two, the flags come out the same. */
  lemma {:induction false} BackslashFlags(t: string, f: Flags)
    requires |t| >= 2 && t[0] == '\\' && t[1] != '\n' && f.depth >= 0 && !f.requireEscape
    ensures FlagsSay(t, f, ScanFlags(t, f))
    decreases |t|, 0
  {
    var g := f.(forbidNone := true, preferBrace := true);
    var rest := t[1..];
    assert rest[1..] == t[2..] && rest[0] == t[1];
    ScanStep(t, f);
    BackslashFlagStep(t, f);
    HasAnyHead(t, Guarded);
    HasAnyHead(t, Closers);
    HasAnyHead(rest, Guarded);
    HasAnyHead(rest, Closers);
    GuardedAre('\\');
    GuardedAre(t[1]);
    if t[1] in "{}\\" {
      assert t[1] !in Closers by {
        assert "{}\\"[0] == '{' && "{}\\"[1] == '}' && "{}\\"[2] == '\\';
      }
      FlagsAre(t[2..], g);
    } else {
      NoBrace(t[1]);
      FlagsAre(rest, g);
    }
    hide FlagStep, ScanFlags, HasAny;
  }

  lemma {:induction false} NoBrace(c: char)
    requires c !in "{}\\"
    ensures c != '{' && c != '}' && c != '\\'
  {
    assert "{}\\"[0] == '{' && "{}\\"[1] == '}' && "{}\\"[2] == '\\';
  }

  // The form that is written.

  ghost predicate LeadsBadly(b: string, hashUnsafe: bool)
  {
    b != "" && (b[0] == '{' || b[0] == '"' || (hashUnsafe && b[0] == '#'))
  }

  /** Escapes throughout when braces cannot hold the element; braces when it leads badly or holds a guarded
      character; escapes that leave braces alone when all it holds is a closing bracket or a quote; and otherwise
      the element as it is. */
  lemma {:induction false} RenderForm(b: string, hashUnsafe: bool)
    requires b != ""
    ensures !Braceable(b, 0) ==>
              Render(b, hashUnsafe) ==
                if hashUnsafe && b[0] == '#' then "\\#" + EscapeText(b[1..], true) else EscapeText(b, true)
    ensures Braceable(b, 0) && (LeadsBadly(b, hashUnsafe) || HasAny(b, Guarded)) ==>
              Render(b, hashUnsafe) == "{" + b + "}"
    ensures Braceable(b, 0) && !LeadsBadly(b, hashUnsafe) && !HasAny(b, Guarded) && HasAny(b, Closers) ==>
              Render(b, hashUnsafe) == EscapeText(b, false)
    ensures Braceable(b, 0) && !LeadsBadly(b, hashUnsafe) && !HasAny(b, Guarded) && !HasAny(b, Closers) ==>
              Render(b, hashUnsafe) == b
  {
    FlagsAre(b, InitialFlags(b, hashUnsafe));
    hide ScanFlags, HasAny, Braceable, EscapeText;
  }

  /** The empty element is an empty pair of braces. */
  lemma {:induction false} RenderEmpty(hashUnsafe: bool)
    ensures Render("", hashUnsafe) == "{}"
  {
  }

  // What escaping touches.

  const Escaped := "[]$;\\\" \t\n\r\U{0B}\U{0C}"

  /** Which characters are escaped, and as what. */
  lemma {:induction false} EscapeTable(c: char, braces: bool)
    ensures c in "[]$;\\\" " ==> EscapeChar(c, braces) == ['\\', c]
    ensures c in "{}" ==> EscapeChar(c, braces) == if braces then ['\\', c] else [c]
    ensures EscapeChar('\t', braces) == "\\t" && EscapeChar('\n', braces) == "\\n" && EscapeChar('\r', braces) == "\\r"
    ensures EscapeChar('\U{0B}', braces) == "\\v" && EscapeChar('\U{0C}', braces) == "\\f"
    ensures c !in Escaped && c !in "{}" ==> EscapeChar(c, braces) == [c]
  {
    assert Escaped[0] == '[' && Escaped[1] == ']' && Escaped[2] == '$' && Escaped[3] == ';' && Escaped[4] == '\\';
    assert Escaped[5] == '"' && Escaped[6] == ' ' && Escaped[7] == '\t' && Escaped[8] == '\n' && Escaped[9] == '\r';
    assert Escaped[10] == '\U{0B}' && Escaped[11] == '\U{0C}' && "{}"[0] == '{' && "{}"[1] == '}';
  }

  lemma {:induction false} EscapeNeverShortens(b: string, braces: bool)
    ensures |EscapeText(b, braces)| >= |b|
  {
    if b == "" {
    } else {
      EscapeNeverShortens(b[1..], braces);
    }
  }

  lemma {:induction false} EscapeLengthens(b: string, braces: bool, i: nat)
    requires i < |b| && NeedsEscape(b[i], braces)
    ensures |EscapeText(b, braces)| > |b|
  {
    if i == 0 {
      EscapeNeverShortens(b[1..], braces);
    } else {
      EscapeLengthens(b[1..], braces, i - 1);
    }
  }

  /** What cannot stand in braces holds a brace or a backslash. */
  lemma {:induction false} UnbraceableHolds(t: string, depth: nat)
    requires !Braceable(t, depth)
    ensures depth > 0 || exists i :: 0 <= i < |t| && (t[i] == '{' || t[i] == '}' || t[i] == '\\')
    decreases |t|
  {
    if t == "" || t[0] == '{' || t[0] == '}' || t[0] == '\\' {
    } else {
      UnbraceableHolds(t[1..], depth);
      if i :| 0 <= i < |t[1..]| && (t[1..][i] == '{' || t[1..][i] == '}' || t[1..][i] == '\\') {
        assert t[i + 1] == t[1..][i];
      }
    }
  }

  /** The element is written as it is exactly when its braces balance, it does not lead badly, and it holds no
      guarded character, no closing bracket and no quote. */
  lemma {:induction false} RenderedBareExactly(b: string, hashUnsafe: bool)
    requires b != ""
    ensures Render(b, hashUnsafe) == b <==>
              Braceable(b, 0) && !LeadsBadly(b, hashUnsafe) && !HasAny(b, Guarded) && !HasAny(b, Closers)
  {
    RenderForm(b, hashUnsafe);
    if !Braceable(b, 0) {
      UnbraceableHolds(b, 0);
      var i :| 0 <= i < |b| && (b[i] == '{' || b[i] == '}' || b[i] == '\\');
      EscapeLengthens(b, true, i);
      if b[0] == '#' {
        EscapeNeverShortens(b[1..], true);
      }
    } else if HasAny(b, Closers) {
      var i :| 0 <= i < |b| && b[i] in Closers;
      GuardedAre(b[i]);
      EscapeLengthens(b, false, i);
    }
    hide Render, Braceable, HasAny, EscapeText;
  }

  // Joined lists.

  ghost predicate IsBare(b: string, hashUnsafe: bool)
  {
    b != "" && Braceable(b, 0) && !LeadsBadly(b, hashUnsafe) && !HasAny(b, Guarded) && !HasAny(b, Closers)
  }

  /** Words with single spaces between them. */
  function Spaced(xs: seq<string>): (r: string)
  {
    if xs == [] then "" else if |xs| == 1 then xs[0] else xs[0] + " " + Spaced(xs[1..])
  }

  lemma {:induction false} BareTail(xs: seq<string>)
    requires forall i :: 0 <= i < |xs| ==> IsBare(xs[i], false)
    ensures JoinTail(xs) == if xs == [] then "" else " " + Spaced(xs)
  {
    if xs == [] {
    } else {
      assert IsBare(xs[0], false);
      RenderForm(xs[0], false);
      BareTail(xs[1..]);
      hide Render, IsBare;
      if |xs| > 1 {
        assert " " + xs[0] + (" " + Spaced(xs[1..])) == " " + (xs[0] + " " + Spaced(xs[1..]));
      } else {
        assert xs[1..] == [];
      }
    }
  }

  /** A list of bare words is joined to those words with single spaces. */
  lemma {:induction false} JoinOfBareWords(xs: seq<string>)
    requires xs != [] ==> IsBare(xs[0], true)
    requires forall i :: 0 <= i < |xs| ==> IsBare(xs[i], false)
    ensures Join(xs) == Spaced(xs)
  {
    if xs == [] {
    } else {
      RenderForm(xs[0], true);
      BareTail(xs[1..]);
      hide Render, IsBare;
      if |xs| > 1 {
        Associates(xs[0], " ", Spaced(xs[1..]));
      } else {
        assert xs[1..] == [];
      }
    }
  }
}
