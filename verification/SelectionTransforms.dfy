/** Escaping a selection for a Tcl double-quoted word, and taking the escapes out again. */
module SelectionTransforms {
  import opened Sequences
  import TclBackslash

  /** The character after the backslash for one that must be escaped, or the character itself. */
  function Letter(c: char): (l: char)
  {
    match c
    case '\n' => 'n'
    case '\r' => 'r'
    case '\t' => 't'
    case '\U{08}' => 'b'
    case '\U{0C}' => 'f'
    case '\U{0B}' => 'v'
    case _ => c
  }

  /** `"`, `$`, `[` and `]`: what Tcl would act on inside the quotes. */
  predicate Active(c: char)
  {
    c == '"' || c == '$' || c == '[' || c == ']'
  }

  predicate MustEscape(c: char)
  {
    Active(c) || c == '\\' || Letter(c) != c
  }

  predicate IsEscape(l: char)
  {
    Active(l) || l == '\\' || l == 'n' || l == 'r' || l == 't' || l == 'b' || l == 'f' || l == 'v'
  }

  function Meaning(l: char): (c: char)
  {
    match l
    case 'n' => '\n'
    case 'r' => '\r'
    case 't' => '\t'
    case 'b' => '\U{08}'
    case 'f' => '\U{0C}'
    case 'v' => '\U{0B}'
    case _ => l
  }

  function EscapeChar(c: char): (r: string)
  {
    if MustEscape(c) then ['\\', Letter(c)] else [c]
  }

  function EscapeTclText(s: string): (r: string)
  {
    if s == "" then "" else EscapeChar(s[0]) + EscapeTclText(s[1..])
  }

  function UnescapeTclText(t: string): (r: string)
  {
    if t == "" then ""
    else if t[0] == '\\' && |t| > 1 && IsEscape(t[1]) then [Meaning(t[1])] + UnescapeTclText(t[2..])
    else [t[0]] + UnescapeTclText(t[1..])
  }

  lemma {:induction false} UnescapeOne(c: char, t: string)
    ensures UnescapeTclText(EscapeChar(c) + t) == [c] + UnescapeTclText(t)
  {
    DropPrefix(EscapeChar(c), t);
  }

  lemma {:induction false} UnescapePrefix(s: string, t: string)
    ensures UnescapeTclText(EscapeTclText(s) + t) == s + UnescapeTclText(t)
  {
    if s == "" {
      assert EscapeTclText(s) + t == t && s + UnescapeTclText(t) == UnescapeTclText(t);
    } else {
      var rest := EscapeTclText(s[1..]);
      UnescapePrefix(s[1..], t);
      UnescapeOne(s[0], rest + t);
      Associates(EscapeChar(s[0]), rest, t);
      Associates([s[0]], s[1..], UnescapeTclText(t));
      HeadTail(s);
    }
  }

  /** Unescaping an escaped text gives the text back. */
  lemma {:induction false} UnescapeEscape(s: string)
    ensures UnescapeTclText(EscapeTclText(s)) == s
  {
    UnescapePrefix(s, "");
    assert EscapeTclText(s) + "" == EscapeTclText(s) && s + "" == s;
  }

  // Tcl itself undoes the escaping.

  lemma {:induction false} SubstOne(c: char, t: string)
    ensures TclBackslash.Subst(EscapeChar(c) + t) == [c] + TclBackslash.Subst(t)
  {
    DropPrefix(EscapeChar(c), t);
    if MustEscape(c) {
      assert (EscapeChar(c) + t)[..2] == ['\\', Letter(c)];
      assert TclBackslash.Decode(EscapeChar(c) + t) == TclBackslash.Escape(2, c);
    }
  }

  /** Tcl's own backslash decoding of the escaped text gives the text back, whatever follows. */
  lemma {:induction false} TclReadsEscaped(s: string, t: string)
    ensures TclBackslash.Subst(EscapeTclText(s) + t) == s + TclBackslash.Subst(t)
  {
    if s == "" {
      assert EscapeTclText(s) + t == t && s + TclBackslash.Subst(t) == TclBackslash.Subst(t);
    } else {
      var rest := EscapeTclText(s[1..]);
      TclReadsEscaped(s[1..], t);
      SubstOne(s[0], rest + t);
      Associates(EscapeChar(s[0]), rest, t);
      Associates([s[0]], s[1..], TclBackslash.Subst(t));
      HeadTail(s);
    }
  }

  /** So the escaped text, on its own, stands for exactly the selection. */
  lemma {:induction false} TclUndoesEscape(s: string)
    ensures TclBackslash.Subst(EscapeTclText(s)) == s
  {
    TclReadsEscaped(s, "");
    assert EscapeTclText(s) + "" == EscapeTclText(s) && s + "" == s;
  }

  // What escaping changes, and what unescaping leaves.

  const Controls := "\n\r\t\U{08}\U{0C}\U{0B}"

  lemma {:induction false} ControlsAre(c: char)
    ensures c in Controls <==> Letter(c) != c
  {
    assert Controls[0] == '\n' && Controls[1] == '\r' && Controls[2] == '\t';
    assert Controls[3] == '\U{08}' && Controls[4] == '\U{0C}' && Controls[5] == '\U{0B}';
  }

  /** An escaped text stands on one line: the control characters that have a name are spelled by it. */
  lemma {:induction false} EscapedIsOneLine(s: string, c: char)
    requires c in Controls
    ensures c !in EscapeTclText(s)
  {
    if s == "" {
    } else {
      EscapedIsOneLine(s[1..], c);
      ControlsAre(c);
      ControlsAre(s[0]);
    }
  }

  /** A text without active characters, backslashes and controls is left as it is. */
  lemma {:induction false} PlainTextIsItself(s: string)
    requires forall c :: c in s ==> c !in "\"$[]\\" && c !in Controls
    ensures EscapeTclText(s) == s
  {
    if s == "" {
    } else {
      assert s[0] in s && forall c :: c in s[1..] ==> c in s;
      PlainTextIsItself(s[1..]);
      ControlsAre(s[0]);
      assert "\"$[]\\"[0] == '"' && "\"$[]\\"[1] == '$' && "\"$[]\\"[2] == '[' && "\"$[]\\"[3] == ']';
      assert "\"$[]\\"[4] == '\\';
      HeadTail(s);
    }
  }

  /** Unescaping takes out the escapes it knows and leaves every other backslash where it is. */
  lemma {:induction false} UnknownEscapeStays(x: char, t: string)
    ensures x !in "\"$[]\\nrtbfv" ==> UnescapeTclText(['\\', x] + t) == "\\" + UnescapeTclText([x] + t)
    ensures UnescapeTclText("\\") == "\\"
  {
    var known := "\"$[]\\nrtbfv";
    assert known[0] == '"' && known[1] == '$' && known[2] == '[' && known[3] == ']' && known[4] == '\\';
    assert known[5] == 'n' && known[6] == 'r' && known[7] == 't' && known[8] == 'b' && known[9] == 'f';
    assert known[10] == 'v';
    assert (['\\', x] + t)[1..] == [x] + t;
    assert "\\"[1..] == "";
  }

  // No active character is left unprotected.

  /** How many backslashes stand directly before index `i`. */
  ghost function RunBefore(t: string, i: nat): (n: nat)
    requires i <= |t|
    ensures n <= i
  {
    if i > 0 && t[i - 1] == '\\' then 1 + RunBefore(t, i - 1) else 0
  }

  lemma {:induction false} RunAcross(h: string, rest: string, i: nat)
    requires i <= |rest|
    ensures RunBefore(h + rest, |h| + i) ==
              if RunBefore(rest, i) == i then i + RunBefore(h, |h|) else RunBefore(rest, i)
    decreases i
  {
    if i == 0 {
      RunWithin(h, rest, |h|);
    } else {
      assert (h + rest)[|h| + i - 1] == rest[i - 1];
      RunAcross(h, rest, i - 1);
    }
  }

  lemma {:induction false} RunWithin(h: string, rest: string, i: nat)
    requires i <= |h|
    ensures RunBefore(h + rest, i) == RunBefore(h, i)
    decreases i
  {
    if i == 0 {
    } else {
      assert (h + rest)[i - 1] == h[i - 1];
      RunWithin(h, rest, i - 1);
    }
  }

  lemma {:induction false} EscapedRunIsEven(c: char)
    ensures var h := EscapeChar(c);
            && RunBefore(h, |h|) % 2 == 0
            && (forall i :: 0 <= i < |h| && Active(h[i]) ==> i == 1 && RunBefore(h, i) == 1)
  {
    var h := EscapeChar(c);
    assert RunBefore(h, 0) == 0;
    assert RunBefore(h, 1) == if h[0] == '\\' then 1 else 0;
    assert |h| == 2 ==> RunBefore(h, 2) == if h[1] == '\\' then 2 else 0;
  }

  /** Every `"`, `$`, `[` and `]` of an escaped text follows an odd run of backslashes. */
  lemma {:induction false} ActiveCharsAreEscaped(s: string, i: nat)
    requires i < |EscapeTclText(s)| && Active(EscapeTclText(s)[i])
    ensures RunBefore(EscapeTclText(s), i) % 2 == 1
    decreases |s|
  {
    var h, rest := EscapeChar(s[0]), EscapeTclText(s[1..]);
    EscapedRunIsEven(s[0]);
    if i < |h| {
      RunWithin(h, rest, i);
    } else {
      ActiveCharsAreEscaped(s[1..], i - |h|);
      RunAcross(h, rest, i - |h|);
    }
  }
}
