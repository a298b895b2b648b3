/** Extension globs: what is written to configuration and what the open-document retarget matches. */
module FileGlobs {

  predicate IsUpper(c: char)
  {
    'A' <= c <= 'Z'
  }

  predicate IsLower(c: char)
  {
    'a' <= c <= 'z'
  }

  function ToUpper(c: char): (u: char)
  {
    if IsLower(c) then (c as int - 32) as char else c
  }

  /** `toLowerCase` as far as it can yield an ASCII letter: the ASCII capitals and U+212A, the Kelvin sign. */
  function ToLower(c: char): (l: char)
  {
    if IsUpper(c) then (c as int + 32) as char else if c == '\U{212A}' then 'k' else c
  }

  function LowerCase(s: string): (r: string)
    ensures |r| == |s| && forall i :: 0 <= i < |s| ==> r[i] == ToLower(s[i])
  {
    if s == "" then "" else [ToLower(s[0])] + LowerCase(s[1..])
  }

  /** One character of an extension: a letter becomes the class of its two casings. */
  function FoldChar(c: char): (r: string)
  {
    if IsLower(c) || IsUpper(c) then ['[', ToLower(c), ToUpper(c), ']'] else [c]
  }

  function FoldCase(extension: string): (r: string)
  {
    if extension == "" then "" else FoldChar(extension[0]) + FoldCase(extension[1..])
  }

  function GlobFor(extension: string): (r: string)
  {
    "*." + FoldCase(extension)
  }

  // What the editor does with a glob.

  datatype Atom = Star | AnyOne | OneOf(chars: string) | Exactly(c: char)

  function ClassEnd(g: string, i: nat): (j: nat)
    requires i <= |g|
    ensures i <= j <= |g|
    decreases |g| - i
  {
    if i == |g| || g[i] == ']' then i else ClassEnd(g, i + 1)
  }

  function Parse(g: string): (r: seq<Atom>)
    decreases |g|
  {
    if g == "" then []
    else if g[0] == '*' then [Star] + Parse(g[1..])
    else if g[0] == '?' then [AnyOne] + Parse(g[1..])
    else if g[0] == '[' then
      var j := ClassEnd(g, 1);
      [OneOf(g[1..j])] + Parse(if j < |g| then g[j + 1..] else "")
    else [Exactly(g[0])] + Parse(g[1..])
  }

  predicate Admits(a: Atom, c: char)
  {
    match a
    case Star => false
    case AnyOne => c != '/'
    case OneOf(chars) => c in chars
    case Exactly(d) => c == d
  }

  /** `*` stands for any run without a separator, every other atom for one character. */
  ghost predicate Accepts(atoms: seq<Atom>, s: string)
    decreases |atoms|, 0
  {
    if atoms == [] then s == ""
    else if atoms[0] == Star then AcceptsAfterRun(atoms[1..], s)
    else s != "" && Admits(atoms[0], s[0]) && Accepts(atoms[1..], s[1..])
  }

  ghost predicate AcceptsAfterRun(atoms: seq<Atom>, s: string)
    decreases |atoms|, 1
  {
    exists k :: 0 <= k <= |s| && '/' !in s[..k] && Accepts(atoms, s[k..])
  }

  ghost predicate GlobMatches(glob: string, basename: string)
  {
    Accepts(Parse(glob), basename)
  }

  function LastDot(s: string): (i: int)
    ensures -1 <= i < |s|
    ensures i >= 0 ==> s[i] == '.'
    ensures forall j :: i < j < |s| ==> s[j] != '.'
  {
    if s == "" then -1
    else if s[|s| - 1] == '.' then |s| - 1
    else LastDot(s[..|s| - 1])
  }

  /** The open-document retarget: the lower-cased text after the last dot is the lower-cased extension. */
  predicate Retargets(extension: string, basename: string)
  {
    var dot := LastDot(basename);
    dot >= 0 && LowerCase(basename[dot + 1..]) == LowerCase(extension)
  }

  /** A file name without its directories: split at `/` and at a backslash. */
  ghost predicate IsBasename(s: string)
  {
    '/' !in s && '\\' !in s
  }

  /** ASCII, without a separator or a brace. */
  ghost predicate Spelled(extension: string)
  {
    forall i :: 0 <= i < |extension| ==>
      && extension[i] as int < 128 && extension[i] != '/' && extension[i] != '\\'
      && extension[i] != '{' && extension[i] != '}'
  }

  /** An extension that opens no bracket either. */
  ghost predicate PlainExtension(extension: string)
  {
    Spelled(extension) && '[' !in extension
  }

  ghost predicate IsWildcard(c: char)
  {
    c == '*' || c == '?'
  }

  ghost predicate HasWildcard(extension: string)
  {
    exists i :: 0 <= i < |extension| && IsWildcard(extension[i])
  }

  /** What one extension character is parsed to. */
  ghost function FoldAtom(c: char): (a: Atom)
  {
    if IsLower(c) || IsUpper(c) then OneOf([ToLower(c), ToUpper(c)])
    else if c == '*' then Star else if c == '?' then AnyOne else Exactly(c)
  }

  ghost function FoldAtoms(extension: string): (r: seq<Atom>)
  {
    if extension == "" then [] else [FoldAtom(extension[0])] + FoldAtoms(extension[1..])
  }

  lemma {:induction false} ParseChar(c: char, rest: string)
    requires PlainExtension([c])
    ensures Parse(FoldChar(c) + rest) == [FoldAtom(c)] + Parse(rest)
  {
    assert [c][0] == c;
    var g := FoldChar(c) + rest;
    if IsLower(c) || IsUpper(c) {
      assert g == ['[', ToLower(c), ToUpper(c), ']'] + rest;
      assert ClassEnd(g, 3) == 3 && ClassEnd(g, 2) == 3 && ClassEnd(g, 1) == 3;
      assert g[1..3] == [ToLower(c), ToUpper(c)] && g[4..] == rest;
    } else {
      assert g == [c] + rest && g[1..] == rest;
    }
  }

  lemma {:induction false} ParseFolded(extension: string)
    requires PlainExtension(extension)
    ensures Parse(FoldCase(extension)) == FoldAtoms(extension)
  {
    if extension == "" {
    } else {
      assert PlainExtension(extension[1..]) && PlainExtension([extension[0]]);
      ParseFolded(extension[1..]);
      ParseChar(extension[0], FoldCase(extension[1..]));
    }
  }

  /** What the extension's part of the glob is parsed to. */
  ghost function Tail(extension: string): (atoms: seq<Atom>)
  {
    Parse(FoldCase(extension))
  }

  /** The written glob means any run, a dot, and what the folded extension means. */
  lemma {:induction false} ParseGlob(extension: string)
    ensures Parse(GlobFor(extension)) == [Star] + ([Exactly('.')] + Tail(extension))
    ensures PlainExtension(extension) ==> Tail(extension) == FoldAtoms(extension)
  {
    var folded := FoldCase(extension);
    if PlainExtension(extension) {
      ParseFolded(extension);
    }
    assert ("." + folded)[1..] == folded;
    assert GlobFor(extension) == "*" + ("." + folded);
    assert GlobFor(extension)[1..] == "." + folded;
  }

  /** The character-by-character comparison the retarget makes. */
  ghost predicate SameFolded(t: string, extension: string)
  {
    |t| == |extension| && forall i :: 0 <= i < |t| ==> ToLower(t[i]) == ToLower(extension[i])
  }

  lemma {:induction false} AdmitsIsFolded(e: char, c: char)
    requires e as int < 128 && !IsWildcard(e)
    ensures Admits(FoldAtom(e), c) <==> ToLower(c) == ToLower(e) && c != '\U{212A}'
  {
  }

  lemma {:induction false} FoldedAccepts(extension: string, t: string)
    requires PlainExtension(extension) && !HasWildcard(extension)
    ensures Accepts(FoldAtoms(extension), t) <==> SameFolded(t, extension) && '\U{212A}' !in t
  {
    if extension == "" {
    } else {
      var rest := extension[1..];
      assert !IsWildcard(extension[0]) && FoldAtom(extension[0]) != Star;
      assert FoldAtoms(extension)[1..] == FoldAtoms(rest);
      if t != "" {
        assert PlainExtension(rest) && !HasWildcard(rest);
        FoldedAccepts(rest, t[1..]);
        AdmitsIsFolded(extension[0], t[0]);
        SameFoldedStep(t, extension);
        assert '\U{212A}' in t <==> t[0] == '\U{212A}' || '\U{212A}' in t[1..];
      }
    }
  }

  lemma {:induction false} SameFoldedStep(t: string, extension: string)
    requires t != "" && extension != ""
    ensures SameFolded(t, extension) <==>
              ToLower(t[0]) == ToLower(extension[0]) && SameFolded(t[1..], extension[1..])
  {
    if ToLower(t[0]) == ToLower(extension[0]) && SameFolded(t[1..], extension[1..]) {
      forall i | 0 <= i < |t|
        ensures ToLower(t[i]) == ToLower(extension[i])
      {
        if i > 0 {
          assert t[i] == t[1..][i - 1] && extension[i] == extension[1..][i - 1];
        }
      }
    }
    if SameFolded(t, extension) {
      forall i | 0 <= i < |t| - 1
        ensures ToLower(t[1..][i]) == ToLower(extension[1..][i])
      {
        assert t[1..][i] == t[i + 1] && extension[1..][i] == extension[i + 1];
      }
    }
  }

  lemma {:induction false} RetargetsAtLastDot(extension: string, basename: string)
    ensures Retargets(extension, basename) <==>
              LastDot(basename) >= 0 && SameFolded(basename[LastDot(basename) + 1..], extension)
  {
  }

  lemma {:induction false} AcceptsAtDot(atoms: seq<Atom>, basename: string, k: nat)
    requires k <= |basename|
    ensures Accepts([Exactly('.')] + atoms, basename[k..]) <==>
              k < |basename| && basename[k] == '.' && Accepts(atoms, basename[k + 1..])
  {
    assert ([Exactly('.')] + atoms)[1..] == atoms;
    if k < |basename| {
      assert basename[k..][1..] == basename[k + 1..];
    }
  }

  /** The glob matches when the text after some dot does; only the last dot can qualify. */
  lemma {:induction false} GlobMatchesSomeDot(extension: string, basename: string)
    requires '/' !in basename
    ensures GlobMatches(GlobFor(extension), basename) <==>
              exists k :: 0 <= k < |basename| && basename[k] == '.' && Accepts(Tail(extension), basename[k + 1..])
  {
    var atoms := Tail(extension);
    var tail := [Exactly('.')] + atoms;
    ParseGlob(extension);
    hide Tail;
    assert ([Star] + tail)[1..] == tail;
    assert GlobMatches(GlobFor(extension), basename) <==> AcceptsAfterRun(tail, basename);
    if AcceptsAfterRun(tail, basename) {
      var k :| 0 <= k <= |basename| && '/' !in basename[..k] && Accepts(tail, basename[k..]);
      AcceptsAtDot(atoms, basename, k);
    }
    if k :| 0 <= k < |basename| && basename[k] == '.' && Accepts(atoms, basename[k + 1..]) {
      AcceptsAtDot(atoms, basename, k);
      assert '/' !in basename[..k];
    }
  }

  /** The written glob and the retarget agree on every basename, but for the Kelvin sign: it lower-cases
      to `k`, which the retarget accepts and the class `[kK]` does not. */
  lemma {:induction false} GlobAgreesWithRetarget(extension: string, basename: string)
    requires PlainExtension(extension) && !HasWildcard(extension) && '.' !in extension && '/' !in basename
    ensures GlobMatches(GlobFor(extension), basename) <==>
              Retargets(extension, basename) && '\U{212A}' !in basename[LastDot(basename) + 1..]
  {
    var dot := LastDot(basename);
    GlobMatchesSomeDot(extension, basename);
    ParseGlob(extension);
    RetargetsAtLastDot(extension, basename);
    hide Accepts, Tail, FoldAtoms, GlobMatches, GlobFor, Retargets, SameFolded, Parse, PlainExtension, HasWildcard;
    if dot >= 0 {
      FoldedAccepts(extension, basename[dot + 1..]);
    }
    if k :| 0 <= k < |basename| && basename[k] == '.' && Accepts(FoldAtoms(extension), basename[k + 1..]) {
      FoldedAccepts(extension, basename[k + 1..]);
      OnlyLastDot(extension, basename, k);
    }
  }

  lemma {:induction false} DotFolds(t: string, extension: string)
    ensures SameFolded(t, extension) ==> ('.' in t <==> '.' in extension)
  {
    if SameFolded(t, extension) {
      assert forall i :: 0 <= i < |t| ==> (t[i] == '.' <==> extension[i] == '.');
    }
  }

  lemma {:induction false} OnlyLastDot(extension: string, basename: string, k: nat)
    requires '.' !in extension && k < |basename| && basename[k] == '.' && SameFolded(basename[k + 1..], extension)
    ensures k == LastDot(basename)
  {
    var t := basename[k + 1..];
    assert forall j :: k < j < |basename| ==> basename[j] == t[j - k - 1] && basename[j] in t;
    DotFolds(t, extension);
    hide SameFolded;
  }

  // Exactly which extensions agree on every basename.

  ghost predicate AgreesEverywhere(extension: string)
  {
    forall basename: string :: IsBasename(basename) ==>
      (GlobMatches(GlobFor(extension), basename) <==> Retargets(extension, basename))
  }

  /** The extension with each wildcard spelled as a plain letter. */
  ghost function Unwild(extension: string): (r: string)
    ensures |r| == |extension|
    ensures forall i :: 0 <= i < |r| ==> r[i] == if IsWildcard(extension[i]) then 'q' else extension[i]
  {
    seq(|extension|, i requires 0 <= i < |extension| => if IsWildcard(extension[i]) then 'q' else extension[i])
  }

  lemma {:induction false} UnwildAccepted(extension: string)
    requires PlainExtension(extension)
    ensures Accepts(FoldAtoms(extension), Unwild(extension))
  {
    if extension == "" {
    } else {
      var rest, u := extension[1..], Unwild(extension);
      assert PlainExtension(rest);
      UnwildAccepted(rest);
      assert u[1..] == Unwild(rest);
      assert FoldAtoms(extension)[1..] == FoldAtoms(rest);
      if extension[0] == '*' {
        assert u[..1] == "q" && '/' !in u[..1];
        assert AcceptsAfterRun(FoldAtoms(rest), u);
      }
    }
  }

  lemma {:induction false} DotFirst(t: string)
    requires '.' !in t && '/' !in t
    ensures var basename := "." + t;
            basename[0] == '.' && basename[1..] == t && LastDot(basename) == 0 && '/' !in basename
  {
    var basename := "." + t;
    assert forall j :: 0 < j < |basename| ==> basename[j] == t[j - 1] && t[j - 1] in t;
  }

  lemma {:induction false} UnwildIsDifferent(extension: string)
    requires PlainExtension(extension) && HasWildcard(extension) && '.' !in extension
    ensures '.' !in Unwild(extension) && IsBasename(Unwild(extension)) && !SameFolded(Unwild(extension), extension)
  {
    var u := Unwild(extension);
    var i :| 0 <= i < |extension| && IsWildcard(extension[i]);
    assert ToLower(u[i]) != ToLower(extension[i]);
  }

  lemma {:induction false} WildcardDisagrees(extension: string)
    requires PlainExtension(extension) && HasWildcard(extension) && '.' !in extension
    ensures !AgreesEverywhere(extension)
  {
    hide Accepts, FoldAtoms, Unwild, SameFolded, LastDot, GlobMatches, GlobFor, Retargets;
    var u := Unwild(extension);
    var basename := "." + u;
    UnwildAccepted(extension);
    UnwildIsDifferent(extension);
    DotFirst(u);
    GlobMatchesSomeDot(extension, basename);
    ParseGlob(extension);
    RetargetsAtLastDot(extension, basename);
  }

  lemma {:induction false} KelvinDisagrees(extension: string, i: nat)
    requires PlainExtension(extension) && !HasWildcard(extension) && '.' !in extension
    requires i < |extension| && ToLower(extension[i]) == 'k'
    ensures !AgreesEverywhere(extension)
  {
    var t := extension[i := '\U{212A}'];
    assert t[i] == '\U{212A}' && forall c :: c in t ==> c == '\U{212A}' || c in extension;
    assert SameFolded(t, extension);
    ParseGlob(extension);
    FoldedAccepts(extension, t);
    assert '.' !in t && IsBasename(t);
    hide Accepts, Tail, FoldAtoms, GlobMatches, GlobFor, Retargets, SameFolded, Parse;
    Named(extension, t);
  }

  lemma {:induction false} KelvinNeedsK(extension: string, t: string)
    requires SameFolded(t, extension) && forall i :: 0 <= i < |extension| ==> ToLower(extension[i]) != 'k'
    ensures '\U{212A}' !in t
  {
    forall j | 0 <= j < |t|
      ensures t[j] != '\U{212A}'
    {
      assert ToLower(t[j]) == ToLower(extension[j]);
    }
  }

  // An opening bracket.

  /** The first place from `i` on where the folded text has a `]`: a letter, or a `]` itself. */
  ghost function Closer(extension: string, i: nat): (m: nat)
    requires i <= |extension|
    ensures i <= m <= |extension|
    decreases |extension| - i
  {
    if i == |extension| || extension[i] == ']' || IsLower(extension[i]) || IsUpper(extension[i]) then i
    else Closer(extension, i + 1)
  }

  lemma {:induction false} FoldCaseConcat(a: string, b: string)
    ensures FoldCase(a + b) == FoldCase(a) + FoldCase(b)
  {
    if a == "" {
      assert a + b == b;
    } else {
      FoldCaseConcat(a[1..], b);
      assert (a + b)[1..] == a[1..] + b;
      assert FoldChar(a[0]) + (FoldCase(a[1..]) + FoldCase(b)) == FoldChar(a[0]) + FoldCase(a[1..]) + FoldCase(b);
    }
  }

  lemma {:induction false} ClassEndAt(g: string, i: nat, j: nat)
    requires i <= j <= |g| && (forall k :: i <= k < j ==> g[k] != ']') && (j < |g| ==> g[j] == ']')
    ensures ClassEnd(g, i) == j
    decreases j - i
  {
    if i == j {
    } else {
      ClassEndAt(g, i + 1, j);
    }
  }

  /** Text before the closer is folded to itself: it holds no letter and no `]`. */
  lemma {:induction false} FoldBeforeCloser(extension: string, i: nat, m: nat)
    requires i <= m <= |extension| && m == Closer(extension, i)
    ensures FoldCase(extension[i..m]) == extension[i..m]
    ensures ']' !in extension[i..m]
    decreases m - i
  {
    if i == m {
    } else {
      FoldBeforeCloser(extension, i + 1, m);
      assert extension[i..m][1..] == extension[i + 1..m];
      assert extension[i..m] == [extension[i]] + extension[i + 1..m];
    }
  }

  lemma {:induction false} FoldBracket(extension: string)
    requires extension != "" && extension[0] == '['
    ensures var m := Closer(extension, 1);
      FoldCase(extension) == "[" + (extension[1..m] + FoldCase(extension[m..]))
  {
    var m := Closer(extension, 1);
    FoldBeforeCloser(extension, 1, m);
    FoldCaseConcat(extension[1..m], extension[m..]);
    assert extension[1..] == extension[1..m] + extension[m..];
  }

  /** The class that a bracket opens ends with the first closer: a letter's own class, or a `]`. */
  lemma {:induction false} BracketEnds(before: string, c: char, rest: string) returns (close: nat)
    requires ']' !in before && (c == ']' || IsLower(c) || IsUpper(c))
    ensures var g := "[" + (before + (FoldChar(c) + rest));
      ClassEnd(g, 1) == close < |g| && g[close + 1..] == rest
  {
    var g := "[" + (before + (FoldChar(c) + rest));
    var n := |before|;
    close := if c == ']' then n + 1 else n + 4;
    var text := "[" + (before + FoldChar(c));
    assert g == text + rest && |text| == close + 1;
    assert forall k :: 1 <= k <= n ==> text[k] == before[k - 1] && before[k - 1] in before;
    assert forall k :: n < k <= close ==> text[k] == FoldChar(c)[k - n - 1];
    assert forall k :: 0 <= k <= close ==> g[k] == text[k];
    ClassEndAt(g, 1, close);
  }

  lemma {:induction false} BracketStaysOpen(before: string)
    requires ']' !in before
    ensures var g := "[" + before; ClassEnd(g, 1) == |g|
  {
    var g := "[" + before;
    assert forall k :: 1 <= k < |g| ==> g[k] == before[k - 1] && before[k - 1] in before;
    ClassEndAt(g, 1, |g|);
  }

  lemma {:induction false} ParseClass(g: string)
    requires g != "" && g[0] == '['
    ensures var j := ClassEnd(g, 1);
      Parse(g) == [OneOf(g[1..j])] + (if j < |g| then Parse(g[j + 1..]) else [])
  {
    assert Parse("") == [];
  }

  lemma {:induction false} FoldHead(t: string)
    ensures t == "" ==> FoldCase(t) == ""
    ensures t != "" ==> FoldCase(t) == FoldChar(t[0]) + FoldCase(t[1..])
  {
  }

  /** A bracket swallows everything up to the closer, and stands for one character. */
  lemma {:induction false} ParseBracket(extension: string) returns (chars: string)
    requires extension != "" && extension[0] == '['
    ensures var m := Closer(extension, 1);
      Tail(extension) == [OneOf(chars)] + (if m < |extension| then Tail(extension[m + 1..]) else [])
    ensures |extension| == 1 ==> chars == ""
  {
    hide Closer, ClassEnd, FoldCase, FoldChar, Parse;
    var m := Closer(extension, 1);
    var before, after := extension[1..m], extension[m..];
    FoldBeforeCloser(extension, 1, m);
    FoldBracket(extension);
    CloserIs(extension, 1);
    FoldHead(after);
    ParseClass("[" + (before + FoldCase(after)));
    if m == |extension| {
      assert before + FoldCase(after) == before;
      BracketStaysOpen(before);
      chars := before;
      assert ("[" + before)[1..|"[" + before|] == before;
    } else {
      assert after[1..] == extension[m + 1..];
      var close := BracketEnds(before, extension[m], FoldCase(extension[m + 1..]));
      chars := ("[" + (before + FoldCase(after)))[1..close];
    }
  }

  lemma {:induction false} CloserIs(extension: string, i: nat)
    requires i <= |extension|
    ensures var m := Closer(extension, i);
      m < |extension| ==> extension[m] == ']' || IsLower(extension[m]) || IsUpper(extension[m])
    decreases |extension| - i
  {
    if i < |extension| {
      CloserIs(extension, i + 1);
    }
  }

  /** The folded extension stands for no more characters than it has; with a bracket in it, for fewer, or it
      admits nothing. */
  lemma {:induction false} CountAtoms(extension: string)
    requires Spelled(extension)
    ensures |Tail(extension)| <= |extension|
    ensures '[' in extension ==> |Tail(extension)| < |extension| || OneOf("") in Tail(extension)
    decreases |extension|
  {
    if extension == "" {
    } else if extension[0] == '[' {
      var m := Closer(extension, 1);
      var chars := ParseBracket(extension);
      hide Tail;
      if m < |extension| {
        CountAtoms(extension[m + 1..]);
      }
    } else {
      var rest := extension[1..];
      CountAtoms(rest);
      ParseChar(extension[0], FoldCase(rest));
      assert extension == [extension[0]] + rest;
    }
  }

  /** Without a star, one character per atom; a class of nothing admits nothing. */
  lemma {:induction false} AcceptsByLength(atoms: seq<Atom>, s: string)
    requires Accepts(atoms, s) && Star !in atoms
    ensures |s| == |atoms| && OneOf("") !in atoms
    decreases |atoms|
  {
    if atoms == [] {
    } else {
      AcceptsByLength(atoms[1..], s[1..]);
    }
  }

  /** With a star, whatever is accepted can be made one character longer. */
  lemma {:induction false} Pump(atoms: seq<Atom>, s: string) returns (longer: string)
    requires Accepts(atoms, s) && Star in atoms
    ensures Accepts(atoms, longer) && |longer| == |s| + 1
    ensures forall c :: c in longer ==> c in s || c == 'q'
    decreases |atoms|
  {
    if atoms[0] == Star {
      var k :| 0 <= k <= |s| && '/' !in s[..k] && Accepts(atoms[1..], s[k..]);
      longer := s[..k] + "q" + s[k..];
      assert longer[..k + 1] == s[..k] + "q" && longer[k + 1..] == s[k..];
      assert AcceptsAfterRun(atoms[1..], longer);
    } else {
      var rest := Pump(atoms[1..], s[1..]);
      longer := [s[0]] + rest;
      assert longer[1..] == rest;
    }
  }

  /** An extension that opens a bracket never agrees: it names itself, which the glob takes for something shorter. */
  lemma {:induction false} BracketDisagrees(extension: string)
    requires Spelled(extension) && '[' in extension && '.' !in extension
    ensures !AgreesEverywhere(extension)
  {
    var atoms := Tail(extension);
    CountAtoms(extension);
    hide Tail, Parse, FoldCase;
    if Accepts(atoms, extension) {
      if Star !in atoms {
        AcceptsByLength(atoms, extension);
        assert false;
      }
      var longer := Pump(atoms, extension);
      Named(extension, longer);
    } else {
      Named(extension, extension);
    }
  }

  /** On a name that is one dot and the text, the glob looks at the text, and so does the retarget. */
  lemma {:induction false} Named(extension: string, t: string)
    requires '.' !in t && '/' !in t
    ensures var basename := "." + t;
      && ('\\' !in t ==> IsBasename(basename))
      && (GlobMatches(GlobFor(extension), basename) <==> Accepts(Tail(extension), t))
      && (Retargets(extension, basename) <==> SameFolded(t, extension))
  {
    var basename := "." + t;
    DotFirst(t);
    GlobMatchesSomeDot(extension, basename);
    RetargetsAtLastDot(extension, basename);
    assert forall k :: 0 < k < |basename| ==> basename[k] == t[k - 1] && t[k - 1] in t;
    hide Accepts, Tail, GlobMatches, GlobFor, Retargets, SameFolded;
  }

  // A dot.

  /** No name ends in a dotted extension, as far as the retarget sees: it looks after the last dot. */
  lemma {:induction false} DottedNeverRetargets(extension: string, basename: string)
    requires '.' in extension
    ensures !Retargets(extension, basename)
  {
    RetargetsAtLastDot(extension, basename);
    var dot := LastDot(basename);
    if dot >= 0 {
      DotFolds(basename[dot + 1..], extension);
    }
    hide SameFolded;
  }

  lemma {:induction false} GlobMatchesAfterDot(extension: string, t: string)
    requires '/' !in t && Accepts(Tail(extension), t)
    ensures GlobMatches(GlobFor(extension), "." + t)
  {
    hide Accepts, Tail;
    var basename := "." + t;
    GlobMatchesSomeDot(extension, basename);
    assert basename[0 + 1..] == t && basename[0] == '.';
    hide GlobMatches;
  }

  /** The glob does match such names. */
  lemma {:induction false} DottedDisagrees(extension: string)
    requires PlainExtension(extension) && '.' in extension
    ensures !AgreesEverywhere(extension)
  {
    var u := Unwild(extension);
    assert forall c :: c in u ==> c == 'q' || c in extension;
    assert IsBasename(u) && IsBasename("." + u);
    hide Unwild, Accepts, FoldAtoms, GlobMatches, GlobFor, Retargets, Tail, Parse;
    UnwildAccepted(extension);
    ParseGlob(extension);
    GlobMatchesAfterDot(extension, u);
    DottedNeverRetargets(extension, "." + u);
  }

  /** Agreement on every basename holds exactly for the extensions without a dot, a wildcard, an opening bracket or
      a `k`. */
  lemma {:induction false} ExactlyWhenGlobsAgree(extension: string)
    requires Spelled(extension) && ('.' in extension ==> '[' !in extension)
    ensures AgreesEverywhere(extension) <==>
              && '.' !in extension && !HasWildcard(extension) && '[' !in extension
              && forall i :: 0 <= i < |extension| ==> ToLower(extension[i]) != 'k'
  {
    if '.' in extension {
      DottedDisagrees(extension);
    } else if '[' in extension {
      BracketDisagrees(extension);
    } else if HasWildcard(extension) {
      WildcardDisagrees(extension);
    } else if i :| 0 <= i < |extension| && ToLower(extension[i]) == 'k' {
      KelvinDisagrees(extension, i);
    } else {
      forall basename: string | IsBasename(basename)
        ensures GlobMatches(GlobFor(extension), basename) <==> Retargets(extension, basename)
      {
        GlobAgreesWithRetarget(extension, basename);
        RetargetsAtLastDot(extension, basename);
        var dot := LastDot(basename);
        if dot >= 0 && SameFolded(basename[dot + 1..], extension) {
          KelvinNeedsK(extension, basename[dot + 1..]);
        }
      }
    }
  }
}
