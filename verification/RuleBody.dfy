/** The external scanner for the body of an `ltm rule`: a brace-balanced Tcl word (rule 6 of Tcl(n)). */
module RuleBody {
  import opened Sequences

  /** How many characters one step takes at the head of a non-empty text. */
  function Width(t: string): (n: nat)
    requires t != ""
    ensures 1 <= n <= |t|
  {
    if t[0] == '\\' && |t| > 1 then 2 else 1
  }

  /** The depth after one step. */
  function Deeper(c: char, depth: int): (d: int)
  {
    if c == '{' then depth + 1 else if c == '}' then depth - 1 else depth
  }

  /** How much of the text the scan consumes from `depth` levels in. */
  function BodyEnd(t: string, depth: nat): (e: nat)
    ensures e <= |t|
    decreases |t|
  {
    if t == "" || (t[0] == '}' && depth == 0) then 0
    else Width(t) + BodyEnd(t[Width(t)..], Deeper(t[0], depth))
  }

  /** One step of the scan at `pos`. */
  lemma {:induction false} StepAt(input: string, pos: nat, depth: nat)
    requires pos < |input| && !(input[pos] == '}' && depth == 0)
    ensures var n := if input[pos] == '\\' && pos + 1 < |input| then 2 else 1;
            BodyEnd(input[pos..], depth) == n + BodyEnd(input[pos + n..], Deeper(input[pos], depth))
  {
    var t := input[pos..];
    assert t[Width(t)..] == input[pos + Width(t)..];
  }

  /** The scan has come to `pos`, `depth` levels in. */
  ghost predicate Reached(input: string, pos: nat, depth: nat)
  {
    pos <= |input| && BodyEnd(input, 0) == pos + BodyEnd(input[pos..], depth)
  }

  lemma {:induction false} ReachedOn(input: string, pos: nat, depth: nat)
    requires Reached(input, pos, depth) && pos < |input| && !(input[pos] == '}' && depth == 0)
    ensures var n := if input[pos] == '\\' && pos + 1 < |input| then 2 else 1;
            Reached(input, pos + n, Deeper(input[pos], depth))
  {
    StepAt(input, pos, depth);
  }

  lemma {:induction false} ReachedStart(input: string)
    ensures Reached(input, 0, 0)
  {
    assert input[0..] == input;
  }

  lemma {:induction false} ReachedStop(input: string, pos: nat, depth: nat)
    requires Reached(input, pos, depth)
    requires pos == |input| || (input[pos] == '}' && depth == 0)
    ensures BodyEnd(input, 0) == pos
  {
  }

  /** The scanner: whether it yields a token, and where the token ends. */
  method Scan(input: string, valid: bool) returns (ok: bool, end: nat)
    ensures end == if valid then BodyEnd(input, 0) else 0
    ensures ok <==> valid && BodyEnd(input, 0) > 0
  {
    hide BodyEnd, Reached;
    end := 0;
    if !valid {
      return false, end;
    }
    var pos, depth, sawContent := 0, 0, false;
    ReachedStart(input);
    while true
      invariant 0 <= pos <= |input| && depth >= 0 && end == pos
      invariant sawContent <==> pos > 0
      invariant Reached(input, pos, depth)
      decreases |input| - pos
    {
      if pos == |input| {
        break;
      }
      var c := input[pos];
      if c == '\\' {
        ReachedOn(input, pos, depth);
        pos := pos + 1;
        if pos < |input| {
          pos := pos + 1;
        }
        sawContent := true;
        end := pos;
        continue;
      }
      if c == '}' && depth == 0 {
        break;
      }
      ReachedOn(input, pos, depth);
      if c == '{' {
        depth := depth + 1;
      } else if c == '}' {
        depth := depth - 1;
      }
      pos := pos + 1;
      sawContent := true;
      end := pos;
    }
    ReachedStop(input, pos, depth);
    ok := sawContent;
  }

  // What a body is: Tcl's grammar of a braced word.

  datatype Body = Empty | Plain(c: char, rest: Body) | Escaped(c: char, rest: Body) | Braced(inner: Body, rest: Body)

  ghost predicate WellFormed(b: Body)
  {
    match b
    case Empty => true
    case Plain(c, rest) => c != '{' && c != '}' && c != '\\' && WellFormed(rest)
    case Escaped(_, rest) => WellFormed(rest)
    case Braced(inner, rest) => WellFormed(inner) && WellFormed(rest)
  }

  function Show(b: Body): (s: string)
  {
    match b
    case Empty => ""
    case Plain(c, rest) => [c] + Show(rest)
    case Escaped(c, rest) => ['\\', c] + Show(rest)
    case Braced(inner, rest) => "{" + (Show(inner) + ("}" + Show(rest)))
  }

  /** The text is the text of some body: its braces balance and no backslash dangles. */
  ghost predicate Balanced(s: string)
  {
    exists b :: WellFormed(b) && Show(b) == s
  }

  // The scan walks over a body as a whole.

  lemma {:induction false} StepOver(h: string, t: string, depth: nat)
    requires h != "" && |h| == Width(h + t) && !(h[0] == '}' && depth == 0)
    ensures BodyEnd(h + t, depth) == |h| + BodyEnd(t, Deeper(h[0], depth))
  {
    DropPrefix(h, t);
  }

  lemma {:induction false} WalksOver(b: Body, t: string, depth: nat)
    requires WellFormed(b)
    ensures BodyEnd(Show(b) + t, depth) == |Show(b)| + BodyEnd(t, depth)
    decreases b
  {
    match b
    case Empty =>
      assert Show(b) + t == t;
    case Plain(c, rest) =>
      Associates([c], Show(rest), t);
      StepOver([c], Show(rest) + t, depth);
      WalksOver(rest, t, depth);
    case Escaped(c, rest) =>
      Associates(['\\', c], Show(rest), t);
      StepOver(['\\', c], Show(rest) + t, depth);
      WalksOver(rest, t, depth);
    case Braced(inner, rest) =>
      WalksOverBraces(inner, rest, t, depth);
  }

  lemma {:induction false} WalksOverBraces(inner: Body, rest: Body, t: string, depth: nat)
    requires WellFormed(inner) && WellFormed(rest)
    ensures var s := Show(Braced(inner, rest));
            BodyEnd(s + t, depth) == |s| + BodyEnd(t, depth)
    decreases Braced(inner, rest), 0
  {
    var after := Show(rest) + t;
    assert Show(Braced(inner, rest)) + t == "{" + (Show(inner) + ("}" + after));
    StepOver("{", Show(inner) + ("}" + after), depth);
    WalksOver(inner, "}" + after, depth + 1);
    StepOver("}", after, depth + 1);
    WalksOver(rest, t, depth);
  }

  /** The text is a body and then a `}`, where the scan either stops or comes up one level. */
  ghost predicate ReadsAs(t: string, depth: nat, b: Body, rest: string)
  {
    && WellFormed(b) && t == Show(b) + rest && rest != "" && rest[0] == '}'
    && BodyEnd(t, depth) == |Show(b)| + (if depth == 0 then 0 else 1 + BodyEnd(rest[1..], depth - 1))
  }

  lemma {:induction false} ReadsAsEmpty(t: string, depth: nat)
    requires t != "" && t[0] == '}'
    ensures ReadsAs(t, depth, Empty, t)
  {
    assert "" + t == t && t[0..] == t;
    if depth > 0 {
      StepAt(t, 0, depth);
    }
  }

  lemma {:induction false} ReadsAsStep(t: string, depth: nat, tail: Body, rest: string)
    requires t != "" && t[0] != '{' && t[0] != '}' && (t[0] == '\\' ==> |t| > 1)
    requires ReadsAs(t[Width(t)..], depth, tail, rest)
    ensures ReadsAs(t, depth, if t[0] == '\\' then Escaped(t[1], tail) else Plain(t[0], tail), rest)
  {
    assert t[0..] == t;
    StepAt(t, 0, depth);
    var h := if t[0] == '\\' then [t[0], t[1]] else [t[0]];
    assert t == h + t[Width(t)..];
    Associates(h, Show(tail), rest);
  }

  lemma {:induction false} ReadsAsBraced(t: string, depth: nat, inner: Body, mid: string, tail: Body, rest: string)
    requires t != "" && t[0] == '{'
    requires ReadsAs(t[1..], depth + 1, inner, mid) && ReadsAs(mid[1..], depth, tail, rest)
    ensures ReadsAs(t, depth, Braced(inner, tail), rest)
  {
    assert t[0..] == t;
    StepAt(t, 0, depth);
    HeadTail(t);
    HeadTail(mid);
    hide BodyEnd;
    Associates("}", Show(tail), rest);
    Associates(Show(inner), "}" + Show(tail), rest);
    Associates("{", Show(inner) + ("}" + Show(tail)), rest);
  }

  /** A scan that stops before the end has consumed a body. */
  lemma {:induction false} ReadBody(t: string, depth: nat) returns (b: Body, rest: string)
    requires BodyEnd(t, depth) < |t|
    ensures ReadsAs(t, depth, b, rest)
    decreases |t|
  {
    if t[0] == '}' {
      b, rest := Empty, t;
      ReadsAsEmpty(t, depth);
    } else if t[0] == '{' {
      var inner, mid := ReadBody(t[1..], depth + 1);
      var tail;
      tail, rest := ReadBody(mid[1..], depth);
      b := Braced(inner, tail);
      ReadsAsBraced(t, depth, inner, mid, tail, rest);
    } else {
      var tail;
      tail, rest := ReadBody(t[Width(t)..], depth);
      b := if t[0] == '\\' then Escaped(t[1], tail) else Plain(t[0], tail);
      ReadsAsStep(t, depth, tail, rest);
    }
  }

  // The theorems.

  /** Before a closing brace the scan consumes exactly the bodies, whatever follows. */
  lemma {:induction false} ConsumesExactlyBodies(s: string, suffix: string)
    ensures BodyEnd(s + ("}" + suffix), 0) == |s| <==> Balanced(s)
  {
    var t := s + ("}" + suffix);
    if Balanced(s) {
      var b :| WellFormed(b) && Show(b) == s;
      WalksOver(b, "}" + suffix, 0);
    }
    if BodyEnd(t, 0) == |s| {
      var b, rest := ReadBody(t, 0);
      assert t[..|s|] == s && (Show(b) + rest)[..|s|] == Show(b);
    }
  }

  /** On any text the scan either takes it all, or stops before a `}` that closes a balanced body. */
  lemma {:induction false} StopsOnlyAtItsBrace(t: string)
    ensures var e := BodyEnd(t, 0);
            e == |t| || (t[e] == '}' && Balanced(t[..e]))
  {
    var e := BodyEnd(t, 0);
    if e < |t| {
      var b, rest := ReadBody(t, 0);
      assert t[..e] == Show(b) && t[e] == rest[0];
    }
  }
}
