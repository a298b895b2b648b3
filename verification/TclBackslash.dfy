/** Tcl 9.0 backslash decoding: `backslash_subst` and its escape table. */
module TclBackslash {
  import opened Characters
  import opened Sequences

  /** One decoded escape: how many characters it spans, and what it stands for. */
  datatype Escape = Escape(width: nat, value: char)

  /** A surrogate or out-of-range value degrades to the replacement character. */
  function Scalar(value: nat): (c: char)
  {
    if value < 0xD800 || 0xE000 <= value < 0x11_0000 then value as char else '\U{FFFD}'
  }

  function HexValue(c: char): int
  {
    if '0' <= c <= '9' then c as int - '0' as int
    else if 'a' <= c <= 'f' then c as int - 'a' as int + 10
    else if 'A' <= c <= 'F' then c as int - 'A' as int + 10
    else -1
  }

  function OctalValue(t: string, i: nat): int
  {
    if i < |t| && '0' <= t[i] <= '7' then t[i] as int - '0' as int else -1
  }

  /** At most `budget` hex digits; a capped run refuses a digit once the value has passed 0x10FFF. */
  function HexRun(t: string, budget: nat, capped: bool, value: nat): (run: (nat, nat))
    ensures run.0 <= |t|
    decreases budget
  {
    if budget == 0 || t == "" || HexValue(t[0]) < 0 || (capped && value > 0x1_0FFF) then (0, value)
    else
      var (n, v) := HexRun(t[1..], budget - 1, capped, value * 16 + HexValue(t[0]));
      (n + 1, v)
  }

  function BlankRun(t: string): (n: nat)
    ensures n <= |t|
  {
    if t != "" && (t[0] == ' ' || t[0] == '\t') then 1 + BlankRun(t[1..]) else 0
  }

  function HexEscape(t: string, letter: char, budget: nat, capped: bool): (e: Escape)
    requires |t| >= 2
    ensures 2 <= e.width <= |t|
  {
    var (n, v) := HexRun(t[2..], budget, capped, 0);
    if n == 0 then Escape(2, letter)
    else Escape(2 + n, Scalar(if capped then v else v % 256))
  }

  function OctalEscape(t: string): (e: Escape)
    requires |t| >= 2 && OctalValue(t, 1) >= 0
    ensures 2 <= e.width <= |t|
  {
    var first, second, third := OctalValue(t, 1), OctalValue(t, 2), OctalValue(t, 3);
    if second < 0 then Escape(2, Scalar(first))
    else if first * 8 + second >= 0x20 || third < 0 then Escape(3, Scalar(first * 8 + second))
    else Escape(4, Scalar(((first * 8 + second) * 8 + third) % 256))
  }

  /** The escape `t` begins with. */
  function Decode(t: string): (e: Escape)
    requires t != "" && t[0] == '\\'
    ensures 1 <= e.width <= |t|
  {
    if |t| == 1 then Escape(1, '\\')
    else match t[1]
      case 'a' => Escape(2, '\U{07}')
      case 'b' => Escape(2, '\U{08}')
      case 'f' => Escape(2, '\U{0C}')
      case 'n' => Escape(2, '\n')
      case 'r' => Escape(2, '\r')
      case 't' => Escape(2, '\t')
      case 'v' => Escape(2, '\U{0B}')
      case '\n' => Escape(2 + BlankRun(t[2..]), ' ')
      case 'x' => HexEscape(t, 'x', 2, false)
      case 'u' => HexEscape(t, 'u', 4, true)
      case 'U' => HexEscape(t, 'U', 8, true)
      case c => if OctalValue(t, 1) >= 0 then OctalEscape(t) else Escape(2, c)
  }

  /** The text with every escape replaced by the character it stands for. */
  function Subst(t: string): (r: string)
  {
    if t == "" then ""
    else if t[0] == '\\' then var e := Decode(t); [e.value] + Subst(t[e.width..])
    else [t[0]] + Subst(t[1..])
  }

  /** Text without a backslash is its own decoding: the zero-copy fast path is sound. */
  lemma {:induction false} SubstPlain(t: string)
    requires '\\' !in t
    ensures Subst(t) == t
  {
    if t == "" {
    } else {
      SubstPlain(t[1..]);
      assert t == [t[0]] + t[1..];
    }
  }

  // Numeric escapes.

  function Pow16(k: nat): (p: nat)
  {
    if k == 0 then 1 else 16 * Pow16(k - 1)
  }

  /** The value in `k` hex digits. */
  function HexDigits(v: nat, k: nat): (r: string)
    ensures |r| == k
  {
    if k == 0 then "" else HexDigits(v / 16, k - 1) + [HexDigit(v % 16)]
  }

  /** Digits of a value that fits are all taken, and count for exactly the value. */
  lemma {:induction false} HexRunTakes(v: nat, k: nat, budget: nat, capped: bool, rest: string)
    requires k <= budget && v < Pow16(k) && (capped ==> v <= 0x10_FFFF)
    ensures var more := HexRun(rest, budget - k, capped, v);
            HexRun(HexDigits(v, k) + rest, budget, capped, 0) == (k + more.0, more.1)
    decreases k
  {
    if k == 0 {
      assert HexDigits(v, k) + rest == rest;
    } else {
      var d := HexDigit(v % 16);
      Associates(HexDigits(v / 16, k - 1), [d], rest);
      HexRunTakes(v / 16, k - 1, budget, capped, [d] + rest);
      assert ([d] + rest)[1..] == rest;
    }
  }

  lemma {:induction false} HexEscapeReads(v: nat, k: nat, letter: char, capped: bool, rest: string)
    requires 0 < k && v < Pow16(k) && (capped ==> v <= 0x10_FFFF)
    ensures HexEscape(['\\', letter] + (HexDigits(v, k) + rest), letter, k, capped) ==
              Escape(2 + k, Scalar(if capped then v else v % 256))
  {
    HexRunTakes(v, k, k, capped, rest);
    DropPrefix(['\\', letter], HexDigits(v, k) + rest);
  }

  /** Every character is what its eight-digit escape stands for, whatever follows; so are those below
      U+10000 for four digits and those below U+0100 for two. */
  lemma {:induction false} NumericEscapesDecode(c: char, rest: string)
    ensures Decode("\\U" + (HexDigits(c as int, 8) + rest)) == Escape(10, c)
    ensures c as int < 0x1_0000 ==> Decode("\\u" + (HexDigits(c as int, 4) + rest)) == Escape(6, c)
    ensures c as int < 0x100 ==> Decode("\\x" + (HexDigits(c as int, 2) + rest)) == Escape(4, c)
  {
    hide Decode, HexEscape, HexDigits, Pow16;
    var v := c as int;
    Powers();
    HexEscapeReads(v, 8, 'U', true, rest);
    DecodeIsHex(HexDigits(v, 8) + rest);
    if v < 0x1_0000 {
      HexEscapeReads(v, 4, 'u', true, rest);
      DecodeIsHex(HexDigits(v, 4) + rest);
    }
    if v < 0x100 {
      HexEscapeReads(v, 2, 'x', false, rest);
      DecodeIsHex(HexDigits(v, 2) + rest);
    }
  }

  lemma {:induction false} DecodeIsHex(rest: string)
    ensures Decode("\\U" + rest) == HexEscape("\\U" + rest, 'U', 8, true)
    ensures Decode("\\u" + rest) == HexEscape("\\u" + rest, 'u', 4, true)
    ensures Decode("\\x" + rest) == HexEscape("\\x" + rest, 'x', 2, false)
  {
    hide HexEscape, OctalEscape, OctalValue, BlankRun;
  }

  lemma {:induction false} Powers()
    ensures Pow16(2) == 0x100 && Pow16(4) == 0x1_0000 && Pow16(8) == 0x1_0000_0000
  {
  }

  /** The text with every character written as an eight-digit escape. */
  function SpellOut(t: string): (r: string)
  {
    if t == "" then "" else "\\U" + (HexDigits(t[0] as int, 8) + SpellOut(t[1..]))
  }

  /** Any text at all can be spelled out in escapes and decoded back. */
  lemma {:induction false} SpelledOutReadsBack(t: string)
    ensures Subst(SpellOut(t)) == t
  {
    if t == "" {
    } else {
      var digits, rest := HexDigits(t[0] as int, 8), SpellOut(t[1..]);
      SpelledOutReadsBack(t[1..]);
      NumericEscapesDecode(t[0], rest);
      hide Decode, HexDigits;
      assert ("\\U" + (digits + rest))[10..] == rest;
      HeadTail(t);
    }
  }

  // The other escapes, spelled out.

  const Blanks := " \t"

  /** A line continuation, with all the blanks that follow the newline, stands for one space. */
  lemma {:induction false} ContinuationIsOneSpace(blanks: string, rest: string)
    requires (forall c :: c in blanks ==> c in Blanks) && (rest != "" ==> rest[0] !in Blanks)
    ensures Subst("\\\n" + blanks + rest) == " " + Subst(rest)
  {
    var t := "\\\n" + blanks + rest;
    BlankRunIs(blanks, rest);
    assert t[2..] == blanks + rest;
    assert Decode(t) == Escape(2 + |blanks|, ' ');
    assert t[2 + |blanks|..] == rest;
  }

  lemma {:induction false} BlankRunIs(blanks: string, rest: string)
    requires (forall c :: c in blanks ==> c in Blanks) && (rest != "" ==> rest[0] !in Blanks)
    ensures BlankRun(blanks + rest) == |blanks|
  {
    if blanks == "" {
      assert blanks + rest == rest;
    } else {
      assert blanks[0] in blanks;
      assert forall c :: c in blanks[1..] ==> c in blanks;
      BlankRunIs(blanks[1..], rest);
      assert (blanks + rest)[1..] == blanks[1..] + rest;
    }
  }

  lemma {:induction false} PairDecodes(x: char, c: char, rest: string)
    requires Decode(['\\', x] + rest) == Escape(2, c)
    ensures Subst(['\\', x] + rest) == [c] + Subst(rest)
  {
    assert (['\\', x] + rest)[2..] == rest;
  }

  /** The named control characters. */
  lemma {:induction false} LettersDecode(rest: string)
    ensures Subst("\\a" + rest) == "\U{07}" + Subst(rest) && Subst("\\b" + rest) == "\U{08}" + Subst(rest)
    ensures Subst("\\t" + rest) == "\U{09}" + Subst(rest) && Subst("\\n" + rest) == "\U{0A}" + Subst(rest)
    ensures Subst("\\v" + rest) == "\U{0B}" + Subst(rest) && Subst("\\f" + rest) == "\U{0C}" + Subst(rest)
    ensures Subst("\\r" + rest) == "\U{0D}" + Subst(rest)
  {
    hide Subst, OctalEscape, HexEscape, BlankRun;
    PairDecodes('a', '\U{07}', rest);
    PairDecodes('b', '\U{08}', rest);
    PairDecodes('t', '\U{09}', rest);
    PairDecodes('n', '\U{0A}', rest);
    PairDecodes('v', '\U{0B}', rest);
    PairDecodes('f', '\U{0C}', rest);
    PairDecodes('r', '\U{0D}', rest);
  }

  /** What a backslash gives a meaning of its own. */
  const Special := "abfnrtvxuU01234567\n"

  /** Any other character stands for itself, and so does a backslash at the very end. */
  lemma {:induction false} OthersDecodeToThemselves(x: char, rest: string)
    ensures x !in Special ==> Subst(['\\', x] + rest) == [x] + Subst(rest)
    ensures Subst("\\") == "\\"
  {
    if x !in Special {
      var t := ['\\', x] + rest;
      assert t[1] == x && forall i :: 0 <= i < |Special| ==> Special[i] != x;
      NotSpecial(x);
      assert Decode(t) == Escape(2, x);
      PairDecodes(x, x, rest);
    }
    assert "\\"[1..] == "" && Subst("") == "";
    assert Decode("\\") == Escape(1, '\\');
  }

  lemma {:induction false} NotSpecial(x: char)
    requires x !in Special
    ensures x != 'a' && x != 'b' && x != 'f' && x != 'n' && x != 'r' && x != 't' && x != 'v' && x != '\n'
    ensures x != 'x' && x != 'u' && x != 'U' && !('0' <= x <= '7')
  {
    assert Special[0] == 'a' && Special[1] == 'b' && Special[2] == 'f' && Special[3] == 'n' && Special[4] == 'r';
    assert Special[5] == 't' && Special[6] == 'v' && Special[7] == 'x' && Special[8] == 'u' && Special[9] == 'U';
    assert Special[10] == '0' && Special[11] == '1' && Special[12] == '2' && Special[13] == '3';
    assert Special[14] == '4' && Special[15] == '5' && Special[16] == '6' && Special[17] == '7' && Special[18] == '\n';
  }

  // Octal escapes.

  function OctalDigit(n: nat): (c: char)
    requires n < 8
  {
    ('0' as int + n) as char
  }

  predicate StartsOctal(t: string)
  {
    t != "" && '0' <= t[0] <= '7'
  }

  lemma {:induction false} OctalDecodes(t: string, n: nat, v: nat, rest: string)
    requires |t| >= 2 && t[0] == '\\' && OctalValue(t, 1) >= 0 && v < 256
    requires OctalEscape(t) == Escape(n, v as char) && t[n..] == rest
    ensures Subst(t) == [v as char] + Subst(rest)
  {
    hide OctalEscape;
    assert Decode(t) == OctalEscape(t);
  }

  /** One octal digit that no other follows. */
  lemma {:induction false} OneOctalDigit(a: nat, rest: string)
    requires a < 8 && !StartsOctal(rest)
    ensures Subst(['\\', OctalDigit(a)] + rest) == [a as char] + Subst(rest)
  {
    var t := ['\\', OctalDigit(a)] + rest;
    assert t[2..] == rest;
    assert rest != "" ==> t[2] == rest[0];
    OctalDecodes(t, 2, a, rest);
  }

  /** Two octal digits: a third is taken exactly while they stay below 0x20. */
  lemma {:induction false} TwoOctalDigits(a: nat, b: nat, rest: string)
    requires a < 8 && b < 8 && (8 * a + b >= 0x20 || !StartsOctal(rest))
    ensures Subst(['\\', OctalDigit(a), OctalDigit(b)] + rest) == [(8 * a + b) as char] + Subst(rest)
  {
    var t := ['\\', OctalDigit(a), OctalDigit(b)] + rest;
    assert t[3..] == rest;
    assert rest != "" ==> t[3] == rest[0];
    OctalDecodes(t, 3, 8 * a + b, rest);
  }

  /** Three octal digits, the first two below 0x20: every value of a byte has such a spelling. */
  lemma {:induction false} ThreeOctalDigits(a: nat, b: nat, c: nat, rest: string)
    requires a < 8 && b < 8 && c < 8 && 8 * a + b < 0x20
    ensures Subst(['\\', OctalDigit(a), OctalDigit(b), OctalDigit(c)] + rest) ==
              [(64 * a + 8 * b + c) as char] + Subst(rest)
  {
    var t := ['\\', OctalDigit(a), OctalDigit(b), OctalDigit(c)] + rest;
    assert t[4..] == rest;
    OctalDecodes(t, 4, 64 * a + 8 * b + c, rest);
  }

  // Hex escapes that are cut short.

  const UpperHex := "0123456789ABCDEF"
  const LowerHex := "0123456789abcdef"

  /** The digits of either case, and nothing else. */
  lemma {:induction false} HexDigitsOfEitherCase(c: char, n: nat)
    ensures n < 16 ==> HexValue(UpperHex[n]) == n && HexValue(LowerHex[n]) == n
    ensures HexValue(c) >= 0 ==> HexValue(c) < 16 && (c == UpperHex[HexValue(c)] || c == LowerHex[HexValue(c)])
  {
  }

  predicate StartsHex(t: string)
  {
    t != "" && (t[0] in UpperHex || t[0] in LowerHex)
  }

  lemma {:induction false} StartsHexIs(t: string)
    ensures StartsHex(t) <==> t != "" && HexValue(t[0]) >= 0
  {
    if t != "" {
      forall n | 0 <= n < 16
        ensures HexValue(UpperHex[n]) == n && HexValue(LowerHex[n]) == n
      {
        HexDigitsOfEitherCase(t[0], n);
      }
      HexDigitsOfEitherCase(t[0], 0);
    }
  }

  /** Without a digit the letter stands for itself. */
  lemma {:induction false} NoHexDigit(rest: string)
    requires !StartsHex(rest)
    ensures Subst("\\x" + rest) == "x" + Subst(rest) && Subst("\\u" + rest) == "u" + Subst(rest)
    ensures Subst("\\U" + rest) == "U" + Subst(rest)
  {
    StartsHexIs(rest);
    DecodeIsHex(rest);
    DropPrefix("\\x", rest);
    DropPrefix("\\u", rest);
    DropPrefix("\\U", rest);
    hide Decode, Subst;
    PairDecodes('x', 'x', rest);
    PairDecodes('u', 'u', rest);
    PairDecodes('U', 'U', rest);
  }

  /** Fewer digits than there is room for end where the digits do. */
  lemma {:induction false} ShortHexEscape(v: nat, k: nat, rest: string)
    requires 0 < k && v < Pow16(k) && !StartsHex(rest)
    ensures k <= 2 ==> Decode("\\x" + (HexDigits(v, k) + rest)) == Escape(2 + k, Scalar(v))
    ensures k <= 4 ==> Decode("\\u" + (HexDigits(v, k) + rest)) == Escape(2 + k, Scalar(v))
    ensures k <= 8 && v <= 0x10_FFFF ==> Decode("\\U" + (HexDigits(v, k) + rest)) == Escape(2 + k, Scalar(v))
  {
    StartsHexIs(rest);
    Powers();
    var t := HexDigits(v, k) + rest;
    DecodeIsHex(t);
    DropPrefix("\\x", t);
    DropPrefix("\\u", t);
    DropPrefix("\\U", t);
    hide Decode;
    if k <= 2 {
      PowersGrow(k, 2);
      HexRunTakes(v, k, 2, false, rest);
    }
    if k <= 4 {
      PowersGrow(k, 4);
      HexRunTakes(v, k, 4, true, rest);
    }
    if k <= 8 && v <= 0x10_FFFF {
      HexRunTakes(v, k, 8, true, rest);
    }
  }

  lemma {:induction false} PowersGrow(k: nat, n: nat)
    requires k <= n
    ensures Pow16(k) <= Pow16(n)
    decreases n - k
  {
    if k == n {
    } else {
      PowersGrow(k, n - 1);
    }
  }

  /** A surrogate is replaced. */
  lemma {:induction false} SurrogatesAreReplaced(v: nat, rest: string)
    requires 0xD800 <= v < 0xE000
    ensures Decode("\\u" + (HexDigits(v, 4) + rest)) == Escape(6, '\U{FFFD}')
  {
    Powers();
    HexEscapeReads(v, 4, 'u', true, rest);
    DecodeIsHex(HexDigits(v, 4) + rest);
    hide Decode, HexEscape, HexDigits;
  }

  /** A digit is refused once the value has passed 0x10FFF. */
  lemma {:induction false} CapRefusesDigits(v: nat, k: nat, rest: string)
    requires 0 < k < 8 && v < Pow16(k) && 0x1_0FFF < v <= 0x10_FFFF
    ensures Decode("\\U" + (HexDigits(v, k) + rest)) == Escape(2 + k, Scalar(v))
  {
    var t := HexDigits(v, k) + rest;
    HexRunTakes(v, k, 8, true, rest);
    DecodeIsHex(t);
    DropPrefix("\\U", t);
    hide Decode;
  }

  /** What is copied out, the pending literal run and the decoding of the rest make up the decoding. */
  ghost predicate Progress(text: string, out: string, literal: nat, i: nat)
  {
    literal <= i <= |text| && Subst(text) == out + text[literal..i] + Subst(text[i..])
  }

  lemma {:induction false} ProgressFromStart(text: string)
    ensures Progress(text, "", 0, 0)
  {
    assert text[0..] == text;
    assert "" + text[0..0] + Subst(text) == Subst(text);
  }

  lemma {:induction false} ProgressLiteral(text: string, out: string, literal: nat, i: nat)
    requires Progress(text, out, literal, i) && i < |text| && text[i] != '\\'
    ensures Progress(text, out, literal, i + 1)
  {
    var rest := Subst(text[i + 1..]);
    assert text[i..][1..] == text[i + 1..];
    Associates(out + text[literal..i], [text[i]], rest);
    assert out + text[literal..i] + [text[i]] == out + text[literal..i + 1];
  }

  lemma {:induction false} ProgressEscape(text: string, out: string, literal: nat, i: nat)
    requires Progress(text, out, literal, i) && i < |text| && text[i] == '\\'
    ensures var e := Decode(text[i..]);
            Progress(text, out + text[literal..i] + [e.value], i + e.width, i + e.width)
  {
    var e := Decode(text[i..]);
    var j, done := i + e.width, out + text[literal..i] + [e.value];
    assert text[i..][e.width..] == text[j..];
    Associates(out + text[literal..i], [e.value], Subst(text[j..]));
    assert done + text[j..j] == done;
  }

  lemma {:induction false} ProgressToEnd(text: string, out: string, literal: nat)
    requires Progress(text, out, literal, |text|)
    ensures out + text[literal..] == Subst(text)
  {
    assert text[|text|..] == "";
    assert text[literal..] == text[literal..|text|];
    assert out + text[literal..] + "" == out + text[literal..];
  }

  /** The forward scan that copies literal runs in one piece. */
  method BackslashSubst(text: string) returns (out: string)
    ensures out == Subst(text)
  {
    if '\\' !in text {
      SubstPlain(text);
      return text;
    }
    out := DecodeEscapes(text);
  }

  method DecodeEscapes(text: string) returns (out: string)
    ensures out == Subst(text)
  {
    hide Decode, Subst, Progress;
    out := "";
    var literal, i := 0, 0;
    ProgressFromStart(text);
    while i < |text|
      invariant 0 <= literal <= i <= |text|
      invariant Progress(text, out, literal, i)
    {
      if text[i] != '\\' {
        ProgressLiteral(text, out, literal, i);
        i := i + 1;
      } else {
        var e := Decode(text[i..]);
        ProgressEscape(text, out, literal, i);
        out := out + text[literal..i] + [e.value];
        i := i + e.width;
        literal := i;
      }
    }
    ProgressToEnd(text, out, literal);
    out := out + text[literal..];
  }
}
