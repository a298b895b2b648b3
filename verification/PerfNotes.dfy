/** The release-notes splicer: one `## Performance` section, replaced in place or appended. */
module PerfNotes {
  import opened Characters
  import opened Sequences

  const Heading := "## Performance"
  const NextHeading := "## "

  predicate StartsAt(t: string, i: nat, p: string)
  {
    i + |p| <= |t| && forall k :: 0 <= k < |p| ==> t[i + k] == p[k]
  }

  predicate LineStart(t: string, i: nat)
  {
    i == 0 || (i <= |t| && t[i - 1] == '\n')
  }

  // The regular expression, as the scan it denotes.

  /** `^## Performance`: the first line start at or after `i` that the heading begins at, or the length. */
  function FindHeading(t: string, i: nat): (j: nat)
    requires i <= |t|
    ensures i <= j <= |t|
    decreases |t| - i
  {
    if i == |t| then i
    else if LineStart(t, i) && StartsAt(t, i, Heading) then i
    else FindHeading(t, i + 1)
  }

  /** `.*`: to the end of the line. */
  function LineEnd(t: string, i: nat): (j: nat)
    requires i <= |t|
    ensures i <= j <= |t|
    decreases |t| - i
  {
    if i == |t| || t[i] == '\n' then i else LineEnd(t, i + 1)
  }

  /** `(?:\n(?!## ).*)*`: further lines, up to one that begins a section. */
  function MoreLines(t: string, i: nat): (j: nat)
    requires i <= |t|
    ensures i <= j <= |t|
    decreases |t| - i
  {
    if i < |t| && t[i] == '\n' && !StartsAt(t, i + 1, NextHeading) then MoreLines(t, LineEnd(t, i + 1)) else i
  }

  /** `\n*`. */
  function SkipNewlines(t: string, i: nat): (j: nat)
    requires i <= |t|
    ensures i <= j <= |t|
    decreases |t| - i
  {
    if i < |t| && t[i] == '\n' then SkipNewlines(t, i + 1) else i
  }

  function SectionEnd(t: string, start: nat): (j: nat)
    requires start <= |t|
    ensures start <= j <= |t|
  {
    SkipNewlines(t, MoreLines(t, LineEnd(t, start)))
  }

  function StripNewlines(t: string): (r: string)
  {
    if t != "" && t[|t| - 1] == '\n' then StripNewlines(t[..|t| - 1]) else t
  }

  function Splice(t: string, section: string): (r: string)
  {
    var start := FindHeading(t, 0);
    if start < |t| then t[..start] + section + t[SectionEnd(t, start)..]
    else StripNewlines(t) + "\n\n" + section
  }

  // What a section is.

  /** No line that begins inside the text, after its first character, begins a `## ` section. */
  ghost predicate NoInnerHeading(s: string)
  {
    forall i :: 0 < i < |s| && LineStart(s, i) ==> !StartsAt(s, i, NextHeading)
  }

  /** Begins with the heading, holds no other section, ends in a newline. */
  ghost predicate IsSection(s: string)
  {
    StartsAt(s, 0, Heading) && NoInnerHeading(s) && s[|s| - 1] == '\n'
  }

  ghost predicate NoHeadingLine(pre: string)
  {
    forall i :: 0 <= i < |pre| && LineStart(pre, i) ==> !StartsAt(pre, i, Heading)
  }

  ghost predicate WholeLines(pre: string)
  {
    pre == "" || pre[|pre| - 1] == '\n'
  }

  /** The notes taken apart at their first performance section: whole lines without the heading, the
      section, and what follows it, which is nothing or the next section. */
  ghost predicate Parts(t: string, pre: string, body: string, post: string)
  {
    && t == pre + body + post
    && WholeLines(pre) && NoHeadingLine(pre)
    && StartsAt(body, 0, Heading) && NoInnerHeading(body)
    && (post != "" ==> StartsAt(post, 0, NextHeading) && body[|body| - 1] == '\n')
  }

  // The scan finds exactly those parts.

  lemma {:induction false} FindHeadingIs(t: string, i: nat, k: nat)
    requires i <= k <= |t|
    requires forall j :: i <= j < k ==> !(LineStart(t, j) && StartsAt(t, j, Heading))
    requires k < |t| ==> LineStart(t, k) && StartsAt(t, k, Heading)
    ensures FindHeading(t, i) == k
    decreases k - i
  {
    if i < k {
      FindHeadingIs(t, i + 1, k);
    }
  }

  lemma {:induction false} FindHeadingFinds(t: string, i: nat)
    requires i <= |t|
    ensures var k := FindHeading(t, i);
            && (forall j :: i <= j < k ==> !(LineStart(t, j) && StartsAt(t, j, Heading)))
            && (k < |t| ==> LineStart(t, k) && StartsAt(t, k, Heading))
    decreases |t| - i
  {
    if i < |t| && !(LineStart(t, i) && StartsAt(t, i, Heading)) {
      FindHeadingFinds(t, i + 1);
    }
  }

  lemma {:induction false} LineEndIs(t: string, i: nat)
    requires i <= |t|
    ensures forall j :: i <= j < LineEnd(t, i) ==> t[j] != '\n'
    ensures LineEnd(t, i) < |t| ==> t[LineEnd(t, i)] == '\n'
    decreases |t| - i
  {
    if i < |t| && t[i] != '\n' {
      LineEndIs(t, i + 1);
    }
  }

  /** Where the section that the scan is inside of stops. */
  ghost predicate StopsAt(t: string, from: nat, e: nat)
  {
    && from <= e <= |t|
    && (forall j :: from < j < e && LineStart(t, j) ==> !StartsAt(t, j, NextHeading))
    && (e < |t| ==> e > from && t[e - 1] == '\n' && StartsAt(t, e, NextHeading))
  }

  /** From any place inside a section, the scan consumes to where the section stops. */
  lemma {:induction false} ConsumesTo(t: string, i: nat, e: nat)
    requires StopsAt(t, i, e)
    ensures SkipNewlines(t, MoreLines(t, LineEnd(t, i))) == e
    decreases |t| - i
  {
    var k := LineEnd(t, i);
    LineEndIs(t, i);
    if k < |t| {
      assert LineStart(t, k + 1);
      if e < |t| && k + 1 >= e {
        assert k + 1 == e;
        CharOf(t, e, NextHeading, e);
        assert SkipNewlines(t, k) == e;
      } else {
        if k + 1 < e {
          assert !StartsAt(t, k + 1, NextHeading);
        }
        ConsumesTo(t, k + 1, e);
      }
    }
  }

  lemma {:induction false} StartsWithin(a: string, b: string, i: nat, p: string)
    requires i + |p| <= |a|
    ensures StartsAt(a + b, i, p) <==> StartsAt(a, i, p)
  {
  }

  lemma {:induction false} CharOf(t: string, i: nat, p: string, m: nat)
    requires StartsAt(t, i, p) && i <= m < i + |p|
    ensures t[m] == p[m - i] && t[m] in p
  {
    assert t[i + (m - i)] == p[m - i];
  }

  lemma {:induction false} StartsAfter(a: string, b: string, i: nat, p: string)
    ensures StartsAt(a + b, |a| + i, p) <==> StartsAt(b, i, p)
  {
  }

  /** A heading prefix that begins on the last lines of whole-line text cannot run past its end. */
  lemma {:induction false} HeadingInside(a: string, b: string, i: nat, p: string)
    requires WholeLines(a) && i < |a| && '\n' !in p && StartsAt(a + b, i, p)
    ensures StartsAt(a, i, p)
  {
    if i + |p| <= |a| {
      StartsWithin(a, b, i, p);
    } else {
      CharOf(a + b, i, p, |a| - 1);
    }
  }

  lemma {:induction false} LineStartWithin(a: string, b: string, i: nat)
    requires i <= |a|
    ensures LineStart(a + b, i) <==> LineStart(a, i)
  {
    if i > 0 {
      assert (a + b)[i - 1] == a[i - 1];
    }
  }

  lemma {:induction false} PartsHeading(t: string, pre: string, body: string, post: string)
    requires Parts(t, pre, body, post)
    ensures FindHeading(t, 0) == |pre| && |pre| < |t|
  {
    var rest := body + post;
    Associates(pre, body, post);
    forall j | 0 <= j < |pre|
      ensures !(LineStart(t, j) && StartsAt(t, j, Heading))
    {
      LineStartWithin(pre, rest, j);
      if StartsAt(t, j, Heading) {
        HeadingInside(pre, rest, j, Heading);
      }
    }
    StartsAfter(pre, rest, 0, Heading);
    StartsWithin(body, post, 0, Heading);
    FindHeadingIs(t, 0, |pre|);
  }

  lemma {:induction false} PartsStop(t: string, pre: string, body: string, post: string)
    requires Parts(t, pre, body, post)
    ensures StopsAt(t, |pre|, |pre| + |body|)
  {
    var from, e := |pre|, |pre| + |body|;
    Associates(pre, body, post);
    forall j | from < j < e && LineStart(t, j)
      ensures !StartsAt(t, j, NextHeading)
    {
      var i := j - from;
      assert t[j - 1] == body[i - 1];
      assert LineStart(body, i);
      StartsAfter(pre, body + post, i, NextHeading);
      assert post == "" ==> body + post == body;
      if post != "" && StartsAt(body + post, i, NextHeading) {
        HeadingInside(body, post, i, NextHeading);
      }
    }
    if e < |t| {
      assert t[e - 1] == body[|body| - 1];
      StartsAfter(pre + body, post, 0, NextHeading);
    }
  }

  /** Splicing replaces exactly the section in place: what stands before it and what follows it is kept. */
  lemma {:induction false} SpliceReplaces(t: string, pre: string, body: string, post: string, section: string)
    requires Parts(t, pre, body, post)
    ensures Splice(t, section) == pre + section + post
  {
    PartsHeading(t, pre, body, post);
    PartsStop(t, pre, body, post);
    ConsumesTo(t, |pre|, |pre| + |body|);
    assert t[..|pre|] == pre && t[|pre| + |body|..] == post;
  }

  // Every text with a heading line has such parts.

  lemma {:induction false} StopsEarlier(t: string, i: nat, k: nat, e: nat)
    requires i <= k < |t| && t[k] == '\n' && (forall j :: i <= j < k ==> t[j] != '\n')
    requires StopsAt(t, k + 1, e) && !StartsAt(t, k + 1, NextHeading)
    ensures StopsAt(t, i, e)
  {
    assert forall j :: i < j <= k ==> !LineStart(t, j);
  }

  lemma {:induction false} ScanStops(t: string, i: nat)
    requires i <= |t|
    ensures StopsAt(t, i, SkipNewlines(t, MoreLines(t, LineEnd(t, i))))
    decreases |t| - i
  {
    var k := LineEnd(t, i);
    LineEndIs(t, i);
    if k < |t| && !StartsAt(t, k + 1, NextHeading) {
      ScanStops(t, k + 1);
      StopsEarlier(t, i, k, SkipNewlines(t, MoreLines(t, LineEnd(t, k + 1))));
    } else if k < |t| {
      CharOf(t, k + 1, NextHeading, k + 1);
      assert SkipNewlines(t, k) == k + 1;
    }
  }

  lemma {:induction false} NoHeadingBefore(t: string, k: nat)
    requires k <= |t| && forall j :: 0 <= j < k ==> !(LineStart(t, j) && StartsAt(t, j, Heading))
    ensures NoHeadingLine(t[..k])
  {
    var pre := t[..k];
    forall i | 0 <= i < |pre| && LineStart(pre, i)
      ensures !StartsAt(pre, i, Heading)
    {
      LineStartWithin(pre, t[k..], i);
      assert pre + t[k..] == t;
      if i + |Heading| <= |pre| {
        StartsWithin(pre, t[k..], i, Heading);
      }
    }
  }

  lemma {:induction false} SliceStarts(t: string, start: nat, e: nat, i: nat, p: string)
    requires start <= e <= |t|
    ensures StartsAt(t[start..e], i, p) <==> start + i + |p| <= e && StartsAt(t, start + i, p)
  {
  }

  lemma {:induction false} SliceHasNoHeading(t: string, start: nat, e: nat)
    requires start <= e <= |t| && forall j :: start < j < e && LineStart(t, j) ==> !StartsAt(t, j, NextHeading)
    ensures NoInnerHeading(t[start..e])
  {
    var body := t[start..e];
    forall i | 0 < i < |body| && LineStart(body, i)
      ensures !StartsAt(body, i, NextHeading)
    {
      assert t[start + i - 1] == body[i - 1];
      assert LineStart(t, start + i);
      SliceStarts(t, start, e, i, NextHeading);
    }
  }

  /** The notes, taken apart where the scan matches. */
  lemma {:induction false} PartsExist(t: string) returns (pre: string, body: string, post: string)
    requires FindHeading(t, 0) < |t|
    ensures Parts(t, pre, body, post)
  {
    var start := FindHeading(t, 0);
    var e := SectionEnd(t, start);
    FindHeadingFinds(t, 0);
    ScanStops(t, start);
    SectionHoldsHeading(t, start, e);
    NoHeadingBefore(t, start);
    SliceHasNoHeading(t, start, e);
    AtHeading(t, start, e);
    hide FindHeading, NoInnerHeading, NoHeadingLine, StopsAt, StartsAt, WholeLines;
    TakenApart(t, start, e);
    pre, body, post := t[..start], t[start..e], t[e..];
  }

  lemma {:induction false} AtHeading(t: string, start: nat, e: nat)
    requires start < e <= |t| && LineStart(t, start) && StartsAt(t, start, Heading)
    requires e >= start + |Heading| && StopsAt(t, start, e)
    ensures WholeLines(t[..start]) && StartsAt(t[start..e], 0, Heading)
    ensures e < |t| ==> StartsAt(t[e..], 0, NextHeading) && t[e - 1] == '\n'
  {
    SliceStarts(t, start, e, 0, Heading);
    SliceStarts(t, e, |t|, 0, NextHeading);
    assert t[e..|t|] == t[e..];
  }

  lemma {:induction false} TakenApart(t: string, start: nat, e: nat)
    requires start < e <= |t| && WholeLines(t[..start]) && NoHeadingLine(t[..start])
    requires StartsAt(t[start..e], 0, Heading) && NoInnerHeading(t[start..e])
    requires e < |t| ==> StartsAt(t[e..], 0, NextHeading) && t[e - 1] == '\n'
    ensures Parts(t, t[..start], t[start..e], t[e..])
  {
    hide NoInnerHeading, NoHeadingLine, StartsAt, WholeLines;
    ThreeSlices(t, start, e);
  }

  lemma {:induction false} ThreeSlices(t: string, start: nat, e: nat)
    requires start < e <= |t|
    ensures t == t[..start] + t[start..e] + t[e..] && t[start..e][e - start - 1] == t[e - 1]
  {
  }

  lemma {:induction false} SectionHoldsHeading(t: string, start: nat, e: nat)
    requires start < |t| && StartsAt(t, start, Heading) && StopsAt(t, start, e)
    ensures e >= start + |Heading|
  {
    assert '\n' !in Heading;
    if e < start + |Heading| {
      CharOf(t, start, Heading, e - 1);
    }
  }

  // Appending.

  lemma {:induction false} AppendedParts(t: string, section: string)
    requires FindHeading(t, 0) == |t| && IsSection(section)
    ensures Parts(Splice(t, section), StripNewlines(t) + "\n\n", section, "")
  {
    var kept := StripNewlines(t);
    var pre := kept + "\n\n";
    FindHeadingFinds(t, 0);
    NewlinesStripped(t);
    assert pre + section + "" == Splice(t, section);
    forall i | 0 <= i < |pre| && LineStart(pre, i)
      ensures !StartsAt(pre, i, Heading)
    {
      if StartsAt(pre, i, Heading) {
        HeadingInKept(t, kept, i);
      }
    }
  }

  lemma {:induction false} HeadingInKept(t: string, kept: string, i: nat)
    requires |kept| <= |t| && kept == t[..|kept|]
    requires StartsAt(kept + "\n\n", i, Heading) && LineStart(kept + "\n\n", i)
    ensures i < |t| && LineStart(t, i) && StartsAt(t, i, Heading)
  {
    var pre := kept + "\n\n";
    assert '\n' !in Heading;
    if i + |Heading| > |kept| {
      CharOf(pre, i, Heading, i + |Heading| - 1);
    } else {
      StartsWithin(kept, "\n\n", i, Heading);
      StartsWithin(kept, t[|kept|..], i, Heading);
      assert t == kept + t[|kept|..];
      assert i > 0 ==> pre[i - 1] == t[i - 1];
    }
  }

  // Idempotence, and the staleness test.

  /** Putting a section where a section was leaves parts that the next splice finds again. */
  lemma {:induction false} SplicedParts(t: string, section: string) returns (pre: string, post: string)
    requires IsSection(section)
    ensures Parts(Splice(t, section), pre, section, post)
  {
    if FindHeading(t, 0) < |t| {
      var body;
      pre, body, post := PartsExist(t);
      SpliceReplaces(t, pre, body, post, section);
    } else {
      AppendedParts(t, section);
      pre, post := StripNewlines(t) + "\n\n", "";
    }
  }

  /** Splicing the same section again changes nothing. */
  lemma {:induction false} SpliceIsIdempotent(t: string, section: string)
    requires IsSection(section)
    ensures Splice(Splice(t, section), section) == Splice(t, section)
  {
    var pre, post := SplicedParts(t, section);
    SpliceReplaces(Splice(t, section), pre, section, post, section);
  }

  /** Only the last section written counts: an older one leaves no trace. */
  lemma {:induction false} LastSpliceWins(t: string, first: string, second: string)
    requires IsSection(first) && IsSection(second)
    ensures Splice(Splice(t, first), second) == Splice(t, second)
  {
    if FindHeading(t, 0) < |t| {
      var pre, body, post := PartsExist(t);
      SpliceReplaces(t, pre, body, post, first);
      SpliceReplaces(t, pre, body, post, second);
      var mid := pre + first + post;
      assert Parts(mid, pre, first, post);
      SpliceReplaces(mid, pre, first, post, second);
    } else {
      AppendedParts(t, first);
      SpliceReplaces(Splice(t, first), StripNewlines(t) + "\n\n", first, "", second);
    }
  }

  // The title.

  /** Where the text begins once leading whitespace is dropped. */
  function Lead(t: string, i: nat): (j: nat)
    requires i <= |t|
    ensures i <= j <= |t|
    decreases |t| - i
  {
    if i < |t| && IsSpace(t[i]) then Lead(t, i + 1) else i
  }

  function FirstLine(t: string): (r: string)
  {
    var i := Lead(t, 0);
    StripRight(t[i..LineEnd(t, i)])
  }

  /** `check_heading` has nothing to complain about. */
  predicate Titled(t: string, version: string)
  {
    FirstLine(t) == "# v" + version
  }

  lemma {:induction false} LeadIs(t: string, i: nat)
    requires i <= |t|
    ensures forall j :: i <= j < Lead(t, i) ==> IsSpace(t[j])
    ensures Lead(t, i) < |t| ==> !IsSpace(t[Lead(t, i)])
    decreases |t| - i
  {
    if i < |t| && IsSpace(t[i]) {
      LeadIs(t, i + 1);
    }
  }

  lemma {:induction false} LeadAt(t: string, i: nat, k: nat)
    requires i <= k <= |t| && (forall j :: i <= j < k ==> IsSpace(t[j])) && (k < |t| ==> !IsSpace(t[k]))
    ensures Lead(t, i) == k
    decreases k - i
  {
    if i < k {
      LeadAt(t, i + 1, k);
    }
  }

  lemma {:induction false} LineEndAt(t: string, i: nat, k: nat)
    requires i <= k <= |t| && (forall j :: i <= j < k ==> t[j] != '\n') && (k < |t| ==> t[k] == '\n')
    ensures LineEnd(t, i) == k
    decreases k - i
  {
    if i < k {
      LineEndAt(t, i + 1, k);
    }
  }

  /** The title is the first line that is not blank, blanks around it aside. */
  lemma {:induction false} TitleIsFirstLine(blank: string, line: string, rest: string, version: string)
    requires (forall i :: 0 <= i < |blank| ==> IsSpace(blank[i])) && line != "" && !IsSpace(line[0])
    requires (forall i :: 0 <= i < |line| ==> line[i] != '\n') && (rest == "" || rest[0] == '\n')
    ensures Titled(blank + line + rest, version) <==> StripRight(line) == "# v" + version
  {
    var t, n := blank + line + rest, |blank|;
    assert t[n] == line[0] && forall i :: 0 <= i < n ==> t[i] == blank[i];
    LeadAt(t, 0, n);
    assert forall j :: n <= j < n + |line| ==> t[j] == line[j - n];
    assert n + |line| < |t| ==> t[n + |line|] == rest[0];
    LineEndAt(t, n, n + |line|);
    assert t[n..n + |line|] == line;
  }

  /** Text that is not all blank fixes the first line of whatever goes on with a new line after it. */
  lemma {:induction false} SameFirstLine(kept: string, rest: string)
    requires Lead(kept, 0) < |kept| && (WholeLines(kept) || rest == "" || rest[0] == '\n')
    ensures FirstLine(kept + rest) == FirstLine(kept)
  {
    var t, i := kept + rest, Lead(kept, 0);
    LeadIs(kept, 0);
    assert forall j :: 0 <= j < |kept| ==> t[j] == kept[j];
    LeadAt(t, 0, i);
    var k := LineEnd(kept, i);
    LineEndIs(kept, i);
    LineEndAt(t, i, k);
    assert t[i..k] == kept[i..k];
  }

  lemma {:induction false} StripRightPrefix(s: string)
    ensures |StripRight(s)| <= |s| && StripRight(s) == s[..|StripRight(s)|]
  {
    if s != "" && IsSpace(s[|s| - 1]) {
      StripRightPrefix(s[..|s| - 1]);
    }
  }

  /** Text whose first words are the performance heading is not titled with any version. */
  lemma {:induction false} SectionIsNoTitle(blank: string, rest: string, version: string)
    requires Lead(blank, 0) == |blank| && StartsAt(rest, 0, Heading)
    ensures !Titled(blank + rest, version)
  {
    var t := blank + rest;
    LeadIs(blank, 0);
    CharOf(rest, 0, Heading, 0);
    CharOf(rest, 0, Heading, 1);
    assert forall j :: 0 <= j < |blank| ==> t[j] == blank[j];
    LeadAt(t, 0, |blank|);
    var line := t[|blank|..LineEnd(t, |blank|)];
    StripRightPrefix(line);
    var title := "# v" + version;
    assert title[1] == ' ';
    assert |line| > 1 ==> line[1] == t[|blank| + 1] == rest[1];
    assert |StripRight(line)| > 1 ==> StripRight(line)[1] == line[1];
  }

  lemma {:induction false} BlankIsNoTitle(t: string, version: string)
    requires Lead(t, 0) == |t|
    ensures !Titled(t, version)
  {
    assert t[|t|..LineEnd(t, |t|)] == "";
    assert |"# v" + version| >= 3;
  }

  /** Splicing never changes whether the notes carry the right title. */
  lemma {:induction false} SpliceKeepsTitle(t: string, section: string, version: string)
    requires IsSection(section)
    ensures Titled(Splice(t, section), version) <==> Titled(t, version)
  {
    if FindHeading(t, 0) < |t| {
      var pre, body, post := PartsExist(t);
      SpliceReplaces(t, pre, body, post, section);
      Associates(pre, body, post);
      Associates(pre, section, post);
      if Lead(pre, 0) < |pre| {
        SameFirstLine(pre, body + post);
        SameFirstLine(pre, section + post);
      } else {
        StartsWithin(body, post, 0, Heading);
        StartsWithin(section, post, 0, Heading);
        SectionIsNoTitle(pre, body + post, version);
        SectionIsNoTitle(pre, section + post, version);
      }
    } else {
      AppendKeepsTitle(t, section, version);
    }
  }

  lemma {:induction false} NewlinesStripped(t: string)
    ensures var n := |StripNewlines(t)|;
            n <= |t| && StripNewlines(t) == t[..n] && forall j :: n <= j < |t| ==> t[j] == '\n'
  {
    if t != "" && t[|t| - 1] == '\n' {
      NewlinesStripped(t[..|t| - 1]);
    }
  }

  lemma {:induction false} AppendKeepsTitle(t: string, section: string, version: string)
    requires FindHeading(t, 0) == |t| && IsSection(section)
    ensures Titled(Splice(t, section), version) <==> Titled(t, version)
  {
    var kept := StripNewlines(t);
    NewlinesStripped(t);
    assert t == kept + t[|kept|..];
    if Lead(kept, 0) < |kept| {
      Associates(kept, "\n\n", section);
      SameFirstLine(kept, t[|kept|..]);
      SameFirstLine(kept, "\n\n" + section);
    } else {
      LeadIs(kept, 0);
      LeadAt(t, 0, |t|);
      BlankIsNoTitle(t, version);
      LeadAt(kept + "\n\n", 0, |kept| + 2);
      SectionIsNoTitle(kept + "\n\n", section, version);
    }
  }

  /** The notes file, and the two ways `main` runs once the section is rendered. */
  class NotesFile {
    var text: string

    constructor (text: string)
      ensures this.text == text
    {
      this.text := text;
    }

    /** Without `--check`. */
    method Write(section: string) returns (wrote: bool)
      modifies this
      ensures text == Splice(old(text), section)
      ensures wrote <==> text != old(text)
    {
      var updated := Splice(text, section);
      wrote := updated != text;
      if wrote {
        text := updated;
      }
    }

    /** With `--check`: the exit code. */
    method Check(section: string, version: string) returns (code: int)
      ensures code == if Titled(text, version) && Splice(text, section) == text then 0 else 1
    {
      var updated := Splice(text, section);
      if !Titled(text, version) {
        return 1;
      }
      if updated != text {
        return 1;
      }
      return 0;
    }

    /** Right after a write the check passes exactly when the notes were titled with the version before it. */
    method WriteThenCheck(section: string, version: string) returns (code: int)
      requires IsSection(section)
      modifies this
      ensures code == if old(Titled(text, version)) then 0 else 1
    {
      SpliceIsIdempotent(text, section);
      SpliceKeepsTitle(text, section, version);
      var wrote := Write(section);
      code := Check(section, version);
    }
  }
}
