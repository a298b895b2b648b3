# Verified models of the Tcl toolchain and its editor clients

Dafny models of the parts of the toolchain where a mistake is silent: the Tcl list codec, the backslash decoder,
the `string match` matcher and TclOO method resolution in Rust; the URI, configuration, preview and diagnostics
protocols of the editor extension in TypeScript; the framing and request matching of the stress client, the
release-notes splicer, the chart arithmetic and the test-partition checker in Python; and the iRule body scanner
in C. `dafny verify dfyconfig.toml` checks everything.

## How the models are built

* Code that computes a value is a `function`. Code that loops or updates state is a `method` or a `class` whose
  contract equates the result, or the new state, with such a function; what the program promises is then proved
  about the function.
* What a reader computes is also stated without it: list words, glob patterns, escapes and header blocks are data
  with a written form and a meaning, and the written form is proved to be read as the meaning, or refused exactly when
  it is malformed. What a writer chooses is stated on the characters of the value.
* A protocol is a state, a `Step` per event and a `Run` over any sequence of events. The handlers of the class are
  proved to take exactly these steps, and the safety results are about every run.
* Strings are sequences of Unicode scalar values and integers are unbounded, except where the source reduces them
  (the low byte of `\x` and octal escapes, the hex digit cap).
* Clocks, tab lists, configuration, replies and locale order come in as parameters or events.

## Findings

Each finding comes with an input that shows it and with the exact condition under which the promise holds.

* The glob written to `files.associations` and the open-document retarget agree on every basename exactly for the
  extensions that hold no dot, no `*`, no `?`, no `[` and no `k`. The retarget looks only after the last dot, and
  `toLowerCase` maps the Kelvin sign U+212A to `k`, which the glob's two-letter class does not admit
  (`FileGlobs.ExactlyWhenGlobsAgree`; extensions with a brace, a separator or a character beyond ASCII, and those
  with both a dot and a bracket, are outside it).
* A rendered preview is at its document's current version exactly when no edit of it came while its language was not
  Tcl, with no withdrawal or paint since: such an edit never reaches the preview (`TkPreview.RenderedIsCurrent`,
  `TkPreview.LanguageChangeHidesAnEdit`).
* The frame reader skips an empty body, so frames read back exactly when no body is empty
  (`LspFrames.FramesRoundTrip`, `LspFrames.EmptyBodyIsLost`).
* The skeleton's blocks depend only on the set of names exactly when no two of the names, `RULE_INIT` aside, collate
  equal. Canonically equivalent spellings of one name do: U+00C9, and E with a combining U+0301
  (`IruleSkeleton.OrderedByNamesExactlyWhenTold`, `IruleSkeleton.TieKeepsChoiceOrder`).
* The documentation of the method resolution order says that all classes reached through a mixin precede the others.
  That holds exactly when no superclass is reached through a mixin as well: the second pass moves such a class into
  the superclass part (`TclOoOrder.MixinPathsFirstExactlyWhen`, `TclOoOrder.MixinPathComesLast`).
* The cycle test also reports hierarchies without a cycle. In whatever order superclasses are listed, a report means
  a cycle exactly when the class is on one or no superclass path of 1025 steps leaves it that keeps to different
  classes for its first 1025; a line of 1026 classes is reported and has no cycle (`TclOoCycles.CycleTestIsExact`,
  `TclOoCycles.LineIsReported`).
* A guest URI under a mount survives the trip to the editor and back exactly when no nested folder captures it; an
  editor URI survives exactly when it is in a folder or names no mount (`UriMapping.GuestRoundTrip`,
  `UriMapping.NestedFolderCaptures`, `UriMapping.EditorRoundTrip`, `UriMapping.MountNameDoesNotReturn`).

## Model

| member | source | states |
|---|---|---|
| `TclBackslash.BackslashSubst` | rust/tcl-lexer/src/substitution.rs:69-93 | the run-copying loop yields the text with every escape decoded |
| `TclBackslash.SubstPlain` | rust/tcl-lexer/src/substitution.rs:70-72 | text without a backslash is its own decoding, so borrowing it is sound |
| `TclBackslash.NumericEscapesDecode` | rust/tcl-lexer/src/substitution.rs:124-163 | every character is what its eight-digit `\U` escape stands for, whatever follows; likewise `\u` below U+10000 and `\x` below U+0100 |
| `TclBackslash.HexRunTakes` | rust/tcl-lexer/src/substitution.rs:224-240 | the digits of a value that fits are all taken and count for exactly the value, the cap notwithstanding |
| `TclBackslash.SpelledOutReadsBack` | rust/tcl-lexer/src/substitution.rs:69-174 | any text can be spelled out in escapes and decodes back to itself |
| `TclBackslash.ContinuationIsOneSpace` | rust/tcl-lexer/src/substitution.rs:197-214 | a backslash, a newline and all the spaces and tabs that follow stand for one space |
| `TclBackslash.LettersDecode` | rust/tcl-lexer/src/substitution.rs:111-118 | the seven letters stand for their control characters, by code |
| `TclBackslash.OthersDecodeToThemselves` | rust/tcl-lexer/src/substitution.rs:103-174 | every character outside the table stands for itself, and so does a final backslash |
| `TclBackslash.OneOctalDigit` | rust/tcl-lexer/src/substitution.rs:250-267 | one octal digit, up to the first character that is none |
| `TclBackslash.TwoOctalDigits` | rust/tcl-lexer/src/substitution.rs:250-267 | two octal digits, followed by no third or already at 0x20 |
| `TclBackslash.ThreeOctalDigits` | rust/tcl-lexer/src/substitution.rs:250-267 | a third octal digit is taken while the first two stay below 0x20, so every byte has its three-digit spelling |
| `TclBackslash.HexDigitsOfEitherCase` | rust/tcl-lexer/src/substitution.rs:224-240 | exactly the sixteen digits, in either case, count as hex digits |
| `TclBackslash.NoHexDigit` | rust/tcl-lexer/src/substitution.rs:123-161 | without a hex digit `\x`, `\u` and `\U` stand for their letter |
| `TclBackslash.ShortHexEscape` | rust/tcl-lexer/src/substitution.rs:123-161 | with fewer digits than there is room for, a hex escape ends where the digits do |
| `TclBackslash.SurrogatesAreReplaced` | rust/tcl-lexer/src/substitution.rs:176-184 | a surrogate stands for U+FFFD |
| `TclBackslash.CapRefusesDigits` | rust/tcl-lexer/src/substitution.rs:224-240 | past 0x10FFF no further digit is taken, whatever follows |
| `TclList.FindBody` | rust/tcl-syntax/src/list.rs:204-325 | the boundary loop ends the element where the scan of the remaining text does, with its raw interior, `literal` flag, resume point or error |
| `TclList.FindElement` | rust/tcl-syntax/src/list.rs:204-325 | the located element, the end of the list, or the error is the one the remaining text calls for |
| `TclList.SplitList` | rust/tcl-syntax/src/list.rs:330-347 | the loop returns all decoded elements in order, or the first error |
| `TclList.ScanElement` | rust/tcl-syntax/src/list.rs:566-650 | the flag loop decides the quoting that the element needs |
| `TclList.UnescapedIsBraceSafe` | rust/tcl-syntax/src/list.rs:566-650 | a value for which the scan does not demand escapes has balanced braces and no dangling backslash |
| `TclList.VerbatimIsEscaped` | rust/tcl-syntax/src/list.rs:566-650 | a value let through bare holds nothing that escaping would touch |
| `TclList.AppendListElement` | rust/tcl-syntax/src/list.rs:652-714 | the rendered element is appended to what was there |
| `TclList.BracedScan` | rust/tcl-syntax/src/list.rs:204-325 | a brace-safe text in braces is read as exactly that text, verbatim |
| `TclList.EscapedScan` | rust/tcl-syntax/src/list.rs:652-714 | an escaped text is read as one element whose decoding is the original |
| `TclList.RenderReadsBack` | rust/tcl-syntax/src/list.rs:652-714 | whatever quoting is chosen, the rendered element reads back as exactly the value, whatever follows |
| `TclList.JoinList` | rust/tcl-syntax/src/list.rs:735-749 | the loop joins the rendered elements with single spaces, only the first guarded against `#` |
| `TclList.SplitJoin` | rust/tcl-syntax/src/list.rs:735-749 | splitting a joined list gives back every list of values, whatever characters they hold |
| `TclList.NormaliseKeepsElements` | rust/tcl-syntax/src/list.rs:779-781 | normalising succeeds exactly on well-formed lists, keeps the elements and is idempotent |
| `TclList.JoinIsNotAComment` | rust/tcl-syntax/src/list.rs:652-660 | a joined list never begins with `#` |
| `TclListReading.SpacesAre` | rust/tcl-syntax/src/list.rs:195-203 | exactly six characters separate elements |
| `TclListReading.QuotedScan` | rust/tcl-syntax/src/list.rs:204-325 | a quoted element runs to the first unprotected quote, spaces and braces included, and what follows must be a space or the end |
| `TclListReading.BracedScanAny` | rust/tcl-syntax/src/list.rs:204-325 | a braced element runs to the brace that closes it, verbatim, with the same rule for what follows |
| `TclListReading.BareScan` | rust/tcl-syntax/src/list.rs:204-325 | a bare element runs to the first unprotected space |
| `TclListReading.UnmatchedQuoteExactly` | rust/tcl-syntax/src/list.rs:204-325 | the error for an open quote is given exactly when no unprotected quote follows |
| `TclListReading.UnmatchedBraceExactly` | rust/tcl-syntax/src/list.rs:204-325 | the error for an open brace is given exactly when no brace closes it |
| `TclListReading.MalformedExactly` | rust/tcl-syntax/src/list.rs:204-325 | each of the four errors is given exactly for the texts that it names |
| `TclListReading.BareIsNeverWrong` | rust/tcl-syntax/src/list.rs:204-325 | an element that starts with neither a quote nor a brace is never an error |
| `TclListReading.WordIsRead` | rust/tcl-syntax/src/list.rs:204-325 | a word written bare, quoted or in braces is read as its value |
| `TclListReading.WrittenIsRead` | rust/tcl-syntax/src/list.rs:330-347 | words in any mix of the three forms, with any separators, are read as their values, and then the rest is |
| `TclListReading.SplitWritten` | rust/tcl-syntax/src/list.rs:330-347 | a list written in any of these ways is split into exactly its values |
| `TclListReading.SplitMalformed` | rust/tcl-syntax/src/list.rs:330-347 | the first word that is written wrong decides the error |
| `TclListQuoting.RenderForm` | rust/tcl-syntax/src/list.rs:566-694 | which of the four forms an element is given, stated on its characters alone |
| `TclListQuoting.RenderEmpty` | rust/tcl-syntax/src/list.rs:566-569 | the empty element is an empty pair of braces |
| `TclListQuoting.EscapeTable` | rust/tcl-syntax/src/list.rs:668-692 | which characters an escaped element escapes, and as what |
| `TclListQuoting.RenderedBareExactly` | rust/tcl-syntax/src/list.rs:566-694 | an element is written as it is exactly when its braces balance, it does not lead with a brace, a quote or an unsafe `#`, and it holds no space, bracket, dollar, semicolon, quote or backslash |
| `TclListQuoting.JoinOfBareWords` | rust/tcl-syntax/src/list.rs:735-749 | such words are joined to themselves with single spaces |
| `TclGlob.ScanClass` | rust/tcl-syntax/src/glob.rs:143-211 | the loop over a `[...]` set finds whether it admits the character and where it ends, closed or not |
| `TclGlob.MatchAtom` | rust/tcl-syntax/src/glob.rs:143-211 | one atom against one character: the index after the atom, or a mismatch |
| `TclGlob.MatchOneEnds` | rust/tcl-syntax/src/glob.rs:143-211 | where an atom ends does not depend on the character it matched |
| `TclGlob.PathPush` | rust/tcl-syntax/src/glob.rs:223-277 | a match that begins before a run of atoms goes on after it, one character per atom |
| `TclGlob.ResumeAtStar` | rust/tcl-syntax/src/glob.rs:231-242 | once a later star is reached, forgetting the earlier one loses no match |
| `TclGlob.ResumeAfterMismatch` | rust/tcl-syntax/src/glob.rs:223-277 | after a mismatch, retrying the latest star one character on is enough; without a star there is no match |
| `TclGlob.DoMatch` | rust/tcl-syntax/src/glob.rs:223-277 | the iterative matcher with one resume point decides the pattern's full backtracking meaning |
| `TclGlob.LiteralFrom` | rust/tcl-syntax/src/glob.rs:67-83 | a pattern without `*`, `?`, `[` and a backslash means folded string equality |
| `TclGlob.StringCaseMatch` | rust/tcl-syntax/src/glob.rs:105-122 | the two shortcuts and the matcher agree with the pattern's meaning |
| `TclGlobMeaning.PatternIsRead` | rust/tcl-syntax/src/glob.rs:143-277 | a pattern written from stars, `?`, sets, escaped and plain characters matches exactly the texts that these parts stand for |
| `TclGlobMeaning.MembersAreRead` | rust/tcl-syntax/src/glob.rs:151-193 | a written set admits exactly its folded characters and what lies within its folded ranges, ends included and in either direction |
| `TclGlobMeaning.OpenSetIsRead` | rust/tcl-syntax/src/glob.rs:151-193 | a set closed by the end of the pattern admits its members; a character with a dangling dash does not count |
| `TclGlobMeaning.TrailingBackslash` | rust/tcl-syntax/src/glob.rs:195-203 | a backslash with nothing after it matches no text |
| `TclOoMro.Context.constructor` | rust/tcl-syntax/src/mro.rs:96-114 | a pass starts with an empty path and the chain and visits it is given |
| `TclOoMro.Context.Visit` | rust/tcl-syntax/src/mro.rs:127-165 | the recursive visit takes exactly the specified walk and leaves the path as it found it |
| `TclOoMro.Context.VisitAll` | rust/tcl-syntax/src/mro.rs:140-163 | the loop over mixins or superclasses visits them in order |
| `TclOoMro.CycleSearch.constructor` | rust/tcl-syntax/src/mro.rs:224-226 | the search starts with nothing on the path and nothing explored |
| `TclOoMro.CycleSearch.Recurse` | rust/tcl-syntax/src/mro.rs:185-223 | the recursion over the two shared sets takes exactly the specified search and restores the path unless it finds a cycle |
| `TclOoMro.TclooLinearise` | rust/tcl-syntax/src/mro.rs:243-296 | the cycle test and the two passes, with each of the three outcomes |
| `TclOoOrder.StaysDistinct` | rust/tcl-syntax/src/mro.rs:149-155 | no pass ever lists a class twice |
| `TclOoOrder.MixinsLeaveChain` | rust/tcl-syntax/src/mro.rs:146-155 | the second pass passes over everything it reaches through a mixin |
| `TclOoOrder.WorksApart` | rust/tcl-syntax/src/mro.rs:127-165 | a pass does to a chain what it would do to an empty one, and puts what it collects at the end |
| `TclOoOrder.PassCollects` | rust/tcl-syntax/src/mro.rs:127-165 | a pass that does not give up adds exactly the ends of the paths that meet no class twice and end on its side of the mixin gate |
| `TclOoOrder.ChainHasTwoParts` | rust/tcl-syntax/src/mro.rs:243-296 | whatever cycles there are, a computed chain is two parts: first exactly what is reached through a mixin and is no superclass, then exactly the class and its direct and indirect superclasses, the class leading |
| `TclOoOrder.ChainHoldsAllInherited` | rust/tcl-syntax/src/mro.rs:243-296 | whatever cycles there are, a computed chain holds, each once, exactly the classes inherited by way of superclasses and mixins |
| `TclOoOrder.BeforeSupersExactlyWhen` | rust/tcl-syntax/src/mro.rs:26-36 | a listed class stands before every superclass exactly when it is none of them |
| `TclOoOrder.MixinPathsFirstExactlyWhen` | rust/tcl-syntax/src/mro.rs:26-36 | the documented order, mixin paths first, holds exactly when no superclass is reached through a mixin as well |
| `TclOoOrder.MixinPathComesLast` | rust/tcl-syntax/src/mro.rs:26-36 | a class that is both superclass and mixin is listed last, against the documented order |
| `TclOoOrder.SupersFollowExactlyWhen` | rust/tcl-syntax/src/mro.rs:127-165 | the superclass part puts every class before all of its superclasses exactly when no superclass of the class lies on a cycle, whatever the rest of the map holds |
| `TclOoOrder.SecondPass` | rust/tcl-syntax/src/mro.rs:127-165 | over superclasses without a cycle, the second pass puts the class's linearisation at the end of the chain |
| `TclOoOrder.LinIsOk` | rust/tcl-syntax/src/mro.rs:127-165 | the linearisation starts with the class, lists each class once, and puts every class before all of its superclasses |
| `TclOoOrder.LinHoldsAllSuperclasses` | rust/tcl-syntax/src/mro.rs:157-162 | it holds exactly the class and its direct and indirect superclasses |
| `TclOoOrder.RanksExactlyWhen` | rust/tcl-syntax/src/mro.rs:167-177 | ranks for the classes above the start exist exactly when none of them lies on a cycle |
| `TclOoOrder.ChainIsSound` | rust/tcl-syntax/src/mro.rs:243-296 | with such ranks a computed chain is the mixin part and then the linearisation |
| `TclOoChains.PassGoesThrough` | rust/tcl-syntax/src/mro.rs:127-165 | without an inheritance cycle, a pass goes through exactly when the visits left cover all paths and none is longer than the levels left, and takes one visit for each path |
| `TclOoChains.ChainExactlyWhen` | rust/tcl-syntax/src/mro.rs:243-296 | without an inheritance cycle above the class, a chain is computed exactly when no path up takes more than 1024 steps and twice the number of paths is at most 200000 |
| `TclOoChains.WholeChainInOrder` | rust/tcl-syntax/src/mro.rs:243-296 | without an inheritance cycle above the class, every class of the chain, the mixin part included, stands before all of its superclasses |
| `TclOoChains.OrderMeansNoSuperCycle` | rust/tcl-syntax/src/mro.rs:243-296 | whatever cycles there are, such an order means that no listed class is its own indirect superclass |
| `TclOoChains.MixinCycleTurnsOrder` | rust/tcl-syntax/src/mro.rs:134-138 | the hypothesis on cycles is needed: a hierarchy without a superclass cycle whose mixin cycle lists a class after its superclass |
| `TclOoChains.SupersInListedOrder` | rust/tcl-syntax/src/mro.rs:157-162 | a superclass stands before every superclass listed later, unless one of these has it for a superclass |
| `TclOoChains.MixinsInListedOrder` | rust/tcl-syntax/src/mro.rs:140-148 | so do mixins that the superclasses do not bring in as well |
| `TclOoCycles.CycleIsReported` | rust/tcl-syntax/src/mro.rs:178-227 | a class on a superclass cycle is always reported; memoising loses nothing |
| `TclOoCycles.ReportMeansCycleOrDeepPath` | rust/tcl-syntax/src/mro.rs:178-227 | a report means a cycle through the class or a path past the depth limit |
| `TclOoCycles.CycleTestIsExact` | rust/tcl-syntax/src/mro.rs:178-227 | over all orders of the superclass lists, report and cycle coincide exactly when the class is on a cycle or has no path past the depth limit |
| `TclOoCycles.DeepPathIsReported` | rust/tcl-syntax/src/mro.rs:193-195 | listed in the order of such a path, the path is reported |
| `TclOoCycles.FewClassesAreExact` | rust/tcl-syntax/src/mro.rs:178-227 | with no more classes above it than the depth limit, a class is reported exactly when it is on a cycle |
| `TclOoCycles.LineIsReported` | rust/tcl-syntax/src/mro.rs:193-195 | a line of 1026 classes is on no cycle and is reported |
| `TclOoCycles.FarSuperclassIsReported` | rust/tcl-syntax/src/mro.rs:193-195 | a superclass that lies only beyond the depth limit is reported in every order |
| `GuestPath.EncodeGuestPath` | editors/vscode/src/serverResolution.ts:260-269 | the byte loop yields the percent-encoding of the UTF-8 bytes |
| `GuestPath.DecodeEncode` | editors/vscode/src/serverResolution.ts:238-269 | percent-decoding the encoded bytes gives the bytes back |
| `GuestPath.EncodeInjective` | editors/vscode/src/serverResolution.ts:238-269 | two mount paths with the same encoding are the same path |
| `GuestPath.EncodeShape` | editors/vscode/src/serverResolution.ts:238-269 | only unreserved bytes, `/` and upper-case `%XX` come out, and a `/` exactly where one went in |
| `GuestPath.UnreservedAreKept` | editors/vscode/src/serverResolution.ts:233-269 | exactly the unreserved characters of section 2.3 of RFC 3986 and `/`, listed one by one, are kept |
| `GuestPath.UnreservedIsItself` | editors/vscode/src/serverResolution.ts:233-269 | a path over these characters is its own encoding |
| `GuestPath.ReservedIsTriple` | editors/vscode/src/serverResolution.ts:233-269 | every other ASCII character becomes a percent sign and its two hex digits |
| `GuestPath.Utf8ReadsBack` | editors/vscode/src/serverResolution.ts:260-269 | decoding the UTF-8 bytes as RFC 3629 prescribes gives the characters back |
| `UriMapping.Translate` | editors/vscode/src/serverResolution.ts:299-311 | the loop with its early returns rewrites through the first pair that covers the URI |
| `UriMapping.PairsFromOrdered` | editors/vscode/src/serverResolution.ts:286-297 | the table holds exactly the folders' pairs, longest editor URI first |
| `UriMapping.OneMount` | editors/vscode/src/serverResolution.ts:233-297 | a guest URI is at or under at most one mount |
| `UriMapping.TrailingSlashIsIgnored` | editors/vscode/src/serverResolution.ts:280-297 | a folder URI means the same with and without a trailing slash |
| `UriMapping.MountIs` | editors/vscode/src/serverResolution.ts:280-297 | a single folder is mounted at `/workspace`, each of several under its name |
| `UriMapping.OneFolderIsWorkspace` | editors/vscode/src/serverResolution.ts:280-317 | with one folder, what lies below it is what lies below `/workspace`, in both directions |
| `UriMapping.FolderRoundTrip` | editors/vscode/src/serverResolution.ts:280-317 | out and back is the identity on every URI at or under a folder, nested folders included |
| `UriMapping.EditorRoundTrip` | editors/vscode/src/serverResolution.ts:280-317 | out and back is the identity exactly on the URIs under a folder and those that name no mount |
| `UriMapping.MostSpecificWins` | editors/vscode/src/serverResolution.ts:286-311 | the longest folder that covers the URI decides |
| `UriMapping.OrderIrrelevant` | editors/vscode/src/serverResolution.ts:286-311 | reordering the folders changes no translation, in either direction |
| `UriMapping.GuestRoundTrip` | editors/vscode/src/serverResolution.ts:286-311 | in and back is the identity exactly where no nested folder captures the translated URI |
| `UriMapping.UnnestedGuestRoundTrip` | editors/vscode/src/serverResolution.ts:286-311 | with no folder inside another, every URI under a mount survives the trip in and back |
| `UriMapping.MountNameDoesNotReturn` | editors/vscode/src/serverResolution.ts:280-317 | a URI outside the workspace that names the mount comes back as a URI of the folder |
| `UriMapping.NestedFolderCaptures` | editors/vscode/src/serverResolution.ts:286-311 | a guest URI that spells out a nested folder through the outer mount comes back through the inner one |
| `FileGlobs.ParseGlob` | editors/vscode/src/packAssociations.ts:104-109 | the written glob means any run, a dot, and what the folded extension means; without an opening bracket, one two-case class per letter |
| `FileGlobs.GlobAgreesWithRetarget` | editors/vscode/src/packAssociations.ts:243-258 | without dots and wildcards the glob matches exactly when the retarget does and the text after the last dot holds no Kelvin sign |
| `FileGlobs.WildcardDisagrees` | editors/vscode/src/packAssociations.ts:104-109 | an extension with a wildcard has a basename that only the glob matches |
| `FileGlobs.DottedDisagrees` | editors/vscode/src/packAssociations.ts:243-258 | an extension with a dot has a basename that only the glob matches |
| `FileGlobs.BracketDisagrees` | editors/vscode/src/packAssociations.ts:104-109 | an extension that opens a bracket never agrees: it names itself, and the glob takes it for something else |
| `FileGlobs.KelvinDisagrees` | editors/vscode/src/packAssociations.ts:243-258 | an extension with a `k` has a basename that only the retarget matches |
| `FileGlobs.ExactlyWhenGlobsAgree` | editors/vscode/src/packAssociations.ts:243-258 | the two agree on every basename exactly for extensions without dot, wildcard, opening bracket and `k` |
| `PackAssociations.CollectWanted` | editors/vscode/src/packAssociations.ts:165-174 | the advertised globs; incomplete rows are skipped and the last row for a glob wins |
| `PackAssociations.WantedIsLastRow` | editors/vscode/src/packAssociations.ts:165-174 | a glob is wanted exactly when a complete row advertises it, and the last such row names its language |
| `PackAssociations.OldStoresOwnNothing` | editors/vscode/src/packAssociations.ts:111-126 | the bare list that an earlier build stored owns nothing |
| `PackAssociations.Install` | editors/vscode/src/packAssociations.ts:183-200 | exactly the globs nobody else holds are installed and remembered; the change flag is exact |
| `PackAssociations.Retire` | editors/vscode/src/packAssociations.ts:204-209 | the rest of our own entries is taken out, leaving the reconciled configuration; the change flag is exact |
| `PackAssociations.Workspace.SyncPackFileAssociations` | editors/vscode/src/packAssociations.ts:146-225 | a sync takes both stores to the specified state, returns the globs in force, and writes each store exactly when it must |
| `PackAssociations.SyncRemembersItsWrites` | editors/vscode/src/packAssociations.ts:183-221 | afterwards what is remembered is exactly what is ours, at its present value |
| `PackAssociations.UntouchableExactlyWhenTheirs` | editors/vscode/src/packAssociations.ts:183-209 | an entry keeps its value through every possible sync exactly when it is not ours |
| `PackAssociations.SyncIsIdempotent` | editors/vscode/src/packAssociations.ts:165-221 | repeating a sync changes neither store |
| `PackAssociations.QuietExactlyWhen` | editors/vscode/src/packAssociations.ts:211-221 | a sync writes nothing when neither entries nor ownership would change, and otherwise stores the ownership |
| `PackAssociations.UserKeepsGlob` | editors/vscode/src/packAssociations.ts:183-209 | over every run, an unclaimed entry stays the user's, at the user's latest value, until the user deletes it |
| `PackAssociations.EditHandsBackForGood` | editors/vscode/src/packAssociations.ts:183-209 | a sync that meets a value it did not write hands the glob back for the rest of the run |
| `PackAssociations.ModuleEntriesAreOurs` | editors/vscode/src/packAssociations.ts:183-221 | over every run, an entry last written by a sync is remembered at its present value |
| `PackAssociations.NothingLeaks` | editors/vscode/src/packAssociations.ts:183-221 | after a sync every entry last written by the module is one this sync advertised |
| `PackAssociations.SyncTouchesOnlyItsOwn` | editors/vscode/src/packAssociations.ts:183-209 | over every run, a sync changes or deletes only entries that hold the remembered value |
| `PackAssociations.SyncsLeaveLastWanted` | editors/vscode/src/packAssociations.ts:165-221 | without user edits, any syncs leave the first configuration and the last advertised globs it did not hold |
| `PackAssociations.EmptySyncRestores` | editors/vscode/src/packAssociations.ts:165-221 | a final sync that advertises nothing restores the first configuration and owns nothing |
| `TkPreview.Preview.OpenTkPreview` | editors/vscode/src/tkPreviewPanel.ts:29-63 | opening reveals or creates the panel and refreshes, as the protocol's step does |
| `TkPreview.Preview.OnDidDispose` | editors/vscode/src/tkPreviewPanel.ts:52-60 | disposal withdraws the layout, the timer and the panel |
| `TkPreview.Preview.ActiveEditorChanges` | editors/vscode/src/tkPreviewPanel.ts:65-70 | an editor switch withdraws the layout and refreshes |
| `TkPreview.Preview.DocumentChanges` | editors/vscode/src/extension.ts:358-377 | an edit reaches the preview only for the active document while it is Tcl, and then withdraws and re-arms the timer |
| `TkPreview.Preview.DebounceFires` | editors/vscode/src/tkPreviewPanel.ts:77-80 | the timer clears itself and refreshes |
| `TkPreview.Preview.RefreshPreview` | editors/vscode/src/tkPreviewPanel.ts:83-97 | a refresh requests the active Tcl document or withdraws |
| `TkPreview.Preview.RunTkPreview` | editors/vscode/src/tkPreviewPanel.ts:99-124 | a request takes the next serial and remembers what it asks for and for which panel |
| `TkPreview.Preview.OnReply` | editors/vscode/src/tkPreviewPanel.ts:126-164 | a reply is painted, reported or dropped by the guards after the await |
| `TkPreview.Preview.OnRevealOpened` | editors/vscode/src/tkPreviewPanel.ts:166-205 | the source is revealed only while the clicked layout is the rendered one |
| `TkPreview.RunKeeps` | editors/vscode/src/tkPreviewPanel.ts:29-205 | every reachable state meets the protocol's invariant on serials, paints, rendering and reveals |
| `TkPreview.NeverPaintsStale` | editors/vscode/src/tkPreviewPanel.ts:99-164 | over every run, layouts are painted in strictly increasing serial order, on the panel they were requested for, showing the active document's current version |
| `TkPreview.RenderedNamesActive` | editors/vscode/src/tkPreviewPanel.ts:29-164 | over every run, a rendered document is the active one on an open panel, and reveals show painted snapshots |
| `TkPreview.RenderedIsCurrent` | editors/vscode/src/tkPreviewPanel.ts:29-164 | over every run, a rendered document is at its current version exactly when no edit of it came while it was not Tcl, with no withdrawal or paint since |
| `TkPreview.LanguageChangeHidesAnEdit` | editors/vscode/src/extension.ts:358-377 | a run that leaves an out-of-date document rendered |
| `TkPreview.TriggersAsk` | editors/vscode/src/tkPreviewPanel.ts:62-97 | after every run, opening, switching editors and an expired timer ask for the active Tcl document |
| `TkPreview.EditIsFollowedUp` | editors/vscode/src/tkPreviewPanel.ts:72-164 | after every run, an edit of the active Tcl document arms the timer, the expired timer asks for the new version under a new serial, and a proper answer is painted |
| `TkPreview.ProperAnswerIsPainted` | editors/vscode/src/tkPreviewPanel.ts:126-164 | after every run, a proper answer to the newest request for the active document as it is gets painted |
| `TkPreview.NeverIdleWithoutExcuse` | editors/vscode/src/tkPreviewPanel.ts:29-164 | over every run, an open preview of a Tcl document with nothing rendered, asked for or pending had its newest request answered without a paint, or saw a document become Tcl or the server come up since |
| `TkPreview.CurrentClickReveals` | editors/vscode/src/tkPreviewPanel.ts:166-205 | a click on what is rendered at its current version reveals the source |
| `TkPreview.ClosedIsQuiet` | editors/vscode/src/tkPreviewPanel.ts:52-60 | after every run, a closed preview shows nothing, waits for nothing and paints no answer |
| `LspFrames.ReadHeaders` | scripts/stress/stress_lsp.py:258-275 | the header loop reads the fields up to the blank line, or the end of the stream |
| `LspFrames.ReadLoop` | scripts/stress/stress_lsp.py:258-284 | the reader yields the bodies in order, ends with the stream, and is ended by a length that does not parse or is below -1 |
| `LspFrames.DecimalRoundTrip` | scripts/stress/stress_lsp.py:338-346 | every length survives being printed and parsed |
| `LspFrames.ReadOneFrame` | scripts/stress/stress_lsp.py:258-284 | one frame is read as its body and the reader goes on right after it; an empty body is skipped |
| `LspFrames.ReadWritten` | scripts/stress/stress_lsp.py:258-284 | reading what was written gives the non-empty bodies back in order and leaves the tail |
| `LspFrames.FramesRoundTrip` | scripts/stress/stress_lsp.py:338-346 | frames read back as exactly the bodies when, and only when, none is empty |
| `LspFrames.EmptyBodyIsLost` | scripts/stress/stress_lsp.py:276-278 | a written empty body is not read back |
| `LspFrames.LowerCaseIs` | scripts/stress/stress_lsp.py:273-275 | field names are lower-cased, letter by letter |
| `LspFrames.HeadersAreRead` | scripts/stress/stress_lsp.py:263-275 | header lines of any names and in any order are read up to the empty line |
| `LspFrames.BlockIsRead` | scripts/stress/stress_lsp.py:258-284 | what the reader makes of any header block: the length it names, zero for none, the rest of the stream for -1, and the end for what does not parse |
| `LspFrames.LengthsAreRead` | scripts/stress/stress_lsp.py:276-276 | a sign and single underscores between digits are allowed in a length |
| `LspClient.Client.constructor` | scripts/stress/stress_lsp.py:225-256 | ids start at 1, nothing is pending and the client is alive |
| `LspClient.Client.AllocateId` | scripts/stress/stress_lsp.py:361-364 | a thread takes the next id |
| `LspClient.Client.Route` | scripts/stress/stress_lsp.py:306-320 | a reply is kept under its id, other messages are not |
| `LspClient.Client.Poll` | scripts/stress/stress_lsp.py:367-377 | a waiting request pops its reply if it is there, gives up exactly when expired or dead, or waits on |
| `LspClient.Client.MarkDead` | scripts/stress/stress_lsp.py:265-269 | the end of the stream ends the client |
| `LspClient.RunKeeps` | scripts/stress/stress_lsp.py:306-381 | every interleaving keeps ids issued once, threads on ids of their own, and each arrival in one place |
| `LspClient.IdsAreDistinct` | scripts/stress/stress_lsp.py:361-364 | over every interleaving request ids are distinct |
| `LspClient.RepliesReachTheirRequest` | scripts/stress/stress_lsp.py:361-381 | a request that returns has a reply with its own id; no reply is returned twice and no request returns twice |
| `LspClient.LateReplyStaysUnclaimed` | scripts/stress/stress_lsp.py:361-381 | a reply to a failed request is never handed to anyone, however the run goes on |
| `LspClient.RepliesAreGenuine` | scripts/stress/stress_lsp.py:306-320 | every reply handed out is the response that arrived at that place of the stream |
| `LspClient.ReplyIsDelivered` | scripts/stress/stress_lsp.py:361-381 | over every interleaving, once its reply has come in a waiting request cannot give up, and returns with it as soon as it looks |
| `LspClient.FailedWriteFails` | scripts/stress/stress_lsp.py:338-359 | a failed write fails its request and ends the client |
| `LspClient.DeadStaysDead` | scripts/stress/stress_lsp.py:265-269 | nothing brings the client back after the end of the stream |
| `PerfNotes.SpliceReplaces` | scripts/release/perf_notes.py:268-281 | splicing replaces exactly the section in place and keeps what stands before and after it |
| `PerfNotes.PartsExist` | scripts/release/perf_notes.py:268-281 | notes with the heading come apart into whole lines before it, the section, and nothing or the next section |
| `PerfNotes.SpliceIsIdempotent` | scripts/release/perf_notes.py:268-281 | splicing the same section again changes nothing, whatever the notes |
| `PerfNotes.LastSpliceWins` | scripts/release/perf_notes.py:268-281 | an older section leaves no trace under a newer one |
| `PerfNotes.SpliceKeepsTitle` | scripts/release/perf_notes.py:284-289 | splicing never changes whether the notes carry the right title |
| `PerfNotes.TitleIsFirstLine` | scripts/release/perf_notes.py:284-289 | the title is the first line that is not blank, blanks around it aside |
| `PerfNotes.NotesFile.Write` | scripts/release/perf_notes.py:334-364 | the file becomes the spliced text and is written exactly when that differs |
| `PerfNotes.NotesFile.Check` | scripts/release/perf_notes.py:334-364 | the exit code is 0 exactly for titled notes that are up to date |
| `PerfNotes.NotesFile.WriteThenCheck` | scripts/release/perf_notes.py:334-364 | right after a write the check passes exactly when the notes were titled before it |
| `RuleBody.Scan` | grammars/tree-sitter-bigip/src/scanner.c:55-107 | the scanner's token and end are those of the specified scan; it yields no empty token |
| `RuleBody.ConsumesExactlyBodies` | grammars/tree-sitter-bigip/src/scanner.c:66-106 | before a `}` and any suffix the scan consumes exactly the text when, and only when, its braces balance and no backslash dangles |
| `RuleBody.StopsOnlyAtItsBrace` | grammars/tree-sitter-bigip/src/scanner.c:66-106 | on any text the scan takes it all or stops at a `}` after a balanced body |
| `SelectionTransforms.UnescapePrefix` | editors/vscode/src/selectionTransforms.ts:32-69 | unescaping an escaped text and a tail gives the text and the unescaped tail |
| `SelectionTransforms.UnescapeEscape` | editors/vscode/src/selectionTransforms.ts:60-69 | unescaping undoes escaping on every text |
| `SelectionTransforms.TclReadsEscaped` | editors/vscode/src/selectionTransforms.ts:32-62 | Tcl's own backslash decoding of an escaped text and a tail gives the text and the decoded tail |
| `SelectionTransforms.TclUndoesEscape` | editors/vscode/src/selectionTransforms.ts:60-62 | to Tcl, the escaped text stands for exactly the selection |
| `SelectionTransforms.ActiveCharsAreEscaped` | editors/vscode/src/selectionTransforms.ts:32-62 | every quote, dollar and bracket of an escaped text follows an odd run of backslashes |
| `SelectionTransforms.EscapedIsOneLine` | editors/vscode/src/selectionTransforms.ts:32-62 | no line break, tab or other named control character is left in an escaped text |
| `SelectionTransforms.PlainTextIsItself` | editors/vscode/src/selectionTransforms.ts:60-62 | a text without special characters is left as it is |
| `SelectionTransforms.UnknownEscapeStays` | editors/vscode/src/selectionTransforms.ts:64-69 | a backslash before any other character stays |
| `DiffAnalysis.CollectTabUriSets` | editors/vscode/src/diffAnalysis.ts:66-81 | the two sets hold exactly the URIs in normal tabs and on diff sides |
| `DiffAnalysis.DiffOnlyUris` | editors/vscode/src/diffAnalysis.ts:88-96 | exactly the URIs of the one set that are not in the other |
| `DiffAnalysis.SymmetricDifference` | editors/vscode/src/diffAnalysis.ts:99-108 | exactly the keys in one of the two sets |
| `DiffAnalysis.TabsDecide` | editors/vscode/src/diffAnalysis.ts:66-96 | both sides of a diff tab are emptied unless a normal tab shows the document or the setting is off for it; all else is left alone |
| `DiffAnalysis.Suppressor.constructor` | editors/vscode/src/diffAnalysis.ts:144-157 | the view starts from the open tabs with nothing remembered and nothing sent |
| `DiffAnalysis.Suppressor.HandleDiagnostics` | editors/vscode/src/diffAnalysis.ts:163-171 | a publish is remembered and forwarded with one send |
| `DiffAnalysis.Suppressor.TabsChanged` | editors/vscode/src/diffAnalysis.ts:177-185 | a tab change recomputes the diff-only set and sends again the flipped keys, as the step does |
| `DiffAnalysis.Suppressor.SettingChanged` | editors/vscode/src/diffAnalysis.ts:187-191 | a change of the setting sends every remembered key again |
| `DiffAnalysis.Suppressor.CloseTextDocument` | editors/vscode/src/diffAnalysis.ts:153-155 | a closed document is forgotten and nothing is sent |
| `DiffAnalysis.Suppressor.Reapply` | editors/vscode/src/diffAnalysis.ts:193-199 | one send for each remembered key among those given, and no other, is added to the log |
| `DiffAnalysis.ViewIsRecomputation` | editors/vscode/src/diffAnalysis.ts:114-199 | over every sequence of events, what was last sent for a remembered URI is what recomputing everything from the events gives, and its real diagnostics when it is open in a normal tab |
| `DiffAnalysis.OnlyFlippedAreSent` | editors/vscode/src/diffAnalysis.ts:177-185 | over every sequence of events, a tab change makes exactly one send for each remembered URI whose diff-only status flipped, the one its new status calls for, and no other send |
| `DiffAnalysis.SettingSendsEachOnce` | editors/vscode/src/diffAnalysis.ts:187-191 | over every sequence of events, a change of the setting makes exactly one send for each remembered URI and no other |
| `ChartTicks.Log10Floor` | scripts/perf/report.py:469-469 | the power of ten at or below a number, the next one being above it |
| `ChartTicks.WidenIs` | scripts/perf/report.py:459-466 | only a single value widens the range: by a tenth of its size on either side, or by one around zero |
| `ChartTicks.PickStep` | scripts/perf/report.py:468-473 | the step is the least of all 1, 2, 2.5, 5 and 10 multiples of powers of ten that is not below the raw step, and less than twice it |
| `ChartTicks.TickFacts` | scripts/perf/report.py:474-480 | the bounds cover the range within a step, and the interval count is more than half the target and at most one above it |
| `ChartTicks.NiceTicks` | scripts/perf/report.py:446-483 | least round step, bounds that are multiples of it next to the range, ticks evenly from bound to bound, for every range and target |
| `ChartTicks.ScaleIsMonotone` | scripts/perf/report.py:533-538 | a linear scale is strictly monotone and maps the axis bounds exactly onto the plot edges, in either direction |
| `ChartTicks.ScaleStaysInside` | scripts/perf/report.py:533-538 | a value within the axis lands within the plot edges |
| `ChartTicks.Extent` | scripts/perf/report.py:924-931 | the tightest bounds of all points |
| `ChartTicks.PlotPoints` | scripts/perf/report.py:961-967 | each point is drawn at its scaled place, inside the plot |
| `ChartTicks.DrawOrderIsComplete` | scripts/perf/report.py:950-952 | every series has one place in the drawing order, the highlighted one last and the others as they are listed |
| `ChartTicks.LineChart` | scripts/perf/report.py:881-968 | without points nothing is drawn; otherwise every non-empty series is drawn once, point for point on the nice axes of all the data, inside the plot, the highlighted one last |
| `ChartTicks.BarInGroup` | scripts/perf/report.py:1051-1072 | a bar slot lies in the middle four fifths of its group |
| `ChartTicks.BarsAreDisjoint` | scripts/perf/report.py:1051-1072 | no two bar slots overlap and all lie inside the plot, whatever the numbers of groups and series |
| `CheckGroups.CollectOrds` | scripts/perf/report.py:1169-1173 | the two loops keep each check id with its least number over all runs |
| `CheckGroups.CollectGroups` | scripts/perf/report.py:1161-1174 | every id of every run once, by least number and then by id |
| `CheckGroups.TextLessIs` | scripts/perf/report.py:1174-1174 | ids are compared by the first character that differs, a proper beginning first |
| `CheckGroups.EarlierNumberFirst` | scripts/perf/report.py:1161-1174 | a check seen under a number below all numbers of another stands before it, and equal least numbers leave it to the ids |
| `CheckGroups.GroupsIgnoreReadingOrder` | scripts/perf/report.py:1161-1174 | collections of the same checks, in any order and however often, have the same groups |
| `CheckGroups.GroupsIgnoreRunOrder` | scripts/perf/report.py:1161-1174 | reading the runs in another order changes nothing |
| `NextestPartitions.SelectCases` | scripts/dev/verify-nextest-partitions.py:79-99 | a suite's testcases are accepted exactly when well formed and not repeating a matching test, and all matching ones are added; an error names a defect that is there |
| `NextestPartitions.SelectSuite` | scripts/dev/verify-nextest-partitions.py:66-99 | the same for one suite with its own form |
| `NextestPartitions.Selected` | scripts/dev/verify-nextest-partitions.py:59-102 | a listing is accepted exactly when readable, and yields exactly its matching tests; an error names a defect that the listing has |
| `NextestPartitions.MatchingAre` | scripts/dev/verify-nextest-partitions.py:79-99 | the matching tests are exactly those listed with the status `matches` under their binary |
| `NextestPartitions.MalformedIsRefused` | scripts/dev/verify-nextest-partitions.py:59-102 | every malformed listing is refused, one clause for each form |
| `NextestPartitions.OneTestcaseIsReadable` | scripts/dev/verify-nextest-partitions.py:59-102 | one well-formed testcase makes a readable listing, matching or not |
| `NextestPartitions.AuthoritativeSelected` | scripts/dev/verify-nextest-partitions.py:105-109 | the authoritative listing must select a test |
| `NextestPartitions.VerifyPartitionSets` | scripts/dev/verify-nextest-partitions.py:112-137 | accepted exactly when correctly labelled, pairwise disjoint, and together the whole; the error says which of these fails |
| `NextestPartitions.Verify` | scripts/dev/verify-nextest-partitions.py:140-158 | accepted exactly when all listings are readable and the three partition the non-empty authoritative one; an error names a reason that holds |
| `NextestPartitions.VerifyResults` | scripts/dev/verify-nextest-partitions.py:331-345 | accepted exactly when producers and consumers both partition it and agree one by one; an error names a reason that holds |
| `NextestPartitions.AcceptedCountsAddUp` | scripts/dev/verify-nextest-partitions.py:140-158 | acceptance means that the parts' matching testcases add up to the authoritative number |
| `NextestPartitions.AcceptedRunsEachOnce` | scripts/dev/verify-nextest-partitions.py:140-158 | acceptance means that every matching test is in exactly one part |
| `IruleSkeleton.CollectUnique` | editors/vscode/src/iruleSkeleton.ts:70-80 | the loop keeps each non-empty normalised name where it first occurs |
| `IruleSkeleton.UniqueNamesAre` | editors/vscode/src/iruleSkeleton.ts:70-82 | the names are distinct and exactly those chosen |
| `IruleSkeleton.SortSorts` | editors/vscode/src/iruleSkeleton.ts:53-68 | sorting orders by the comparator and keeps exactly the names |
| `IruleSkeleton.SelectedInOrder` | editors/vscode/src/iruleSkeleton.ts:53-68 | catalogued events come first and in the catalogue's order, the others as the locale collates them |
| `IruleSkeleton.OrderBlocks` | editors/vscode/src/iruleSkeleton.ts:198-215 | the step-by-step ordering gives the specified blocks |
| `IruleSkeleton.BlocksAreTheEvents` | editors/vscode/src/iruleSkeleton.ts:198-215 | each chosen event has one block, `RULE_INIT` is first when chosen, and only `CLIENT_ACCEPTED` is ever added, for HTTP events |
| `IruleSkeleton.SkeletonIsItsLines` | editors/vscode/src/iruleSkeleton.ts:198-219 | the skeleton is the lines of its blocks with an empty line between two, or nothing without events |
| `IruleSkeleton.SkeletonDependsOnNames` | editors/vscode/src/iruleSkeleton.ts:198-219 | selections of the same names give the same skeleton when no two names, `RULE_INIT` aside, collate equal |
| `IruleSkeleton.OrderedByNamesExactlyWhenTold` | editors/vscode/src/iruleSkeleton.ts:198-215 | the blocks depend on nothing but the names exactly when no two of them, `RULE_INIT` aside, collate equal |
| `IruleSkeleton.TieKeepsChoiceOrder` | editors/vscode/src/iruleSkeleton.ts:53-68 | with the generated catalogue, two canonically equivalent spellings keep the order they were chosen in |
| `IruleSkeleton.FlagIsSet` | editors/vscode/src/iruleSkeleton.ts:165-219 | when `CLIENT_ACCEPTED` sorts below the HTTP events, every block that reads the debug flag follows one that sets it |
| `IruleSkeleton.FlagIsSetExactlyWhen` | editors/vscode/src/iruleSkeleton.ts:165-219 | that holds for all selections exactly when `CLIENT_ACCEPTED` sorts below each HTTP event |
| `IruleSkeleton.CommonEventsSetTheFlag` | editors/vscode/src/iruleSkeleton.ts:41-47 | with the generated catalogue the flag is always set |

## Left out

- The analyser, compiler, virtual machine, optimiser and query engine in Rust, beyond the list, glob, method-order and backslash modules.
- The lenient, raw and Jim list splitters, `describe_bad_value`, and the escape rules of releases other than Tcl 9.0.
- Byte offsets in Rust: indices count characters, as every delimiter is one byte.
- TclOoChains.ChainExactlyWhen: takes a hierarchy without an inheritance cycle above the class; with one, how many visits a pass takes is left to the walk. `build_mro_map`, which calls the linearisation once per class, is not modelled.
- TclOoChains.WholeChainInOrder: states the order for hierarchies without an inheritance cycle; with a mixin cycle it can fail, as MixinCycleTurnsOrder shows.
- TclGlob.DoMatch: case folding is a parameter, because the Unicode case tables are not part of this model.
- FileGlobs.ExactlyWhenGlobsAgree: covers ASCII extensions without separator or brace, which stand for other things in the editor's globs, and not those with both a dot and a bracket, which depend on what the editor lets a class admit; a bracketed class is modelled only as one character, and lower-casing as far as it can yield an ASCII letter.
- Lone surrogates, which `TextEncoder` replaces.
- Two workspace folders that share a display name or a URI.
- Two syncs that interleave inside the awaits of one `syncPackFileAssociations`, and the retarget of open documents beyond its file name test.
- The text drawn in the preview, decoding of its model, and everything the webview shows.
- JSON and UTF-8 decoding of the messages; a byte stream is a sequence of characters. A condition variable's wake-ups are the events of a run.
- DiffAnalysis.Suppressor.CloseTextDocument: says nothing of what a forgotten URI goes on showing, as the program sends nothing for it.
- The prose that `build_section` writes; the section's shape (heading first, no other `## ` line, a final newline) is taken as given.
- Floating-point rounding, non-finite inputs and SVG text in the charts; log axes; the height of bars.
- Digests, metadata and file access of `verify_results`.
- RuleBody.Scan: the depth counter is unbounded.
- IruleSkeleton.OrderedByNamesExactlyWhenTold: name normalisation and locale collation are parameters; the collation is taken to be a total preorder.
- VS Code, Sublime and macOS user interface, network, subprocess and file-system code, and the tree-sitter grammars.
