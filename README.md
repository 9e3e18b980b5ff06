# array-matcher, modelled in Dafny

array-matcher is a backtracking matcher over arrays. A *pattern* is a list of
*steps*. A step looks at the current element of the target array, or at
`undefined` once the array is exhausted. It answers with a signal:

- `OK` consumes one element;
- `FAIL`, or any falsy value, rejects;
- `NO_CONSUME` consumes nothing;
- `NO_OR_ONE_CONSUME` consumes zero or one element;
- `ANY_CONSUME` consumes any number of elements.

The engine decides whether the whole pattern consumes the whole target. Two
front ends compile small pattern languages onto it:

- path globs (`first/**/*.txt`, with `*`, `?`, `[a-z]` and `**`);
- CSS-like query selectors (`tag`, `.class`, `#id`, descendant blank, child
  `>`, and in the bundled version `,`) over arrays of tagged objects.

The model covers two copies of the library:

- the sources under `src/`;
- the later bundle `dist/array-matcher.mjs`.

The bundle adds whole-pattern alternation (`MATCH_OR_SYMBOL`) and `,` in
selectors. The datatype `Compiler.Version` (`Src` or `Dist`) selects the
copy wherever the two differ. Each copy's `glob` has its own function:
`Glob.GlobSteps` compiles with the sources' `compile` and matches with
`Matches`, `Glob.GlobEntries` compiles with the bundle's `compile` and
matches with the bundled, splitting `match`.

Modules, one per part of the program:

- `Wrappers`: `Option` and `Result`.
- `Cursor` (src/util.js): `LinkedList` as a class. An immutable `seq` stands
  for the node chain, which is never changed once built. A mutable position
  stands for the `node` field.
- `Engine` (src/matcher.mjs):
  - `MatchFrom`/`AnyFrom` specify `matchToLinkedList` over positions.
  - `MatchToLinkedList` is the loop over cursor objects, proved equal to
    that specification.
  - Lemmas state what each signal does.
- `Alternation` (dist/array-matcher.mjs): the bundled `match`. It splits the
  pattern at markers, drops the empty groups, and tries the groups in order.
- `Compiler` (src/matcher.mjs, plus the bundle's `accept`):
  - pattern specs form a closed datatype;
  - `acceptRegexp` and `acceptString` are hooks that the front ends override;
  - `compile` exists in both versions.
- `Glob` (src/glob.js): the segment tokenizer, `charSelector` and
  `GlobCompiler.acceptString`.
- `QueryTokens` (src/querySelector.mjs): the character table,
  `getCharType` and the tokenizer.
- `Query` (src/querySelector.mjs):
  - `QueryParser` is a class. Its `tokens` is a `LinkedList` it shifts, and
    its `result` is a stack it pushes and pops. Each of its methods is
    proved against a function over token positions.
  - It also holds the selector denotations, `ObjectCompiler` and
    `querySelector`.

Facts about the code that the model follows as written:

- `*` is not in the character table's operator class. A query holding it
  is therefore an invalid character, and `wildcard()` is never reached
  (`Query.WildcardIsRejected`).
- After `,` no new leading `ANY_CONSUME` is pushed. So `target,end` accepts
  `[{}, {tagName:'target'}]` but rejects `[{}, {tagName:'end'}]`
  (`Query.CommaMeaning`).
- `x > y` is rejected. The blank before `>` is already taken as the
  descendant separator, and `>` is then no selector
  (`Query.SpacedChildFails`).
- An empty pattern, or one made only of markers, matches nothing under the
  bundled `match`, not even `[]` (`Alternation.OnlyMarkersMatchNothing`).
  Empty groups are dropped, not kept as vacuous alternatives.
- Some steps throw when they run at the end of the target. The `obj.tagName`
  class of steps, `target.split` and `ch.charCodeAt` all read a property of
  `undefined` there. So matching can throw as well as compiling. See
  "## Findings".

## Model

| member | source | states |
|---|---|---|
| Cursor.LinkedList.constructor | src/util.js:21-23 | a cursor on a given node of a chain; the chain is kept, the position is the node |
| Cursor.LinkedList.Current | src/util.js:29-45 | `current` is a value exactly when `hasValue()` holds, and that value is the next element of the chain |
| Cursor.LinkedList.Shift | src/util.js:35-39 | returns the old `current`; advances exactly one node, or stays put and returns `undefined` on an exhausted cursor; the chain is unchanged |
| Cursor.LinkedList.Clone | src/util.js:55 | a fresh cursor on the same chain at the same node |
| Cursor.LinkedList.FromArray | src/util.js:62-69 | a fresh cursor whose remaining elements are exactly the array, in order |
| Cursor.EmptyCursorHasNoValue | src/util.js:63 | `fromArray([])` has no value and its `current` is `undefined` |
| Cursor.ShiftAll | src/util.js:62-69 | shifting `fromArray(arr)` `|arr| + 1` times yields the elements in order, then `undefined` |
| Cursor.CloneIsIndependent | src/util.js:55 | shifting the clone and then the original advances each by exactly one node, so neither moves the other |
| Engine.ExhaustedPattern | src/matcher.mjs:85 | with no step left the match succeeds exactly when the target is exhausted too |
| Engine.FailAborts | src/matcher.mjs:65-66 | a falsy reply makes the whole call false |
| Engine.NoConsumeStep | src/matcher.mjs:67 | `NO_CONSUME` continues with the next step at the same target position |
| Engine.NoOrOneConsumeStep | src/matcher.mjs:68-73 | `NO_OR_ONE_CONSUME` matches exactly when the rest matches after zero or after one consumed element |
| Engine.ConsumeOneStep | src/matcher.mjs:83 | another truthy reply consumes one element, a no-op at the end of the target |
| Engine.AnyFromExists | src/matcher.mjs:76-81 | the inner `targetClone` loop answers true exactly when some position short of the end lets the rest match, or no step remains |
| Engine.AnyConsumeStep | src/matcher.mjs:74-82 | `ANY_CONSUME` matches exactly when the rest matches from some position between the current one and the last element (never from the end of the target), or nothing follows it |
| Engine.TrailingAnyConsume | src/matcher.mjs:74-82 | a trailing `ANY_CONSUME` absorbs any rest of the target, the empty one included |
| Engine.ExactPattern | src/matcher.mjs:62-86 | steps that each consume exactly one element match exactly the targets of the same length whose elements they accept position by position |
| Engine.AnyThenExact | src/matcher.mjs:62-86 | a leading `ANY_CONSUME` then exact steps match exactly the targets whose last elements those steps accept in order |
| Engine.AnyThenOne | src/matcher.mjs:62-86 | `[ANY_CONSUME, a]` with `a` consuming exactly one element matches exactly the non-empty targets whose last element `a` accepts |
| Engine.AnyThenTwo | src/matcher.mjs:62-86 | `[ANY_CONSUME, a, b]` matches exactly the targets of length at least two whose last two elements `a` and `b` accept |
| Engine.AnyConsumeThenNoConsumeRejectsEmpty | src/matcher.mjs:74-82 | `[ANY_CONSUME, NO_CONSUME]` rejects `[]` |
| Engine.NoConsumeMatchesEmpty | src/matcher.mjs:67 | `[NO_CONSUME]` matches `[]` |
| Engine.MatchToLinkedList | src/matcher.mjs:62-86 | the cursor loop answers what `MatchFrom` specifies for the positions the cursors started at |
| Engine.NoOrOneConsumeRest | src/matcher.mjs:68-73 | after `NO_OR_ONE_CONSUME` the answer is true at the end of both lists, and otherwise whether the rest matches with nothing or with one element consumed |
| Engine.AnyConsumeLoop | src/matcher.mjs:76-81 | the inner loop over `targetClone` answers what `AnyFrom` specifies |
| Engine.Match | src/matcher.mjs:94-99 | `match(pattern, target)` is `Matches(pattern, target)` |
| Alternation.GroupsAreNonEmpty | dist/array-matcher.mjs:70-77 | every group `match` tries holds at least one step |
| Alternation.GroupsConcat | dist/array-matcher.mjs:65-77 | the groups laid end to end are the pattern's steps in order: nothing lost or moved |
| Alternation.NoMarkerOneGroup | dist/array-matcher.mjs:77 | a non-empty pattern without markers is one group, the whole pattern |
| Alternation.OnlyMarkersNoGroups | dist/array-matcher.mjs:65-77 | an empty or marker-only pattern yields no group at all |
| Alternation.PiecesAfterMarker | dist/array-matcher.mjs:68-76 | cutting `a`, a marker, `b` gives the pieces of `a` followed by those of `b` |
| Alternation.GroupsAfterMarker | dist/array-matcher.mjs:65-77 | the groups of `a`, a marker, `b` are the groups of `a` then those of `b` |
| Alternation.MarkerIsOr | dist/array-matcher.mjs:64-85 | the bundled `match` on `a`, a marker, `b` holds exactly when it holds on `a` or on `b` |
| Alternation.NoMarkerAsBefore | dist/array-matcher.mjs:77-83 | a non-empty marker-free pattern means under the bundled `match` what it means under `matchToLinkedList` |
| Alternation.OnlyMarkersMatchNothing | dist/array-matcher.mjs:77-84 | an empty or marker-only pattern matches no target under the bundled `match`, while the unsplit engine matches `[]` with the empty pattern |
| Alternation.SplitPattern | dist/array-matcher.mjs:65-77 | the splitting loop builds exactly `Groups(pattern)`: cut at markers, empty groups dropped |
| Alternation.MatchAlternatives | dist/array-matcher.mjs:64-85 | the bundled `match` answers whether some group matches the whole target |
| Compiler.SomeTruthy | src/matcher.mjs:142 | `some` is true exactly when some compiled alternative is truthy on the target |
| Compiler.AcceptAll | src/matcher.mjs:141 | every alternative compiles, in order, or the whole `map` throws |
| Compiler.CompileEntries | dist/array-matcher.mjs:114-117 | every spec is accepted, one entry per spec in order, or compilation throws |
| Compiler.StringIsStrictEquality | src/matcher.mjs:154-156 | a string compiles to OK on that string and FAIL on anything else |
| Compiler.RegexIsTest | src/matcher.mjs:129-131 | a regex compiles to OK exactly when `test` accepts the target |
| Compiler.BooleanIsConstant | src/matcher.mjs:182-184 | a boolean compiles to a constant OK or FAIL |
| Compiler.FunctionIsVerbatim | src/matcher.mjs:169-171 | a function is used as the step itself |
| Compiler.UnsupportedThrows | src/matcher.mjs:196-205 | a spec of no supported kind throws, and so does the marker in `src`; the bundle passes the marker through |
| Compiler.ArrayIsSomeAlternative | src/matcher.mjs:140-143 | an array compiles when all its alternatives do, to a plain boolean step truthy exactly when some alternative is |
| Compiler.EmptyArrayFails | src/matcher.mjs:140-143 | the empty array compiles to a step that fails on everything |
| Compiler.StringsConsumeOne | src/matcher.mjs:154-156 | a string step consumes exactly one element |
| Compiler.StringsMatchExactly | src/matcher.mjs:212-215 | a pattern of strings matches exactly the array of those strings |
| Compiler.TrueAcceptsEmpty | src/matcher.mjs:83 | `compile([true])` matches `[]` and any one-element array, and nothing longer |
| Compiler.CompileEntriesNoMarker | dist/array-matcher.mjs:114-117 | without markers both versions compile the same steps |
| Compiler.SameWithoutMarkers | dist/array-matcher.mjs:64-85 | a non-empty marker-free pattern matches the same targets under both versions |
| Glob.FindClose | src/glob.js:21 | the first `]` from a position, or none if no `]` follows |
| Glob.Tokenize | src/glob.js:16-31 | `tokenize` with `bracket` answers `TokensFrom(glob, 0)` |
| Glob.TokenizeFailsIff | src/glob.js:21-23 | `tokenize` throws exactly when some `[` has no `]` after it |
| Glob.TokensCoverGlob | src/glob.js:16-31 | the tokens laid end to end give back the glob; each is one character other than `[` or a whole `[...]` group |
| Glob.CharSelector | src/glob.js:47-62 | the loop of `charSelector` with `range` builds exactly `ClassItems(pattern, 0)` |
| Glob.SomeCovers | src/glob.js:63 | `allowed.some` is true exactly when some alternative admits the character |
| Glob.LiteralClass | src/glob.js:58-61 | without `-`, a bracket body admits exactly its own characters |
| Glob.RangeClass | src/glob.js:50-57 | `x-y` admits exactly the characters from `x` to `y` inclusive |
| Glob.TrailingDashIsLiteral | src/glob.js:57 | a `-` with fewer than three characters left is a literal |
| Glob.RangeThenRest | src/glob.js:56-62 | a leading range is ORed with the alternatives after it |
| Glob.EmptyClassAdmitsNothing | src/glob.js:63 | `[]` fails on everything |
| Glob.Split | src/glob.js:91 | `split('/')` yields at least one piece |
| Glob.SplitJoin | src/glob.js:91 | joining the pieces of `split` gives back the path, and no piece holds `/` |
| Glob.JoinSplit | src/glob.js:91 | splitting a join of `/`-free pieces gives back the pieces |
| Glob.GlobSpecs | src/glob.js:90-92 | a path becomes one string pattern per segment, the segments joining back to the path |
| Glob.PlainTokens | src/glob.js:26-29 | a segment without `[` is one token per character |
| Glob.PlainToken | src/glob.js:74 | a plain character step consumes one element and admits only that character |
| Glob.PlainStepsEach | src/glob.js:70-75 | each step of a plain segment admits exactly its own character |
| Glob.PlainSteps | src/glob.js:69-76 | the steps of a plain segment match exactly that segment's characters |
| Glob.PlainSegmentMatchesItself | src/glob.js:67-77 | a segment without wildcards is OK exactly on the equal string |
| Glob.SegmentIsNestedMatch | src/glob.js:76 | a segment step is OK exactly when the nested `match` over its characters succeeds |
| Glob.DistSegmentIsDistMatch | dist/array-matcher.mjs:164 | in the bundle the nested match is the bundled `match` |
| Glob.EmptySegment | src/glob.js:76 | the empty segment matches only `''` in `src`, and nothing in the bundle |
| Glob.DoubleStarIsAnyConsume | src/glob.js:68 | `**` is `ANY_CONSUME` whatever it meets |
| Glob.TokenKinds | src/glob.js:71-74 | `*` is `ANY_CONSUME`, `?` is OK on a character and FAIL at the end, other characters match themselves |
| Glob.SegmentConsumesOne | src/glob.js:76 | a segment other than `**` consumes exactly one path element |
| Glob.StarThenPlain | src/glob.js:69-76 | a segment `*` followed by plain characters (such as `*cond`) admits exactly the strings that end with those characters, in both versions |
| Glob.ThreeSteps | src/matcher.mjs:74-83 | `x`, `ANY_CONSUME`, `y` match the arrays of length at least two that start with `x` and end with `y` |
| Glob.DoubleStarPath | src/glob.js:90-92 | in either copy's `glob`, `x/**/y` matches exactly the paths from `x` to `y`, with any segments between |
| Glob.DistPathGlob | dist/array-matcher.mjs:167-170 | a path holds no marker, so the bundle's `glob` on it compiles exactly when its segment steps do, and matches exactly the targets those steps match under the sources' `match` |
| Glob.GlobMatchesSteps | dist/array-matcher.mjs:114-117 | a `glob` compiled to the steps `p` (as marker-free entries in the bundle) matches exactly what `p` matches, in either copy |
| Glob.OnePlainSegment | src/glob.js:90-92 | a plain segment alone matches exactly the one-element path of that segment |
| Glob.OrEntries | dist/array-matcher.mjs:106 | the bundle compiles `[x, MATCH_OR_SYMBOL, y]` to the two segment steps around the marker |
| Glob.OrThrowsInSrc | src/matcher.mjs:196-205 | the sources' `glob` throws on `[x, MATCH_OR_SYMBOL, y]`: the symbol is of no supported kind |
| Glob.OrOfSegments | dist/array-matcher.mjs:167-170 | the bundle's `glob([x, MATCH_OR_SYMBOL, y])` matches exactly `[x]` and `[y]`, where the sources throw |
| Glob.TwoPlainSegments | src/glob.js:90-92 | `x/y` compiles to the two segment steps: as steps in the sources, as entries in the bundle |
| Glob.SegmentReadsPastEnd | src/glob.js:76 | on `['x']`, `x/y` asks the `y` step about `undefined`; as written that throws, and either copy's `glob` in the model rejects the path |
| Glob.RangeReadsPastEnd | src/glob.js:53 | on `''`, `[x-y]` asks the range about `undefined`; as written that throws, and the model rejects the segment |
| QueryTokens.GetCharTypeClasses | src/querySelector.mjs:19-24 | below 0x80 the classes are those of `\s`, `[\w-]`, the quotes and the operators, a later class overriding an earlier one |
| QueryTokens.GetCharTypeEdges | src/querySelector.mjs:26-30 | `undefined` is white space, code units from 0x80 are word characters, `*` and `\` are unknown, `,` is an operator only in the bundle |
| QueryTokens.RunEnd | src/querySelector.mjs:56-61 | a run ends at the first position of another class or at the end of the input |
| QueryTokens.WhiteSpaceRunNeverEnds | src/querySelector.mjs:59 | as written, a white-space run reaching the end of the input satisfies the loop condition at every later index |
| QueryTokens.TrailingBlankHangsAsWritten | src/querySelector.mjs:59 | the trailing blank of `a ` starts a run whose loop never exits |
| QueryTokens.TrailingBlankRunEnds | src/querySelector.mjs:56-61 | with the run stopping at the end, that blank is one token |
| QueryTokens.LiteralFrom | src/querySelector.mjs:45-55 | a literal that closes ends after the position it starts from and within the input |
| QueryTokens.LiteralFromAsWritten | src/querySelector.mjs:49-52 | the loop as written, stopping at any quote `escape` returns, also ends after its start and within the input |
| QueryTokens.EscapedQuoteEndsLiteral | src/querySelector.mjs:41-52 | in `"a\"b"` the loop as written stops at the escaped quote; the corrected one reads to the last quote |
| QueryTokens.CommaJoin | src/querySelector.mjs:54 | `chars.join()` puts the characters at even positions |
| QueryTokens.CommaJoinSeparators | src/querySelector.mjs:54 | `chars.join()` puts commas at odd positions |
| QueryTokens.Tokenize | src/querySelector.mjs:38-81 | `tokenize` answers `TokenizeSpec` |
| QueryTokens.Literal | src/querySelector.mjs:45-55 | `literal()` pushes the comma-joined literal from its quote to its closing quote, or throws when unterminated |
| QueryTokens.SingleWord | src/querySelector.mjs:56-61 | a word is one token |
| QueryTokens.OperatorBetweenWords | src/querySelector.mjs:68-70 | an operator between two words is a token of its own |
| QueryTokens.OperatorThenWord | src/querySelector.mjs:68-70 | an operator then a word are two tokens |
| QueryTokens.BlankBetweenWords | src/querySelector.mjs:56-66 | a blank between two words stays a token |
| QueryTokens.OperatorTail | src/querySelector.mjs:56-70 | an operator, a blank and a word at the end are three tokens |
| QueryTokens.BlanksAroundOperator | src/querySelector.mjs:56-70 | blanks around an operator between two words stay tokens: five in all |
| QueryTokens.BlanksAroundWord | src/querySelector.mjs:78-79 | a leading and a trailing blank are dropped; the trailing one only with the corrected run end (`QueryTokens.RunEnd`), since as written the trailing blank run at line 59 never ends and the pop at line 79 is not reached |
| QueryTokens.BlankInputFails | src/querySelector.mjs:78-79 | empty or all-blank input throws an empty-selector error; for non-empty all-blank input this holds only with the corrected run end (`QueryTokens.RunEnd`), since as written the blank run at line 59 never ends and the trim is not reached |
| QueryTokens.RawRun | src/querySelector.mjs:56-61 | a maximal run of word characters or of white space is one token, the rest tokenized after it; a white-space run reaching the end of the input ends there only with the corrected run end |
| QueryTokens.RawOperator | src/querySelector.mjs:68-70 | an operator character is one token, the rest tokenized after it |
| QueryTokens.UnknownIffFails | src/querySelector.mjs:74-75 | about the raw-token loop, before the trim: without quotes, that loop throws exactly when some character is unknown, and the error is an invalid character |
| QueryTokens.RawTokensNeverStar | src/querySelector.mjs:24 | no raw token is `*` |
| QueryTokens.TokensNeverStar | src/querySelector.mjs:24 | no token is `*` |
| QueryTokens.PlainLiteral | src/querySelector.mjs:45-55 | a literal without escapes runs to the first closing quote |
| QueryTokens.MissingQuoteFails | src/querySelector.mjs:49-50 | when the quote character does not occur again after the literal's start, the literal throws as unterminated |
| Query.SimpleAt | src/querySelector.mjs:147-152 | a simple selector consumes at least one token and stays within the tokens; there is none exactly when none of id, class, name and wildcard applies |
| Query.SelectorAt | src/querySelector.mjs:146-163 | a compound selector exists exactly when a simple one does, and consumes at least one token |
| Query.SpaceAt | dist/array-matcher.mjs:275-282 | `space` never moves backwards and stays within the tokens |
| Query.ChildAt | src/querySelector.mjs:141-145 | `childSeparator` never moves backwards and stays within the tokens |
| Query.CommaAt | dist/array-matcher.mjs:288-295 | `commaSeparator` never moves backwards and stays within the tokens |
| Query.SeparatorAt | dist/array-matcher.mjs:314-320 | a separator that applies consumes at least one token |
| Query.QueryParser.constructor | src/querySelector.mjs:93-96 | the cursor is on the first token and the result is `[ANY_CONSUME_MATCHER]` |
| Query.QueryParser.ClassSelector | src/querySelector.mjs:97-110 | applies as `ClassAt` says, pushes the class step and moves the cursor past the key |
| Query.QueryParser.IdSelector | src/querySelector.mjs:111-118 | applies as `IdAt` says, pushes the id step and moves the cursor past the key |
| Query.QueryParser.NameSelector | src/querySelector.mjs:119-126 | applies as `NameAt` says and pushes the tag-name step |
| Query.QueryParser.Wildcard | src/querySelector.mjs:127-133 | applies as `WildAt` says and pushes the constant OK step |
| Query.QueryParser.Space | dist/array-matcher.mjs:275-282 | moves as `SpaceAt` says and pushes `ANY_CONSUME` when it applies |
| Query.QueryParser.ChildSeparator | src/querySelector.mjs:141-145 | moves as `ChildAt` says and pushes nothing |
| Query.QueryParser.CommaSeparator | dist/array-matcher.mjs:288-295 | moves as `CommaAt` says and pushes the marker |
| Query.QueryParser.Separator | dist/array-matcher.mjs:314-320 | moves as `SeparatorAt` says |
| Query.QueryParser.Selector | src/querySelector.mjs:146-156 | pushes the compound selector `SelectorAt` gives and moves past it, or changes nothing |
| Query.QueryParser.Filter | src/querySelector.mjs:157-163 | on a further selector, replaces the top of the stack by the AND of that selector and the old top |
| Query.QueryParser.Parse | src/querySelector.mjs:170-183 | `parse` answers `ParseSpec` over the tokens: the steps, or the first grammar error |
| Query.ParseQuery | src/querySelector.mjs:93-95 | `new QueryParser(q).parse()` answers `QuerySpec(q)` |
| Query.QuerySpecs | src/querySelector.mjs:219-227 | the `reduce` of `querySelector` answers `ItemSpecs`: every query string replaced by its steps, the other items kept, in order |
| Query.SelectorEndsCompound | src/querySelector.mjs:154 | after a compound selector no further simple selector follows |
| Query.CompoundIsAnd | src/querySelector.mjs:146-163 | a compound of k simple selectors is one step, OK exactly when all k are OK |
| Query.ParseStartsWithAny | src/querySelector.mjs:95 | a parse result starts with `ANY_CONSUME_MATCHER` and holds a selector after it |
| Query.Separators | dist/array-matcher.mjs:314-320 | a blank pushes `ANY_CONSUME` unless the bundle sees `,` after it, `>` pushes nothing, `,` pushes the marker in the bundle and is no separator in `src` |
| Query.SrcLoopHasNoMarker | src/querySelector.mjs:164-183 | a parse in `src` never yields the marker |
| Query.SelectorHasNoMarker | src/querySelector.mjs:146-163 | a compound selector is never the marker |
| Query.NameConsumesOne | src/querySelector.mjs:124 | a tag-name step consumes one element and admits exactly the objects of that tag |
| Query.KeyConsumesOne | src/querySelector.mjs:102-116 | class and id steps consume one element and admit exactly the objects with that class or that id |
| Query.WordIsName | src/querySelector.mjs:119-126 | a word token is a tag-name selector |
| Query.SeparatorIsNoSelector | src/querySelector.mjs:146-152 | a one-character operator or blank other than `#` and `.` is no selector |
| Query.TagQuery | src/querySelector.mjs:219-228 | `x` parses to `[ANY, x]` and matches exactly the arrays whose last element has tag `x` |
| Query.ClassQuery | src/querySelector.mjs:97-110 | `.c` matches exactly the arrays whose last element has class `c` |
| Query.IdQuery | src/querySelector.mjs:111-118 | `#i` matches exactly the arrays whose last element has id `i` |
| Query.NameAndClassQuery | src/querySelector.mjs:157-163 | `x.c` is one AND step and matches exactly the arrays whose last element has tag `x` and class `c` |
| Query.ChildQuery | src/querySelector.mjs:141-145 | `x>y` matches exactly the arrays ending with tag `x` then tag `y` |
| Query.DescendantQuery | src/querySelector.mjs:134-140 | `x y` puts `ANY_CONSUME` between the two names |
| Query.WildcardIsRejected | src/querySelector.mjs:24 | `*` is an invalid character, so `wildcard` is never reached |
| Query.PlusIsNoSeparator | src/querySelector.mjs:175-176 | `x+y` throws for a missing separator |
| Query.SpacedChildFails | src/querySelector.mjs:178-179 | `x > y` throws for a missing selector |
| Query.TrailingChildFails | src/querySelector.mjs:178-179 | `x>` throws for a missing selector at the end |
| Query.CommaCompiles | dist/array-matcher.mjs:103-117 | the steps of `x,y` compile, the marker passing through |
| Query.CommaMeaning | dist/array-matcher.mjs:64-85 | `x,y` matches exactly the arrays ending in tag `x`, or the one-element arrays of tag `y` |
| Query.CommaQuery | dist/array-matcher.mjs:288-295 | the bundle parses `x,y` to `[ANY, x, marker, y]` |
| Query.CommaWithBlanksQuery | dist/array-matcher.mjs:275-282 | the bundle parses `x , y` exactly as `x,y` |
| Query.CommaIsInvalidInSrc | src/querySelector.mjs:24 | in `src`, `x,y` throws for an invalid character |
| Query.ChildReadsPastEnd | src/querySelector.mjs:124 | on `[{tagName:x}]`, `x>y` asks the `y` step about `undefined`; as written that throws, and the model rejects the array |
| Query.ObjectCompilerUsesTagName | src/querySelector.mjs:191-201 | string and regex patterns are applied to `obj.tagName`; at the end of the target the string step answers FAIL, where `getName` reads `undefined.tagName` and throws |

## Left out

- I/O, clocks and randomness: the library has none.
- Regular expressions are opaque predicates on the value. JavaScript `RegExp` semantics are not modelled, and neither is the `lastIndex` state of a `/g` regex.
- User step functions are opaque function values. The model does not cover a user step that throws or has side effects.
- `classList` is modelled by its four duck-typed cases: missing, an array, an object with `contains`, anything else. `contains` is an opaque predicate. `indexOf(...) >= 0` (in `src`) and `includes` (in the bundle) coincide on strings.
- `fromArray` links nodes with `Object.assign` in a `reduceRight`. The model keeps the resulting chain as an immutable sequence, so node aliasing is not modelled. No operation of the library changes a node once it is built.
- Characters are Dafny `char`s, standing for UTF-16 code units. Surrogate pairs are not modelled.
- Error messages are not modelled; only the kind of each error is.
- Performance and stack depth of the backtracking are not modelled.
- A marker nested inside an array pattern: the bundled `acceptArray` keeps the symbol as an alternative, and calling it throws at match time. The model rejects it at compile time instead.
- Glob targets are strings. A non-string path element, which `split` cannot handle, is not modelled.
- Cursor.LinkedList.Valid, Cursor.LinkedList.Rest, Cursor.LinkedList.HasValue: ghost or pure reads, stated through the contracts of `Current` and `Shift`.
- Query.QueryParser: the constructor takes the token list. `Query.ParseQuery` tokenizes first, as `new QueryParser(input)` does.
- Query.Denote: at the end of the target, a step that reads a property answers FAIL; the source throws (see Findings).
- Query.ObjectCompiler: at the end of the target its string and regex steps answer FAIL; the source's `getName` reads `undefined.tagName` and throws (src/querySelector.mjs:192).
- Glob.SegmentStep: at the end of the target it answers FAIL; the source throws (see Findings).
- Glob.Covers: a range answers false at the end of a segment; the source throws (see Findings).
- QueryTokens.RunEnd: a run stops at the end of the input; the source loops forever on a trailing blank (see Findings).
- QueryTokens.LiteralFrom: an escaped quote does not close the literal; the source closes it there (see Findings).
- QueryTokens.Tokenize: tokenizes with the corrected run end (`RunEnd`) and the corrected literal end (`LiteralFrom`), so it terminates on trailing blanks and keeps escaped quotes inside literals, where the source hangs or closes the literal.
- QueryTokens.Literal: reads a literal with the corrected end (`LiteralFrom`), which does not close at an escaped quote as the source does.

## Findings

| source | as written | input that shows it | evidently intended | confidence | as-written member | corrected member |
|---|---|---|---|---|---|---|
| src/querySelector.mjs:59 | `whileThisType` loops while `getCharType(pattern[++index])` equals the run's class, and `getCharType(undefined)` is white space | `querySelector('a ')`: the trailing blank run never ends | a run stops at the end of the input, so the trailing blank is a token that is then trimmed | not executed | QueryTokens.TrailingBlankHangsAsWritten | QueryTokens.TrailingBlankRunEnds |
| src/querySelector.mjs:41-52 | `escape` returns the escaped character itself, and the loop compares it with the quote | `querySelector('."a\\"b"')`: the literal ends at the escaped quote | an escaped quote is part of the literal | not executed | QueryTokens.EscapedQuoteEndsLiteral | QueryTokens.LiteralFrom |
| src/querySelector.mjs:124 | the tag-name step reads `obj.tagName`, and at the end of the target `obj` is `undefined` | `querySelector('a>b')([{tagName:'a'}])` throws | steps may be given `undefined` at the end and answer FAIL there | not executed | Query.ChildReadsPastEnd | Query.Denote |
| src/glob.js:76 | the segment step calls `target.split('')`, and at the end of the target `target` is `undefined` | `glob('a/b')(['a'])` throws | the segment step answers FAIL at the end | not executed | Glob.SegmentReadsPastEnd | Glob.SegmentStep |
| src/glob.js:53 | a range reads `ch.charCodeAt(0)`, and at the end of a segment `ch` is `undefined` | `glob('[a-c]')([''])` throws | a range answers false at the end | not executed | Glob.RangeReadsPastEnd | Glob.Covers |
