/**
 * The glob front end of src/glob.js: a path glob is split at `/` into one
 * step per segment; a segment is tokenized (a `[...]` group is one token),
 * each token becomes a step over single characters, and the segment's step
 * runs a nested match of those steps over the characters of the target.
 */
module Glob {
  import opened Wrappers
  import opened Engine
  import opened Alternation
  import opened Compiler

  // ---------------------------------------------------------------------
  // tokenize

  /** The first `]` at or after `k`, if any. */
  function FindClose(glob: string, k: nat): (r: Option<nat>)
    ensures r.Some? ==> k <= r.value < |glob| && glob[r.value] == ']'
    ensures r.Some? ==> forall m :: k <= m < r.value ==> glob[m] != ']'
    ensures r.None? ==> forall m :: k <= m < |glob| ==> glob[m] != ']'
    decreases |glob| - k
  {
    if k >= |glob| then None else if glob[k] == ']' then Some(k) else FindClose(glob, k + 1)
  }

  /** The tokens of `glob[i..]`: a `[` opens a group running to the first `]` after it, any other character is a token of its own. */
  function TokensFrom(glob: string, i: nat): Result<seq<string>, Error>
    decreases |glob| - i
  {
    if i >= |glob| then Success([])
    else if glob[i] == '[' then
      match FindClose(glob, i + 1)
      case None => Failure(MissingRightBracket)
      case Some(e) => Prepend([glob[i..e + 1]], TokensFrom(glob, e + 1))
    else Prepend([[glob[i]]], TokensFrom(glob, i + 1))
  }

  /** `tokenize` with its `bracket` helper sharing the index. */
  method Tokenize(glob: string) returns (r: Result<seq<string>, Error>)
    ensures r == TokensFrom(glob, 0)
  {
    var res: seq<string> := [];
    var index := 0;
    assert Prepend(res, TokensFrom(glob, 0)) == TokensFrom(glob, 0) by {
      if TokensFrom(glob, 0).Success? {
        assert [] + TokensFrom(glob, 0).value == TokensFrom(glob, 0).value;
      }
    }
    while index < |glob|
      invariant index <= |glob|
      invariant TokensFrom(glob, 0) == Prepend(res, TokensFrom(glob, index))
      decreases |glob| - index
    {
      if glob[index] == '[' {
        var from := index;
        index := index + 1;
        while At(glob, index) != Some(']')
          invariant from < index <= |glob|
          invariant FindClose(glob, from + 1) == FindClose(glob, index)
          decreases |glob| - index
        {
          if index >= |glob| {
            return Failure(MissingRightBracket);
          }
          index := index + 1;
        }
        index := index + 1;
        PrependPrepend(res, [glob[from..index]], TokensFrom(glob, index));
        res := res + [glob[from..index]];
      } else {
        PrependPrepend(res, [[glob[index]]], TokensFrom(glob, index + 1));
        res := res + [[glob[index]]];
        index := index + 1;
      }
    }
    assert TokensFrom(glob, index) == Success([]);
    assert res + [] == res;
    r := Success(res);
  }

  /** A `[` with no `]` anywhere after it. */
  ghost predicate Unclosed(glob: string, i: nat)
    requires i < |glob|
  {
    glob[i] == '[' && forall m :: i < m < |glob| ==> glob[m] != ']'
  }

  /** `tokenize` throws exactly when some `[` has no `]` after it. */
  lemma {:induction false} TokenizeFailsIff(glob: string, i: nat)
    ensures TokensFrom(glob, i).Failure? <==> exists j :: i <= j < |glob| && Unclosed(glob, j)
    decreases |glob| - i
  {
    if i < |glob| {
      if glob[i] == '[' {
        match FindClose(glob, i + 1)
        case None =>
          assert Unclosed(glob, i);
        case Some(e) =>
          TokenizeFailsIff(glob, e + 1);
          forall j | i <= j <= e
            ensures !Unclosed(glob, j)
          {
            if j < e {
              assert glob[e] == ']';
            }
          }
      } else {
        TokenizeFailsIff(glob, i + 1);
        assert !Unclosed(glob, i);
      }
    }
  }

  /** A token is one character other than `[`, or a bracket group: `[`, no `]`, then `]`. */
  ghost predicate TokenShape(tok: string) {
    (|tok| == 1 && tok[0] != '[') ||
    (|tok| >= 2 && tok[0] == '[' && tok[|tok| - 1] == ']' && forall m :: 1 <= m < |tok| - 1 ==> tok[m] != ']')
  }

  /** One token off the front: the token is `glob[i..e + 1]` and has the shape of a token. */
  lemma TokenAt(glob: string, i: nat) returns (e: nat)
    requires i < |glob|
    requires TokensFrom(glob, i).Success?
    ensures i <= e < |glob| && TokensFrom(glob, e + 1).Success?
    ensures TokensFrom(glob, i).value == [glob[i..e + 1]] + TokensFrom(glob, e + 1).value
    ensures TokenShape(glob[i..e + 1])
  {
    if glob[i] == '[' {
      e := FindClose(glob, i + 1).value;
    } else {
      e := i;
      assert glob[i..e + 1] == [glob[i]];
    }
  }

  /** The tokens, laid end to end, give back the glob; each has the shape of a token. */
  lemma {:induction false} TokensCoverGlob(glob: string, i: nat)
    requires i <= |glob|
    requires TokensFrom(glob, i).Success?
    ensures Concat(TokensFrom(glob, i).value) == glob[i..]
    ensures forall k :: 0 <= k < |TokensFrom(glob, i).value| ==> TokenShape(TokensFrom(glob, i).value[k])
    decreases |glob| - i
  {
    if i < |glob| {
      var e := TokenAt(glob, i);
      var tok := glob[i..e + 1];
      TokensCoverGlob(glob, e + 1);
      var rest := TokensFrom(glob, e + 1).value;
      ConcatPrepend(tok, rest);
      assert glob[i..] == tok + glob[e + 1..];
      forall k | 0 <= k < |TokensFrom(glob, i).value|
        ensures TokenShape(TokensFrom(glob, i).value[k])
      {
        if k > 0 {
          assert TokensFrom(glob, i).value[k] == rest[k - 1];
        }
      }
    }
  }

  lemma {:induction false} ConcatPrepend<T>(x: seq<T>, gs: seq<seq<T>>)
    ensures Concat([x] + gs) == x + Concat(gs)
    decreases |gs|
  {
    if gs == [] {
      assert [x] + gs == [x];
      assert Concat([x]) == Concat([x][..0]) + x;
    } else {
      var n := |gs| - 1;
      assert ([x] + gs)[..|gs|] == [x] + gs[..n];
      ConcatPrepend(x, gs[..n]);
    }
  }

  // ---------------------------------------------------------------------
  // charSelector

  /** One alternative of a bracket group. */
  datatype CharTest = Literal(c: char) | Range(lo: char, hi: char)

  /** The alternatives of the bracket body from `i`: `x-y` with three characters left is a range, anything else a literal. */
  function ClassItems(body: string, i: nat): seq<CharTest>
    decreases |body| - i
  {
    if i >= |body| then []
    else if |body| > i + 2 && body[i + 1] == '-' then [Range(body[i], body[i + 2])] + ClassItems(body, i + 3)
    else [Literal(body[i])] + ClassItems(body, i + 1)
  }

  /** The loop of `charSelector`, with its `range` helper advancing the shared index by three. */
  method CharSelector(pattern: string) returns (allowed: seq<CharTest>)
    ensures allowed == ClassItems(pattern, 0)
  {
    allowed := [];
    var index := 0;
    while index < |pattern|
      invariant ClassItems(pattern, 0) == allowed + ClassItems(pattern, index)
      decreases |pattern| - index
    {
      if |pattern| > index + 2 && pattern[index + 1] == '-' {
        assert ClassItems(pattern, index) == [Range(pattern[index], pattern[index + 2])] + ClassItems(pattern, index + 3);
        assert allowed + ClassItems(pattern, index) == allowed + [Range(pattern[index], pattern[index + 2])] + ClassItems(pattern, index + 3);
        var from := pattern[index];
        index := index + 2;
        var to := pattern[index];
        allowed := allowed + [Range(from, to)];
        index := index + 1;
      } else {
        assert ClassItems(pattern, index) == [Literal(pattern[index])] + ClassItems(pattern, index + 1);
        assert allowed + ClassItems(pattern, index) == allowed + [Literal(pattern[index])] + ClassItems(pattern, index + 1);
        var p := pattern[index];
        index := index + 1;
        allowed := allowed + [Literal(p)];
      }
    }
    assert allowed + [] == allowed;
  }

  /**
   * Whether one alternative admits the character: equality for a literal,
   * inclusive code order for a range. At the end of the segment (`None`) a
   * range answers false here; the source reads `undefined.charCodeAt` and
   * throws, see `RangeProbeAsWritten`.
   */
  predicate Covers(test: CharTest, ch: Option<char>) {
    match test
    case Literal(c) => ch == Some(c)
    case Range(lo, hi) => ch.Some? && lo <= ch.value <= hi
  }

  /** `allowed.some(fnc => fnc(ch))`. */
  function SomeCovers(allowed: seq<CharTest>, ch: Option<char>): (r: bool)
    ensures r <==> exists k :: 0 <= k < |allowed| && Covers(allowed[k], ch)
  {
    if allowed == [] then false else Covers(allowed[0], ch) || SomeCovers(allowed[1..], ch)
  }

  /** The step `charSelector` returns. */
  function ClassStep(allowed: seq<CharTest>): Step<char> {
    ch => if SomeCovers(allowed, ch) then Ok else Fail
  }

  /** Whether a range is among the alternatives. */
  predicate HasRange(allowed: seq<CharTest>) {
    exists k :: 0 <= k < |allowed| && allowed[k].Range?
  }

  /**
   * The step of `charSelector` as written: at the end of the segment a
   * literal answers false and a range reads `undefined.charCodeAt`, so the
   * `some` throws as soon as it reaches a range.
   */
  function RangeProbeAsWritten(allowed: seq<CharTest>): Option<char> -> Outcome {
    (ch: Option<char>) => if ch.None? && HasRange(allowed) then Threw else Returned(ClassStep(allowed)(ch))
  }

  /** Without `-`, a bracket body is a set of literal characters. */
  lemma {:induction false} LiteralClass(body: string, i: nat, c: char)
    requires i <= |body|
    requires forall m :: 0 <= m < |body| ==> body[m] != '-'
    ensures SomeCovers(ClassItems(body, i), Some(c)) <==> c in body[i..]
    decreases |body| - i
  {
    if i < |body| {
      LiteralClass(body, i + 1, c);
      assert body[i..] == [body[i]] + body[i + 1..];
      var items := ClassItems(body, i);
      assert items == [Literal(body[i])] + ClassItems(body, i + 1);
      assert items[1..] == ClassItems(body, i + 1);
    }
  }

  /** `x-y` alone is the inclusive range from `x` to `y`. */
  lemma RangeClass(x: char, y: char, c: char)
    ensures SomeCovers(ClassItems([x, '-', y], 0), Some(c)) <==> x <= c <= y
  {
    assert ClassItems([x, '-', y], 3) == [];
    assert ClassItems([x, '-', y], 0) == [Range(x, y)];
  }

  /** A `-` right before the end is a literal: `x-` admits `x` and `-`. */
  lemma TrailingDashIsLiteral(x: char, c: char)
    ensures SomeCovers(ClassItems([x, '-'], 0), Some(c)) <==> c == x || c == '-'
  {
    assert ClassItems([x, '-'], 2) == [];
    assert ClassItems([x, '-'], 1) == [Literal('-')];
    assert ClassItems([x, '-'], 0) == [Literal(x), Literal('-')];
  }

  /** Alternatives that follow one another are joined by OR: a range, then the rest of the body. */
  lemma RangeThenRest(body: string, c: char)
    requires |body| > 2 && body[1] == '-'
    ensures SomeCovers(ClassItems(body, 0), Some(c)) <==> (body[0] <= c <= body[2]) || SomeCovers(ClassItems(body, 3), Some(c))
  {
    var items := ClassItems(body, 0);
    assert items == [Range(body[0], body[2])] + ClassItems(body, 3);
    assert items[1..] == ClassItems(body, 3);
  }

  /** An empty bracket body, `[]`, admits nothing. */
  lemma EmptyClassAdmitsNothing(ch: Option<char>)
    ensures ClassStep(ClassItems([], 0))(ch) == Fail
  {
  }

  // ---------------------------------------------------------------------
  // GlobCompiler

  /** `p.slice(1, -1)`: the token without its first and last character. */
  function Inner(p: string): string
  {
    if |p| >= 2 then p[1..|p| - 1] else ""
  }

  /** The step of one segment token. */
  function TokenStep(p: string): Step<char> {
    if p == "*" then AnyConsumeMatcher()
    else if p == "?" then (ch: Option<char>) => if ch.Some? then Ok else Fail
    else if |p| > 0 && p[0] == '[' then ClassStep(ClassItems(Inner(p), 0))
    else (ch: Option<char>) => if ch.Some? && [ch.value] == p then Ok else Fail
  }

  function TokenSteps(tokens: seq<string>): seq<Step<char>>
  {
    seq(|tokens|, k requires 0 <= k < |tokens| => TokenStep(tokens[k]))
  }

  /**
   * The step of a segment: OK when the token steps match the characters of
   * the target, under the version's own `match`. The bundled `match` tries
   * no group at all for an empty segment, so there it never answers OK. At
   * the end of the target (`None`) the answer here is FAIL; the source reads
   * `undefined.split` and throws, see `SegmentProbeAsWritten`.
   */
  function SegmentStep(v: Version, patterns: seq<Step<char>>): Step<string> {
    (target: Option<string>) =>
      if target.None? then Fail
      else if v.Dist? && |patterns| == 0 then Fail
      else if Matches(patterns, target.value) then Ok
      else Fail
  }

  /** The step of a segment as written: `target.split` on `undefined` throws. */
  function SegmentProbeAsWritten(v: Version, patterns: seq<Step<char>>): Option<string> -> Outcome {
    (target: Option<string>) => if target.None? then Threw else Returned(SegmentStep(v, patterns)(target))
  }

  /** `GlobCompiler.acceptString`. */
  function GlobAcceptString(v: Version, str: string): Result<Step<string>, Error> {
    if str == "**" then Success(AnyConsumeMatcher())
    else
      var tokens := TokensFrom(str, 0);
      if tokens.Failure? then Failure(tokens.error)
      else Success(SegmentStep(v, TokenSteps(tokens.value)))
  }

  /** `new GlobCompiler()`: `CompilerBase` with `acceptString` overridden. */
  function GlobCompiler(v: Version): Compiler<string> {
    Compiler(BaseAcceptRegexp, (str: string) => GlobAcceptString(v, str))
  }

  // ---------------------------------------------------------------------
  // glob

  /** `str.split(sep)`: the pieces between separators, empty ones included. */
  function Split(s: string, sep: char): (parts: seq<string>)
    ensures |parts| > 0
    decreases |s|
  {
    if s == [] then [""]
    else
      var rest := Split(s[1..], sep);
      if s[0] == sep then [""] + rest else [[s[0]] + rest[0]] + rest[1..]
  }

  /** `parts.join(sep)`. */
  function Join(parts: seq<string>, sep: char): string
    decreases |parts|
  {
    if parts == [] then ""
    else if |parts| == 1 then parts[0]
    else parts[0] + [sep] + Join(parts[1..], sep)
  }

  lemma {:induction false} SplitJoin(s: string, sep: char)
    ensures Join(Split(s, sep), sep) == s
    ensures forall k :: 0 <= k < |Split(s, sep)| ==> sep !in Split(s, sep)[k]
    decreases |s|
  {
    if s != [] {
      SplitJoin(s[1..], sep);
      var rest := Split(s[1..], sep);
      if s[0] == sep {
        assert ([""] + rest)[1..] == rest;
      } else {
        var parts := [[s[0]] + rest[0]] + rest[1..];
        if |rest| > 1 {
          assert parts[1..] == rest[1..];
          assert Join(rest, sep) == rest[0] + [sep] + Join(rest[1..], sep);
        }
        assert s == [s[0]] + s[1..];
      }
    }
  }

  /** Joining, with the first character of the first piece taken off the front. */
  lemma JoinFront(parts: seq<string>, sep: char)
    requires |parts| > 0 && |parts[0]| > 0
    ensures Join(parts, sep) == [parts[0][0]] + Join([parts[0][1..]] + parts[1..], sep)
  {
    var first := parts[0];
    var shorter := [first[1..]] + parts[1..];
    assert shorter[0] == first[1..] && shorter[1..] == parts[1..];
    assert first == [first[0]] + first[1..];
    if |parts| > 1 {
      assert Join(shorter, sep) == first[1..] + [sep] + Join(parts[1..], sep);
    }
  }

  lemma {:induction false} JoinSplit(parts: seq<string>, sep: char)
    requires |parts| > 0
    requires forall k :: 0 <= k < |parts| ==> sep !in parts[k]
    ensures Split(Join(parts, sep), sep) == parts
    decreases |parts|, |parts[0]|
  {
    var first := parts[0];
    if first == [] {
      if |parts| > 1 {
        var tail := parts[1..];
        JoinSplit(tail, sep);
        assert Join(parts, sep) == [sep] + Join(tail, sep);
        assert ([sep] + Join(tail, sep))[1..] == Join(tail, sep);
        assert parts == [""] + tail;
      }
    } else {
      var shorter := [first[1..]] + parts[1..];
      assert shorter[0] == first[1..] && shorter[1..] == parts[1..];
      assert sep !in first[1..] by {
        assert forall m :: 0 <= m < |first[1..]| ==> first[1..][m] == first[m + 1];
      }
      JoinSplit(shorter, sep);
      JoinFront(parts, sep);
      var s := Join(parts, sep);
      assert s[0] == first[0] && s[1..] == Join(shorter, sep);
      assert first[0] != sep;
      assert Split(s, sep) == [[first[0]] + shorter[0]] + shorter[1..];
      assert [first[0]] + first[1..] == first;
      assert parts == [first] + parts[1..];
    }
  }

  /** What `glob` accepts: a path string, or an array of patterns. */
  datatype GlobInput = Path(path: string) | Patterns(specs: seq<Spec<string>>)

  /** `glob`: a path is split at `/`, one string pattern per segment, and compiled with the glob compiler. */
  function GlobSpecs(input: GlobInput): (r: seq<Spec<string>>)
    ensures input.Path? ==> |r| == |Split(input.path, '/')|
    ensures input.Path? ==> forall k :: 0 <= k < |r| ==> r[k] == Str(Split(input.path, '/')[k])
    ensures input.Path? ==> Join(Split(input.path, '/'), '/') == input.path
  {
    match input
    case Path(path) =>
      SplitJoin(path, '/');
      StrSpecs(Split(path, '/'))
    case Patterns(specs) => specs
  }

  /** `glob` of `src/glob.js`: the compiled steps (the matcher is `Matches(steps, _)`). */
  function GlobSteps(input: GlobInput): Result<seq<Step<string>>, Error> {
    Compile(GlobCompiler(Src), GlobSpecs(input))
  }

  /** `glob` of the bundle: the bundle's compiler and `compile` (the matcher is `MatchesSomeGroup(entries, _)`). */
  function GlobEntries(input: GlobInput): Result<seq<Entry<string>>, Error> {
    CompileEntries(GlobCompiler(Dist), GlobSpecs(input))
  }

  /** Whether `glob(input)` compiles in the given copy. */
  predicate GlobCompiles(v: Version, input: GlobInput) {
    if v.Src? then GlobSteps(input).Success? else GlobEntries(input).Success?
  }

  /** What the matcher `glob(input)` answers on `t` in the given copy. */
  ghost predicate GlobMatches(v: Version, input: GlobInput, t: seq<string>)
    requires GlobCompiles(v, input)
  {
    if v.Src? then Matches(GlobSteps(input).value, t) else MatchesSomeGroup(GlobEntries(input).value, t)
  }

  /**
   * A path holds no `MATCH_OR_SYMBOL`, so the bundle's `glob` on a path is
   * the bundle's segment steps under the one-group `match`: compiling
   * succeeds together, and the answers agree.
   */
  lemma DistPathGlob(p: string, t: seq<string>)
    ensures GlobEntries(Path(p)).Success? <==> Compile(GlobCompiler(Dist), GlobSpecs(Path(p))).Success?
    ensures GlobEntries(Path(p)).Success? ==>
      (MatchesSomeGroup(GlobEntries(Path(p)).value, t) <==> Matches(Compile(GlobCompiler(Dist), GlobSpecs(Path(p))).value, t))
  {
    CompileEntriesNoMarker(GlobCompiler(Dist), GlobSpecs(Path(p)));
    if GlobEntries(Path(p)).Success? {
      assert |Split(p, '/')| >= 1;
      SameWithoutMarkers(GlobCompiler(Dist), GlobSpecs(Path(p)), t);
    }
  }

  // ---------------------------------------------------------------------
  // What globs match.

  /** A segment without `*`, `?` or `[` is tokenized character by character. */
  lemma {:induction false} PlainTokens(seg: string, i: nat)
    requires i <= |seg|
    requires forall m :: 0 <= m < |seg| ==> seg[m] != '['
    ensures TokensFrom(seg, i).Success?
    ensures |TokensFrom(seg, i).value| == |seg| - i
    ensures forall k :: 0 <= k < |seg| - i ==> TokensFrom(seg, i).value[k] == [seg[i + k]]
    decreases |seg| - i
  {
    if i < |seg| {
      PlainTokens(seg, i + 1);
    }
  }

  /** Plain characters are the only characters a segment without wildcards has. */
  predicate PlainSegment(seg: string) {
    forall m :: 0 <= m < |seg| ==> seg[m] != '*' && seg[m] != '?' && seg[m] != '['
  }

  /** A plain character is a step that consumes exactly one element, the character itself. */
  lemma PlainToken(c: char)
    requires c != '*' && c != '?' && c != '['
    ensures ConsumesExactlyOne(TokenStep([c]))
    ensures forall x :: Truthy(TokenStep([c])(Some(x))) <==> x == c
  {
    assert [c] != "*" && [c] != "?";
    assert forall x: char :: [x] == [c] ==> x == c;
  }

  /** The token steps of a plain segment: one per character, each admitting that character only. */
  lemma PlainStepsEach(seg: string, k: nat)
    requires PlainSegment(seg) && k < |seg|
    ensures TokensFrom(seg, 0).Success?
    ensures |TokenSteps(TokensFrom(seg, 0).value)| == |seg|
    ensures ConsumesExactlyOne(TokenSteps(TokensFrom(seg, 0).value)[k])
    ensures forall c :: Truthy(TokenSteps(TokensFrom(seg, 0).value)[k](Some(c))) <==> c == seg[k]
  {
    PlainTokens(seg, 0);
    assert TokensFrom(seg, 0).value[k] == [seg[k]];
    PlainToken(seg[k]);
  }

  /** The token steps of a plain segment match exactly the segment itself. */
  lemma PlainSteps(seg: string, x: string)
    requires PlainSegment(seg)
    ensures TokensFrom(seg, 0).Success?
    ensures Matches(TokenSteps(TokensFrom(seg, 0).value), x) <==> x == seg
  {
    PlainTokens(seg, 0);
    var p := TokenSteps(TokensFrom(seg, 0).value);
    assert |p| == |seg|;
    forall k | 0 <= k < |p|
      ensures ConsumesExactlyOne(p[k])
      ensures forall c :: Truthy(p[k](Some(c))) <==> c == seg[k]
    {
      PlainStepsEach(seg, k);
    }
    ExactPattern(p, 0, x, 0);
    assert Matches(p, x) <==> |p| == |x| && forall k :: 0 <= k < |p| ==> Truthy(p[k](Some(x[k])));
  }

  /** A segment without wildcards matches exactly the equal string (the bundled version also needs it non-empty). */
  lemma PlainSegmentMatchesItself(v: Version, seg: string, target: Option<string>)
    requires PlainSegment(seg)
    requires v.Dist? ==> |seg| > 0
    ensures GlobAcceptString(v, seg).Success?
    ensures GlobAcceptString(v, seg).value(target) == (if target == Some(seg) then Ok else Fail)
  {
    assert seg != "**" by {
      assert |seg| > 0 ==> seg[0] != '*';
    }
    if target.Some? {
      PlainSteps(seg, target.value);
    } else {
      PlainTokens(seg, 0);
    }
  }

  /** A segment's characters are its steps' input: OK exactly when the nested match consumes the whole segment. */
  lemma SegmentIsNestedMatch(str: string, s: string)
    requires str != "**" && TokensFrom(str, 0).Success?
    ensures GlobAcceptString(Src, str).Success?
    ensures Truthy(GlobAcceptString(Src, str).value(Some(s))) <==> Matches(TokenSteps(TokensFrom(str, 0).value), s)
  {
  }

  /** In the bundled version a segment step is the bundled `match` over the segment's characters. */
  lemma DistSegmentIsDistMatch(str: string, s: string)
    requires str != "**" && TokensFrom(str, 0).Success?
    ensures GlobAcceptString(Dist, str).Success?
    ensures Truthy(GlobAcceptString(Dist, str).value(Some(s))) <==>
      MatchesSomeGroup(StepEntries(TokenSteps(TokensFrom(str, 0).value)), s)
  {
    var p := TokenSteps(TokensFrom(str, 0).value);
    StepEntriesSteps(p);
    if |p| == 0 {
      OnlyMarkersNoGroups(StepEntries(p));
    } else {
      NoMarkerAsBefore(StepEntries(p), s);
    }
  }

  /** The steps as pattern entries without markers. */
  function StepEntries<T>(p: seq<Step<T>>): (r: seq<Entry<T>>)
    ensures |r| == |p|
    ensures forall k :: 0 <= k < |p| ==> r[k] == StepEntry(p[k])
  {
    seq(|p|, k requires 0 <= k < |p| => StepEntry(p[k]))
  }

  lemma StepEntriesSteps<T>(p: seq<Step<T>>)
    ensures NoMarker(StepEntries(p)) && Steps(StepEntries(p)) == p
  {
    StepsUnwrap(StepEntries(p), p);
  }

  /** The empty segment: `[]` of tokens, so it matches only the empty string in `src`, and nothing in the bundle. */
  lemma EmptySegment(v: Version, s: string)
    ensures GlobAcceptString(v, "").Success?
    ensures Truthy(GlobAcceptString(v, "").value(Some(s))) <==> (v.Src? && s == "")
  {
    ExhaustedPattern<char>([], s, 0);
  }

  /** `**` is `ANY_CONSUME` whatever it meets. */
  lemma DoubleStarIsAnyConsume(v: Version, target: Option<string>)
    ensures GlobAcceptString(v, "**").Success?
    ensures GlobAcceptString(v, "**").value(target) == AnyConsume
  {
  }

  /** Inside a segment `*` is `ANY_CONSUME`, `?` is OK on any character and FAIL at the end, other characters match themselves. */
  lemma TokenKinds(c: char, ch: Option<char>)
    ensures TokenStep("*")(ch) == AnyConsume
    ensures TokenStep("?")(ch) == (if ch.Some? then Ok else Fail)
    ensures c != '*' && c != '?' && c != '[' ==> TokenStep([c])(ch) == (if ch == Some(c) then Ok else Fail)
  {
    if c != '*' && c != '?' && c != '[' {
      assert [c] != "*" && [c] != "?";
      if ch.Some? {
        assert [ch.value] == [c] ==> ch.value == c;
      }
    }
  }

  /** Glob segments consume exactly one path element each, besides `**`. */
  lemma SegmentConsumesOne(v: Version, str: string)
    requires str != "**" && TokensFrom(str, 0).Success?
    ensures GlobAcceptString(v, str).Success?
    ensures ConsumesExactlyOne(GlobAcceptString(v, str).value)
  {
  }

  /** The token steps of `*` and then plain characters: `ANY_CONSUME`, then one step per character admitting only it. */
  lemma StarThenPlainSteps(suffix: string)
    requires |suffix| > 0 && PlainSegment(suffix)
    ensures "*" + suffix != "**" && TokensFrom("*" + suffix, 0).Success?
    ensures |TokenSteps(TokensFrom("*" + suffix, 0).value)| == |suffix| + 1
    ensures forall o :: TokenSteps(TokensFrom("*" + suffix, 0).value)[0](o) == AnyConsume
    ensures forall k :: 1 <= k <= |suffix| ==> ConsumesExactlyOne(TokenSteps(TokensFrom("*" + suffix, 0).value)[k])
    ensures forall k, c :: 1 <= k <= |suffix| ==>
      (Truthy(TokenSteps(TokensFrom("*" + suffix, 0).value)[k](Some(c))) <==> c == suffix[k - 1])
  {
    var seg := "*" + suffix;
    assert forall m :: 1 <= m < |seg| ==> seg[m] == suffix[m - 1];
    PlainTokens(seg, 0);
    assert seg != "**" by {
      assert seg[1] == suffix[0];
    }
    var toks := TokensFrom(seg, 0).value;
    var p := TokenSteps(toks);
    forall o: Option<char>
      ensures p[0](o) == AnyConsume
    {
      assert toks[0] == "*";
      TokenKinds('*', o);
    }
    forall k | 1 <= k <= |suffix|
      ensures ConsumesExactlyOne(p[k])
      ensures forall c :: Truthy(p[k](Some(c))) <==> c == suffix[k - 1]
    {
      assert toks[k] == [suffix[k - 1]];
      PlainToken(suffix[k - 1]);
    }
  }

  /** A segment `*` followed by plain characters, such as `*cond`: OK exactly on the strings ending with those characters. */
  lemma StarThenPlain(v: Version, suffix: string, s: string)
    requires |suffix| > 0 && PlainSegment(suffix)
    ensures GlobAcceptString(v, "*" + suffix).Success?
    ensures Truthy(GlobAcceptString(v, "*" + suffix).value(Some(s))) <==>
      |s| >= |suffix| && s[|s| - |suffix|..] == suffix
  {
    StarThenPlainSteps(suffix);
    var p := TokenSteps(TokensFrom("*" + suffix, 0).value);
    AnyThenExact(p, s);
    if |s| >= |suffix| {
      var tail := s[|s| - |suffix|..];
      if forall k :: 1 <= k < |p| ==> Truthy(p[k](Some(s[|s| - |p| + k]))) {
        forall j | 0 <= j < |suffix|
          ensures tail[j] == suffix[j]
        {
          assert Truthy(p[j + 1](Some(s[|s| - |p| + j + 1])));
        }
        assert tail == suffix;
      }
      if tail == suffix {
        forall k | 1 <= k < |p|
          ensures Truthy(p[k](Some(s[|s| - |p| + k])))
        {
          assert s[|s| - |p| + k] == tail[k - 1];
        }
      }
    }
  }

  /** A step that admits exactly one given value. */
  ghost predicate Admits<T(!new)>(step: Step<T>, x: T) {
    forall o :: step(o) == (if o == Some(x) then Ok else Fail)
  }

  /** Three steps `x`, `ANY_CONSUME`, `y` match the arrays that start with `x`, end with `y` and have at least two elements. */
  lemma {:induction false} ThreeSteps<T(!new)>(p: seq<Step<T>>, x: T, y: T, t: seq<T>)
    requires |p| == 3 && Admits(p[0], x) && Admits(p[2], y)
    requires forall o :: p[1](o) == AnyConsume
    ensures Matches(p, t) <==> |t| >= 2 && t[0] == x && t[|t| - 1] == y
  {
    if |t| == 0 || t[0] != x {
      FailAborts(p, 0, t, 0);
    } else {
      ConsumeOneStep(p, 0, t, 0);
      AnyConsumeStep(p, 1, t, 1);
      forall m | 1 <= m < |t|
        ensures MatchFrom(p, 2, t, m) <==> m == |t| - 1 && t[m] == y
      {
        if t[m] == y {
          ConsumeOneStep(p, 2, t, m);
          ExhaustedPattern(p, t, m + 1);
        } else {
          FailAborts(p, 2, t, m);
        }
      }
      if |t| >= 2 && t[|t| - 1] == y {
        assert MatchFrom(p, 2, t, |t| - 1);
      }
    }
  }

  /** The segment steps of `x/**/y` under the sources' `match`. */
  lemma DoubleStarSteps(v: Version, x: string, y: string, t: seq<string>)
    requires PlainSegment(x) && PlainSegment(y) && '/' !in x && '/' !in y
    requires v.Dist? ==> |x| > 0 && |y| > 0
    ensures Compile(GlobCompiler(v), GlobSpecs(Path(Join([x, "**", y], '/')))).Success?
    ensures Matches(Compile(GlobCompiler(v), GlobSpecs(Path(Join([x, "**", y], '/')))).value, t) <==>
      |t| >= 2 && t[0] == x && t[|t| - 1] == y
  {
    var parts := [x, "**", y];
    JoinSplit(parts, '/');
    var specs := GlobSpecs(Path(Join(parts, '/')));
    assert specs == [Str(x), Str("**"), Str(y)];
    var c := GlobCompiler(v);
    PlainSegmentMatchesItself(v, x, None);
    PlainSegmentMatchesItself(v, y, None);
    forall o: Option<string>
      ensures GlobAcceptString(v, x).Success? && GlobAcceptString(v, x).value(o) == (if o == Some(x) then Ok else Fail)
      ensures GlobAcceptString(v, y).Success? && GlobAcceptString(v, y).value(o) == (if o == Some(y) then Ok else Fail)
    {
      PlainSegmentMatchesItself(v, x, o);
      PlainSegmentMatchesItself(v, y, o);
    }
    assert c.acceptString(x) == GlobAcceptString(v, x);
    assert c.acceptString(y) == GlobAcceptString(v, y);
    assert c.acceptString("**") == GlobAcceptString(v, "**");
    assert Accept(c, specs[0]) == GlobAcceptString(v, x);
    assert Accept(c, specs[2]) == GlobAcceptString(v, y);
    assert Accept(c, specs[1]) == Success(AnyConsumeMatcher());
    forall k | 0 <= k < |specs|
      ensures Accept(c, specs[k]).Success?
    {
      if k == 0 {
        assert specs[k] == specs[0];
      } else if k == 1 {
        assert specs[k] == specs[1];
      } else {
        assert specs[k] == specs[2];
      }
    }
    var p := Compile(c, specs).value;
    assert p[0] == GlobAcceptString(v, x).value;
    assert p[2] == GlobAcceptString(v, y).value;
    assert p[1] == AnyConsumeMatcher();
    ThreeSteps(p, x, y, t);
  }

  /** `x/**/y`, for plain segments `x` and `y`: the paths from `x` to `y` through any number of segments, in both copies. */
  lemma DoubleStarPath(v: Version, x: string, y: string, t: seq<string>)
    requires PlainSegment(x) && PlainSegment(y) && '/' !in x && '/' !in y
    requires v.Dist? ==> |x| > 0 && |y| > 0
    ensures GlobCompiles(v, Path(Join([x, "**", y], '/')))
    ensures GlobMatches(v, Path(Join([x, "**", y], '/')), t) <==> |t| >= 2 && t[0] == x && t[|t| - 1] == y
  {
    DoubleStarSteps(v, x, y, t);
    DistPathGlob(Join([x, "**", y], '/'), t);
  }

  /** `x/y`, for plain segments `x` and `y`: the two segment steps. */
  lemma TwoPlainSegments(v: Version, x: string, y: string)
    requires PlainSegment(x) && PlainSegment(y) && '/' !in x && '/' !in y
    requires v.Dist? ==> |x| > 0 && |y| > 0
    ensures GlobAcceptString(v, x).Success? && GlobAcceptString(v, y).Success?
    ensures v.Src? ==> GlobSteps(Path(Join([x, y], '/'))) == Success([GlobAcceptString(v, x).value, GlobAcceptString(v, y).value])
    ensures v.Dist? ==>
      GlobEntries(Path(Join([x, y], '/'))) == Success([StepEntry(GlobAcceptString(v, x).value), StepEntry(GlobAcceptString(v, y).value)])
  {
    var parts := [x, y];
    JoinSplit(parts, '/');
    var specs := GlobSpecs(Path(Join(parts, '/')));
    assert specs == [Str(x), Str(y)];
    var c := GlobCompiler(v);
    PlainSegmentMatchesItself(v, x, None);
    PlainSegmentMatchesItself(v, y, None);
    assert Accept(c, specs[0]) == GlobAcceptString(v, x);
    assert Accept(c, specs[1]) == GlobAcceptString(v, y);
    if v.Src? {
      var r := Compile(c, specs);
      assert r.Success?;
      assert r.value == [GlobAcceptString(v, x).value, GlobAcceptString(v, y).value];
    } else {
      assert AcceptEntry(c, specs[0]) == Success(StepEntry(GlobAcceptString(v, x).value));
      assert AcceptEntry(c, specs[1]) == Success(StepEntry(GlobAcceptString(v, y).value));
      var r := CompileEntries(c, specs);
      assert r.Success?;
      assert r.value == [StepEntry(GlobAcceptString(v, x).value), StepEntry(GlobAcceptString(v, y).value)];
    }
  }

  /** A plain segment on its own matches exactly the one-element path of that segment. */
  lemma OnePlainSegment(v: Version, x: string, t: seq<string>)
    requires PlainSegment(x)
    requires v.Dist? ==> |x| > 0
    ensures GlobAcceptString(v, x).Success?
    ensures Matches([GlobAcceptString(v, x).value], t) <==> t == [x]
  {
    PlainSegmentMatchesItself(v, x, At(t, 0));
    var p := [GlobAcceptString(v, x).value];
    if t == [] || t[0] != x {
      FailAborts(p, 0, t, 0);
    } else {
      ConsumeOneStep(p, 0, t, 0);
      ExhaustedPattern(p, t, 1);
    }
  }

  /** The entries of `[x, MATCH_OR_SYMBOL, y]` in the bundle: two segment steps around the marker. */
  lemma OrEntries(x: string, y: string)
    requires PlainSegment(x) && PlainSegment(y) && |x| > 0 && |y| > 0
    ensures GlobAcceptString(Dist, x).Success? && GlobAcceptString(Dist, y).Success?
    ensures GlobEntries(Patterns([Str(x), OrSymbol, Str(y)])) ==
      Success([StepEntry(GlobAcceptString(Dist, x).value)] + [OrMarker] + [StepEntry(GlobAcceptString(Dist, y).value)])
  {
    PlainSegmentMatchesItself(Dist, x, None);
    PlainSegmentMatchesItself(Dist, y, None);
    var c := GlobCompiler(Dist);
    var specs := [Str(x), OrSymbol, Str(y)];
    assert AcceptEntry(c, specs[0]) == Success(StepEntry(GlobAcceptString(Dist, x).value));
    assert AcceptEntry(c, specs[1]) == Success(OrMarker);
    assert AcceptEntry(c, specs[2]) == Success(StepEntry(GlobAcceptString(Dist, y).value));
    assert GlobSpecs(Patterns(specs)) == specs;
    var r := CompileEntries(c, specs);
    assert r.Success? && |r.value| == 3;
    assert r.value == [StepEntry(GlobAcceptString(Dist, x).value)] + [OrMarker] + [StepEntry(GlobAcceptString(Dist, y).value)];
  }

  /** In the sources `MATCH_OR_SYMBOL` is a pattern of no supported kind. */
  lemma OrThrowsInSrc(x: string, y: string)
    requires PlainSegment(x)
    ensures GlobSteps(Patterns([Str(x), OrSymbol, Str(y)])) == Failure(UnsupportedPattern)
  {
    PlainSegmentMatchesItself(Src, x, None);
    var c := GlobCompiler(Src);
    var specs := [Str(x), OrSymbol, Str(y)];
    assert Accept(c, specs[0]).Success?;
    assert specs[1..] == [OrSymbol, Str(y)];
    assert AcceptAll(c, specs[1..]) == Failure(UnsupportedPattern);
  }

  /**
   * `glob([x, MATCH_OR_SYMBOL, y])`: the sources throw on the symbol, the
   * bundle compiles it and matches the path `[x]` or the path `[y]`.
   */
  lemma OrOfSegments(x: string, y: string, t: seq<string>)
    requires PlainSegment(x) && PlainSegment(y) && |x| > 0 && |y| > 0
    ensures GlobSteps(Patterns([Str(x), OrSymbol, Str(y)])) == Failure(UnsupportedPattern)
    ensures GlobEntries(Patterns([Str(x), OrSymbol, Str(y)])).Success?
    ensures MatchesSomeGroup(GlobEntries(Patterns([Str(x), OrSymbol, Str(y)])).value, t) <==> t == [x] || t == [y]
  {
    OrThrowsInSrc(x, y);
    OrEntries(x, y);
    var a := [StepEntry(GlobAcceptString(Dist, x).value)];
    var b := [StepEntry(GlobAcceptString(Dist, y).value)];
    assert Steps(a) == [GlobAcceptString(Dist, x).value];
    assert Steps(b) == [GlobAcceptString(Dist, y).value];
    MarkerIsOr(a, b, t);
    NoMarkerAsBefore(a, t);
    NoMarkerAsBefore(b, t);
    OnePlainSegment(Dist, x, t);
    OnePlainSegment(Dist, y, t);
  }

  /**
   * `x/y` against the one-segment path `[x]`: after `x` the match asks the
   * step of `y` about the element after the last, `undefined`; as written
   * that step throws. With the step answering FAIL there, the path is
   * rejected.
   */
  lemma SegmentReadsPastEnd(v: Version, x: string, y: string)
    requires PlainSegment(x) && PlainSegment(y) && '/' !in x && '/' !in y
    requires v.Dist? ==> |x| > 0 && |y| > 0
    ensures GlobAcceptString(v, x).Success? && GlobAcceptString(v, y).Success?
    ensures var p := [GlobAcceptString(v, x).value, GlobAcceptString(v, y).value];
      Matches(p, [x]) == MatchFrom(p, 1, [x], 1) && At([x], 1) == None
    ensures TokensFrom(y, 0).Success? && SegmentProbeAsWritten(v, TokenSteps(TokensFrom(y, 0).value))(At([x], 1)) == Threw
    ensures GlobCompiles(v, Path(Join([x, y], '/'))) && !GlobMatches(v, Path(Join([x, y], '/')), [x])
  {
    TwoPlainSegments(v, x, y);
    PlainPairRejectsOne(v, x, y);
    var p := [GlobAcceptString(v, x).value, GlobAcceptString(v, y).value];
    StepEntriesPair(p[0], p[1]);
    GlobMatchesSteps(v, Path(Join([x, y], '/')), p, [x]);
  }

  lemma StepEntriesPair<T>(a: Step<T>, b: Step<T>)
    ensures StepEntries([a, b]) == [StepEntry(a), StepEntry(b)]
  {
  }

  /** Once `glob(input)` is known to compile to the steps `p`, as steps in src and as marker-free entries in the bundle, it matches as `p` does. */
  lemma GlobMatchesSteps(v: Version, input: GlobInput, p: seq<Step<string>>, t: seq<string>)
    requires |p| > 0
    requires v.Src? ==> GlobSteps(input) == Success(p)
    requires v.Dist? ==> GlobEntries(input) == Success(StepEntries(p))
    ensures GlobCompiles(v, input)
    ensures GlobMatches(v, input, t) <==> Matches(p, t)
  {
    if v.Dist? {
      StepEntriesSteps(p);
      NoMarkerAsBefore(StepEntries(p), t);
    }
  }

  /** The two segment steps of `x/y` on `[x]`: `x` consumes the element, then the `y` step meets `undefined`. */
  lemma PlainPairRejectsOne(v: Version, x: string, y: string)
    requires PlainSegment(x) && PlainSegment(y)
    requires v.Dist? ==> |x| > 0 && |y| > 0
    ensures GlobAcceptString(v, x).Success? && GlobAcceptString(v, y).Success?
    ensures var p := [GlobAcceptString(v, x).value, GlobAcceptString(v, y).value];
      Matches(p, [x]) == MatchFrom(p, 1, [x], 1) && At([x], 1) == None && !Matches(p, [x])
    ensures TokensFrom(y, 0).Success? && SegmentProbeAsWritten(v, TokenSteps(TokensFrom(y, 0).value))(At([x], 1)) == Threw
  {
    PlainTokens(y, 0);
    var t := [x];
    PlainSegmentMatchesItself(v, x, Some(x));
    PlainSegmentMatchesItself(v, y, None);
    var p := [GlobAcceptString(v, x).value, GlobAcceptString(v, y).value];
    assert p[0](At(t, 0)) == Ok;
    ConsumeOneStep(p, 0, t, 0);
    assert p[1](At(t, 1)) == Fail;
    FailAborts(p, 1, t, 1);
  }

  /**
   * The segment `[x-y]` against the empty segment: the match asks the range
   * about `undefined`; as written the range throws. With the range
   * answering false there, the empty segment is rejected.
   */
  lemma RangeReadsPastEnd(x: char, y: char)
    requires x != ']' && y != ']'
    ensures TokensFrom(['[', x, '-', y, ']'], 0) == Success([['[', x, '-', y, ']']])
    ensures var p := TokenSteps([['[', x, '-', y, ']']]);
      Matches(p, "") == MatchFrom(p, 0, "", 0) && At("", 0) == None
    ensures RangeProbeAsWritten(ClassItems([x, '-', y], 0))(At("", 0)) == Threw
    ensures !Matches(TokenSteps([['[', x, '-', y, ']']]), "")
  {
    var g := ['[', x, '-', y, ']'];
    assert FindClose(g, 4) == Some(4);
    assert FindClose(g, 1) == Some(4);
    assert g[0..5] == g;
    assert TokensFrom(g, 5) == Success([]);
    assert [g] + [] == [g];
    var p := TokenSteps([g]);
    assert Inner(g) == [x, '-', y];
    assert ClassItems([x, '-', y], 0) == [Range(x, y)];
    assert HasRange(ClassItems([x, '-', y], 0)) by {
      assert ClassItems([x, '-', y], 0)[0].Range?;
    }
    assert g != "*" && g != "?";
    assert p[0](At("", 0)) == Fail;
    FailAborts(p, 0, "", 0);
  }
}
