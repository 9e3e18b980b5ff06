/**
 * `CompilerBase` of src/matcher.mjs and the `MATCH_OR_SYMBOL` pass-through of
 * its bundled copy (dist/array-matcher.mjs). A pattern spec is one of a closed
 * set of kinds; `Accept` dispatches on the kind, and the two hooks that front
 * ends override (`acceptRegexp`, `acceptString`) are fields of a `Compiler` record.
 */
module Compiler {
  import opened Wrappers
  import opened Engine
  import opened Alternation

  /** Everything the model's compilers and parsers can throw; the messages themselves are not modelled. */
  datatype Error =
    | UnsupportedPattern     // `accept` on a value of no supported kind
    | MissingRightBracket    // a glob `[` without a closing `]`
    | InvalidCharacter       // a selector character of type UNKNOWN
    | UnterminatedLiteral    // a selector quote without its partner
    | EmptySelector          // a selector that is empty or all white space
    | SelectorExpected       // the parser needed a selector
    | SeparatorExpected      // the parser needed a separator or the end

  /** Which copy of the library: the sources under `src/`, or the later bundle `dist/array-matcher.mjs`. */
  datatype Version = Src | Dist

  /** A JavaScript regular expression, kept opaque: only what `test` answers on a value. */
  datatype Regex = Regex(test: Option<string> -> bool)

  /** A pattern as handed to `accept`, by the kind `accept` tests for. */
  datatype Spec<!T> =
    | Regexp(regex: Regex)               // `instanceof RegExp`
    | Alternatives(items: seq<Spec<T>>)  // `Array.isArray`
    | Str(str: string)                   // typeof 'string'
    | Func(step: Step<T>)                // typeof 'function'
    | Bool(b: bool)                      // typeof 'boolean'
    | OrSymbol                           // `MATCH_OR_SYMBOL`, typeof 'symbol'
    | Other                              // a number, an object, undefined, ...

  /** The overridable hooks of a compiler; the other `accept*` methods are shared by every compiler. */
  datatype Compiler<!T> = Compiler(
    acceptRegexp: Regex -> Step<T>,
    acceptString: string -> Result<Step<T>, Error>)

  /** `acceptRegexp` of `CompilerBase`: OK when the regex accepts the target. */
  function BaseAcceptRegexp(regex: Regex): Step<string> {
    target => if regex.test(target) then Ok else Fail
  }

  /** `acceptString` of `CompilerBase`: strict equality with the string. */
  function BaseAcceptString(str: string): Step<string> {
    target => if target == Some(str) then Ok else Fail
  }

  /** `new CompilerBase()`, for targets that are strings. */
  function Base(): Compiler<string> {
    Compiler(BaseAcceptRegexp, (str: string) => Success(BaseAcceptString(str)))
  }

  /** `acceptBoolean`: a constant step. */
  function AcceptBoolean<T>(b: bool): Step<T> {
    if b then _ => Ok else _ => Fail
  }

  /** `compiled.some(acceptor => acceptor(target))`: true when some step is truthy on the target. */
  function SomeTruthy<T>(compiled: seq<Step<T>>, target: Option<T>): (r: bool)
    ensures r <==> exists k :: 0 <= k < |compiled| && Truthy(compiled[k](target))
  {
    if compiled == [] then false
    else Truthy(compiled[0](target)) || SomeTruthy(compiled[1..], target)
  }

  /** The step `acceptArray` builds from the compiled alternatives: a plain boolean. */
  function AnyOf<T>(compiled: seq<Step<T>>): Step<T> {
    target => Plain(SomeTruthy(compiled, target))
  }

  /** `accept` of `src/matcher.mjs`: `MATCH_OR_SYMBOL`, a symbol, is of no supported kind there. */
  function Accept<T>(c: Compiler<T>, pattern: Spec<T>): Result<Step<T>, Error>
    decreases pattern, 1
  {
    match pattern
    case Regexp(regex) => Success(c.acceptRegexp(regex))
    case Alternatives(items) =>
      var compiled := AcceptAll(c, items);
      if compiled.Failure? then Failure(compiled.error) else Success(AnyOf(compiled.value))
    case Str(str) => c.acceptString(str)
    case Func(step) => Success(step)
    case Bool(b) => Success(AcceptBoolean(b))
    case OrSymbol => Failure(UnsupportedPattern)
    case Other => Failure(UnsupportedPattern)
  }

  /** `patterns.map(p => this.accept(p))`: every pattern compiled, or the first error thrown. */
  function AcceptAll<T>(c: Compiler<T>, patterns: seq<Spec<T>>): (r: Result<seq<Step<T>>, Error>)
    decreases patterns, 0
    ensures r.Success? <==> forall k :: 0 <= k < |patterns| ==> Accept(c, patterns[k]).Success?
    ensures r.Success? ==> |r.value| == |patterns|
    ensures r.Success? ==> forall k :: 0 <= k < |patterns| ==> r.value[k] == Accept(c, patterns[k]).value
  {
    if patterns == [] then Success([])
    else
      var head := Accept(c, patterns[0]);
      if head.Failure? then Failure(head.error)
      else
        var tail := AcceptAll(c, patterns[1..]);
        if tail.Failure? then Failure(tail.error)
        else
          assert forall k :: 1 <= k < |patterns| ==> patterns[k] == patterns[1..][k - 1];
          Success([head.value] + tail.value)
  }

  /** `compile` of `src/matcher.mjs`: the compiled steps; the matcher it returns is `targets => Matches(steps, targets)`. */
  function Compile<T>(c: Compiler<T>, patterns: seq<Spec<T>>): Result<seq<Step<T>>, Error> {
    AcceptAll(c, patterns)
  }

  /** `accept` of the bundled version: `MATCH_OR_SYMBOL` comes back unchanged, as a marker. */
  function AcceptEntry<T>(c: Compiler<T>, pattern: Spec<T>): Result<Entry<T>, Error>
  {
    if pattern.OrSymbol? then Success(OrMarker)
    else
      var step := Accept(c, pattern);
      if step.Failure? then Failure(step.error) else Success(StepEntry(step.value))
  }

  /** `compile` of the bundled version: the compiled entries; the matcher is `targets => MatchesSomeGroup(entries, targets)`. */
  function CompileEntries<T>(c: Compiler<T>, patterns: seq<Spec<T>>): (r: Result<seq<Entry<T>>, Error>)
    ensures r.Success? <==> forall k :: 0 <= k < |patterns| ==> AcceptEntry(c, patterns[k]).Success?
    ensures r.Success? ==> |r.value| == |patterns|
    ensures r.Success? ==> forall k :: 0 <= k < |patterns| ==> r.value[k] == AcceptEntry(c, patterns[k]).value
  {
    if patterns == [] then Success([])
    else
      var head := AcceptEntry(c, patterns[0]);
      if head.Failure? then Failure(head.error)
      else
        var tail := CompileEntries(c, patterns[1..]);
        if tail.Failure? then Failure(tail.error)
        else
          assert forall k :: 1 <= k < |patterns| ==> patterns[k] == patterns[1..][k - 1];
          Success([head.value] + tail.value)
  }

  // ---------------------------------------------------------------------
  // What each kind compiles to.

  /** A string compiles, under `CompilerBase`, to a step that is OK on that string and FAIL on anything else. */
  lemma StringIsStrictEquality(str: string, target: Option<string>)
    ensures Accept(Base(), Str(str)).Success?
    ensures Accept(Base(), Str(str)).value(target) == (if target == Some(str) then Ok else Fail)
  {
  }

  /** A regex compiles, under `CompilerBase`, to a step that is OK exactly when the regex accepts. */
  lemma RegexIsTest(regex: Regex, target: Option<string>)
    ensures Accept(Base(), Regexp(regex)).Success?
    ensures Accept(Base(), Regexp(regex)).value(target) == (if regex.test(target) then Ok else Fail)
  {
  }

  /** A boolean compiles to a constant step, whatever the target. */
  lemma BooleanIsConstant<T>(c: Compiler<T>, b: bool, target: Option<T>)
    ensures Accept(c, Bool(b)).Success?
    ensures Accept(c, Bool(b)).value(target) == (if b then Ok else Fail)
  {
  }

  /** A function is used as the step itself. */
  lemma FunctionIsVerbatim<T>(c: Compiler<T>, f: Step<T>)
    ensures Accept(c, Func(f)) == Success(f)
  {
  }

  /** A value of no supported kind throws; so does `MATCH_OR_SYMBOL` in `src/matcher.mjs`, while the bundled `accept` passes it through. */
  lemma UnsupportedThrows<T>(c: Compiler<T>)
    ensures Accept(c, Other).Failure?
    ensures Accept(c, OrSymbol).Failure?
    ensures AcceptEntry(c, OrSymbol) == Success(OrMarker)
  {
  }

  /**
   * An array compiles when every alternative does, to a step whose answer is
   * a plain boolean (so it always consumes one element), truthy exactly when
   * some alternative is truthy on the same element.
   */
  lemma ArrayIsSomeAlternative<T>(c: Compiler<T>, items: seq<Spec<T>>, target: Option<T>)
    ensures Accept(c, Alternatives(items)).Success? <==> forall k :: 0 <= k < |items| ==> Accept(c, items[k]).Success?
    ensures Accept(c, Alternatives(items)).Success? ==>
      var r := Accept(c, Alternatives(items)).value(target);
      r.Plain? && (Truthy(r) <==> exists k :: 0 <= k < |items| && Truthy(Accept(c, items[k]).value(target)))
  {
    var compiled := AcceptAll(c, items);
    if compiled.Success? {
      var r := Accept(c, Alternatives(items)).value(target);
      assert r == Plain(SomeTruthy(compiled.value, target));
      if Truthy(r) {
        var k :| 0 <= k < |compiled.value| && Truthy(compiled.value[k](target));
        assert Truthy(Accept(c, items[k]).value(target));
      }
      if exists k :: 0 <= k < |items| && Truthy(Accept(c, items[k]).value(target)) {
        var k :| 0 <= k < |items| && Truthy(Accept(c, items[k]).value(target));
        assert Truthy(compiled.value[k](target));
      }
    }
  }

  /** The empty array compiles to a step that fails on everything. */
  lemma EmptyArrayFails<T>(c: Compiler<T>, target: Option<T>)
    ensures Accept(c, Alternatives([])).Success?
    ensures Accept(c, Alternatives([])).value(target) == Fail
  {
  }

  // ---------------------------------------------------------------------
  // What compiled patterns match.

  /** Steps of `CompilerBase` strings consume exactly one element each. */
  lemma StringsConsumeOne(strs: seq<string>, k: nat)
    requires k < |strs|
    ensures Accept(Base(), Str(strs[k])).Success?
    ensures ConsumesExactlyOne(Accept(Base(), Str(strs[k])).value)
  {
  }

  /** The strings as pattern specs. */
  function StrSpecs(strs: seq<string>): (r: seq<Spec<string>>)
    ensures |r| == |strs|
    ensures forall k :: 0 <= k < |strs| ==> r[k] == Str(strs[k])
  {
    if strs == [] then [] else [Str(strs[0])] + StrSpecs(strs[1..])
  }

  /** A pattern made only of strings matches exactly the array of those strings. */
  lemma StringsMatchExactly(strs: seq<string>, t: seq<string>)
    ensures Compile(Base(), StrSpecs(strs)).Success?
    ensures Matches(Compile(Base(), StrSpecs(strs)).value, t) <==> t == strs
  {
    var specs := StrSpecs(strs);
    var p := Compile(Base(), specs).value;
    forall k | 0 <= k < |p|
      ensures ConsumesExactlyOne(p[k])
    {
      StringsConsumeOne(strs, k);
    }
    ExactPattern(p, 0, t, 0);
    if Matches(p, t) {
      assert |t| == |strs|;
      forall k | 0 <= k < |t|
        ensures t[k] == strs[k]
      {
        assert Truthy(p[k](Some(t[k])));
      }
    }
  }

  /** `compile([true])` accepts `[]` as well as any one element, and nothing longer. */
  lemma TrueAcceptsEmpty<T>(c: Compiler<T>, t: seq<T>)
    ensures Compile(c, [Bool(true)]).Success?
    ensures Matches(Compile(c, [Bool(true)]).value, t) <==> |t| <= 1
  {
    var p := Compile(c, [Bool(true)]).value;
    assert p[0](At(t, 0)) == Ok;
    ConsumeOneStep(p, 0, t, 0);
    ExhaustedPattern(p, t, Next(t, 0));
  }

  /** Without markers, the bundled `compile` gives the same steps, one entry per pattern. */
  lemma CompileEntriesNoMarker<T>(c: Compiler<T>, patterns: seq<Spec<T>>)
    requires forall k :: 0 <= k < |patterns| ==> !patterns[k].OrSymbol?
    ensures CompileEntries(c, patterns).Success? <==> Compile(c, patterns).Success?
    ensures CompileEntries(c, patterns).Success? ==>
      NoMarker(CompileEntries(c, patterns).value) &&
      Steps(CompileEntries(c, patterns).value) == Compile(c, patterns).value
  {
    var es := CompileEntries(c, patterns);
    if es.Success? {
      StepsUnwrap(es.value, Compile(c, patterns).value);
    }
  }

  lemma {:induction false} StepsUnwrap<T>(es: seq<Entry<T>>, steps: seq<Step<T>>)
    requires |es| == |steps|
    requires forall k :: 0 <= k < |es| ==> es[k] == StepEntry(steps[k])
    ensures NoMarker(es) && Steps(es) == steps
    decreases |es|
  {
    if es != [] {
      var n := |es| - 1;
      StepsUnwrap(es[..n], steps[..n]);
      assert steps == steps[..n] + [steps[n]];
    }
  }

  /** A non-empty marker-free pattern means the same under both versions. */
  lemma SameWithoutMarkers<T>(c: Compiler<T>, patterns: seq<Spec<T>>, t: seq<T>)
    requires |patterns| > 0
    requires forall k :: 0 <= k < |patterns| ==> !patterns[k].OrSymbol?
    requires Compile(c, patterns).Success?
    ensures CompileEntries(c, patterns).Success?
    ensures MatchesSomeGroup(CompileEntries(c, patterns).value, t) <==> Matches(Compile(c, patterns).value, t)
  {
    CompileEntriesNoMarker(c, patterns);
    NoMarkerAsBefore(CompileEntries(c, patterns).value, t);
  }
}
