/**
 * The query-selector front end of src/querySelector.mjs and the comma of its
 * bundled copy (dist/array-matcher.mjs): the recursive-descent `QueryParser`
 * over a cursor of tokens, `ObjectCompiler`, and `querySelector`.
 *
 * The parser pushes closures on its result stack; the model pushes `Sel`
 * values instead, one constructor per kind of closure, and `Denote` gives
 * each its step. The parse is specified by functions over token positions
 * (`SelectorAt`, `SeparatorAt`, `ParseSpec`), and the class's methods are
 * proved to do what those functions say.
 */
module Query {
  import opened Wrappers
  import opened Cursor
  import opened Engine
  import opened Alternation
  import opened Compiler
  import opened QueryTokens

  // ---------------------------------------------------------------------
  // Target objects and what the parser builds

  /** `obj.classList`: missing or falsy, an array of names, an object with `contains`, or anything else. */
  datatype ClassList = NoList | Names(names: seq<string>) | Contains(contains: Option<string> -> bool) | OtherList

  /** An element of the target array; a missing `tagName` or `id` is `None`. */
  datatype Obj = Obj(tagName: Option<string>, id: Option<string>, classList: ClassList)

  /** What the parser pushes on its result stack. */
  datatype Sel =
    | AnyConsumeSel                 // `ANY_CONSUME_MATCHER`
    | IdSel(key: Option<string>)      // `obj => obj.id === key ? OK : FAIL`
    | ClassSel(key: Option<string>)   // the class-list lookup of `classSelector`
    | NameSel(tag: string)            // `obj => obj.tagName === key ? OK : FAIL`
    | WildSel                         // `() => OK`
    | AndSel(pre: Sel, post: Sel)     // `obj => pre(obj) && post(obj)`
    | OrMarkerSel                     // `MATCH_OR_SYMBOL`, pushed by `commaSeparator`

  /** The class-list lookup: an array holds the key, or `contains` says yes; any other list fails. */
  predicate HasClass(list: ClassList, key: Option<string>) {
    match list
    case NoList => false
    case Names(names) => key.Some? && key.value in names
    case Contains(contains) => contains(key)
    case OtherList => false
  }

  /**
   * The step each pushed closure is. At the end of the target (`None`) the
   * closures that read a property answer FAIL; the source reads a property of
   * `undefined` and throws, see `NameProbeAsWritten`.
   */
  function Denote(s: Sel): Step<Obj> {
    match s
    case AnyConsumeSel => AnyConsumeMatcher()
    case IdSel(key) => (o: Option<Obj>) => if o.Some? && o.value.id == key then Ok else Fail
    case ClassSel(key) => (o: Option<Obj>) => if o.Some? && HasClass(o.value.classList, key) then Ok else Fail
    case NameSel(tag) => (o: Option<Obj>) => if o.Some? && o.value.tagName == Some(tag) then Ok else Fail
    case WildSel => _ => Ok
    case AndSel(pre, post) =>
      var first, second := Denote(pre), Denote(post);
      (o: Option<Obj>) => var a := first(o); if Truthy(a) then second(o) else a
    case OrMarkerSel => _ => Fail
  }

  /** The `obj.tagName === key` closure as written: on `undefined` it throws. */
  function NameProbeAsWritten(tag: string): Option<Obj> -> Outcome {
    (o: Option<Obj>) => if o.None? then Threw else Returned(if o.value.tagName == Some(tag) then Ok else Fail)
  }

  // ---------------------------------------------------------------------
  // The parse, as functions over token positions

  /** `idSelector`: `#` and the token after it (`undefined` at the end) as the key. */
  function IdAt(toks: seq<string>, i: nat): Option<(Sel, nat)>
    requires i <= |toks|
  {
    if At(toks, i) == Some("#") then Some((IdSel(At(toks, i + 1)), Next(toks, i + 1))) else None
  }

  /** `classSelector`: `.` and the token after it as the key. */
  function ClassAt(toks: seq<string>, i: nat): Option<(Sel, nat)>
    requires i <= |toks|
  {
    if At(toks, i) == Some(".") then Some((ClassSel(At(toks, i + 1)), Next(toks, i + 1))) else None
  }

  /** `nameSelector`: a token is a tag name when it is present, non-empty and starts with a word character. */
  function NameAt(v: Version, toks: seq<string>, i: nat): Option<(Sel, nat)>
    requires i <= |toks|
  {
    if i < |toks| && |toks[i]| > 0 && GetCharType(v, Some(toks[i][0])) == WordChar then Some((NameSel(toks[i]), i + 1)) else None
  }

  /** `wildcard`: the token `*`. */
  function WildAt(toks: seq<string>, i: nat): Option<(Sel, nat)>
    requires i <= |toks|
  {
    if At(toks, i) == Some("*") then Some((WildSel, i + 1)) else None
  }

  /** The first of `idSelector || classSelector || nameSelector || wildcard` that applies. */
  function SimpleAt(v: Version, toks: seq<string>, i: nat): (r: Option<(Sel, nat)>)
    requires i <= |toks|
    ensures r.Some? ==> i < r.value.1 <= |toks|
    ensures r.None? <==> IdAt(toks, i).None? && ClassAt(toks, i).None? && NameAt(v, toks, i).None? && WildAt(toks, i).None?
  {
    if IdAt(toks, i).Some? then IdAt(toks, i)
    else if ClassAt(toks, i).Some? then ClassAt(toks, i)
    else if NameAt(v, toks, i).Some? then NameAt(v, toks, i)
    else WildAt(toks, i)
  }

  /**
   * `selector`: a simple selector, then `filter` for as long as it succeeds.
   * The simple selectors that follow are combined first; the result is the
   * AND of the combination and the first one.
   */
  function SelectorAt(v: Version, toks: seq<string>, i: nat): (r: Option<(Sel, nat)>)
    requires i <= |toks|
    ensures r.Some? <==> SimpleAt(v, toks, i).Some?
    ensures r.Some? ==> i < r.value.1 <= |toks|
    decreases |toks| - i
  {
    match SimpleAt(v, toks, i)
    case None => None
    case Some((s, j)) =>
      match SelectorAt(v, toks, j)
      case None => Some((s, j))
      case Some((c, k)) => Some((AndSel(c, s), k))
  }

  /** The simple selectors of the compound at `i`, in order. */
  function CompoundParts(v: Version, toks: seq<string>, i: nat): seq<Sel>
    requires i <= |toks|
    decreases |toks| - i
  {
    match SimpleAt(v, toks, i)
    case None => []
    case Some((s, j)) => [s] + CompoundParts(v, toks, j)
  }

  /** What a separator method did: whether it applied, what it pushed, and where the cursor is now. */
  datatype Move = Move(ok: bool, pushed: seq<Sel>, next: nat)

  /**
   * `space`: a white-space token pushes `ANY_CONSUME_MATCHER`. In the bundle,
   * a white-space token before `,` is consumed and `space` still fails.
   */
  function SpaceAt(v: Version, toks: seq<string>, i: nat): (m: Move)
    requires i < |toks|
    ensures i <= m.next <= |toks|
  {
    if TokenType(v, At(toks, i)) != WhiteSpace then Move(false, [], i)
    else if v.Dist? && At(toks, i + 1) == Some(",") then Move(false, [], i + 1)
    else Move(true, [AnyConsumeSel], i + 1)
  }

  /** `childSeparator`: `>` is consumed and pushes nothing. */
  function ChildAt(toks: seq<string>, i: nat): (m: Move)
    requires i <= |toks|
    ensures i <= m.next <= |toks|
  {
    if At(toks, i) == Some(">") then Move(true, [], i + 1) else Move(false, [], i)
  }

  /** `commaSeparator` of the bundle: `,` pushes `MATCH_OR_SYMBOL` and one white-space token after it is skipped. */
  function CommaAt(v: Version, toks: seq<string>, i: nat): (m: Move)
    requires i <= |toks|
    ensures i <= m.next <= |toks|
  {
    if At(toks, i) != Some(",") then Move(false, [], i)
    else
      var j := i + 1;
      Move(true, [OrMarkerSel], if TokenType(v, At(toks, j)) == WhiteSpace then Next(toks, j) else j)
  }

  /** `separator`: `space() || childSeparator()`, and `|| commaSeparator()` in the bundle. */
  function SeparatorAt(v: Version, toks: seq<string>, i: nat): (m: Move)
    requires i < |toks|
    ensures i <= m.next <= |toks|
    ensures m.ok ==> i < m.next
  {
    var s := SpaceAt(v, toks, i);
    if s.ok then s
    else
      var c := ChildAt(toks, s.next);
      if c.ok || v.Src? then c else CommaAt(v, toks, c.next)
  }

  /** The loop of `parse` from token `i`: a separator, then a selector, until the tokens run out. */
  function ParseLoop(v: Version, toks: seq<string>, i: nat): Result<seq<Sel>, Error>
    requires i <= |toks|
    decreases |toks| - i
  {
    if i == |toks| then Success([])
    else
      var m := SeparatorAt(v, toks, i);
      if !m.ok then Failure(SeparatorExpected)
      else
        match SelectorAt(v, toks, m.next)
        case None => Failure(SelectorExpected)
        case Some((s, k)) => Prepend(m.pushed + [s], ParseLoop(v, toks, k))
  }

  /** `new QueryParser(...).parse()` on the tokens: `ANY_CONSUME_MATCHER`, a selector, then the loop. */
  function ParseSpec(v: Version, toks: seq<string>): Result<seq<Sel>, Error> {
    match SelectorAt(v, toks, 0)
    case None => Failure(SelectorExpected)
    case Some((s, k)) => Prepend([AnyConsumeSel, s], ParseLoop(v, toks, k))
  }

  /** A query string: tokenized, then parsed. */
  function QuerySpec(v: Version, query: string): Result<seq<Sel>, Error> {
    var toks := TokenizeSpec(v, query);
    if toks.Failure? then Failure(toks.error) else ParseSpec(v, toks.value)
  }

  // ---------------------------------------------------------------------
  // The parser object

  class QueryParser {
    /** Which copy of the parser this is. */
    const v: Version
    const tokens: LinkedList<string>
    var result: seq<Sel>

    ghost predicate Valid()
      reads this, tokens
    {
      tokens.Valid()
    }

    /**
     * A simple-selector method did what `r` says: applied exactly when `r`
     * is present, and then pushed its selector and moved the cursor past it;
     * otherwise left everything as it was.
     */
    ghost predicate Took(r: Option<(Sel, nat)>, b: bool, pos0: nat, result0: seq<Sel>)
      reads this, tokens
    {
      b == r.Some? &&
      (b ==> result == result0 + [r.value.0] && tokens.pos == r.value.1) &&
      (!b ==> result == result0 && tokens.pos == pos0)
    }

    /** A separator method did what `m` says. */
    ghost predicate Moved(m: Move, b: bool, result0: seq<Sel>)
      reads this, tokens
    {
      b == m.ok && tokens.pos == m.next && result == result0 + m.pushed
    }

    /** The state `new QueryParser(input)` leaves once `tokenize` has run: the cursor on the first token, and `ANY_CONSUME_MATCHER` pushed. */
    constructor (v: Version, toks: seq<string>)
      ensures Valid() && fresh(tokens)
      ensures this.v == v && tokens.items == toks && tokens.pos == 0 && result == [AnyConsumeSel]
    {
      this.v := v;
      tokens := new LinkedList(toks, 0);
      result := [AnyConsumeSel];
    }

    method ClassSelector() returns (b: bool)
      requires Valid()
      modifies this, tokens
      ensures Valid()
      ensures Took(ClassAt(tokens.items, old(tokens.pos)), b, old(tokens.pos), old(result))
    {
      if tokens.Current() != Some(".") {
        return false;
      }
      var _ := tokens.Shift();
      var key := tokens.Shift();
      result := result + [ClassSel(key)];
      return true;
    }

    method IdSelector() returns (b: bool)
      requires Valid()
      modifies this, tokens
      ensures Valid()
      ensures Took(IdAt(tokens.items, old(tokens.pos)), b, old(tokens.pos), old(result))
    {
      if tokens.Current() != Some("#") {
        return false;
      }
      var _ := tokens.Shift();
      var key := tokens.Shift();
      result := result + [IdSel(key)];
      return true;
    }

    method NameSelector() returns (b: bool)
      requires Valid()
      modifies this, tokens
      ensures Valid()
      ensures Took(NameAt(v, tokens.items, old(tokens.pos)), b, old(tokens.pos), old(result))
    {
      var current := tokens.Current();
      if current.None? || |current.value| == 0 {
        return false;
      }
      if GetCharType(v, Some(current.value[0])) != WordChar {
        return false;
      }
      var key := tokens.Shift();
      result := result + [NameSel(key.value)];
      return true;
    }

    method Wildcard() returns (b: bool)
      requires Valid()
      modifies this, tokens
      ensures Valid()
      ensures Took(WildAt(tokens.items, old(tokens.pos)), b, old(tokens.pos), old(result))
    {
      if tokens.Current() != Some("*") {
        return false;
      }
      var _ := tokens.Shift();
      result := result + [WildSel];
      return true;
    }

    /** Called only while a token remains: the source reads the first character of the current token. */
    method Space() returns (b: bool)
      requires Valid() && tokens.HasValue()
      modifies this, tokens
      ensures Valid()
      ensures Moved(SpaceAt(v, tokens.items, old(tokens.pos)), b, old(result))
    {
      if TokenType(v, tokens.Current()) != WhiteSpace {
        return false;
      }
      var _ := tokens.Shift();
      if v.Dist? && tokens.Current() == Some(",") {
        return false;
      }
      result := result + [AnyConsumeSel];
      return true;
    }

    method ChildSeparator() returns (b: bool)
      requires Valid()
      modifies tokens
      ensures Valid()
      ensures Moved(ChildAt(tokens.items, old(tokens.pos)), b, result)
    {
      if tokens.Current() != Some(">") {
        return false;
      }
      var _ := tokens.Shift();
      return true;
    }

    /** Only the bundled parser has this method. */
    method CommaSeparator() returns (b: bool)
      requires Valid() && v.Dist?
      modifies this, tokens
      ensures Valid()
      ensures Moved(CommaAt(v, tokens.items, old(tokens.pos)), b, old(result))
    {
      if tokens.Current() != Some(",") {
        return false;
      }
      result := result + [OrMarkerSel];
      var _ := tokens.Shift();
      if TokenType(v, tokens.Current()) == WhiteSpace {
        var _ := tokens.Shift();
      }
      return true;
    }

    method Separator() returns (b: bool)
      requires Valid() && tokens.HasValue()
      modifies this, tokens
      ensures Valid()
      ensures Moved(SeparatorAt(v, tokens.items, old(tokens.pos)), b, old(result))
    {
      b := Space();
      if !b {
        b := ChildSeparator();
      }
      if !b && v.Dist? {
        b := CommaSeparator();
      }
    }

    /**
     * `selector`: one simple selector, then `filter` until it fails. The
     * second `filter` always fails, because the first one has taken every
     * simple selector there is (`SelectorEndsCompound`).
     */
    method Selector() returns (b: bool)
      requires Valid()
      modifies this, tokens
      decreases |tokens.items| - tokens.pos, 0
      ensures Valid()
      ensures Took(SelectorAt(v, tokens.items, old(tokens.pos)), b, old(tokens.pos), old(result))
    {
      ghost var pos0, result0 := tokens.pos, result;
      var ok := IdSelector();
      if !ok {
        ok := ClassSelector();
      }
      if !ok {
        ok := NameSelector();
      }
      if !ok {
        ok := Wildcard();
      }
      if !ok {
        return false;
      }
      ghost var s, j := SimpleAt(v, tokens.items, pos0).value.0, SimpleAt(v, tokens.items, pos0).value.1;
      ghost var whole := SelectorAt(v, tokens.items, pos0).value;
      SelectorEndsCompound(v, tokens.items, pos0);
      var more := true;
      ghost var filtered := false;
      while more
        invariant Valid()
        invariant !filtered ==> more && result == result0 + [s] && tokens.pos == j
        invariant filtered ==> result == result0 + [whole.0] && tokens.pos == whole.1
        invariant !more ==> filtered
        decreases (if more then 1 else 0) + (if filtered then 0 else 1)
      {
        more := Filter();
        if !filtered {
          assert (result0 + [s])[..|result0 + [s]| - 1] == result0;
        }
        filtered := true;
      }
      return true;
    }

    /** `filter`: a selector, whose step is then ANDed with the step pushed before it. */
    method Filter() returns (b: bool)
      requires Valid() && |result| > 0
      modifies this, tokens
      decreases |tokens.items| - tokens.pos, 1
      ensures Valid()
      ensures var sel := SelectorAt(v, tokens.items, old(tokens.pos));
        b == sel.Some? &&
        (b ==> result == old(result)[..|old(result)| - 1] + [AndSel(sel.value.0, old(result)[|old(result)| - 1])] &&
               tokens.pos == sel.value.1) &&
        (!b ==> result == old(result) && tokens.pos == old(tokens.pos))
    {
      var ok := Selector();
      if !ok {
        return false;
      }
      var pre := result[|result| - 1];
      result := result[..|result| - 1];
      var post := result[|result| - 1];
      result := result[..|result| - 1];
      result := result + [AndSel(pre, post)];
      return true;
    }

    /** `parse` on a fresh parser: the result stack, or the error thrown. */
    method Parse() returns (r: Result<seq<Sel>, Error>)
      requires Valid() && tokens.pos == 0 && result == [AnyConsumeSel]
      modifies this, tokens
      ensures r == ParseSpec(v, tokens.items)
    {
      var ok := Selector();
      if !ok {
        return Failure(SelectorExpected);
      }
      assert [AnyConsumeSel] + [result[1]] == [AnyConsumeSel, result[1]];
      while tokens.HasValue()
        invariant Valid()
        invariant ParseSpec(v, tokens.items) == Prepend(result, ParseLoop(v, tokens.items, tokens.pos))
        decreases |tokens.items| - tokens.pos
      {
        ghost var i, before := tokens.pos, result;
        ok := Separator();
        if !ok {
          return Failure(SeparatorExpected);
        }
        ghost var m := SeparatorAt(v, tokens.items, i);
        ok := Selector();
        if !ok {
          return Failure(SelectorExpected);
        }
        PrependPrepend(before, m.pushed + [result[|result| - 1]], ParseLoop(v, tokens.items, tokens.pos));
        assert before + (m.pushed + [result[|result| - 1]]) == result;
      }
      assert result + [] == result;
      r := Success(result);
    }
  }

  /** `new QueryParser(query).parse()`: tokenize, then parse. */
  method ParseQuery(v: Version, query: string) returns (r: Result<seq<Sel>, Error>)
    ensures r == QuerySpec(v, query)
  {
    var toks := Tokenize(v, query);
    if toks.Failure? {
      return Failure(toks.error);
    }
    var parser := new QueryParser(v, toks.value);
    r := parser.Parse();
  }

  // ---------------------------------------------------------------------
  // ObjectCompiler and querySelector

  /**
   * `ObjectCompiler`: strings and regular expressions are applied to
   * `obj.tagName`. At the end of the target the step answers FAIL; the source
   * reads `undefined.tagName` and throws.
   */
  function ObjectCompiler(): Compiler<Obj> {
    Compiler(
      (regex: Regex) => (o: Option<Obj>) => if o.None? then Fail else BaseAcceptRegexp(regex)(o.value.tagName),
      (str: string) => Success((o: Option<Obj>) => if o.None? then Fail else BaseAcceptString(str)(o.value.tagName)))
  }

  /** One element of the array `querySelector` accepts: a query string, or any other pattern. */
  datatype QueryItem = Query(query: string) | Pattern(spec: Spec<Obj>)

  /** What `querySelector` accepts: one query string, or an array. */
  datatype QueryInput = Text(text: string) | Items(items: seq<QueryItem>)

  function InputItems(input: QueryInput): seq<QueryItem> {
    match input
    case Text(text) => [Query(text)]
    case Items(items) => items
  }

  /** A pushed entry as a pattern: `MATCH_OR_SYMBOL` stays the symbol, every closure is a function. */
  function SelSpec(s: Sel): Spec<Obj> {
    if s.OrMarkerSel? then OrSymbol else Func(Denote(s))
  }

  function SelSpecs(sels: seq<Sel>): seq<Spec<Obj>>
  {
    seq(|sels|, k requires 0 <= k < |sels| => SelSpec(sels[k]))
  }

  /** The `reduce` of `querySelector`: each query string replaced by what it parses to, in order; the first error is thrown. */
  function ItemSpecs(v: Version, items: seq<QueryItem>): Result<seq<Spec<Obj>>, Error>
  {
    if items == [] then Success([])
    else
      match items[0]
      case Pattern(spec) => Prepend([spec], ItemSpecs(v, items[1..]))
      case Query(query) =>
        var parsed := QuerySpec(v, query);
        if parsed.Failure? then Failure(parsed.error) else Prepend(SelSpecs(parsed.value), ItemSpecs(v, items[1..]))
  }

  /** The patterns `querySelector` hands to `ObjectCompiler.compile`. */
  method QuerySpecs(v: Version, input: QueryInput) returns (r: Result<seq<Spec<Obj>>, Error>)
    ensures r == ItemSpecs(v, InputItems(input))
  {
    var items := InputItems(input);
    var arr: seq<Spec<Obj>> := [];
    assert Prepend(arr, ItemSpecs(v, items)) == ItemSpecs(v, items) by {
      if ItemSpecs(v, items).Success? {
        assert [] + ItemSpecs(v, items).value == ItemSpecs(v, items).value;
      }
    }
    for k := 0 to |items|
      invariant ItemSpecs(v, items) == Prepend(arr, ItemSpecs(v, items[k..]))
    {
      assert items[k..][1..] == items[k + 1..];
      match items[k] {
        case Pattern(spec) =>
          PrependPrepend(arr, [spec], ItemSpecs(v, items[k + 1..]));
          arr := arr + [spec];
        case Query(query) =>
          var parsed := ParseQuery(v, query);
          if parsed.Failure? {
            return Failure(parsed.error);
          }
          PrependPrepend(arr, SelSpecs(parsed.value), ItemSpecs(v, items[k + 1..]));
          arr := arr + SelSpecs(parsed.value);
      }
    }
    assert items[|items|..] == [];
    assert arr + [] == arr;
    r := Success(arr);
  }

  /** `querySelector` of `src/querySelector.mjs`: the compiled steps; the matcher is `Matches(steps, _)`. */
  function QuerySteps(input: QueryInput): Result<seq<Step<Obj>>, Error> {
    var specs := ItemSpecs(Src, InputItems(input));
    if specs.Failure? then Failure(specs.error) else Compile(ObjectCompiler(), specs.value)
  }

  /** `querySelector` of the bundle: the compiled entries; the matcher is `MatchesSomeGroup(entries, _)`. */
  function QueryEntries(input: QueryInput): Result<seq<Entry<Obj>>, Error> {
    var specs := ItemSpecs(Dist, InputItems(input));
    if specs.Failure? then Failure(specs.error) else CompileEntries(ObjectCompiler(), specs.value)
  }

  // ---------------------------------------------------------------------
  // Lemmas: the parse

  /** After a selector no simple selector follows: `filter` took them all. */
  lemma {:induction false} SelectorEndsCompound(v: Version, toks: seq<string>, i: nat)
    requires i <= |toks|
    ensures SelectorAt(v, toks, i).Some? ==> SelectorAt(v, toks, SelectorAt(v, toks, i).value.1).None?
    decreases |toks| - i
  {
    if SimpleAt(v, toks, i).Some? {
      var j := SimpleAt(v, toks, i).value.1;
      SelectorEndsCompound(v, toks, j);
    }
  }

  /** Every selector of `parts` is truthy on the element. */
  ghost predicate AllHold(parts: seq<Sel>, o: Option<Obj>) {
    forall k :: 0 <= k < |parts| ==> Truthy(Denote(parts[k])(o))
  }

  lemma AllHoldCons(s: Sel, rest: seq<Sel>, o: Option<Obj>)
    ensures AllHold([s] + rest, o) <==> Truthy(Denote(s)(o)) && AllHold(rest, o)
  {
    var parts := [s] + rest;
    assert parts[0] == s;
    assert forall k :: 0 <= k < |rest| ==> rest[k] == parts[k + 1];
  }

  /** `pre(obj) && post(obj)` on two steps that answer OK or FAIL: OK exactly when both are. */
  lemma AndStep(c: Sel, s: Sel, o: Option<Obj>)
    requires Denote(c)(o) == Ok || Denote(c)(o) == Fail
    requires Denote(s)(o) == Ok || Denote(s)(o) == Fail
    ensures Denote(AndSel(c, s))(o) == (if Truthy(Denote(c)(o)) && Truthy(Denote(s)(o)) then Ok else Fail)
  {
  }

  /** A simple selector answers OK or FAIL. */
  lemma SimpleIsOkOrFail(v: Version, toks: seq<string>, i: nat, o: Option<Obj>)
    requires i <= |toks| && SimpleAt(v, toks, i).Some?
    ensures Denote(SimpleAt(v, toks, i).value.0)(o) == Ok || Denote(SimpleAt(v, toks, i).value.0)(o) == Fail
  {
  }

  /**
   * A compound selector is one step, the AND of its simple selectors: OK
   * exactly when every part is truthy on the element, and FAIL otherwise.
   */
  lemma {:induction false} CompoundIsAnd(v: Version, toks: seq<string>, i: nat, o: Option<Obj>)
    requires i <= |toks|
    ensures SelectorAt(v, toks, i).Some? <==> |CompoundParts(v, toks, i)| > 0
    ensures SelectorAt(v, toks, i).Some? ==>
      Denote(SelectorAt(v, toks, i).value.0)(o) == (if AllHold(CompoundParts(v, toks, i), o) then Ok else Fail)
    decreases |toks| - i
  {
    if SimpleAt(v, toks, i).Some? {
      var (s, j) := SimpleAt(v, toks, i).value;
      var rest := CompoundParts(v, toks, j);
      assert CompoundParts(v, toks, i) == [s] + rest;
      CompoundIsAnd(v, toks, j, o);
      SimpleIsOkOrFail(v, toks, i, o);
      AllHoldCons(s, rest, o);
      if SelectorAt(v, toks, j).Some? {
        var c := SelectorAt(v, toks, j).value.0;
        assert SelectorAt(v, toks, i).value.0 == AndSel(c, s);
        AndStep(c, s, o);
      } else {
        assert rest == [];
        assert SelectorAt(v, toks, i).value.0 == s;
      }
    }
  }

  /** Every pushed step but the first is preceded by the result's leading `ANY_CONSUME_MATCHER`. */
  lemma ParseStartsWithAny(v: Version, toks: seq<string>)
    ensures ParseSpec(v, toks).Success? ==> |ParseSpec(v, toks).value| >= 2 && ParseSpec(v, toks).value[0] == AnyConsumeSel
  {
  }

  /** The separators: a blank pushes `ANY_CONSUME_MATCHER`, `>` pushes nothing, and in the bundle `,` pushes the OR marker, with or without a blank before it. */
  lemma Separators(v: Version, toks: seq<string>, i: nat)
    requires i < |toks|
    ensures TokenType(v, Some(toks[i])) == WhiteSpace && !(v.Dist? && At(toks, i + 1) == Some(",")) ==>
      SeparatorAt(v, toks, i) == Move(true, [AnyConsumeSel], i + 1)
    ensures toks[i] == ">" ==> SeparatorAt(v, toks, i) == Move(true, [], i + 1)
    ensures v.Dist? && toks[i] == "," ==> SeparatorAt(v, toks, i).ok && SeparatorAt(v, toks, i).pushed == [OrMarkerSel]
    ensures v.Dist? && TokenType(v, Some(toks[i])) == WhiteSpace && At(toks, i + 1) == Some(",") ==>
      SeparatorAt(v, toks, i).ok && SeparatorAt(v, toks, i).pushed == [OrMarkerSel]
    ensures v.Src? && toks[i] == "," ==> !SeparatorAt(v, toks, i).ok
  {
    GetCharTypeClasses(v, '>');
    GetCharTypeEdges(v, '*');
  }

  /** The source's parse never pushes the OR marker. */
  lemma {:induction false} SrcLoopHasNoMarker(toks: seq<string>, i: nat)
    requires i <= |toks|
    ensures ParseLoop(Src, toks, i).Success? ==> OrMarkerSel !in ParseLoop(Src, toks, i).value
    decreases |toks| - i
  {
    if i < |toks| {
      var m := SeparatorAt(Src, toks, i);
      if m.ok && SelectorAt(Src, toks, m.next).Some? {
        var (s, k) := SelectorAt(Src, toks, m.next).value;
        SrcLoopHasNoMarker(toks, k);
        SelectorHasNoMarker(Src, toks, m.next);
      }
    }
  }

  /** No selector is the OR marker. */
  lemma SelectorHasNoMarker(v: Version, toks: seq<string>, i: nat)
    requires i <= |toks|
    ensures SelectorAt(v, toks, i).Some? ==> !SelectorAt(v, toks, i).value.0.OrMarkerSel?
  {
  }

  // ---------------------------------------------------------------------
  // Lemmas: what queries mean

  /** A tag-name step consumes exactly one element. */
  lemma NameConsumesOne(tag: string)
    ensures ConsumesExactlyOne(Denote(NameSel(tag)))
    ensures forall o :: Truthy(Denote(NameSel(tag))(Some(o))) <==> o.tagName == Some(tag)
  {
  }

  /** A word token is a tag-name selector. */
  lemma WordIsName(v: Version, toks: seq<string>, i: nat)
    requires i < |toks| && |toks[i]| > 0 && OfType(v, toks[i], WordChar)
    ensures SimpleAt(v, toks, i) == Some((NameSel(toks[i]), i + 1))
  {
    GetCharTypeClasses(v, '#');
    GetCharTypeClasses(v, '.');
    GetCharTypeEdges(v, '*');
    assert GetCharType(v, Some(toks[i][0])) == WordChar;
    assert "#"[0] == '#' && "."[0] == '.' && "*"[0] == '*';
  }

  /** A one-character operator or blank token other than `#` and `.` is no selector. */
  lemma SeparatorIsNoSelector(v: Version, toks: seq<string>, i: nat)
    requires i < |toks| && |toks[i]| == 1 && toks[i][0] != '#' && toks[i][0] != '.'
    requires GetCharType(v, Some(toks[i][0])) == Operator || GetCharType(v, Some(toks[i][0])) == WhiteSpace
    ensures SimpleAt(v, toks, i).None?
    ensures SelectorAt(v, toks, i).None?
  {
    GetCharTypeEdges(v, '*');
    assert "*"[0] == '*';
  }

  /** `querySelector('x')` for a word `x`: the arrays whose last element has tag `x`. */
  lemma TagQuery(v: Version, x: string, t: seq<Obj>)
    requires |x| > 0 && OfType(v, x, WordChar)
    ensures QuerySpec(v, x) == Success([AnyConsumeSel, NameSel(x)])
    ensures Matches([Denote(AnyConsumeSel), Denote(NameSel(x))], t) <==> |t| >= 1 && t[|t| - 1].tagName == Some(x)
  {
    SingleWord(v, x);
    WordIsName(v, [x], 0);
    assert SelectorAt(v, [x], 0) == Some((NameSel(x), 1));
    assert ParseLoop(v, [x], 1) == Success([]);
    assert [AnyConsumeSel, NameSel(x)] + [] == [AnyConsumeSel, NameSel(x)];
    NameConsumesOne(x);
    var p := [Denote(AnyConsumeSel), Denote(NameSel(x))];
    AnyThenOne(p[0], p[1], t);
    if |t| >= 1 {
      assert Truthy(p[1](Some(t[|t| - 1]))) <==> t[|t| - 1].tagName == Some(x);
    }
  }

  /** The parse half of `ChildQuery`. */
  lemma ChildParse(v: Version, x: string, y: string)
    requires |x| > 0 && OfType(v, x, WordChar) && |y| > 0 && OfType(v, y, WordChar)
    ensures QuerySpec(v, x + ">" + y) == Success([AnyConsumeSel, NameSel(x), NameSel(y)])
  {
    GetCharTypeClasses(v, '>');
    OperatorBetweenWords(v, x, '>', y);
    var toks := [x, ">", y];
    WordIsName(v, toks, 0);
    SeparatorIsNoSelector(v, toks, 1);
    assert SelectorAt(v, toks, 0) == Some((NameSel(x), 1));
    assert SeparatorAt(v, toks, 1) == Move(true, [], 2);
    WordIsName(v, toks, 2);
    assert SelectorAt(v, toks, 2) == Some((NameSel(y), 3));
    assert ParseLoop(v, toks, 3) == Success([]);
    assert ([] + [NameSel(y)]) + [] == [NameSel(y)];
    assert ParseLoop(v, toks, 1) == Success([NameSel(y)]);
    assert [AnyConsumeSel, NameSel(x)] + [NameSel(y)] == [AnyConsumeSel, NameSel(x), NameSel(y)];
  }

  /** `querySelector('x>y')`: the arrays ending with an element of tag `x` and then one of tag `y`. */
  lemma ChildQuery(v: Version, x: string, y: string, t: seq<Obj>)
    requires |x| > 0 && OfType(v, x, WordChar) && |y| > 0 && OfType(v, y, WordChar)
    ensures QuerySpec(v, x + ">" + y) == Success([AnyConsumeSel, NameSel(x), NameSel(y)])
    ensures Matches([Denote(AnyConsumeSel), Denote(NameSel(x)), Denote(NameSel(y))], t) <==>
      |t| >= 2 && t[|t| - 2].tagName == Some(x) && t[|t| - 1].tagName == Some(y)
  {
    ChildParse(v, x, y);
    NameConsumesOne(x);
    NameConsumesOne(y);
    var p := [Denote(AnyConsumeSel), Denote(NameSel(x)), Denote(NameSel(y))];
    AnyThenTwo(p[0], p[1], p[2], t);
    if |t| >= 2 {
      assert Truthy(p[1](Some(t[|t| - 2]))) <==> t[|t| - 2].tagName == Some(x);
      assert Truthy(p[2](Some(t[|t| - 1]))) <==> t[|t| - 1].tagName == Some(y);
    }
  }

  /** `querySelector('x y')`: the descendant separator pushes `ANY_CONSUME_MATCHER` between the two names. */
  lemma DescendantQuery(v: Version, x: string, y: string)
    requires |x| > 0 && OfType(v, x, WordChar) && |y| > 0 && OfType(v, y, WordChar)
    ensures QuerySpec(v, x + " " + y) == Success([AnyConsumeSel, NameSel(x), AnyConsumeSel, NameSel(y)])
  {
    GetCharTypeClasses(v, ' ');
    BlankBetweenWords(v, x, y);
    var toks := [x, " ", y];
    WordIsName(v, toks, 0);
    SeparatorIsNoSelector(v, toks, 1);
    assert SelectorAt(v, toks, 0) == Some((NameSel(x), 1));
    assert TokenType(v, At(toks, 1)) == WhiteSpace;
    GetCharTypeEdges(v, ',');
    assert GetCharType(v, Some(y[0])) == WordChar;
    assert ","[0] == ',';
    assert SeparatorAt(v, toks, 1) == Move(true, [AnyConsumeSel], 2);
    WordIsName(v, toks, 2);
    assert SelectorAt(v, toks, 2) == Some((NameSel(y), 3));
    assert ParseLoop(v, toks, 3) == Success([]);
    assert ([AnyConsumeSel] + [NameSel(y)]) + [] == [AnyConsumeSel, NameSel(y)];
    assert ParseLoop(v, toks, 1) == Success([AnyConsumeSel, NameSel(y)]);
    assert [AnyConsumeSel, NameSel(x)] + [AnyConsumeSel, NameSel(y)] == [AnyConsumeSel, NameSel(x), AnyConsumeSel, NameSel(y)];
  }

  /** The entries of the bundle's `x,y` and `x , y`. */
  function CommaEntries(x: string, y: string): seq<Entry<Obj>> {
    [StepEntry(Denote(AnyConsumeSel)), StepEntry(Denote(NameSel(x))), OrMarker, StepEntry(Denote(NameSel(y)))]
  }

  /** The four selectors of `x,y` compile under the bundle to the two groups with an OR marker between them. */
  lemma CommaCompiles(x: string, y: string)
    ensures var sels := [AnyConsumeSel, NameSel(x), OrMarkerSel, NameSel(y)];
      CompileEntries(ObjectCompiler(), SelSpecs(sels)) == Success(CommaEntries(x, y))
  {
    var sels := [AnyConsumeSel, NameSel(x), OrMarkerSel, NameSel(y)];
    var specs := SelSpecs(sels);
    assert specs == [Func(Denote(AnyConsumeSel)), Func(Denote(NameSel(x))), OrSymbol, Func(Denote(NameSel(y)))];
    var c := ObjectCompiler();
    assert AcceptEntry(c, specs[0]) == Success(StepEntry(Denote(AnyConsumeSel)));
    assert AcceptEntry(c, specs[1]) == Success(StepEntry(Denote(NameSel(x))));
    assert AcceptEntry(c, specs[2]) == Success(OrMarker);
    assert AcceptEntry(c, specs[3]) == Success(StepEntry(Denote(NameSel(y))));
    var r := CompileEntries(c, specs);
    assert r.Success?;
    assert r.value == CommaEntries(x, y);
  }

  /**
   * What the bundle's `x,y` matches: the arrays that end with an element of
   * tag `x`, or that are one element of tag `y`. The alternative after the
   * comma gets no leading `ANY_CONSUME_MATCHER`.
   */
  lemma CommaMeaning(x: string, y: string, t: seq<Obj>)
    ensures MatchesSomeGroup(CommaEntries(x, y), t) <==>
      (|t| >= 1 && t[|t| - 1].tagName == Some(x)) || (|t| == 1 && t[0].tagName == Some(y))
  {
    var a := [StepEntry(Denote(AnyConsumeSel)), StepEntry(Denote(NameSel(x)))];
    var b := [StepEntry(Denote(NameSel(y)))];
    assert CommaEntries(x, y) == a + [OrMarker] + b;
    MarkerIsOr(a, b, t);
    NoMarkerAsBefore(a, t);
    NoMarkerAsBefore(b, t);
    assert Steps(a) == [Denote(AnyConsumeSel), Denote(NameSel(x))] by {
      assert a[..1] == [StepEntry(Denote(AnyConsumeSel))];
      assert Steps(a[..1]) == [Denote(AnyConsumeSel)] by {
        assert a[..1][..0] == [];
      }
    }
    assert Steps(b) == [Denote(NameSel(y))] by {
      assert b[..0] == [];
    }
    NameConsumesOne(x);
    NameConsumesOne(y);
    var p := [Denote(AnyConsumeSel), Denote(NameSel(x))];
    AnyThenOne(p[0], p[1], t);
    if |t| >= 1 {
      assert Truthy(p[1](Some(t[|t| - 1]))) <==> t[|t| - 1].tagName == Some(x);
    }
    var q := [Denote(NameSel(y))];
    ExactPattern(q, 0, t, 0);
    if |t| == 1 {
      assert Truthy(q[0](Some(t[0]))) <==> t[0].tagName == Some(y);
    }
  }

  /** The bundle parses `x,y`: a name, the OR marker, a name. */
  lemma CommaQuery(x: string, y: string)
    requires |x| > 0 && OfType(Dist, x, WordChar) && |y| > 0 && OfType(Dist, y, WordChar)
    ensures QuerySpec(Dist, x + "," + y) == Success([AnyConsumeSel, NameSel(x), OrMarkerSel, NameSel(y)])
    ensures QueryEntries(Text(x + "," + y)) == Success(CommaEntries(x, y))
  {
    var v := Dist;
    GetCharTypeClasses(v, ',');
    OperatorBetweenWords(v, x, ',', y);
    var toks := [x, ",", y];
    WordIsName(v, toks, 0);
    SeparatorIsNoSelector(v, toks, 1);
    assert SelectorAt(v, toks, 0) == Some((NameSel(x), 1));
    assert SpaceAt(v, toks, 1) == Move(false, [], 1);
    assert TokenType(v, At(toks, 2)) == WordChar;
    assert SeparatorAt(v, toks, 1) == Move(true, [OrMarkerSel], 2);
    WordIsName(v, toks, 2);
    assert SelectorAt(v, toks, 2) == Some((NameSel(y), 3));
    assert ParseLoop(v, toks, 3) == Success([]);
    assert ([OrMarkerSel] + [NameSel(y)]) + [] == [OrMarkerSel, NameSel(y)];
    assert ParseLoop(v, toks, 1) == Success([OrMarkerSel, NameSel(y)]);
    assert [AnyConsumeSel, NameSel(x)] + [OrMarkerSel, NameSel(y)] == [AnyConsumeSel, NameSel(x), OrMarkerSel, NameSel(y)];
    var sels := [AnyConsumeSel, NameSel(x), OrMarkerSel, NameSel(y)];
    assert ItemSpecs(v, [Query(x + "," + y)]) == Success(SelSpecs(sels)) by {
      assert [Query(x + "," + y)][1..] == [];
      assert SelSpecs(sels) + [] == SelSpecs(sels);
    }
    CommaCompiles(x, y);
  }

  /** The bundle parses `x , y` exactly as `x,y`: the blank before the comma pushes nothing, the one after it is skipped. */
  lemma CommaWithBlanksQuery(x: string, y: string)
    requires |x| > 0 && OfType(Dist, x, WordChar) && |y| > 0 && OfType(Dist, y, WordChar)
    ensures QuerySpec(Dist, x + " , " + y) == Success([AnyConsumeSel, NameSel(x), OrMarkerSel, NameSel(y)])
  {
    var v := Dist;
    GetCharTypeClasses(v, ',');
    GetCharTypeClasses(v, ' ');
    BlanksAroundOperator(v, x, ',', y);
    var toks := [x, " ", ",", " ", y];
    WordIsName(v, toks, 0);
    SeparatorIsNoSelector(v, toks, 1);
    assert SelectorAt(v, toks, 0) == Some((NameSel(x), 1));
    assert TokenType(v, At(toks, 1)) == WhiteSpace;
    assert SpaceAt(v, toks, 1) == Move(false, [], 2);
    assert ChildAt(toks, 2) == Move(false, [], 2);
    assert TokenType(v, At(toks, 3)) == WhiteSpace;
    assert CommaAt(v, toks, 2) == Move(true, [OrMarkerSel], 4);
    assert SeparatorAt(v, toks, 1) == Move(true, [OrMarkerSel], 4);
    WordIsName(v, toks, 4);
    assert SelectorAt(v, toks, 4) == Some((NameSel(y), 5));
    assert ParseLoop(v, toks, 5) == Success([]);
    assert ([OrMarkerSel] + [NameSel(y)]) + [] == [OrMarkerSel, NameSel(y)];
    assert ParseLoop(v, toks, 1) == Success([OrMarkerSel, NameSel(y)]);
    assert [AnyConsumeSel, NameSel(x)] + [OrMarkerSel, NameSel(y)] == [AnyConsumeSel, NameSel(x), OrMarkerSel, NameSel(y)];
  }

  /** The sources under `src/` have no `,`: `x,y` is an invalid character there. */
  lemma CommaIsInvalidInSrc(x: string, y: string)
    requires |x| > 0 && OfType(Src, x, WordChar) && |y| > 0 && OfType(Src, y, WordChar)
    ensures QuerySpec(Src, x + "," + y) == Failure(InvalidCharacter)
  {
    var p := x + "," + y;
    GetCharTypeEdges(Src, ',');
    assert p[|x|] == ',';
    forall k | 0 <= k < |p|
      ensures GetCharType(Src, Some(p[k])) != Quote
    {
      if k < |x| {
        assert p[k] == x[k];
      } else if k > |x| {
        assert p[k] == y[k - |x| - 1];
      }
    }
    UnknownIffFails(Src, p, 0);
  }

  // ---------------------------------------------------------------------
  // Reading past the end of the target

  /**
   * `x>y` against a single element of tag `x`: the match comes down to the
   * third step on the element after the last, which is `undefined`; the
   * closure as written reads its `tagName` and throws. With the step
   * answering FAIL there, the array is rejected.
   */
  lemma ChildReadsPastEnd(x: string, y: string, o: Obj)
    requires o.tagName == Some(x)
    ensures var p := [Denote(AnyConsumeSel), Denote(NameSel(x)), Denote(NameSel(y))];
      Matches(p, [o]) == MatchFrom(p, 2, [o], 1) && At([o], 1) == None
    ensures NameProbeAsWritten(y)(At([o], 1)) == Threw
    ensures !Matches([Denote(AnyConsumeSel), Denote(NameSel(x)), Denote(NameSel(y))], [o])
  {
    var p := [Denote(AnyConsumeSel), Denote(NameSel(x)), Denote(NameSel(y))];
    var t := [o];
    assert p[0](At(t, 0)) == AnyConsume;
    assert AnyFrom(p, 1, t, 1) == false;
    assert AnyFrom(p, 1, t, 0) == MatchFrom(p, 1, t, 0);
    assert p[1](At(t, 0)) == Ok;
    ConsumeOneStep(p, 1, t, 0);
    assert p[2](At(t, 1)) == Fail;
    FailAborts(p, 2, t, 1);
  }

  /** `ObjectCompiler` compares strings and regular expressions with `obj.tagName`. */
  lemma ObjectCompilerUsesTagName(str: string, regex: Regex, o: Obj)
    ensures Accept(ObjectCompiler(), Str(str)).Success?
    ensures Accept(ObjectCompiler(), Str(str)).value(Some(o)) == (if o.tagName == Some(str) then Ok else Fail)
    ensures Accept(ObjectCompiler(), Regexp(regex)).value(Some(o)) == (if regex.test(o.tagName) then Ok else Fail)
    ensures Accept(ObjectCompiler(), Str(str)).value(None) == Fail
  {
    var c := ObjectCompiler();
    assert c.acceptString(str).value(Some(o)) == BaseAcceptString(str)(o.tagName);
    assert c.acceptRegexp(regex)(Some(o)) == BaseAcceptRegexp(regex)(o.tagName);
  }

  /** A class or id step consumes exactly one element. */
  lemma KeyConsumesOne(key: Option<string>)
    ensures ConsumesExactlyOne(Denote(ClassSel(key))) && ConsumesExactlyOne(Denote(IdSel(key)))
    ensures forall o :: Truthy(Denote(ClassSel(key))(Some(o))) <==> HasClass(o.classList, key)
    ensures forall o :: Truthy(Denote(IdSel(key))(Some(o))) <==> o.id == key
  {
  }

  /** `querySelector('.c')`: the arrays whose last element has the class `c`. */
  lemma ClassQuery(v: Version, c: string, t: seq<Obj>)
    requires |c| > 0 && OfType(v, c, WordChar)
    ensures QuerySpec(v, "." + c) == Success([AnyConsumeSel, ClassSel(Some(c))])
    ensures Matches([Denote(AnyConsumeSel), Denote(ClassSel(Some(c)))], t) <==>
      |t| >= 1 && HasClass(t[|t| - 1].classList, Some(c))
  {
    GetCharTypeClasses(v, '.');
    OperatorThenWord(v, '.', c);
    var toks := [".", c];
    assert At(toks, 0) == Some(".") && At(toks, 1) == Some(c);
    assert ClassAt(toks, 0) == Some((ClassSel(Some(c)), 2));
    assert IdAt(toks, 0).None? by {
      assert "."[0] != "#"[0];
    }
    assert SelectorAt(v, toks, 0) == Some((ClassSel(Some(c)), 2));
    assert ParseLoop(v, toks, 2) == Success([]);
    assert [AnyConsumeSel, ClassSel(Some(c))] + [] == [AnyConsumeSel, ClassSel(Some(c))];
    KeyConsumesOne(Some(c));
    var p := [Denote(AnyConsumeSel), Denote(ClassSel(Some(c)))];
    AnyThenOne(p[0], p[1], t);
    if |t| >= 1 {
      assert Truthy(p[1](Some(t[|t| - 1]))) <==> HasClass(t[|t| - 1].classList, Some(c));
    }
  }

  /** `querySelector('#i')`: the arrays whose last element has the id `i`. */
  lemma IdQuery(v: Version, i: string, t: seq<Obj>)
    requires |i| > 0 && OfType(v, i, WordChar)
    ensures QuerySpec(v, "#" + i) == Success([AnyConsumeSel, IdSel(Some(i))])
    ensures Matches([Denote(AnyConsumeSel), Denote(IdSel(Some(i)))], t) <==>
      |t| >= 1 && t[|t| - 1].id == Some(i)
  {
    GetCharTypeClasses(v, '#');
    OperatorThenWord(v, '#', i);
    var toks := ["#", i];
    assert At(toks, 0) == Some("#") && At(toks, 1) == Some(i);
    assert IdAt(toks, 0) == Some((IdSel(Some(i)), 2));
    assert SelectorAt(v, toks, 0) == Some((IdSel(Some(i)), 2));
    assert ParseLoop(v, toks, 2) == Success([]);
    assert [AnyConsumeSel, IdSel(Some(i))] + [] == [AnyConsumeSel, IdSel(Some(i))];
    KeyConsumesOne(Some(i));
    var p := [Denote(AnyConsumeSel), Denote(IdSel(Some(i)))];
    AnyThenOne(p[0], p[1], t);
    if |t| >= 1 {
      assert Truthy(p[1](Some(t[|t| - 1]))) <==> t[|t| - 1].id == Some(i);
    }
  }

  /** The parse half of `NameAndClassQuery`. */
  lemma NameAndClassParse(v: Version, x: string, c: string)
    requires |x| > 0 && OfType(v, x, WordChar) && |c| > 0 && OfType(v, c, WordChar)
    ensures QuerySpec(v, x + "." + c) == Success([AnyConsumeSel, AndSel(ClassSel(Some(c)), NameSel(x))])
  {
    GetCharTypeClasses(v, '.');
    OperatorBetweenWords(v, x, '.', c);
    var toks := [x, ".", c];
    WordIsName(v, toks, 0);
    assert At(toks, 1) == Some(".") && At(toks, 2) == Some(c);
    assert ClassAt(toks, 1) == Some((ClassSel(Some(c)), 3));
    assert IdAt(toks, 1).None? by {
      assert "."[0] != "#"[0];
    }
    assert SimpleAt(v, toks, 3).None?;
    assert SelectorAt(v, toks, 1) == Some((ClassSel(Some(c)), 3));
    var s := AndSel(ClassSel(Some(c)), NameSel(x));
    assert SelectorAt(v, toks, 0) == Some((s, 3));
    assert ParseLoop(v, toks, 3) == Success([]);
    assert [AnyConsumeSel, s] + [] == [AnyConsumeSel, s];
  }

  /** `querySelector('x.c')`: one step, the AND of the class and the tag name, on the last element. */
  lemma NameAndClassQuery(v: Version, x: string, c: string, t: seq<Obj>)
    requires |x| > 0 && OfType(v, x, WordChar) && |c| > 0 && OfType(v, c, WordChar)
    ensures QuerySpec(v, x + "." + c) == Success([AnyConsumeSel, AndSel(ClassSel(Some(c)), NameSel(x))])
    ensures Matches([Denote(AnyConsumeSel), Denote(AndSel(ClassSel(Some(c)), NameSel(x)))], t) <==>
      |t| >= 1 && t[|t| - 1].tagName == Some(x) && HasClass(t[|t| - 1].classList, Some(c))
  {
    NameAndClassParse(v, x, c);
    var s := AndSel(ClassSel(Some(c)), NameSel(x));
    var p := [Denote(AnyConsumeSel), Denote(s)];
    forall o: Option<Obj>
      ensures Denote(s)(o) == (if o.Some? && HasClass(o.value.classList, Some(c)) && o.value.tagName == Some(x) then Ok else Fail)
    {
      AndStep(ClassSel(Some(c)), NameSel(x), o);
    }
    AnyThenOne(p[0], p[1], t);
    if |t| >= 1 {
      assert Truthy(p[1](Some(t[|t| - 1]))) <==> t[|t| - 1].tagName == Some(x) && HasClass(t[|t| - 1].classList, Some(c));
    }
  }

  /** `*` is no operator: a query holding it is rejected as an invalid character, so `wildcard` is never reached. */
  lemma WildcardIsRejected(v: Version)
    ensures QuerySpec(v, "*") == Failure(InvalidCharacter)
  {
    GetCharTypeEdges(v, '*');
    assert "*"[0] == '*';
    assert RawTokens(v, "*", 0) == Failure(InvalidCharacter);
  }

  /** `x+y`: `+` is an operator but no separator, so the parse stops there. */
  lemma PlusIsNoSeparator(v: Version, x: string, y: string)
    requires |x| > 0 && OfType(v, x, WordChar) && |y| > 0 && OfType(v, y, WordChar)
    ensures QuerySpec(v, x + "+" + y) == Failure(SeparatorExpected)
  {
    GetCharTypeClasses(v, '+');
    OperatorBetweenWords(v, x, '+', y);
    var toks := [x, "+", y];
    WordIsName(v, toks, 0);
    SeparatorIsNoSelector(v, toks, 1);
    assert SelectorAt(v, toks, 0) == Some((NameSel(x), 1));
    assert TokenType(v, At(toks, 1)) == Operator;
    assert "+"[0] == '+' && ">"[0] == '>' && ","[0] == ',';
    assert !SeparatorAt(v, toks, 1).ok;
  }

  /** `x > y`: the blank before `>` is already the descendant separator, and `>` is then no selector. */
  lemma SpacedChildFails(v: Version, x: string, y: string)
    requires |x| > 0 && OfType(v, x, WordChar) && |y| > 0 && OfType(v, y, WordChar)
    ensures QuerySpec(v, x + " > " + y) == Failure(SelectorExpected)
  {
    GetCharTypeClasses(v, '>');
    GetCharTypeClasses(v, ' ');
    BlanksAroundOperator(v, x, '>', y);
    var toks := [x, " ", ">", " ", y];
    WordIsName(v, toks, 0);
    SeparatorIsNoSelector(v, toks, 1);
    assert SelectorAt(v, toks, 0) == Some((NameSel(x), 1));
    assert TokenType(v, At(toks, 1)) == WhiteSpace;
    assert ">"[0] != ","[0];
    assert SeparatorAt(v, toks, 1) == Move(true, [AnyConsumeSel], 2);
    SeparatorIsNoSelector(v, toks, 2);
  }

  /** `x>` ends where a selector is still required. */
  lemma TrailingChildFails(v: Version, x: string)
    requires |x| > 0 && OfType(v, x, WordChar)
    ensures QuerySpec(v, x + ">") == Failure(SelectorExpected)
  {
    GetCharTypeClasses(v, '>');
    var p := x + ">";
    var n := |x|;
    assert forall m :: 0 <= m < n ==> p[m] == x[m];
    RawOperator(v, p, n);
    assert RawTokens(v, p, n + 1) == Success([]);
    assert [[p[n]]] + [] == [">"];
    RawRun(v, p, WordChar, 0, n);
    assert p[0..n] == x;
    assert [x] + [">"] == [x, ">"];
    var toks := [x, ">"];
    WordIsName(v, toks, 0);
    SeparatorIsNoSelector(v, toks, 1);
    assert SelectorAt(v, toks, 0) == Some((NameSel(x), 1));
    assert SeparatorAt(v, toks, 1) == Move(true, [], 2);
  }
}
