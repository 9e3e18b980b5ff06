/**
 * The selector tokenizer of src/querySelector.mjs (and its bundled copy,
 * which adds `,` to the operators): a 128-entry character table, runs of
 * word characters and of white space merged into one token each, operators
 * as one-character tokens, quoted literals, and the leading and trailing
 * white-space tokens dropped.
 */
module QueryTokens {
  import opened Wrappers
  import opened Compiler

  datatype CharType = WhiteSpace | WordChar | Operator | Quote | Unknown

  /** `/\s/` below 0x80: tab, line feed, vertical tab, form feed, carriage return, space. */
  predicate IsSpaceChar(c: char) {
    c == '\t' || c == '\n' || c == '\U{000B}' || c == '\U{000C}' || c == '\r' || c == ' '
  }

  /** `/[\w-]/`: ASCII letters, digits, `_` and `-`. */
  predicate IsWordChar(c: char) {
    ('a' <= c <= 'z') || ('A' <= c <= 'Z') || ('0' <= c <= '9') || c == '_' || c == '-'
  }

  /** `/["'`]/`. */
  predicate IsQuoteChar(c: char) {
    c == '"' || c == '\'' || c == '`'
  }

  /** `/[.#[\]+~:>]/`, and `,` as well in the bundled version. */
  predicate IsOperatorChar(v: Version, c: char) {
    c == '.' || c == '#' || c == '[' || c == ']' || c == '+' || c == '~' || c == ':' || c == '>' ||
    (v.Dist? && c == ',')
  }

  /** One entry of `charTable`: the four `map` passes in order, a later class overriding an earlier one. */
  function TableEntry(v: Version, code: nat): CharType
    requires code < 0x80
  {
    var c := code as char;
    if IsOperatorChar(v, c) then Operator
    else if IsQuoteChar(c) then Quote
    else if IsWordChar(c) then WordChar
    else if IsSpaceChar(c) then WhiteSpace
    else Unknown
  }

  /** `charTable`. */
  function CharTable(v: Version): seq<CharType>
  {
    seq(0x80, code requires 0 <= code < 0x80 => TableEntry(v, code))
  }

  /** `getCharType`: `undefined` is white space, code units from 0x80 up are word characters. */
  function GetCharType(v: Version, ch: Option<char>): CharType {
    if ch.None? then WhiteSpace
    else if ch.value as int >= 0x80 then WordChar
    else CharTable(v)[ch.value as int]
  }

  /** `getCharType(token)` on a whole token, which reads its first character; `''` and `undefined` are falsy. */
  function TokenType(v: Version, tok: Option<string>): CharType {
    GetCharType(v, if tok.None? || |tok.value| == 0 then None else Some(tok.value[0]))
  }

  /** The classes of the table, as the regular expressions define them. */
  lemma GetCharTypeClasses(v: Version, c: char)
    requires c as int < 0x80
    ensures GetCharType(v, Some(c)) == WhiteSpace <==> IsSpaceChar(c)
    ensures GetCharType(v, Some(c)) == WordChar <==> IsWordChar(c)
    ensures GetCharType(v, Some(c)) == Quote <==> IsQuoteChar(c)
    ensures GetCharType(v, Some(c)) == Operator <==> IsOperatorChar(v, c)
  {
    assert (c as int) as char == c;
  }

  /** A missing character is white space; code units from 0x80 are word characters; `*` and `\` are unknown; `,` is an operator only in the bundle. */
  lemma GetCharTypeEdges(v: Version, c: char)
    ensures GetCharType(v, None) == WhiteSpace
    ensures c as int >= 0x80 ==> GetCharType(v, Some(c)) == WordChar
    ensures GetCharType(v, Some('*')) == Unknown
    ensures GetCharType(v, Some('\\')) == Unknown
    ensures GetCharType(v, Some(',')) == (if v.Dist? then Operator else Unknown)
  {
    GetCharTypeClasses(v, '*');
    GetCharTypeClasses(v, '\\');
    GetCharTypeClasses(v, ',');
  }

  // ---------------------------------------------------------------------
  // Runs

  /**
   * Where the run of characters of `type` that continues at `k` ends: the
   * first position at the end of the pattern or of another type. The run
   * stops at the end of the pattern; the source's loop does not, see
   * `RunContinuesAsWritten`.
   */
  function RunEnd(v: Version, p: string, kind: CharType, k: nat): (e: nat)
    requires k <= |p|
    ensures k <= e <= |p|
    ensures forall m :: k <= m < e ==> GetCharType(v, Some(p[m])) == kind
    ensures e < |p| ==> GetCharType(v, Some(p[e])) != kind
    decreases |p| - k
  {
    if k == |p| || GetCharType(v, Some(p[k])) != kind then k else RunEnd(v, p, kind, k + 1)
  }

  /** The loop condition of `whileThisType` as written: `getCharType(pattern[index]) === kind`. */
  predicate RunContinuesAsWritten(v: Version, p: string, kind: CharType, index: nat) {
    GetCharType(v, At(p, index)) == kind
  }

  /**
   * As written, a white-space run that reaches the end of the pattern never
   * stops: every position past its start satisfies the loop condition,
   * because `getCharType(undefined)` is white space too.
   */
  lemma WhiteSpaceRunNeverEnds(v: Version, p: string, from: nat, m: nat)
    requires from < |p|
    requires forall k :: from <= k < |p| ==> IsSpaceChar(p[k])
    requires m > from
    ensures RunContinuesAsWritten(v, p, WhiteSpace, m)
  {
    if m < |p| {
      GetCharTypeClasses(v, p[m]);
    }
  }

  /** The trailing blank of `a ` starts a run whose loop, as written, never exits. */
  lemma TrailingBlankHangsAsWritten(v: Version, m: nat)
    requires m > 1
    ensures GetCharType(v, At("a ", 1)) == WhiteSpace
    ensures RunContinuesAsWritten(v, "a ", WhiteSpace, m)
  {
    GetCharTypeClasses(v, ' ');
    WhiteSpaceRunNeverEnds(v, "a ", 1, m);
  }

  /** With the run stopping at the end, the trailing blank of `a ` is one token running to the end. */
  lemma TrailingBlankRunEnds(v: Version)
    ensures GetCharType(v, Some(' ')) == WhiteSpace
    ensures RunEnd(v, "a ", WhiteSpace, 2) == 2
  {
    GetCharTypeClasses(v, ' ');
  }

  // ---------------------------------------------------------------------
  // Literals

  /** `escape()`: the character read, the index after it, and whether it was escaped by a `\`. */
  function Escape(p: string, index: nat): (Option<char>, nat, bool)
  {
    var escaped := At(p, index) == Some('\\');
    var next := if escaped then index + 2 else index + 1;
    (At(p, next - 1), next, escaped)
  }

  /** The characters of a literal after its opening quote, its closing quote included, and the index after it; or the error for a missing closing quote. */
  function LiteralFrom(p: string, index: nat, q: char): (r: Result<(seq<char>, nat), Error>)
    ensures r.Success? ==> index < r.value.1 <= |p|
    decreases |p| - index
  {
    var (ch, next, escaped) := Escape(p, index);
    if ch == Some(q) && !escaped then Success(([q], next))
    else if next >= |p| then Failure(UnterminatedLiteral)
    else
      match LiteralFrom(p, next, q)
      case Failure(e) => Failure(e)
      case Success((rest, end)) => Success(([ch.value] + rest, end))
  }

  /** The literal loop as written: it stops at the first quote character `escape` returns, escaped or not. */
  function LiteralFromAsWritten(p: string, index: nat, q: char): (r: Result<(seq<char>, nat), Error>)
    ensures r.Success? ==> index < r.value.1 <= |p|
    decreases |p| - index
  {
    var (ch, next, _) := Escape(p, index);
    if ch == Some(q) then Success(([q], next))
    else if next >= |p| then Failure(UnterminatedLiteral)
    else
      match LiteralFromAsWritten(p, next, q)
      case Failure(e) => Failure(e)
      case Success((rest, end)) => Success(([ch.value] + rest, end))
  }

  /** In `"a\"b"` the loop as written stops at the escaped quote; the literal is meant to run on to the last quote. */
  lemma EscapedQuoteEndsLiteral()
    ensures LiteralFromAsWritten("\"a\\\"b\"", 1, '"') == Success((['a', '"'], 4))
    ensures LiteralFrom("\"a\\\"b\"", 1, '"') == Success((['a', '"', 'b', '"'], 6))
  {
    var p := "\"a\\\"b\"";
    assert |p| == 6 && p[1] == 'a' && p[2] == '\\' && p[3] == '"' && p[4] == 'b' && p[5] == '"';
    assert Escape(p, 1) == (Some('a'), 2, false);
    assert Escape(p, 2) == (Some('"'), 4, true);
    assert Escape(p, 4) == (Some('b'), 5, false);
    assert Escape(p, 5) == (Some('"'), 6, false);
    assert LiteralFromAsWritten(p, 2, '"') == Success((['"'], 4));
    LiteralStepAsWritten(p, 1, '"');
    assert LiteralFrom(p, 5, '"') == Success((['"'], 6));
    LiteralStep(p, 4, '"');
    LiteralStep(p, 2, '"');
    LiteralStep(p, 1, '"');
    assert ['a'] + ['"'] == ['a', '"'];
    assert ['a'] + (['"'] + (['b'] + ['"'])) == ['a', '"', 'b', '"'];
  }

  /** One character of a literal that does not close it, read in front of the rest. */
  lemma LiteralStep(p: string, index: nat, q: char)
    requires var e := Escape(p, index); !(e.0 == Some(q) && !e.2) && e.1 < |p|
    requires LiteralFrom(p, Escape(p, index).1, q).Success?
    ensures LiteralFrom(p, index, q) == Success(([Escape(p, index).0.value] + LiteralFrom(p, Escape(p, index).1, q).value.0, LiteralFrom(p, Escape(p, index).1, q).value.1))
  {
  }

  /** The same, for the loop as written. */
  lemma LiteralStepAsWritten(p: string, index: nat, q: char)
    requires var e := Escape(p, index); e.0 != Some(q) && e.1 < |p|
    requires LiteralFromAsWritten(p, Escape(p, index).1, q).Success?
    ensures LiteralFromAsWritten(p, index, q) == Success(([Escape(p, index).0.value] + LiteralFromAsWritten(p, Escape(p, index).1, q).value.0, LiteralFromAsWritten(p, Escape(p, index).1, q).value.1))
  {
  }

  /** `chars.join()`: the characters separated by commas, the default separator. */
  function CommaJoin(chars: seq<char>): (s: string)
    ensures |chars| > 0 ==> |s| == 2 * |chars| - 1
    ensures forall k :: 0 <= k < |chars| ==> s[2 * k] == chars[k]
  {
    if |chars| <= 1 then chars else [chars[0], ','] + CommaJoin(chars[1..])
  }

  /** Between every two characters of a joined literal stands a comma. */
  lemma {:induction false} CommaJoinSeparators(chars: seq<char>, k: nat)
    requires k < |chars| - 1
    ensures CommaJoin(chars)[2 * k + 1] == ','
    decreases k
  {
    if k > 0 {
      CommaJoinSeparators(chars[1..], k - 1);
      assert CommaJoin(chars)[2 * k + 1] == CommaJoin(chars[1..])[2 * (k - 1) + 1];
    }
  }

  // ---------------------------------------------------------------------
  // tokenize

  /** The tokens of `p[i..]` before the leading and trailing white space is dropped. */
  function RawTokens(v: Version, p: string, i: nat): Result<seq<string>, Error>
    decreases |p| - i
  {
    if i >= |p| then Success([])
    else
      match GetCharType(v, Some(p[i]))
      case WordChar =>
        var e := RunEnd(v, p, WordChar, i + 1);
        Prepend([p[i..e]], RawTokens(v, p, e))
      case WhiteSpace =>
        var e := RunEnd(v, p, WhiteSpace, i + 1);
        Prepend([p[i..e]], RawTokens(v, p, e))
      case Operator => Prepend([[p[i]]], RawTokens(v, p, i + 1))
      case Quote =>
        (match LiteralFrom(p, i + 1, p[i])
         case Failure(e) => Failure(e)
         case Success((rest, end)) => Prepend([CommaJoin([p[i]] + rest)], RawTokens(v, p, end)))
      case Unknown => Failure(InvalidCharacter)
  }

  /** The first character of a token, `undefined` for `''`. */
  function First(tok: string): Option<char> {
    if |tok| == 0 then None else Some(tok[0])
  }

  /**
   * The last two lines of `tokenize`: a leading, then a trailing white-space
   * token is dropped; reading the first character of a missing token (the
   * input was empty or all white space) throws.
   */
  function Trim(v: Version, res: seq<string>): Result<seq<string>, Error> {
    if |res| == 0 then Failure(EmptySelector)
    else
      var afterShift := if GetCharType(v, First(res[0])) == WhiteSpace then res[1..] else res;
      if |afterShift| == 0 then Failure(EmptySelector)
      else if GetCharType(v, First(afterShift[|afterShift| - 1])) == WhiteSpace then Success(afterShift[..|afterShift| - 1])
      else Success(afterShift)
  }

  /** `tokenize`, as a specification. */
  function TokenizeSpec(v: Version, p: string): Result<seq<string>, Error> {
    var raw := RawTokens(v, p, 0);
    if raw.Failure? then raw else Trim(v, raw.value)
  }

  /** `tokenize` with its `whileThisType`, `literal` and `escape` helpers sharing the index. */
  method Tokenize(v: Version, pattern: string) returns (r: Result<seq<string>, Error>)
    ensures r == TokenizeSpec(v, pattern)
  {
    var index := 0;
    var res: seq<string> := [];
    assert Prepend(res, RawTokens(v, pattern, 0)) == RawTokens(v, pattern, 0) by {
      if RawTokens(v, pattern, 0).Success? {
        assert [] + RawTokens(v, pattern, 0).value == RawTokens(v, pattern, 0).value;
      }
    }
    while index < |pattern|
      invariant index <= |pattern|
      invariant RawTokens(v, pattern, 0) == Prepend(res, RawTokens(v, pattern, index))
      decreases |pattern| - index
    {
      var kind := GetCharType(v, At(pattern, index));
      if kind == WordChar || kind == WhiteSpace {
        var from := index;
        index := index + 1;
        while index < |pattern| && GetCharType(v, At(pattern, index)) == kind
          invariant from < index <= |pattern|
          invariant RunEnd(v, pattern, kind, from + 1) == RunEnd(v, pattern, kind, index)
          decreases |pattern| - index
        {
          index := index + 1;
        }
        PrependPrepend(res, [pattern[from..index]], RawTokens(v, pattern, index));
        res := res + [pattern[from..index]];
      } else if kind == Operator {
        PrependPrepend(res, [[pattern[index]]], RawTokens(v, pattern, index + 1));
        res := res + [[pattern[index]]];
        index := index + 1;
      } else if kind == Quote {
        var lit := Literal(pattern, index);
        if lit.Failure? {
          return Failure(lit.error);
        }
        var (token, end) := lit.value;
        PrependPrepend(res, [token], RawTokens(v, pattern, end));
        res := res + [token];
        index := end;
      } else {
        return Failure(InvalidCharacter);
      }
    }
    assert res + [] == res;
    r := Trim(v, res);
  }

  /** `literal()`: the token of the quoted literal opening at `index`, and the index after it. */
  method Literal(pattern: string, index: nat) returns (r: Result<(string, nat), Error>)
    requires index < |pattern|
    ensures var spec := LiteralFrom(pattern, index + 1, pattern[index]);
      (r.Failure? <==> spec.Failure?) &&
      (r.Failure? ==> r.error == spec.error) &&
      (r.Success? ==> r.value == (CommaJoin([pattern[index]] + spec.value.0), spec.value.1))
  {
    var i := index;
    var literalCh := pattern[i];
    i := i + 1;
    var chars := [literalCh];
    var ch: Option<char>;
    ghost var start := i;
    assert chars[1..] == [];
    assert Prefix(chars[1..], LiteralFrom(pattern, i, literalCh)) == LiteralFrom(pattern, i, literalCh) by {
      if LiteralFrom(pattern, i, literalCh).Success? {
        assert [] + LiteralFrom(pattern, i, literalCh).value.0 == LiteralFrom(pattern, i, literalCh).value.0;
      }
    }
    while true
      invariant start <= i <= |pattern|
      invariant |chars| > 0 && chars[0] == literalCh
      invariant LiteralFrom(pattern, start, literalCh) == Prefix(chars[1..], LiteralFrom(pattern, i, literalCh))
      decreases |pattern| - i
    {
      var e := Escape(pattern, i);
      ghost var before := i;
      ch, i := e.0, e.1;
      if ch == Some(literalCh) && !e.2 {
        assert LiteralFrom(pattern, before, literalCh) == Success(([literalCh], i));
        break;
      }
      if i >= |pattern| {
        return Failure(UnterminatedLiteral);
      }
      PrefixPrefix(chars[1..], [ch.value], LiteralFrom(pattern, i, literalCh));
      assert (chars + [ch.value])[1..] == chars[1..] + [ch.value];
      chars := chars + [ch.value];
    }
    assert chars + [literalCh] == [literalCh] + (chars[1..] + [literalCh]);
    chars := chars + [literalCh];
    r := Success((CommaJoin(chars), i));
  }

  /** Characters in front of a literal's characters, an error passing through unchanged. */
  function Prefix(pre: seq<char>, r: Result<(seq<char>, nat), Error>): Result<(seq<char>, nat), Error> {
    if r.Failure? then r else Success((pre + r.value.0, r.value.1))
  }

  lemma PrefixPrefix(a: seq<char>, b: seq<char>, r: Result<(seq<char>, nat), Error>)
    ensures Prefix(a, Prefix(b, r)) == Prefix(a + b, r)
  {
    if r.Success? {
      assert a + (b + r.value.0) == (a + b) + r.value.0;
    }
  }

  // ---------------------------------------------------------------------
  // What tokenize produces.

  /** Every character of `s` is of the given type. */
  predicate OfType(v: Version, s: string, kind: CharType) {
    forall k :: 0 <= k < |s| ==> GetCharType(v, Some(s[k])) == kind
  }

  /** A run ends exactly where the characters of its type stop. */
  lemma RunTo(v: Version, p: string, kind: CharType, k: nat, e: nat)
    requires k <= e <= |p|
    requires forall m :: k <= m < e ==> GetCharType(v, Some(p[m])) == kind
    requires e < |p| ==> GetCharType(v, Some(p[e])) != kind
    ensures RunEnd(v, p, kind, k) == e
  {
  }

  /** A maximal run of word characters, or of white space, is one token. */
  lemma RawRun(v: Version, p: string, kind: CharType, i: nat, e: nat)
    requires kind == WordChar || kind == WhiteSpace
    requires i < e <= |p|
    requires forall m :: i <= m < e ==> GetCharType(v, Some(p[m])) == kind
    requires e < |p| ==> GetCharType(v, Some(p[e])) != kind
    ensures RawTokens(v, p, i) == Prepend([p[i..e]], RawTokens(v, p, e))
  {
    RunTo(v, p, kind, i + 1, e);
  }

  /** An operator character is a token of its own. */
  lemma RawOperator(v: Version, p: string, i: nat)
    requires i < |p| && GetCharType(v, Some(p[i])) == Operator
    ensures RawTokens(v, p, i) == Prepend([[p[i]]], RawTokens(v, p, i + 1))
  {
  }

  /** Nothing is left to read at the end of the input. */
  lemma RawEnd(v: Version, p: string)
    ensures RawTokens(v, p, |p|) == Success([])
  {
  }

  /** A maximal run `p[i..e]` in front of the tokens from `e`. */
  lemma RunThen(v: Version, p: string, kind: CharType, i: nat, e: nat, rest: seq<string>)
    requires kind == WordChar || kind == WhiteSpace
    requires i < e <= |p| && OfType(v, p[i..e], kind)
    requires e < |p| ==> GetCharType(v, Some(p[e])) != kind
    requires RawTokens(v, p, e) == Success(rest)
    ensures RawTokens(v, p, i) == Success([p[i..e]] + rest)
  {
    forall m | i <= m < e
      ensures GetCharType(v, Some(p[m])) == kind
    {
      assert p[m] == p[i..e][m - i];
    }
    RawRun(v, p, kind, i, e);
  }

  /** An operator character in front of the tokens after it. */
  lemma OperatorThen(v: Version, p: string, i: nat, rest: seq<string>)
    requires i < |p| && GetCharType(v, Some(p[i])) == Operator
    requires RawTokens(v, p, i + 1) == Success(rest)
    ensures RawTokens(v, p, i) == Success([[p[i]]] + rest)
  {
    RawOperator(v, p, i);
  }

  /** A single blank, followed by something other than white space, in front of the tokens after it. */
  lemma BlankThen(v: Version, p: string, i: nat, rest: seq<string>)
    requires i < |p| && p[i] == ' '
    requires i + 1 < |p| ==> GetCharType(v, Some(p[i + 1])) != WhiteSpace
    requires RawTokens(v, p, i + 1) == Success(rest)
    ensures RawTokens(v, p, i) == Success([" "] + rest)
  {
    GetCharTypeClasses(v, ' ');
    assert p[i..i + 1] == " ";
    RunThen(v, p, WhiteSpace, i, i + 1, rest);
  }

  /** A word up to the end of the input is the last token. */
  lemma WordToEnd(v: Version, p: string, i: nat, y: string)
    requires i < |p| && p[i..] == y && OfType(v, y, WordChar)
    ensures RawTokens(v, p, i) == Success([y])
  {
    RawEnd(v, p);
    assert p[i..|p|] == y;
    RunThen(v, p, WordChar, i, |p|, []);
    assert [y] + [] == [y];
  }

  /** A word followed by one more token that stands alone, then a word: the three tokens in order. */
  lemma ThreeTokens(v: Version, p: string, x: string, mid: string, y: string)
    requires |x| > 0 && |y| > 0 && OfType(v, x, WordChar) && OfType(v, y, WordChar)
    requires |mid| == 1 && p == x + mid + y
    requires GetCharType(v, Some(mid[0])) == Operator || GetCharType(v, Some(mid[0])) == WhiteSpace
    ensures RawTokens(v, p, 0) == Success([x, mid, y])
  {
    var n := |x|;
    assert p[n + 1..] == y && p[n] == mid[0] && p[0..n] == x;
    WordToEnd(v, p, n + 1, y);
    assert GetCharType(v, Some(p[n + 1])) == WordChar by {
      assert p[n + 1] == y[0];
    }
    if GetCharType(v, Some(mid[0])) == Operator {
      OperatorThen(v, p, n, [y]);
      assert [p[n]] == mid;
    } else {
      assert p[n..n + 1] == mid;
      RunThen(v, p, WhiteSpace, n, n + 1, [y]);
    }
    assert [mid] + [y] == [mid, y];
    RunThen(v, p, WordChar, 0, n, [mid, y]);
    assert [x] + [mid, y] == [x, mid, y];
  }

  /** A word alone is one token. */
  lemma SingleWord(v: Version, x: string)
    requires |x| > 0 && OfType(v, x, WordChar)
    ensures TokenizeSpec(v, x) == Success([x])
  {
    RawRun(v, x, WordChar, 0, |x|);
    assert x[0..|x|] == x;
    assert RawTokens(v, x, |x|) == Success([]);
    assert [x] + [] == [x];
  }

  /** Two words around an operator character are three tokens: the words and the operator. */
  lemma OperatorBetweenWords(v: Version, x: string, c: char, y: string)
    requires |x| > 0 && |y| > 0 && OfType(v, x, WordChar) && OfType(v, y, WordChar)
    requires GetCharType(v, Some(c)) == Operator
    ensures TokenizeSpec(v, x + [c] + y) == Success([x, [c], y])
  {
    ThreeTokens(v, x + [c] + y, x, [c], y);
  }

  /** Two words around one blank are three tokens; the blank is a token of its own. */
  lemma BlankBetweenWords(v: Version, x: string, y: string)
    requires |x| > 0 && |y| > 0 && OfType(v, x, WordChar) && OfType(v, y, WordChar)
    ensures TokenizeSpec(v, x + [' '] + y) == Success([x, " ", y])
  {
    GetCharTypeClasses(v, ' ');
    ThreeTokens(v, x + [' '] + y, x, " ", y);
  }

  /** From position `n + 1`: an operator, a blank, then a word up to the end, are three tokens. */
  lemma OperatorTail(v: Version, p: string, n: nat, y: string)
    requires |y| > 0 && OfType(v, y, WordChar) && |p| == n + 3 + |y| && p[n + 3..] == y
    requires GetCharType(v, Some(p[n + 1])) == Operator && p[n + 2] == ' '
    ensures RawTokens(v, p, n + 1) == Success([[p[n + 1]], " ", y])
  {
    WordToEnd(v, p, n + 3, y);
    assert p[n + 3] == y[0];
    BlankThen(v, p, n + 2, [y]);
    assert [" "] + [y] == [" ", y];
    OperatorThen(v, p, n + 1, [" ", y]);
    assert [[p[n + 1]]] + [" ", y] == [[p[n + 1]], " ", y];
  }

  /** Blanks around an operator between two words stay tokens of their own: five tokens. */
  lemma BlanksAroundOperator(v: Version, x: string, c: char, y: string)
    requires |x| > 0 && |y| > 0 && OfType(v, x, WordChar) && OfType(v, y, WordChar)
    requires GetCharType(v, Some(c)) == Operator
    ensures TokenizeSpec(v, x + [' ', c, ' '] + y) == Success([x, " ", [c], " ", y])
  {
    var p := x + [' ', c, ' '] + y;
    BlanksAroundOperatorRaw(v, x, c, y, p);
    assert First(x) == Some(x[0]) && First(y) == Some(y[0]);
  }

  /** The raw half of `BlanksAroundOperator`, before the trimming. */
  lemma BlanksAroundOperatorRaw(v: Version, x: string, c: char, y: string, p: string)
    requires |x| > 0 && |y| > 0 && OfType(v, x, WordChar) && OfType(v, y, WordChar)
    requires GetCharType(v, Some(c)) == Operator && p == x + [' ', c, ' '] + y
    ensures RawTokens(v, p, 0) == Success([x, " ", [c], " ", y])
  {
    var n := |x|;
    assert p[n] == ' ' && p[n + 1] == c && p[n + 2] == ' ';
    assert p[n + 3..] == y && p[0..n] == x;
    OperatorTail(v, p, n, y);
    BlankThen(v, p, n, [[c], " ", y]);
    assert [" "] + [[c], " ", y] == [" ", [c], " ", y];
    GetCharTypeClasses(v, ' ');
    RunThen(v, p, WordChar, 0, n, [" ", [c], " ", y]);
    assert [x] + [" ", [c], " ", y] == [x, " ", [c], " ", y];
  }

  /** An operator followed by a word is two tokens. */
  lemma OperatorThenWord(v: Version, c: char, y: string)
    requires |y| > 0 && OfType(v, y, WordChar) && GetCharType(v, Some(c)) == Operator
    ensures TokenizeSpec(v, [c] + y) == Success([[c], y])
  {
    var p := [c] + y;
    WordToEnd(v, p, 1, y);
    OperatorThen(v, p, 0, [y]);
    assert [[p[0]]] + [y] == [[c], y];
  }

  /** A word with a blank on each side is the word alone: the leading and the trailing blank are dropped. */
  lemma BlanksAroundWord(v: Version, x: string)
    requires |x| > 0 && OfType(v, x, WordChar)
    ensures TokenizeSpec(v, [' '] + x + [' ']) == Success([x])
  {
    var p := [' '] + x + [' '];
    var n := |x|;
    GetCharTypeClasses(v, ' ');
    RawEnd(v, p);
    BlankThen(v, p, n + 1, []);
    assert [" "] + [] == [" "];
    assert p[1..n + 1] == x;
    RunThen(v, p, WordChar, 1, n + 1, [" "]);
    assert [x] + [" "] == [x, " "];
    assert p[1] == x[0];
    BlankThen(v, p, 0, [x, " "]);
    assert [" "] + [x, " "] == [" ", x, " "];
  }

  /** Input that is empty or all white space has no selector: reading its first token throws. */
  lemma BlankInputFails(v: Version, p: string)
    requires forall k :: 0 <= k < |p| ==> IsSpaceChar(p[k])
    ensures TokenizeSpec(v, p) == Failure(EmptySelector)
  {
    if |p| > 0 {
      forall m | 0 <= m < |p|
        ensures GetCharType(v, Some(p[m])) == WhiteSpace
      {
        GetCharTypeClasses(v, p[m]);
      }
      RawRun(v, p, WhiteSpace, 0, |p|);
    }
  }

  /** A step of `tokenize` that is not a literal: the token read, where the next one starts, and the class of what it covered. */
  lemma RawStep(v: Version, p: string, i: nat) returns (next: nat, tok: string)
    requires i < |p|
    requires GetCharType(v, Some(p[i])) in {WordChar, WhiteSpace, Operator}
    ensures i < next <= |p| && |tok| > 0 && tok[0] == p[i]
    ensures forall k :: i <= k < next ==> GetCharType(v, Some(p[k])) == GetCharType(v, Some(p[i]))
    ensures RawTokens(v, p, i) == Prepend([tok], RawTokens(v, p, next))
  {
    var kind := GetCharType(v, Some(p[i]));
    if kind == Operator {
      next, tok := i + 1, [p[i]];
    } else {
      next := RunEnd(v, p, kind, i + 1);
      tok := p[i..next];
    }
  }

  /**
   * Without quotes, tokenizing fails exactly when some character is of no
   * class, and then with `InvalidCharacter`.
   */
  lemma {:induction false} UnknownIffFails(v: Version, p: string, i: nat)
    requires i <= |p|
    requires forall k :: i <= k < |p| ==> GetCharType(v, Some(p[k])) != Quote
    ensures RawTokens(v, p, i).Failure? <==> exists k :: i <= k < |p| && GetCharType(v, Some(p[k])) == Unknown
    ensures RawTokens(v, p, i).Failure? ==> RawTokens(v, p, i).error == InvalidCharacter
    decreases |p| - i
  {
    if i < |p| {
      if GetCharType(v, Some(p[i])) == Unknown {
        assert RawTokens(v, p, i) == Failure(InvalidCharacter);
      } else {
        var next, tok := RawStep(v, p, i);
        UnknownIffFails(v, p, next);
        if exists k :: i <= k < |p| && GetCharType(v, Some(p[k])) == Unknown {
          var k :| i <= k < |p| && GetCharType(v, Some(p[k])) == Unknown;
          assert next <= k;
        }
      }
    }
  }

  /** No token is `*`: it is of no class, so `wildcard()` can never see one. */
  lemma {:induction false} RawTokensNeverStar(v: Version, p: string, i: nat)
    requires i <= |p|
    ensures RawTokens(v, p, i).Success? ==> forall k :: 0 <= k < |RawTokens(v, p, i).value| ==> RawTokens(v, p, i).value[k] != "*"
    decreases |p| - i
  {
    if i < |p| && RawTokens(v, p, i).Success? {
      GetCharTypeEdges(v, '*');
      var kind := GetCharType(v, Some(p[i]));
      if kind == Quote {
        var lit := LiteralFrom(p, i + 1, p[i]);
        assert RawTokens(v, p, i) == Prepend([CommaJoin([p[i]] + lit.value.0)], RawTokens(v, p, lit.value.1));
        RawTokensNeverStar(v, p, lit.value.1);
      } else {
        var next, tok := RawStep(v, p, i);
        RawTokensNeverStar(v, p, next);
      }
    }
  }

  /** Through `tokenize`, a selector never contains the token `*`. */
  lemma TokensNeverStar(v: Version, p: string)
    ensures TokenizeSpec(v, p).Success? ==> "*" !in TokenizeSpec(v, p).value
  {
    RawTokensNeverStar(v, p, 0);
  }

  /** A literal with no backslash and no early quote runs to the first quote after it. */
  lemma {:induction false} PlainLiteral(p: string, index: nat, q: char, e: nat)
    requires q != '\\' && index <= e < |p| && p[e] == q
    requires forall k :: index <= k < e ==> p[k] != q && p[k] != '\\'
    ensures LiteralFrom(p, index, q) == Success((p[index..e + 1], e + 1))
    decreases e - index
  {
    assert Escape(p, index) == (Some(p[index]), index + 1, false);
    if index == e {
      assert LiteralFrom(p, index, q) == Success(([q], e + 1));
      assert p[index..e + 1] == [q];
    } else {
      PlainLiteral(p, index + 1, q, e);
      LiteralStep(p, index, q);
      assert p[index..e + 1] == [p[index]] + p[index + 1..e + 1];
    }
  }

  /** A literal whose quote never comes again is unterminated. */
  lemma {:induction false} MissingQuoteFails(p: string, index: nat, q: char)
    requires forall k :: index <= k < |p| ==> p[k] != q
    ensures LiteralFrom(p, index, q) == Failure(UnterminatedLiteral)
    decreases |p| - index
  {
    var (ch, next, escaped) := Escape(p, index);
    assert ch != Some(q);
    if next < |p| {
      MissingQuoteFails(p, next, q);
    }
  }
}
