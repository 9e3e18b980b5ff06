/**
 * The backtracking engine of src/matcher.mjs: `matchToLinkedList` and `match`.
 *
 * A step maps the current target element (or `undefined`, here `None`, at the
 * end) to a reply. The engine decides whether the whole pattern consumes the
 * whole target. `MatchFrom` is the specification, written over positions in
 * the pattern and the target; `MatchToLinkedList` is the loop of the source,
 * over cursor objects, proved equal to it.
 */
module Engine {
  import opened Wrappers
  import opened Cursor

  /**
   * What a step returns: one of the four signal symbols, or an ordinary value
   * of which only its truthiness matters. `FAIL` is the ordinary value `false`.
   */
  datatype Reply = Ok | NoConsume | NoOrOneConsume | AnyConsume | Plain(truthy: bool)

  const Fail: Reply := Plain(false)

  type Step<!T> = Option<T> -> Reply

  /** JavaScript truthiness of a reply: symbols are truthy, a plain value as it says. */
  predicate Truthy(r: Reply) {
    !r.Plain? || r.truthy
  }

  /** JavaScript's `a || b`. */
  function Or(a: Reply, b: Reply): Reply
  {
    if Truthy(a) then a else b
  }

  /** `ANY_CONSUME_MATCHER`: ignores its element and asks for any number of them. */
  function AnyConsumeMatcher<T>(): Step<T> {
    _ => AnyConsume
  }

  /** The position after `shift()`: one further, or unchanged once exhausted. */
  function Next<T>(t: seq<T>, j: nat): nat
    requires j <= |t|
  {
    if j < |t| then j + 1 else j
  }

  /**
   * Whether steps `p[i..]` match target elements `t[j..]`, exactly as the
   * loop of `matchToLinkedList` decides it.
   */
  function MatchFrom<T>(p: seq<Step<T>>, i: nat, t: seq<T>, j: nat): bool
    requires i <= |p| && j <= |t|
    decreases |p| - i, 0, 0
  {
    if i == |p| then j == |t|
    else
      var res := Or(p[i](At(t, j)), Fail);
      if res == Fail then false
      else if res == NoConsume then MatchFrom(p, i + 1, t, j)
      else if res == NoOrOneConsume then
        (j == |t| && i + 1 == |p|)
        || MatchFrom(p, i + 1, t, j)
        || MatchFrom(p, i + 1, t, Next(t, j))
      else if res == AnyConsume then
        (j == |t| && i + 1 == |p|) || AnyFrom(p, i + 1, t, j)
      else MatchFrom(p, i + 1, t, Next(t, j))
  }

  /**
   * The inner loop over `targetClone` for `ANY_CONSUME`: the rest `p[i..]` is
   * tried at target positions `k, k + 1, ...` short of the end; if none works,
   * the answer is whether no step remains.
   */
  function AnyFrom<T>(p: seq<Step<T>>, i: nat, t: seq<T>, k: nat): bool
    requires i <= |p| && k <= |t|
    decreases |p| - i, 1, |t| - k
  {
    if k == |t| then i == |p|
    else MatchFrom(p, i, t, k) || AnyFrom(p, i, t, k + 1)
  }

  /** `match(pattern, target)` of src/matcher.mjs, as a specification. */
  function Matches<T>(p: seq<Step<T>>, t: seq<T>): bool {
    MatchFrom(p, 0, t, 0)
  }

  /** An exhausted pattern succeeds exactly when the target is exhausted too: no implicit trailing wildcard. */
  lemma ExhaustedPattern<T>(p: seq<Step<T>>, t: seq<T>, j: nat)
    requires j <= |t|
    ensures MatchFrom(p, |p|, t, j) <==> j == |t|
  {
  }

  /** A step answering `FAIL`, or anything falsy, ends the whole call with false. */
  lemma FailAborts<T>(p: seq<Step<T>>, i: nat, t: seq<T>, j: nat)
    requires i < |p| && j <= |t|
    requires !Truthy(p[i](At(t, j)))
    ensures !MatchFrom(p, i, t, j)
  {
  }

  /** `NO_CONSUME` moves to the next step and leaves the target where it is. */
  lemma NoConsumeStep<T>(p: seq<Step<T>>, i: nat, t: seq<T>, j: nat)
    requires i < |p| && j <= |t|
    requires p[i](At(t, j)) == NoConsume
    ensures MatchFrom(p, i, t, j) == MatchFrom(p, i + 1, t, j)
  {
  }

  /**
   * `NO_OR_ONE_CONSUME` tries the rest with nothing consumed, then with exactly
   * one element consumed, and with no other amount.
   */
  lemma NoOrOneConsumeStep<T>(p: seq<Step<T>>, i: nat, t: seq<T>, j: nat)
    requires i < |p| && j <= |t|
    requires p[i](At(t, j)) == NoOrOneConsume
    ensures MatchFrom(p, i, t, j) <==> MatchFrom(p, i + 1, t, j) || (j < |t| && MatchFrom(p, i + 1, t, j + 1))
  {
    if j == |t| && i + 1 == |p| {
      ExhaustedPattern(p, t, j);
    }
  }

  /**
   * Any other truthy reply consumes exactly one element; on an exhausted
   * target that `shift()` is a no-op and the rest is tried at the end.
   */
  lemma ConsumeOneStep<T>(p: seq<Step<T>>, i: nat, t: seq<T>, j: nat)
    requires i < |p| && j <= |t|
    requires Truthy(p[i](At(t, j)))
    requires p[i](At(t, j)) !in {NoConsume, NoOrOneConsume, AnyConsume}
    ensures MatchFrom(p, i, t, j) == MatchFrom(p, i + 1, t, Next(t, j))
  {
  }

  /** Some position from `lo` up to, but not including, the end of `t` lets `p[i..]` match. */
  ghost predicate MatchesSomewhereFrom<T>(p: seq<Step<T>>, i: nat, t: seq<T>, lo: nat)
    requires i <= |p|
  {
    exists m :: lo <= m < |t| && MatchFrom(p, i, t, m)
  }

  /**
   * The inner loop's answer as a search: some position from `k` up to, but
   * not including, the end lets the rest match, or no step remains.
   */
  lemma {:induction false} AnyFromExists<T>(p: seq<Step<T>>, i: nat, t: seq<T>, k: nat)
    requires i <= |p| && k <= |t|
    ensures AnyFrom(p, i, t, k) <==> MatchesSomewhereFrom(p, i, t, k) || i == |p|
    decreases |t| - k
  {
    if k < |t| {
      AnyFromExists(p, i, t, k + 1);
      assert AnyFrom(p, i, t, k) == (MatchFrom(p, i, t, k) || AnyFrom(p, i, t, k + 1));
      if MatchFrom(p, i, t, k) {
        assert MatchesSomewhereFrom(p, i, t, k);
      }
      if MatchesSomewhereFrom(p, i, t, k + 1) {
        var m :| k + 1 <= m < |t| && MatchFrom(p, i, t, m);
        assert MatchesSomewhereFrom(p, i, t, k);
      }
      if MatchesSomewhereFrom(p, i, t, k) {
        var m :| k <= m < |t| && MatchFrom(p, i, t, m);
        if m != k {
          assert MatchesSomewhereFrom(p, i, t, k + 1);
        }
      }
    }
  }

  /**
   * `ANY_CONSUME` with `n` elements left tries the rest after consuming 0 to
   * `n - 1` of them; if none works, the call succeeds only when no step
   * remains. Consuming all `n` and then running further steps is never tried.
   */
  lemma AnyConsumeStep<T>(p: seq<Step<T>>, i: nat, t: seq<T>, j: nat)
    requires i < |p| && j <= |t|
    requires p[i](At(t, j)) == AnyConsume
    ensures MatchFrom(p, i, t, j) <==> MatchesSomewhereFrom(p, i + 1, t, j) || i + 1 == |p|
  {
    AnyFromExists(p, i + 1, t, j);
  }

  /**
   * A trailing `ANY_CONSUME` absorbs whatever is left of the target, the
   * empty rest included.
   */
  lemma TrailingAnyConsume<T>(p: seq<Step<T>>, t: seq<T>, j: nat)
    requires |p| > 0 && j <= |t|
    requires p[|p| - 1](At(t, j)) == AnyConsume
    ensures MatchFrom(p, |p| - 1, t, j)
  {
    AnyConsumeStep(p, |p| - 1, t, j);
  }

  /** A step that consumes exactly one element: it never signals, and it fails at the end of the target. */
  ghost predicate ConsumesExactlyOne<T(!new)>(s: Step<T>) {
    (forall o :: s(o) == Ok || s(o).Plain?) && !Truthy(s(None))
  }

  /**
   * Exactness: steps that each consume exactly one element match precisely
   * the targets of the same length whose elements they accept position by
   * position.
   */
  lemma {:induction false} ExactPattern<T(!new)>(p: seq<Step<T>>, i: nat, t: seq<T>, j: nat)
    requires i <= |p| && j <= |t|
    requires forall k :: i <= k < |p| ==> ConsumesExactlyOne(p[k])
    ensures MatchFrom(p, i, t, j) <==>
      |p| - i == |t| - j && forall k :: i <= k < |p| ==> Truthy(p[k](Some(t[k - i + j])))
    decreases |p| - i
  {
    if i < |p| {
      assert ConsumesExactlyOne(p[i]);
      if j == |t| {
        FailAborts(p, i, t, j);
      } else if !Truthy(p[i](At(t, j))) {
        FailAborts(p, i, t, j);
      } else {
        ConsumeOneStep(p, i, t, j);
        ExactPattern(p, i + 1, t, j + 1);
        if |p| - i == |t| - j {
          if forall k :: i + 1 <= k < |p| ==> Truthy(p[k](Some(t[k - (i + 1) + (j + 1)]))) {
            assert forall k :: i <= k < |p| ==> Truthy(p[k](Some(t[k - i + j])));
          }
        }
      }
    }
  }

  /**
   * A leading `ANY_CONSUME` followed by steps that each consume exactly one
   * element: the targets whose last `|p| - 1` elements those steps accept in
   * order, whatever comes before them.
   */
  lemma AnyThenExact<T(!new)>(p: seq<Step<T>>, t: seq<T>)
    requires |p| >= 2 && forall o :: p[0](o) == AnyConsume
    requires forall k :: 1 <= k < |p| ==> ConsumesExactlyOne(p[k])
    ensures Matches(p, t) <==>
      |t| >= |p| - 1 && forall k :: 1 <= k < |p| ==> Truthy(p[k](Some(t[|t| - |p| + k])))
  {
    assert p[0](At(t, 0)) == AnyConsume;
    AnyConsumeStep(p, 0, t, 0);
    if Matches(p, t) {
      var m :| 0 <= m < |t| && MatchFrom(p, 1, t, m);
      ExactPattern(p, 1, t, m);
    }
    if |t| >= |p| - 1 && forall k :: 1 <= k < |p| ==> Truthy(p[k](Some(t[|t| - |p| + k]))) {
      var m := |t| - |p| + 1;
      ExactPattern(p, 1, t, m);
      assert MatchFrom(p, 1, t, m);
    }
  }

  /** `[ANY_CONSUME, a]`: the targets whose last element `a` accepts. */
  lemma AnyThenOne<T(!new)>(any: Step<T>, a: Step<T>, t: seq<T>)
    requires forall o :: any(o) == AnyConsume
    requires ConsumesExactlyOne(a)
    ensures Matches([any, a], t) <==> |t| >= 1 && Truthy(a(Some(t[|t| - 1])))
  {
    var p := [any, a];
    AnyThenExact(p, t);
    if |t| >= 1 {
      assert p[1] == a && t[|t| - |p| + 1] == t[|t| - 1];
    }
  }

  /** `[ANY_CONSUME, a, b]`: the targets whose last two elements `a` and `b` accept. */
  lemma AnyThenTwo<T(!new)>(any: Step<T>, a: Step<T>, b: Step<T>, t: seq<T>)
    requires forall o :: any(o) == AnyConsume
    requires ConsumesExactlyOne(a) && ConsumesExactlyOne(b)
    ensures Matches([any, a, b], t) <==> |t| >= 2 && Truthy(a(Some(t[|t| - 2]))) && Truthy(b(Some(t[|t| - 1])))
  {
    var p := [any, a, b];
    AnyThenExact(p, t);
    if |t| >= 2 {
      assert p[1] == a && t[|t| - |p| + 1] == t[|t| - 2];
      assert p[2] == b && t[|t| - |p| + 2] == t[|t| - 1];
    }
  }

  /** What calling a step does in JavaScript: it returns a reply, or it throws (reading a property of `undefined`). */
  datatype Outcome = Returned(reply: Reply) | Threw

  /** `[ANY_CONSUME, NO_CONSUME]` fails even on `[]`: after `ANY_CONSUME` the end of the target is never tried. */
  lemma AnyConsumeThenNoConsumeRejectsEmpty<T>()
    ensures !Matches([AnyConsumeMatcher<T>(), (_ => NoConsume)], [])
  {
    var p: seq<Step<T>> := [AnyConsumeMatcher<T>(), (_ => NoConsume)];
    assert p[0](At([], 0)) == AnyConsume;
    AnyConsumeStep(p, 0, [], 0);
  }

  /** `[NO_CONSUME]` matches `[]`. */
  lemma NoConsumeMatchesEmpty<T>()
    ensures Matches<T>([(_ => NoConsume)], [])
  {
    var p: seq<Step<T>> := [(_ => NoConsume)];
    NoConsumeStep(p, 0, [], 0);
  }

  /**
   * `matchToLinkedList`: consumes `patternList` and `targetList` and answers
   * as the specification does for the positions they started at.
   */
  method MatchToLinkedList<T>(patternList: LinkedList<Step<T>>, targetList: LinkedList<T>) returns (r: bool)
    requires patternList.Valid() && targetList.Valid()
    requires patternList as object != targetList as object
    modifies patternList, targetList
    decreases |patternList.items| - patternList.pos, 0
    ensures r == MatchFrom(patternList.items, old(patternList.pos), targetList.items, old(targetList.pos))
  {
    ghost var p, t := patternList.items, targetList.items;
    ghost var goal := MatchFrom(p, patternList.pos, t, targetList.pos);
    ghost var start := patternList.pos;
    while patternList.HasValue()
      invariant patternList.Valid() && targetList.Valid()
      invariant start <= patternList.pos
      invariant MatchFrom(p, patternList.pos, t, targetList.pos) == goal
      decreases |p| - patternList.pos
    {
      ghost var i, j := patternList.pos, targetList.pos;
      var pattern := patternList.Shift();
      var res := Or(pattern.value(targetList.Current()), Fail);
      assert pattern.value == p[i] && targetList.Current() == At(t, j);
      if res == Fail {
        FailAborts(p, i, t, j);
        return false;
      } else if res == NoConsume {
        NoConsumeStep(p, i, t, j);
      } else if res == NoOrOneConsume {
        assert goal == ((j == |t| && i + 1 == |p|) || MatchFrom(p, i + 1, t, j) || MatchFrom(p, i + 1, t, Next(t, j)));
        r := NoOrOneConsumeRest(patternList, targetList);
        return;
      } else if res == AnyConsume {
        assert goal == ((j == |t| && i + 1 == |p|) || AnyFrom(p, i + 1, t, j));
        if !targetList.HasValue() && !patternList.HasValue() {
          return true;
        }
        r := AnyConsumeLoop(patternList, targetList);
        return;
      } else {
        ConsumeOneStep(p, i, t, j);
        var _ := targetList.Shift();
      }
    }
    r := !targetList.HasValue();
  }

  /** What `matchToLinkedList` does after a `NO_OR_ONE_CONSUME` reply: the rest with nothing consumed, then with one element consumed. */
  method NoOrOneConsumeRest<T>(patternList: LinkedList<Step<T>>, targetList: LinkedList<T>) returns (r: bool)
    requires patternList.Valid() && targetList.Valid()
    requires patternList as object != targetList as object
    modifies targetList
    decreases |patternList.items| - patternList.pos, 1
    ensures r == ((old(targetList.pos) == |targetList.items| && patternList.pos == |patternList.items|)
      || MatchFrom(patternList.items, patternList.pos, targetList.items, old(targetList.pos))
      || MatchFrom(patternList.items, patternList.pos, targetList.items, Next(targetList.items, old(targetList.pos))))
  {
    if !targetList.HasValue() && !patternList.HasValue() {
      return true;
    }
    var pc := patternList.Clone();
    var tc := targetList.Clone();
    var ok := MatchToLinkedList(pc, tc);
    if ok {
      return true;
    }
    var _ := targetList.Shift();
    pc := patternList.Clone();
    r := MatchToLinkedList(pc, targetList);
  }

  /**
   * The `ANY_CONSUME` branch of `matchToLinkedList`, once the step has been
   * shifted off `patternList`: the rest is tried on clones of the target
   * advanced by 0, 1, ... elements, short of the end, and then the answer is
   * whether no step remains.
   */
  method AnyConsumeLoop<T>(patternList: LinkedList<Step<T>>, targetList: LinkedList<T>) returns (r: bool)
    requires patternList.Valid() && targetList.Valid()
    decreases |patternList.items| - patternList.pos, 1
    ensures r == AnyFrom(patternList.items, patternList.pos, targetList.items, targetList.pos)
  {
    var targetClone := targetList.Clone();
    while targetClone.HasValue()
      invariant targetClone.Valid() && targetClone.items == targetList.items
      invariant targetList.pos <= targetClone.pos
      invariant AnyFrom(patternList.items, patternList.pos, targetList.items, targetClone.pos)
        == AnyFrom(patternList.items, patternList.pos, targetList.items, targetList.pos)
      decreases |targetClone.items| - targetClone.pos
    {
      var pc := patternList.Clone();
      var tc := targetClone.Clone();
      var ok := MatchToLinkedList(pc, tc);
      if ok {
        return true;
      }
      var _ := targetClone.Shift();
    }
    r := !patternList.HasValue();
  }

  /** `match(pattern, target)` of src/matcher.mjs. */
  method Match<T>(pattern: seq<Step<T>>, target: seq<T>) returns (r: bool)
    ensures r == Matches(pattern, target)
  {
    var pl := LinkedList<Step<T>>.FromArray(pattern);
    var tl := LinkedList<T>.FromArray(target);
    r := MatchToLinkedList(pl, tl);
  }
}
