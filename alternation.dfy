/**
 * Whole-pattern alternation, added to `match` in the bundled version
 * (dist/array-matcher.mjs): a compiled pattern may hold `MATCH_OR_SYMBOL`
 * markers; `match` splits it at them, drops the empty groups and answers
 * whether some group matches under `matchToLinkedList`, trying them in order.
 */
module Alternation {
  import opened Wrappers
  import opened Cursor
  import opened Engine

  /** An element of a compiled pattern in the bundled version: a step, or `MATCH_OR_SYMBOL`. */
  datatype Entry<!T> = OrMarker | StepEntry(step: Step<T>)

  /** The steps of `p` in order, markers dropped. */
  function Steps<T>(p: seq<Entry<T>>): seq<Step<T>> {
    if p == [] then []
    else
      Steps(p[..|p| - 1]) + match p[|p| - 1] {
        case OrMarker => []
        case StepEntry(s) => [s]
      }
  }

  predicate NoMarker<T>(p: seq<Entry<T>>) {
    forall k :: 0 <= k < |p| ==> p[k].StepEntry?
  }

  /**
   * `p` cut at every marker: one more piece than there are markers, empty
   * pieces included (before a leading marker, between two adjacent ones,
   * after a trailing one).
   */
  function Pieces<T>(p: seq<Entry<T>>): (r: seq<seq<Step<T>>>)
    ensures |r| > 0
  {
    if p == [] then [[]] else Extend(Pieces(p[..|p| - 1]), p[|p| - 1])
  }

  /** One more entry: a marker opens a new piece, a step joins the last one. */
  function Extend<T>(ps: seq<seq<Step<T>>>, e: Entry<T>): (r: seq<seq<Step<T>>>)
    requires |ps| > 0
    ensures |r| > 0
  {
    match e
    case OrMarker => ps + [[]]
    case StepEntry(s) => ps[..|ps| - 1] + [ps[|ps| - 1] + [s]]
  }

  lemma PiecesSnoc<T>(q: seq<Entry<T>>, e: Entry<T>)
    ensures Pieces(q + [e]) == Extend(Pieces(q), e)
  {
    assert (q + [e])[..|q|] == q;
  }

  lemma StepsSnoc<T>(q: seq<Entry<T>>, e: Entry<T>)
    ensures Steps(q + [e]) == Steps(q) + if e.OrMarker? then [] else [e.step]
  {
    assert (q + [e])[..|q|] == q;
  }

  lemma NonEmptySnoc<T>(gs: seq<seq<T>>, g: seq<T>)
    ensures NonEmpty(gs + [g]) == NonEmpty(gs) + if |g| == 0 then [] else [g]
  {
    assert (gs + [g])[..|gs|] == gs;
  }

  /** The non-empty pieces, in order. */
  function NonEmpty<T>(gs: seq<seq<T>>): seq<seq<T>> {
    if gs == [] then []
    else NonEmpty(gs[..|gs| - 1]) + if |gs[|gs| - 1]| == 0 then [] else [gs[|gs| - 1]]
  }

  /** The groups `match` tries: the pattern split at its markers, empty groups dropped. */
  function Groups<T>(p: seq<Entry<T>>): seq<seq<Step<T>>> {
    NonEmpty(Pieces(p))
  }

  function Concat<T>(gs: seq<seq<T>>): seq<T> {
    if gs == [] then [] else Concat(gs[..|gs| - 1]) + gs[|gs| - 1]
  }

  /** The bundled `match`, as a specification: some group matches the whole target. */
  ghost predicate MatchesSomeGroup<T>(p: seq<Entry<T>>, t: seq<T>) {
    exists k :: 0 <= k < |Groups(p)| && Matches(Groups(p)[k], t)
  }

  lemma NonEmptyAppend<T>(a: seq<seq<T>>, b: seq<seq<T>>)
    ensures NonEmpty(a + b) == NonEmpty(a) + NonEmpty(b)
    decreases |b|
  {
    if b == [] {
      assert a + b == a;
    } else {
      assert (a + b)[..|a + b| - 1] == a + b[..|b| - 1];
      NonEmptyAppend(a, b[..|b| - 1]);
    }
  }

  lemma {:induction false} ConcatAppend<T>(a: seq<seq<T>>, b: seq<seq<T>>)
    ensures Concat(a + b) == Concat(a) + Concat(b)
    decreases |b|
  {
    if b == [] {
      assert a + b == a;
    } else {
      var front, last := b[..|b| - 1], b[|b| - 1];
      assert (a + b)[..|a + b| - 1] == a + front;
      assert (a + b)[|a + b| - 1] == last;
      ConcatAppend(a, front);
      assert Concat(b) == Concat(front) + last;
      assert Concat(a + b) == Concat(a + front) + last;
      assert (Concat(a) + Concat(front)) + last == Concat(a) + (Concat(front) + last);
    }
  }

  /** Every group `match` tries holds at least one step. */
  lemma {:induction false} GroupsAreNonEmpty<T>(p: seq<Entry<T>>, k: nat)
    requires k < |Groups(p)|
    ensures |Groups(p)[k]| > 0
  {
    NonEmptyHasNoEmpty(Pieces(p), k);
  }

  lemma {:induction false} NonEmptyHasNoEmpty<T>(gs: seq<seq<T>>, k: nat)
    requires k < |NonEmpty(gs)|
    ensures |NonEmpty(gs)[k]| > 0
    decreases |gs|
  {
    var init := gs[..|gs| - 1];
    if k < |NonEmpty(init)| {
      NonEmptyHasNoEmpty(init, k);
    }
  }

  lemma {:induction false} ConcatNonEmpty<T>(gs: seq<seq<T>>)
    ensures Concat(NonEmpty(gs)) == Concat(gs)
    decreases |gs|
  {
    if gs != [] {
      var init, last := gs[..|gs| - 1], gs[|gs| - 1];
      ConcatNonEmpty(init);
      ConcatAppend(NonEmpty(init), if |last| == 0 then [] else [last]);
      if |last| == 0 {
        assert Concat(init) + last == Concat(init);
      } else {
        assert Concat([last]) == Concat([]) + last;
      }
    }
  }

  lemma {:induction false} ConcatPieces<T>(p: seq<Entry<T>>)
    ensures Concat(Pieces(p)) == Steps(p)
    decreases |p|
  {
    if p != [] {
      var q := p[..|p| - 1];
      var init := Pieces(q);
      ConcatPieces(q);
      match p[|p| - 1]
      case OrMarker =>
        ConcatAppend(init, [[]]);
        var e: seq<seq<Step<T>>> := [[]];
        assert Concat(e) == Concat(e[..0]) + [];
      case StepEntry(s) =>
        var front := init[..|init| - 1];
        assert init == front + [init[|init| - 1]];
        ConcatAppend(front, [init[|init| - 1]]);
        ConcatAppend(front, [init[|init| - 1] + [s]]);
        assert Concat([init[|init| - 1]]) == Concat([]) + init[|init| - 1];
        assert Concat([init[|init| - 1] + [s]]) == Concat([]) + (init[|init| - 1] + [s]);
    }
  }

  /** The groups, laid end to end, are the steps of the pattern in order: no step is lost or moved. */
  lemma GroupsConcat<T>(p: seq<Entry<T>>)
    ensures Concat(Groups(p)) == Steps(p)
  {
    ConcatNonEmpty(Pieces(p));
    ConcatPieces(p);
  }

  /** A marker-free pattern is a single piece. */
  lemma {:induction false} PiecesNoMarker<T>(p: seq<Entry<T>>)
    requires NoMarker(p)
    ensures Pieces(p) == [Steps(p)]
    decreases |p|
  {
    if p != [] {
      var q := p[..|p| - 1];
      assert NoMarker(q);
      PiecesNoMarker(q);
      assert p[|p| - 1].StepEntry?;
    }
  }

  /** A pattern without markers and with at least one step is one group: the whole pattern. */
  lemma NoMarkerOneGroup<T>(p: seq<Entry<T>>)
    requires NoMarker(p) && |p| > 0
    ensures Groups(p) == [Steps(p)]
  {
    PiecesNoMarker(p);
    StepsOfNoMarker(p);
    NonEmptySnoc([], Steps(p));
    assert [] + [Steps(p)] == [Steps(p)];
  }

  lemma {:induction false} StepsOfNoMarker<T>(p: seq<Entry<T>>)
    requires NoMarker(p)
    ensures |Steps(p)| == |p|
    decreases |p|
  {
    if p != [] {
      var q := p[..|p| - 1];
      assert NoMarker(q);
      StepsOfNoMarker(q);
      assert p[|p| - 1].StepEntry?;
    }
  }

  /** A pattern made only of markers, the empty one included, has no group at all. */
  lemma {:induction false} OnlyMarkersNoGroups<T>(p: seq<Entry<T>>)
    requires forall k :: 0 <= k < |p| ==> p[k].OrMarker?
    ensures Groups(p) == []
    decreases |p|
  {
    if p != [] {
      var q := p[..|p| - 1];
      assert forall k :: 0 <= k < |q| ==> q[k].OrMarker?;
      OnlyMarkersNoGroups(q);
      assert p[|p| - 1].OrMarker?;
      assert Pieces(p) == Pieces(q) + [[]];
      OnlyMarkersPiecesEmpty(q);
      NonEmptyAppend(Pieces(q), [[]]);
    }
  }

  lemma {:induction false} OnlyMarkersPiecesEmpty<T>(p: seq<Entry<T>>)
    requires forall k :: 0 <= k < |p| ==> p[k].OrMarker?
    ensures forall k :: 0 <= k < |Pieces(p)| ==> |Pieces(p)[k]| == 0
    decreases |p|
  {
    if p != [] {
      var q := p[..|p| - 1];
      assert forall k :: 0 <= k < |q| ==> q[k].OrMarker?;
      OnlyMarkersPiecesEmpty(q);
      assert p[|p| - 1].OrMarker?;
    }
  }

  lemma ExtendAppend<T>(A: seq<seq<Step<T>>>, B: seq<seq<Step<T>>>, e: Entry<T>)
    requires |B| > 0
    ensures Extend(A + B, e) == A + Extend(B, e)
  {
    if e.StepEntry? {
      assert (A + B)[..|A + B| - 1] == A + B[..|B| - 1];
    }
  }

  /** After a marker the pieces start afresh: the pieces of `a`, then those of `b`. */
  lemma {:induction false} PiecesAfterMarker<T>(a: seq<Entry<T>>, b: seq<Entry<T>>)
    ensures Pieces(a + [OrMarker] + b) == Pieces(a) + Pieces(b)
    decreases |b|
  {
    if b == [] {
      assert a + [OrMarker] + b == a + [OrMarker];
      PiecesSnoc(a, OrMarker);
    } else {
      var b', e := b[..|b| - 1], b[|b| - 1];
      assert b == b' + [e];
      assert a + [OrMarker] + b == (a + [OrMarker] + b') + [e];
      PiecesAfterMarker(a, b');
      PiecesSnoc(a + [OrMarker] + b', e);
      PiecesSnoc(b', e);
      ExtendAppend(Pieces(a), Pieces(b'), e);
    }
  }

  /** A marker is a whole-pattern OR: the groups of `a`, then the groups of `b`. */
  lemma GroupsAfterMarker<T>(a: seq<Entry<T>>, b: seq<Entry<T>>)
    ensures Groups(a + [OrMarker] + b) == Groups(a) + Groups(b)
  {
    PiecesAfterMarker(a, b);
    NonEmptyAppend(Pieces(a), Pieces(b));
  }

  /** So the bundled `match` on `a`, a marker and `b` holds exactly when it holds on `a` or on `b`. */
  lemma MarkerIsOr<T>(a: seq<Entry<T>>, b: seq<Entry<T>>, t: seq<T>)
    ensures MatchesSomeGroup(a + [OrMarker] + b, t) <==> MatchesSomeGroup(a, t) || MatchesSomeGroup(b, t)
  {
    GroupsAfterMarker(a, b);
    var ga, gb := Groups(a), Groups(b);
    var g := Groups(a + [OrMarker] + b);
    assert g == ga + gb;
    if MatchesSomeGroup(a + [OrMarker] + b, t) {
      var k :| 0 <= k < |g| && Matches(g[k], t);
      if k < |ga| {
        assert Matches(ga[k], t);
      } else {
        assert Matches(gb[k - |ga|], t);
      }
    }
    if MatchesSomeGroup(a, t) {
      var k :| 0 <= k < |ga| && Matches(ga[k], t);
      assert g[k] == ga[k];
    }
    if MatchesSomeGroup(b, t) {
      var k :| 0 <= k < |gb| && Matches(gb[k], t);
      assert g[|ga| + k] == gb[k];
    }
  }

  /** A marker-free, non-empty pattern means under the bundled `match` what it means under `matchToLinkedList`. */
  lemma NoMarkerAsBefore<T>(p: seq<Entry<T>>, t: seq<T>)
    requires NoMarker(p) && |p| > 0
    ensures MatchesSomeGroup(p, t) <==> Matches(Steps(p), t)
  {
    NoMarkerOneGroup(p);
    if Matches(Steps(p), t) {
      assert Matches(Groups(p)[0], t);
    }
  }

  /** An empty or marker-only pattern matches nothing, not even `[]`; without alternation `[]` matches `[]`. */
  lemma OnlyMarkersMatchNothing<T>(p: seq<Entry<T>>, t: seq<T>)
    requires forall k :: 0 <= k < |p| ==> p[k].OrMarker?
    ensures !MatchesSomeGroup(p, t)
    ensures Matches([], t) <==> t == []
  {
    OnlyMarkersNoGroups(p);
  }

  /** What the splitting loop keeps: the pieces so far are the closed ones plus the open run `pattern[from..index]`. */
  ghost predicate SplitState<T>(pattern: seq<Entry<T>>, index: nat, from: nat, closed: seq<seq<Step<T>>>) {
    from <= index <= |pattern| &&
    Pieces(pattern[..index]) == closed + [Steps(pattern[from..index])] &&
    NoMarker(pattern[from..index])
  }

  lemma SplitMarker<T>(pattern: seq<Entry<T>>, index: nat, from: nat, closed: seq<seq<Step<T>>>, run: seq<Step<T>>)
    requires SplitState(pattern, index, from, closed) && index < |pattern| && pattern[index].OrMarker?
    requires run == Steps(pattern[from..index])
    ensures SplitState(pattern, index + 1, index + 1, closed + [run])
    ensures NonEmpty(closed + [run]) == NonEmpty(closed) + if index > from then [run] else []
  {
    assert pattern[..index + 1] == pattern[..index] + [pattern[index]];
    PiecesSnoc(pattern[..index], pattern[index]);
    StepsOfNoMarker(pattern[from..index]);
    NonEmptySnoc(closed, run);
    assert pattern[index + 1..index + 1] == [];
  }

  lemma SplitStep<T>(pattern: seq<Entry<T>>, index: nat, from: nat, closed: seq<seq<Step<T>>>)
    requires SplitState(pattern, index, from, closed) && index < |pattern| && pattern[index].StepEntry?
    ensures SplitState(pattern, index + 1, from, closed)
  {
    var run := pattern[from..index];
    assert pattern[..index + 1] == pattern[..index] + [pattern[index]];
    assert pattern[from..index + 1] == run + [pattern[index]];
    PiecesSnoc(pattern[..index], pattern[index]);
    StepsSnoc(run, pattern[index]);
    ExtendAppend(closed, [Steps(run)], pattern[index]);
  }

  lemma SplitDone<T>(pattern: seq<Entry<T>>, from: nat, closed: seq<seq<Step<T>>>)
    requires SplitState(pattern, |pattern|, from, closed)
    ensures Groups(pattern) == NonEmpty(closed) + if from <= |pattern| - 1 then [Steps(pattern[from..])] else []
  {
    assert pattern[..|pattern|] == pattern;
    StepsOfNoMarker(pattern[from..]);
    NonEmptyAppend(closed, [Steps(pattern[from..])]);
    NonEmptySnoc([], Steps(pattern[from..]));
    assert [] + [Steps(pattern[from..])] == [Steps(pattern[from..])];
  }

  /** The splitting loop of the bundled `match`. */
  method SplitPattern<T>(pattern: seq<Entry<T>>) returns (patternSplit: seq<seq<Step<T>>>)
    ensures patternSplit == Groups(pattern)
  {
    patternSplit := [];
    var index, from := 0, 0;
    ghost var closed: seq<seq<Step<T>>> := [];
    while index < |pattern|
      invariant SplitState(pattern, index, from, closed)
      invariant patternSplit == NonEmpty(closed)
    {
      if pattern[index].OrMarker? {
        var run := Steps(pattern[from..index]);
        SplitMarker(pattern, index, from, closed, run);
        if index > from {
          patternSplit := patternSplit + [run];
        }
        closed := closed + [run];
        from := index + 1;
      } else {
        SplitStep(pattern, index, from, closed);
      }
      index := index + 1;
    }
    SplitDone(pattern, from, closed);
    if from <= |pattern| - 1 {
      patternSplit := patternSplit + [Steps(pattern[from..])];
    }
  }

  /** `match` of the bundled version. */
  method MatchAlternatives<T>(pattern: seq<Entry<T>>, target: seq<T>) returns (r: bool)
    ensures r == MatchesSomeGroup(pattern, target)
  {
    var patternSplit := SplitPattern(pattern);
    for k := 0 to |patternSplit|
      invariant forall m :: 0 <= m < k ==> !Matches(patternSplit[m], target)
    {
      var pl := LinkedList<Step<T>>.FromArray(patternSplit[k]);
      var tl := LinkedList<T>.FromArray(target);
      var ok := MatchToLinkedList(pl, tl);
      if ok {
        return true;
      }
    }
    return false;
  }
}
