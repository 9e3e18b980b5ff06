/**
 * The sequence cursor of src/util.js: a one-way linked view over an array.
 * The chain of nodes is never changed once built, so the model keeps it as the
 * immutable sequence `items`; the only mutable state is the cursor's own
 * position in it, which stands for the `node` field.
 */
module Cursor {
  import opened Wrappers

  class LinkedList<T> {
    /** The node chain, shared by every clone of this cursor. */
    const items: seq<T>
    /** Where `node` points: `|items|` is the null node past the end. */
    var pos: nat

    ghost predicate Valid()
      reads this
    {
      pos <= |items|
    }

    /** The elements still to come. */
    ghost function Rest(): seq<T>
      reads this
      requires Valid()
    {
      items[pos..]
    }

    /** A cursor on the given node of a chain. */
    constructor (items: seq<T>, pos: nat)
      requires pos <= |items|
      ensures Valid() && this.items == items && this.pos == pos
    {
      this.items := items;
      this.pos := pos;
    }

    /** The value of the current node, or `undefined` once the cursor is exhausted. */
    function Current(): (r: Option<T>)
      reads this
      requires Valid()
      ensures r.Some? <==> HasValue()
      ensures r.Some? ==> r.value == Rest()[0]
    {
      if pos < |items| then Some(items[pos]) else None
    }

    /** True if and only if a node remains. */
    predicate HasValue()
      reads this
      requires Valid()
    {
      pos < |items|
    }

    /**
     * Returns the current value and moves to the next node; on an exhausted
     * cursor it returns `undefined` and stays where it is.
     */
    method Shift() returns (r: Option<T>)
      requires Valid()
      modifies this
      ensures Valid()
      ensures r == old(Current())
      ensures old(HasValue()) ==> Rest() == old(Rest())[1..]
      ensures !old(HasValue()) ==> Rest() == [] && pos == old(pos)
      ensures pos == if old(pos) < |items| then old(pos) + 1 else old(pos)
    {
      r := Current();
      if pos < |items| {
        pos := pos + 1;
      }
    }

    /** A new cursor on the same node; the chain is shared, not copied. */
    method Clone() returns (c: LinkedList<T>)
      requires Valid()
      ensures fresh(c) && c.Valid()
      ensures c.items == items && c.pos == pos
    {
      c := new LinkedList(items, pos);
    }

    /** A cursor on the first element of `arr` (on the null node when `arr` is empty). */
    static method FromArray(arr: seq<T>) returns (l: LinkedList<T>)
      ensures fresh(l) && l.Valid()
      ensures l.items == arr && l.pos == 0 && l.Rest() == arr
    {
      if |arr| == 0 {
        l := new LinkedList([], 0);
      } else {
        l := new LinkedList(arr, 0);
      }
    }
  }

  /** `fromArray([])` is exhausted at once: no value, and `current` is `undefined`. */
  method EmptyCursorHasNoValue<T>() returns (hasValue: bool, current: Option<T>)
    ensures !hasValue && current == None
  {
    var l := LinkedList<T>.FromArray([]);
    hasValue := l.HasValue();
    current := l.Current();
  }

  /**
   * Shifting a fresh cursor `|arr| + 1` times yields the elements of `arr` in
   * order and then `undefined`.
   */
  method ShiftAll<T>(arr: seq<T>) returns (out: seq<Option<T>>)
    ensures |out| == |arr| + 1
    ensures forall k :: 0 <= k < |arr| ==> out[k] == Some(arr[k])
    ensures out[|arr|] == None
  {
    var l := LinkedList<T>.FromArray(arr);
    out := [];
    var k := 0;
    while k <= |arr|
      invariant 0 <= k <= |arr| + 1
      invariant l.Valid() && l.items == arr && l.pos == (if k <= |arr| then k else |arr|)
      invariant |out| == k
      invariant forall m :: 0 <= m < k && m < |arr| ==> out[m] == Some(arr[m])
      invariant k == |arr| + 1 ==> out[|arr|] == None
    {
      var v := l.Shift();
      out := out + [v];
      k := k + 1;
    }
  }

  /**
   * A clone starts where the original is; shifting the clone leaves the
   * original where it was, and shifting the original leaves the clone.
   */
  method CloneIsIndependent<T>(l: LinkedList<T>) returns (c: LinkedList<T>)
    requires l.Valid()
    modifies l
    ensures fresh(c) && c.Valid() && c.items == l.items
    ensures c.pos == (if old(l.pos) < |l.items| then old(l.pos) + 1 else old(l.pos))
    ensures l.pos == (if old(l.pos) < |l.items| then old(l.pos) + 1 else old(l.pos))
  {
    c := l.Clone();
    var start := l.pos;
    var _ := c.Shift();
    assert l.pos == start;
    var _ := l.Shift();
    assert c.pos == (if start < |l.items| then start + 1 else start);
  }
}
