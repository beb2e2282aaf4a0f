/**
 * LineMatch and its order, and the bounded max-heap query_inplace keeps the
 * best matches in. The heap is modelled by the multiset of its items: a
 * sequence whose order is not the heap layout.
 */
module Ranking {
  import opened Wrappers

  /** A matched line, ordered by score and then by recency factor; the text plays no part. */
  datatype LineMatch = LineMatch(score: int, factor: int, line: string)

  datatype Ordering = Less | Equal | Greater

  function CmpInt(a: int, b: int): Ordering {
    if a < b then Less else if a == b then Equal else Greater
  }

  /** LineMatch::cmp: the scores decide, the factors break a tie. */
  function Cmp(a: LineMatch, b: LineMatch): Ordering {
    match CmpInt(a.score, b.score)
    case Equal => CmpInt(a.factor, b.factor)
    case order => order
  }

  /** `a < b` on LineMatch. */
  predicate Lt(a: LineMatch, b: LineMatch) {
    Cmp(a, b) == Less
  }

  /** `a <= b` on LineMatch. */
  predicate Le(a: LineMatch, b: LineMatch) {
    Cmp(a, b) != Greater
  }

  // ---------------------------------------------------------------------
  // The order is lexicographic on (score, factor) and total.
  // ---------------------------------------------------------------------

  lemma CmpLexicographic(a: LineMatch, b: LineMatch)
    ensures Cmp(a, b) == Less <==> a.score < b.score || (a.score == b.score && a.factor < b.factor)
    ensures Cmp(a, b) == Equal <==> a.score == b.score && a.factor == b.factor
    ensures Cmp(a, b) == Greater <==> a.score > b.score || (a.score == b.score && a.factor > b.factor)
  {
  }

  lemma CmpAntisymmetric(a: LineMatch, b: LineMatch)
    ensures Cmp(a, b) == Less <==> Cmp(b, a) == Greater
    ensures Cmp(a, b) == Equal <==> Cmp(b, a) == Equal
    ensures Le(a, b) && Le(b, a) ==> Cmp(a, b) == Equal
  {
  }

  lemma CmpTransitive(a: LineMatch, b: LineMatch, c: LineMatch)
    ensures Le(a, b) && Le(b, c) ==> Le(a, c)
    ensures Lt(a, b) && Le(b, c) ==> Lt(a, c)
    ensures Le(a, b) && Lt(b, c) ==> Lt(a, c)
  {
  }

  lemma CmpTotal(a: LineMatch, b: LineMatch)
    ensures Le(a, b) || Le(b, a)
    ensures !Lt(a, b) <==> Le(b, a)
    ensures Le(a, a)
  {
  }

  // ---------------------------------------------------------------------
  // Greatest element, sorted order
  // ---------------------------------------------------------------------

  /** The position of a greatest item, the first of equal ones. */
  function MaxIndex(s: seq<LineMatch>): (r: nat)
    requires s != []
    ensures r < |s|
    ensures forall k :: 0 <= k < |s| ==> Le(s[k], s[r])
  {
    if |s| == 1 then 0
    else
      var j := MaxIndex(s[1..]) + 1;
      if Lt(s[0], s[j]) then j else 0
  }

  predicate Sorted(s: seq<LineMatch>) {
    forall i, j :: 0 <= i < j < |s| ==> Le(s[i], s[j])
  }

  /** Puts `x` into a sorted sequence, before the first item it does not exceed. */
  function Insert(x: LineMatch, s: seq<LineMatch>): (r: seq<LineMatch>)
    requires Sorted(s)
    ensures Sorted(r)
    ensures multiset(r) == multiset(s) + multiset{x}
  {
    if s == [] then [x]
    else if Le(x, s[0]) then [x] + s
    else
      var rest := Insert(x, s[1..]);
      assert s == [s[0]] + s[1..];
      InsertAbove(s[0], x, s[1..], rest);
      [s[0]] + rest
  }

  lemma InsertAbove(y: LineMatch, x: LineMatch, s: seq<LineMatch>, rest: seq<LineMatch>)
    requires Sorted([y] + s) && Lt(y, x)
    requires multiset(rest) == multiset(s) + multiset{x}
    requires Sorted(rest)
    ensures Sorted([y] + rest)
  {
    forall k | 0 <= k < |rest|
      ensures Le(y, rest[k])
    {
      assert rest[k] in multiset(rest);
      if rest[k] != x {
        assert rest[k] in multiset(s);
        var i :| 0 <= i < |s| && s[i] == rest[k];
        assert ([y] + s)[0] == y && ([y] + s)[i + 1] == s[i];
      }
    }
  }

  /** BinaryHeap::into_sorted_vec: the items in ascending order. */
  function SortedVec(items: seq<LineMatch>): (r: seq<LineMatch>)
    ensures Sorted(r)
    ensures multiset(r) == multiset(items)
  {
    if items == [] then []
    else
      assert items == [items[0]] + items[1..];
      Insert(items[0], SortedVec(items[1..]))
  }

  /** Replacing a greatest item by a smaller one leaves every item at most the old top. */
  lemma ReplaceTop(s: seq<LineMatch>, x: LineMatch, t: seq<LineMatch>)
    requires s != [] && Lt(x, s[MaxIndex(s)]) && t == s[MaxIndex(s) := x]
    ensures multiset(t) + multiset{s[MaxIndex(s)]} == multiset(s) + multiset{x}
    ensures forall k :: 0 <= k < |t| ==> Le(t[k], s[MaxIndex(s)])
  {
    var i := MaxIndex(s);
    forall k | 0 <= k < |t|
      ensures Le(t[k], s[i])
    {
      if k != i {
        assert t[k] == s[k];
      }
    }
  }

  /** An item no smaller than a greatest one is at least every item. */
  lemma BelowTop(s: seq<LineMatch>, x: LineMatch)
    requires s != [] && !Lt(x, s[MaxIndex(s)])
    ensures forall k :: 0 <= k < |s| ==> Le(s[k], x)
  {
    forall k | 0 <= k < |s|
      ensures Le(s[k], x)
    {
      CmpTransitive(s[k], s[MaxIndex(s)], x);
    }
  }

  // ---------------------------------------------------------------------
  // The heap
  // ---------------------------------------------------------------------

  /** A BinaryHeap<LineMatch> allocated with a fixed capacity. */
  class MatchHeap {
    var items: seq<LineMatch>
    const capacity: nat

    /** The heap never holds more than it was allocated for. */
    ghost predicate Valid()
      reads this
    {
      |items| <= capacity
    }

    /** BinaryHeap::with_capacity. */
    constructor(capacity: nat)
      ensures items == [] && this.capacity == capacity
      ensures Valid()
    {
      items := [];
      this.capacity := capacity;
    }

    /** BinaryHeap::len. */
    function Len(): nat
      reads this
    {
      |items|
    }

    /** BinaryHeap::peek: a greatest item, None when empty. */
    function Peek(): (r: Option<LineMatch>)
      reads this
      ensures r.None? <==> items == []
      ensures r.Some? ==> r.value in items && forall k :: 0 <= k < |items| ==> Le(items[k], r.value)
    {
      if items == [] then None else Some(items[MaxIndex(items)])
    }

    /** BinaryHeap::push, within the allocated capacity. */
    method Push(x: LineMatch)
      requires |items| < capacity
      modifies this
      ensures Valid()
      ensures items == old(items) + [x]
      ensures multiset(items) == multiset(old(items)) + multiset{x}
    {
      items := items + [x];
    }

    /**
     * BinaryHeap::push_pop: push `x`, then pop a greatest item. When the top
     * exceeds `x`, `x` takes its place and the top is returned; otherwise
     * `x` itself is.
     */
    method PushPop(x: LineMatch) returns (popped: LineMatch)
      modifies this
      ensures old(items) == [] ==> items == [] && popped == x
      ensures old(items) != [] ==>
        var i := MaxIndex(old(items));
        if Lt(x, old(items)[i]) then items == old(items)[i := x] && popped == old(items)[i]
        else items == old(items) && popped == x
      ensures multiset(items) + multiset{popped} == multiset(old(items)) + multiset{x}
      ensures forall k :: 0 <= k < |items| ==> Le(items[k], popped)
      ensures Le(x, popped)
    {
      if items == [] {
        return x;
      }
      var i := MaxIndex(items);
      if Lt(x, items[i]) {
        ReplaceTop(items, x, items[i := x]);
        popped := items[i];
        items := items[i := x];
      } else {
        BelowTop(items, x);
        popped := x;
      }
    }
  }
}
