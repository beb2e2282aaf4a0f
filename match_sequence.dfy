/**
 * LineInfo::query_sequence: for each query character in turn, the offsets of
 * the line where it may be matched, each list narrowed by binary search to the
 * offsets after the first offset of the list pushed before it.
 */
module MatchSequence {
  import opened Wrappers
  import opened Unicode
  import opened Util
  import opened LineIndex

  /** The outcome of `slice::binary_search`. */
  datatype SearchResult = Found(index: nat) | Missing(index: nat)

  /** `list.binary_search(&x)` on a strictly ascending list: where `x` is, or where it would go. */
  method BinarySearch(list: seq<nat>, x: nat) returns (r: SearchResult)
    requires StrictlyAscending(list)
    ensures r.Found? ==> r.index < |list| && list[r.index] == x
    ensures r.Missing? ==>
      && r.index <= |list| && x !in list
      && (forall i :: 0 <= i < r.index ==> list[i] < x)
      && (forall i :: r.index <= i < |list| ==> list[i] > x)
  {
    var lo, hi := 0, |list|;
    while lo < hi
      invariant 0 <= lo <= hi <= |list|
      invariant forall i :: 0 <= i < lo ==> list[i] < x
      invariant forall i :: hi <= i < |list| ==> list[i] > x
    {
      var mid := lo + (hi - lo) / 2;
      if list[mid] < x {
        lo := mid + 1;
      } else if list[mid] > x {
        hi := mid;
      } else {
        return Found(mid);
      }
    }
    return Missing(lo);
  }

  // ---------------------------------------------------------------------
  // The specification: the chain of narrowed lists.
  // ---------------------------------------------------------------------

  /** The elements of `list` greater than `bound`, in order. */
  function Above(list: seq<nat>, bound: nat): seq<nat> {
    if list == [] then []
    else (if list[0] > bound then [list[0]] else []) + Above(list[1..], bound)
  }

  /** The list a character contributes: all of it first, later only what lies after `bound`. */
  function Narrowed(list: seq<nat>, bound: Option<nat>): seq<nat> {
    if bound.None? then list else Above(list, bound.value)
  }

  /** Every list of the map is non-empty. */
  predicate NonEmptyLists(m: map<char, seq<nat>>) {
    forall key :: key in m ==> m[key] != []
  }

  /**
   * The lists pushed for `query` when the previous pushed list starts at
   * `bound`: the scan stops at the first character without an entry or whose
   * narrowed list is empty.
   */
  function Chain(m: map<char, seq<nat>>, query: string, bound: Option<nat>): seq<seq<nat>>
    requires NonEmptyLists(m)
  {
    if query == [] || query[0] !in m then []
    else
      var pushed := Narrowed(m[query[0]], bound);
      if pushed == [] then [] else [pushed] + Chain(m, query[1..], Some(pushed[0]))
  }

  /** The first offset of the last pushed list, if any list was pushed. */
  function LastStart(positions: seq<seq<nat>>): Option<nat>
    requires forall k :: 0 <= k < |positions| ==> positions[k] != []
  {
    if positions == [] then None else Some(positions[|positions| - 1][0])
  }

  /**
   * What query_sequence returns: the chain when it has one list per byte of
   * the query's UTF-8 encoding, None otherwise.
   */
  function Sequence(info: LineInfo, query: string): Option<seq<seq<nat>>>
    requires NonEmptyLists(info.charMap)
  {
    var chain := Chain(info.charMap, query, None);
    if |chain| == ByteLength(query) then Some(chain) else None
  }

  // ---------------------------------------------------------------------
  // query_sequence
  // ---------------------------------------------------------------------

  method QuerySequence(info: LineInfo, query: string) returns (r: Option<seq<seq<nat>>>)
    requires WellFormed(info)
    ensures r == Sequence(info, query)
  {
    var positions: seq<seq<nat>> := [];
    var i := 0;
    while i < |query|
      invariant 0 <= i <= |query|
      invariant forall k :: 0 <= k < |positions| ==> positions[k] != []
      invariant positions + Chain(info.charMap, query[i..], LastStart(positions))
        == Chain(info.charMap, query, None)
    {
      var c := query[i];
      assert query[i..][0] == c && query[i..][1..] == query[i + 1..];
      if c !in info.charMap {
        assert Chain(info.charMap, query[i..], LastStart(positions)) == [];
        break;
      }
      var list := info.charMap[c];
      var toPush: seq<nat>;
      if positions == [] {
        toPush := list;
      } else {
        var item := positions[|positions| - 1];
        var narrowed := NarrowAfter(list, item[0]);
        if narrowed.None? {
          // no offset of this character lies after the previous one
          assert Chain(info.charMap, query[i..], LastStart(positions)) == [];
          break;
        }
        toPush := narrowed.value;
      }
      ChainStep(info.charMap, query, i, LastStart(positions), toPush);
      AppendAssoc(positions, [toPush], Chain(info.charMap, query[i + 1..], Some(toPush[0])));
      positions := positions + [toPush];
      assert LastStart(positions) == Some(toPush[0]);
      i := i + 1;
    }
    assert positions == Chain(info.charMap, query, None);
    if |positions| == ByteLength(query) {
      r := Some(positions);
    } else {
      r := None;
    }
  }

  /**
   * The narrowing of one list in query_sequence: the part of `list` after
   * `bound`, found by binary search, or None when nothing is left.
   */
  method NarrowAfter(list: seq<nat>, bound: nat) returns (r: Option<seq<nat>>)
    requires list != [] && StrictlyAscending(list)
    ensures r == (if Above(list, bound) == [] then None else Some(Above(list, bound)))
  {
    var found := BinarySearch(list, bound);
    match found
    case Found(idx) =>
      if idx >= |list| - 1 {
        AboveFrom(list, bound, |list|);
        return None;
      }
      AboveFrom(list, bound, idx + 1);
      return Some(list[idx + 1..]);
    case Missing(idx) =>
      if idx >= |list| {
        AboveFrom(list, bound, |list|);
        return None;
      }
      AboveFrom(list, bound, idx);
      return Some(list[idx..]);
  }

  /** One step of the chain: a character with a non-empty narrowed list pushes it. */
  lemma ChainStep(m: map<char, seq<nat>>, query: string, i: nat, bound: Option<nat>, toPush: seq<nat>)
    requires NonEmptyLists(m)
    requires i < |query| && query[i] in m
    requires toPush == Narrowed(m[query[i]], bound) && toPush != []
    ensures Chain(m, query[i..], bound) == [toPush] + Chain(m, query[i + 1..], Some(toPush[0]))
  {
    assert query[i..][0] == query[i] && query[i..][1..] == query[i + 1..];
  }

  lemma AppendAssoc<T>(a: seq<T>, b: seq<T>, c: seq<T>)
    ensures (a + b) + c == a + (b + c)
  {
  }

  // ---------------------------------------------------------------------
  // Facts about narrowing.
  // ---------------------------------------------------------------------

  /** An offset survives narrowing exactly when it is in the list and after the bound. */
  lemma {:induction false} AboveMembers(list: seq<nat>, bound: nat, x: nat)
    ensures x in Above(list, bound) <==> x in list && x > bound
  {
    if list != [] {
      AboveMembers(list[1..], bound, x);
      assert list == [list[0]] + list[1..];
    }
  }

  /** On a list split at `j` into offsets up to the bound and offsets after it, narrowing keeps the suffix from `j`. */
  lemma {:induction false} AboveFrom(list: seq<nat>, bound: nat, j: nat)
    requires j <= |list|
    requires forall i :: 0 <= i < j ==> list[i] <= bound
    requires forall i :: j <= i < |list| ==> list[i] > bound
    ensures Above(list, bound) == list[j..]
  {
    if list != [] {
      if j == 0 {
        AboveFrom(list[1..], bound, 0);
        assert list == [list[0]] + list[1..];
      } else {
        AboveFrom(list[1..], bound, j - 1);
        assert list[1..][j - 1..] == list[j..];
      }
    }
  }

  /** Narrowing keeps a strictly ascending list strictly ascending. */
  lemma {:induction false} AboveAscending(list: seq<nat>, bound: nat)
    requires StrictlyAscending(list)
    ensures StrictlyAscending(Above(list, bound))
  {
    if list != [] {
      var rest := Above(list[1..], bound);
      AboveAscending(list[1..], bound);
      forall j | 0 <= j < |rest|
        ensures rest[j] > list[0]
      {
        AboveMembers(list[1..], bound, rest[j]);
      }
    }
  }

  /** Narrowing a strictly ascending list leaves a suffix of it. */
  lemma {:induction false} AboveSuffix(list: seq<nat>, bound: nat)
    requires StrictlyAscending(list)
    ensures exists j :: 0 <= j <= |list| && Above(list, bound) == list[j..]
  {
    var j := 0;
    while j < |list| && list[j] <= bound
      invariant 0 <= j <= |list|
      invariant forall i :: 0 <= i < j ==> list[i] <= bound
    {
      j := j + 1;
    }
    AboveFrom(list, bound, j);
  }

  /** The first element of a strictly ascending list is its least. */
  lemma FirstIsLeast(list: seq<nat>, x: nat)
    requires StrictlyAscending(list) && x in list
    ensures list[0] <= x
  {
  }

  // ---------------------------------------------------------------------
  // Facts about the chain and query_sequence.
  // ---------------------------------------------------------------------

  /** Every list of a well-formed index is non-empty and strictly ascending. */
  predicate AscendingLists(m: map<char, seq<nat>>) {
    forall key :: key in m ==> m[key] != [] && StrictlyAscending(m[key])
  }

  lemma WellFormedLists(info: LineInfo)
    requires WellFormed(info)
    ensures AscendingLists(info.charMap)
  {
  }

  /** The chain never has more lists than the query has characters. */
  lemma {:induction false} ChainLength(m: map<char, seq<nat>>, query: string, bound: Option<nat>)
    requires NonEmptyLists(m)
    ensures |Chain(m, query, bound)| <= |query|
  {
    if query != [] {
      ChainLength(m, query[1..], Some(0));
      if query[0] in m {
        var pushed := Narrowed(m[query[0]], bound);
        if pushed != [] {
          ChainLength(m, query[1..], Some(pushed[0]));
        }
      }
    }
  }

  /**
   * The k-th list of the chain belongs to the k-th query character, is not
   * empty, and is that character's list narrowed to the offsets after the
   * first offset of the list before it.
   */
  lemma {:induction false} ChainShape(m: map<char, seq<nat>>, query: string, bound: Option<nat>, k: nat)
    requires NonEmptyLists(m)
    requires k < |Chain(m, query, bound)|
    ensures k < |query| && query[k] in m
    ensures var chain := Chain(m, query, bound);
      && chain[k] != []
      && (k == 0 ==> chain[k] == Narrowed(m[query[k]], bound))
      && (k > 0 ==> chain[k - 1] != [] && chain[k] == Above(m[query[k]], chain[k - 1][0]))
  {
    var pushed := Narrowed(m[query[0]], bound);
    var rest := Chain(m, query[1..], Some(pushed[0]));
    if k > 0 {
      ChainShape(m, query[1..], Some(pushed[0]), k - 1);
      if k > 1 {
        assert Chain(m, query, bound)[k - 1] == rest[k - 2];
      }
    }
  }

  /** Each list of the chain is strictly ascending when the map's lists are. */
  lemma ChainAscending(m: map<char, seq<nat>>, query: string, bound: Option<nat>, k: nat)
    requires AscendingLists(m)
    requires k < |Chain(m, query, bound)|
    ensures StrictlyAscending(Chain(m, query, bound)[k])
  {
    var chain := Chain(m, query, bound);
    ChainShape(m, query, bound, k);
    if k == 0 && bound.Some? {
      AboveAscending(m[query[k]], bound.value);
    } else if k > 0 {
      AboveAscending(m[query[k]], chain[k - 1][0]);
    }
  }

  /** A query that is not pure ASCII never matches: the chain is shorter than its byte length. */
  lemma NonAsciiNeverMatches(info: LineInfo, query: string)
    requires NonEmptyLists(info.charMap)
    requires !IsAscii(query)
    ensures Sequence(info, query) == None
  {
    ChainLength(info.charMap, query, None);
  }

  /**
   * When query_sequence returns lists, there is one per query character; the
   * k-th is a non-empty suffix of the k-th character's list, and from the
   * second on it holds exactly the offsets of that list after the first offset
   * of the list before it.
   */
  lemma SequenceShape(info: LineInfo, query: string, k: nat)
    requires WellFormed(info)
    requires Sequence(info, query).Some? && k < |Sequence(info, query).value|
    ensures var ps := Sequence(info, query).value;
      && |ps| == |query|
      && query[k] in info.charMap
      && ps[k] != []
      && (exists j :: 0 <= j <= |info.charMap[query[k]]| && ps[k] == info.charMap[query[k]][j..])
      && (k == 0 ==> ps[k] == info.charMap[query[k]])
      && (k > 0 ==> ps[k - 1] != [] && forall x :: x in ps[k] <==> x in info.charMap[query[k]] && x > ps[k - 1][0])
  {
    var m := info.charMap;
    var ps := Sequence(info, query).value;
    ChainLength(m, query, None);
    ChainShape(m, query, None, k);
    if k == 0 {
      assert m[query[k]][0..] == m[query[k]];
    } else {
      AboveSuffix(m[query[k]], ps[k - 1][0]);
      forall x
        ensures x in ps[k] <==> x in m[query[k]] && x > ps[k - 1][0]
      {
        AboveMembers(m[query[k]], ps[k - 1][0], x);
      }
    }
  }

  // ---------------------------------------------------------------------
  // Narrowing loses no match.
  // ---------------------------------------------------------------------

  /** `p` places the query: one offset per character, from its list, strictly increasing. */
  ghost predicate Embeds(m: map<char, seq<nat>>, query: string, p: seq<nat>) {
    && |p| == |query|
    && StrictlyAscending(p)
    && forall k :: 0 <= k < |p| ==> query[k] in m && p[k] in m[query[k]]
  }

  lemma {:induction false} ChainComplete(m: map<char, seq<nat>>, query: string, bound: Option<nat>, p: seq<nat>)
    requires AscendingLists(m)
    requires Embeds(m, query, p)
    requires bound.Some? && |p| > 0 ==> p[0] > bound.value
    ensures |Chain(m, query, bound)| == |query|
  {
    if query != [] {
      var list := m[query[0]];
      var pushed := Narrowed(list, bound);
      if bound.Some? {
        AboveMembers(list, bound.value, p[0]);
        AboveAscending(list, bound.value);
      }
      FirstIsLeast(pushed, p[0]);
      ChainComplete(m, query[1..], Some(pushed[0]), p[1..]);
    }
  }

  /** An ASCII query with a placement in the line always gets its lists. */
  lemma SequenceComplete(info: LineInfo, query: string, p: seq<nat>)
    requires WellFormed(info)
    requires IsAscii(query) && Embeds(info.charMap, query, p)
    ensures Sequence(info, query).Some?
  {
    ChainComplete(info.charMap, query, None, p);
  }

  /** A choice of one offset from each list. */
  ghost predicate Choice(ps: seq<seq<nat>>, p: seq<nat>) {
    |p| == |ps| && forall k :: 0 <= k < |p| ==> p[k] in ps[k]
  }

  lemma {:induction false} IncreasingInChain(info: LineInfo, query: string, p: seq<nat>, k: nat)
    requires WellFormed(info)
    requires Sequence(info, query).Some? && Embeds(info.charMap, query, p)
    requires k < |p|
    ensures p[k] in Sequence(info, query).value[k]
  {
    var ps := Sequence(info, query).value;
    SequenceShape(info, query, k);
    if k > 0 {
      IncreasingInChain(info, query, p, k - 1);
      ChainAscending(info.charMap, query, None, k - 1);
      FirstIsLeast(ps[k - 1], p[k - 1]);
    }
  }

  /**
   * The strictly increasing choices from query_sequence's lists are exactly
   * the placements of the query in the line's character map.
   */
  lemma ChoicesArePlacements(info: LineInfo, query: string, p: seq<nat>)
    requires WellFormed(info)
    requires Sequence(info, query).Some?
    ensures Choice(Sequence(info, query).value, p) && StrictlyAscending(p)
      <==> Embeds(info.charMap, query, p)
  {
    var ps := Sequence(info, query).value;
    ChainLength(info.charMap, query, None);
    if Choice(ps, p) && StrictlyAscending(p) {
      forall k | 0 <= k < |p|
        ensures query[k] in info.charMap && p[k] in info.charMap[query[k]]
      {
        SequenceShape(info, query, k);
      }
    }
    if Embeds(info.charMap, query, p) {
      forall k | 0 <= k < |p|
        ensures p[k] in ps[k]
      {
        IncreasingInChain(info, query, p, k);
      }
    }
  }
}
