/**
 * LineInfo::query_positions: runs an odometer of indexes over the lists of
 * query_sequence and keeps, in odometer order, every combination whose
 * offsets are strictly increasing.
 */
module MatchPositions {
  import opened Wrappers
  import opened Util
  import opened LineIndex
  import opened MatchSequence

  // ---------------------------------------------------------------------
  // Combinations in odometer order.
  // ---------------------------------------------------------------------

  /** `v` holds one valid index into each list. */
  predicate InRange(v: seq<nat>, ps: seq<seq<nat>>) {
    |v| == |ps| && forall k :: 0 <= k < |v| ==> v[k] < |ps[k]|
  }

  /** Every list is non-empty. */
  predicate AllNonEmpty(ps: seq<seq<nat>>) {
    forall k :: 0 <= k < |ps| ==> ps[k] != []
  }

  function Zeros(n: nat): seq<nat> {
    seq(n, _ => 0)
  }

  /** The offsets an index vector selects. */
  function Values(ps: seq<seq<nat>>, v: seq<nat>): seq<nat>
    requires InRange(v, ps)
  {
    seq(|v|, k requires 0 <= k < |v| => ps[k][v[k]])
  }

  /** Every combination in `vs` with `x` put in front. */
  function Prefix(x: nat, vs: seq<seq<nat>>): seq<seq<nat>> {
    seq(|vs|, i requires 0 <= i < |vs| => [x] + vs[i])
  }

  /** All combinations of one offset from each list, the last list varying fastest. */
  function Tuples(ps: seq<seq<nat>>): seq<seq<nat>>
    decreases |ps|, 1, 0
  {
    if ps == [] then [[]] else Block(ps, 0)
  }

  /** The combinations whose first offset comes from position `lo` or later of the first list. */
  function Block(ps: seq<seq<nat>>, lo: nat): seq<seq<nat>>
    requires ps != []
    decreases |ps|, 0, |ps[0]| - lo
  {
    if lo >= |ps[0]| then []
    else Prefix(ps[0][lo], Tuples(ps[1..])) + Block(ps, lo + 1)
  }

  /** The combinations from index vector `v` on, in odometer order. */
  function From(ps: seq<seq<nat>>, v: seq<nat>): seq<seq<nat>>
    requires InRange(v, ps)
    decreases |ps|
  {
    if ps == [] then [[]]
    else Prefix(ps[0][v[0]], From(ps[1..], v[1..])) + Block(ps, v[0] + 1)
  }

  /** The odometer's next index vector, or None after the last one. */
  function Next(ps: seq<seq<nat>>, v: seq<nat>): (r: Option<seq<nat>>)
    requires InRange(v, ps) && ps != [] && AllNonEmpty(ps)
    ensures r.Some? ==> InRange(r.value, ps)
    decreases |ps|
  {
    if |ps| == 1 then
      if v[0] + 1 < |ps[0]| then Some([v[0] + 1]) else None
    else
      match Next(ps[1..], v[1..])
      case Some(rest) => Some([v[0]] + rest)
      case None => if v[0] + 1 < |ps[0]| then Some([v[0] + 1] + Zeros(|ps| - 1)) else None
  }

  /** The combinations from after `v` on. */
  function FromNext(ps: seq<seq<nat>>, v: seq<nat>): seq<seq<nat>>
    requires InRange(v, ps) && ps != [] && AllNonEmpty(ps)
  {
    match Next(ps, v)
    case None => []
    case Some(w) => From(ps, w)
  }

  /** A combination kept if strictly increasing. */
  function Kept(v: seq<nat>): seq<seq<nat>> {
    if StrictlyAscending(v) then [v] else []
  }

  /** The combinations that are strictly increasing, in order. */
  function KeepIncreasing(vs: seq<seq<nat>>): seq<seq<nat>> {
    if vs == [] then [] else Kept(vs[0]) + KeepIncreasing(vs[1..])
  }

  /** What query_positions returns. */
  function Positions(info: LineInfo, query: string): Option<seq<seq<nat>>>
    requires WellFormed(info)
  {
    match Sequence(info, query)
    case None => None
    case Some(ps) => Some(KeepIncreasing(Tuples(ps)))
  }

  // ---------------------------------------------------------------------
  // query_positions
  // ---------------------------------------------------------------------

  method QueryPositions(info: LineInfo, query: string) returns (r: Option<seq<seq<nat>>>)
    requires WellFormed(info)
    // the source takes `idx.len() - 1` of the index vector, which panics for an empty query
    requires query != []
    ensures r == Positions(info, query)
  {
    var sequence := QuerySequence(info, query);
    if sequence.None? {
      return None;
    }
    var positions := sequence.value;
    SequenceLists(info, query);
    var n := |positions|;
    var idx := new nat[n](_ => 0);
    var result: seq<seq<nat>> := [];
    FromZeros(positions);
    assert idx[..] == Zeros(n);
    ghost var total := KeepIncreasing(Tuples(positions));
    while true
      invariant InRange(idx[..], positions)
      invariant result + KeepIncreasing(From(positions, idx[..])) == total
      decreases |From(positions, idx[..])|
    {
      ghost var before := idx[..];
      ghost var done := result;
      KeepStep(positions, before, done, total);
      // skip combinations whose offsets do not strictly increase
      var ignore := CheckIncreasing(positions, idx);
      if !ignore {
        // keep this placement
        result := result + [Values(positions, idx[..])];
      }
      assert result == done + Kept(Values(positions, before));
      // step the index vector like an odometer
      var finished := Advance(positions, idx);
      if finished {
        // every combination has been visited
        KeepLast(positions, before, result, total);
        break;
      }
    }
    return Some(result);
  }

  /** One turn of the loop of query_positions keeps the combinations still to come. */
  lemma KeepStep(ps: seq<seq<nat>>, v: seq<nat>, done: seq<seq<nat>>, total: seq<seq<nat>>)
    requires InRange(v, ps) && ps != [] && AllNonEmpty(ps)
    requires done + KeepIncreasing(From(ps, v)) == total
    ensures (done + Kept(Values(ps, v))) + KeepIncreasing(FromNext(ps, v)) == total
    ensures |FromNext(ps, v)| < |From(ps, v)|
  {
    FromStep(ps, v);
    KeepIncreasingCons(Values(ps, v), FromNext(ps, v));
    AppendAssoc(done, Kept(Values(ps, v)), KeepIncreasing(FromNext(ps, v)));
  }

  /** After the last vector nothing is left to keep. */
  lemma KeepLast(ps: seq<seq<nat>>, v: seq<nat>, done: seq<seq<nat>>, total: seq<seq<nat>>)
    requires InRange(v, ps) && ps != [] && AllNonEmpty(ps) && Next(ps, v) == None
    requires done + KeepIncreasing(FromNext(ps, v)) == total
    ensures done == total
  {
    assert done + [] == done;
  }

  /** The inner check of query_positions: whether the selected offsets fail to increase strictly. */
  method CheckIncreasing(positions: seq<seq<nat>>, idx: array<nat>) returns (ignore: bool)
    requires InRange(idx[..], positions)
    ensures ignore <==> !StrictlyAscending(Values(positions, idx[..]))
  {
    ghost var values := Values(positions, idx[..]);
    ignore := false;
    var lastPos: Option<nat> := None;
    for i := 0 to idx.Length
      invariant lastPos == if i == 0 then None else Some(values[i - 1])
      invariant StrictlyAscending(values[..i])
    {
      var pos := positions[i][idx[i]];
      match lastPos
      case None =>
        lastPos := Some(pos);
      case Some(other) =>
        if other >= pos {
          assert values[i - 1] >= values[i];
          ignore := true;
          break;
        }
        lastPos := Some(pos);
    }
    if !ignore {
      assert values[..idx.Length] == values;
    }
  }

  /** The carry loop of query_positions: steps the odometer, reporting when it wraps around. */
  method Advance(positions: seq<seq<nat>>, idx: array<nat>) returns (finished: bool)
    requires InRange(idx[..], positions) && positions != [] && AllNonEmpty(positions)
    modifies idx
    ensures finished <==> Next(positions, old(idx[..])) == None
    ensures !finished ==> Next(positions, old(idx[..])) == Some(idx[..])
  {
    ghost var v := idx[..];
    var updateIdx := idx.Length - 1;
    finished := false;
    while true
      invariant 0 <= updateIdx < idx.Length
      invariant idx[updateIdx] == v[updateIdx]
      invariant forall k :: 0 <= k < updateIdx ==> idx[k] == v[k]
      invariant forall k :: updateIdx < k < idx.Length ==> idx[k] == 0 && v[k] == |positions[k]| - 1
      decreases updateIdx
    {
      idx[updateIdx] := idx[updateIdx] + 1;
      if idx[updateIdx] >= |positions[updateIdx]| {
        if updateIdx == 0 {
          // the carry ran off the front: no combination is left
          NextNone(positions, v);
          finished := true;
          break;
        } else {
          idx[updateIdx] := 0;
          updateIdx := updateIdx - 1;
        }
      } else {
        // the carry stopped at updateIdx
        CarryDone(positions, v, idx[..], updateIdx);
        break;
      }
    }
  }

  // ---------------------------------------------------------------------
  // The odometer walks From.
  // ---------------------------------------------------------------------

  /** From the all-zero vector the odometer visits every combination. */
  lemma {:induction false} FromZeros(ps: seq<seq<nat>>)
    requires AllNonEmpty(ps)
    ensures InRange(Zeros(|ps|), ps)
    ensures From(ps, Zeros(|ps|)) == Tuples(ps)
    decreases |ps|
  {
    if ps != [] {
      FromZeros(ps[1..]);
      ZerosParts(|ps|);
      FromUnfold(ps, Zeros(|ps|));
    }
  }

  lemma ZerosParts(n: nat)
    requires n > 0
    ensures Zeros(n)[0] == 0 && Zeros(n)[1..] == Zeros(n - 1)
  {
  }

  lemma KeepIncreasingCons(v: seq<nat>, vs: seq<seq<nat>>)
    ensures KeepIncreasing([v] + vs) == Kept(v) + KeepIncreasing(vs)
  {
    assert ([v] + vs)[1..] == vs;
  }

  lemma InRangeCons(ps: seq<seq<nat>>, a: nat, rest: seq<nat>)
    requires ps != [] && a < |ps[0]| && InRange(rest, ps[1..])
    ensures InRange([a] + rest, ps)
  {
    forall k | 0 < k < |ps|
      ensures ([a] + rest)[k] < |ps[k]|
    {
      assert ([a] + rest)[k] == rest[k - 1] && ps[k] == ps[1..][k - 1];
    }
  }

  lemma ConsParts(a: nat, rest: seq<nat>)
    ensures ([a] + rest)[0] == a && ([a] + rest)[1..] == rest
  {
  }

  /** Sequence concatenation regrouped. */
  lemma ConsAssoc<T>(p: T, a: seq<T>, b: seq<T>)
    ensures ([p] + a) + b == [p] + (a + b)
  {
  }

  /** Prefixing a combination list that starts with `t`. */
  lemma PrefixCons(x: nat, t: seq<nat>, vs: seq<seq<nat>>)
    ensures Prefix(x, [t] + vs) == [[x] + t] + Prefix(x, vs)
  {
    assert |Prefix(x, [t] + vs)| == |[[x] + t] + Prefix(x, vs)|;
  }

  /** The offsets an index vector selects, first one apart. */
  lemma ValuesCons(ps: seq<seq<nat>>, v: seq<nat>)
    requires InRange(v, ps) && ps != []
    ensures InRange(v[1..], ps[1..])
    ensures Values(ps, v) == [ps[0][v[0]]] + Values(ps[1..], v[1..])
  {
  }

  /** One unfolding of From. */
  lemma FromUnfold(ps: seq<seq<nat>>, v: seq<nat>)
    requires InRange(v, ps) && ps != []
    ensures From(ps, v) == Prefix(ps[0][v[0]], From(ps[1..], v[1..])) + Block(ps, v[0] + 1)
  {
  }

  /** One unfolding of From at a vector given as first index and rest. */
  lemma FromUnfoldCons(ps: seq<seq<nat>>, a: nat, rest: seq<nat>)
    requires ps != [] && InRange([a] + rest, ps)
    ensures InRange(rest, ps[1..])
    ensures From(ps, [a] + rest) == Prefix(ps[0][a], From(ps[1..], rest)) + Block(ps, a + 1)
  {
    ConsParts(a, rest);
    FromUnfold(ps, [a] + rest);
  }

  /** The walk from `v` is `v`'s own combination followed by the walk from the next vector. */
  lemma {:induction false} FromStep(ps: seq<seq<nat>>, v: seq<nat>)
    requires InRange(v, ps) && ps != [] && AllNonEmpty(ps)
    ensures From(ps, v) == [Values(ps, v)] + FromNext(ps, v)
    decreases |ps|
  {
    if |ps| == 1 {
      FromStepLast(ps, v);
    } else {
      FromStep(ps[1..], v[1..]);
      match Next(ps[1..], v[1..])
      case Some(rest) =>
        assert Next(ps, v) == Some([v[0]] + rest);
        FromCons(ps, v, rest);
      case None =>
        FromLastOfBlock(ps, v);
        if v[0] + 1 < |ps[0]| {
          assert Next(ps, v) == Some([v[0] + 1] + Zeros(|ps| - 1));
          FromReset(ps, v[0] + 1);
        } else {
          assert Next(ps, v) == None;
        }
    }
  }

  lemma FromStepLast(ps: seq<seq<nat>>, v: seq<nat>)
    requires InRange(v, ps) && |ps| == 1 && AllNonEmpty(ps)
    ensures From(ps, v) == [Values(ps, v)] + FromNext(ps, v)
  {
    FromSingle(ps, v);
    ValuesLast(ps, v);
    BlockNextLast(ps, v);
  }

  /** With a single list, the rest of the block is the walk from the next vector. */
  lemma BlockNextLast(ps: seq<seq<nat>>, v: seq<nat>)
    requires InRange(v, ps) && |ps| == 1 && AllNonEmpty(ps)
    ensures Block(ps, v[0] + 1) == FromNext(ps, v)
  {
    if v[0] + 1 < |ps[0]| {
      var w := [v[0] + 1];
      assert Next(ps, v) == Some(w);
      FromSingle(ps, w);
    }
  }

  /** With a single list, the walk from `v` is the block from `v`'s index. */
  lemma FromSingle(ps: seq<seq<nat>>, v: seq<nat>)
    requires InRange(v, ps) && |ps| == 1
    ensures From(ps, v) == [[ps[0][v[0]]]] + Block(ps, v[0] + 1)
    ensures Block(ps, v[0]) == From(ps, v)
  {
    FromUnfold(ps, v);
    LastList(ps, v);
    PrefixUnit(ps[0][v[0]]);
  }

  lemma ValuesLast(ps: seq<seq<nat>>, v: seq<nat>)
    requires InRange(v, ps) && |ps| == 1
    ensures Values(ps, v) == [ps[0][v[0]]]
  {
    assert Values(ps, v)[0] == ps[0][v[0]];
  }

  /** Past the last list there is one empty combination. */
  lemma LastList(ps: seq<seq<nat>>, v: seq<nat>)
    requires InRange(v, ps) && |ps| == 1
    ensures From(ps[1..], v[1..]) == [[]] && Tuples(ps[1..]) == [[]]
  {
    assert ps[1..] == [];
  }

  lemma PrefixUnit(x: nat)
    ensures Prefix(x, [[]]) == [[x]]
  {
    assert Prefix(x, [[]])[0] == [x];
  }

  /** The step when a later index can still advance. */
  lemma FromCons(ps: seq<seq<nat>>, v: seq<nat>, rest: seq<nat>)
    requires InRange(v, ps) && |ps| > 1 && InRange(rest, ps[1..])
    requires From(ps[1..], v[1..]) == [Values(ps[1..], v[1..])] + From(ps[1..], rest)
    ensures InRange([v[0]] + rest, ps)
    ensures From(ps, v) == [Values(ps, v)] + From(ps, [v[0]] + rest)
  {
    InRangeCons(ps, v[0], rest);
    FromConsFront(ps, v, rest);
    ValuesCons(ps, v);
    FromUnfoldCons(ps, v[0], rest);
  }

  /** FromCons up to the regrouping of the first combination. */
  lemma FromConsFront(ps: seq<seq<nat>>, v: seq<nat>, rest: seq<nat>)
    requires InRange(v, ps) && |ps| > 1 && InRange(rest, ps[1..])
    requires From(ps[1..], v[1..]) == [Values(ps[1..], v[1..])] + From(ps[1..], rest)
    ensures var x := ps[0][v[0]];
      From(ps, v)
      == [[x] + Values(ps[1..], v[1..])] + (Prefix(x, From(ps[1..], rest)) + Block(ps, v[0] + 1))
  {
    var x := ps[0][v[0]];
    var vt := Values(ps[1..], v[1..]);
    var f := From(ps[1..], rest);
    var b := Block(ps, v[0] + 1);
    calc {
      From(ps, v);
    == { FromUnfold(ps, v); }
      Prefix(x, [vt] + f) + b;
    == { PrefixCons(x, vt, f); }
      ([[x] + vt] + Prefix(x, f)) + b;
    == { ConsAssoc([x] + vt, Prefix(x, f), b); }
      [[x] + vt] + (Prefix(x, f) + b);
    }
  }

  /** When the rest of the vector is at its end, the walk goes on with the next block. */
  lemma FromLastOfBlock(ps: seq<seq<nat>>, v: seq<nat>)
    requires InRange(v, ps) && |ps| > 1
    requires From(ps[1..], v[1..]) == [Values(ps[1..], v[1..])]
    ensures From(ps, v) == [Values(ps, v)] + Block(ps, v[0] + 1)
  {
    var x := ps[0][v[0]];
    FromUnfold(ps, v);
    PrefixCons(x, Values(ps[1..], v[1..]), []);
    ValuesCons(ps, v);
  }

  /** A block starting at `lo` is the walk from `lo` followed by zeros. */
  lemma FromReset(ps: seq<seq<nat>>, lo: nat)
    requires |ps| > 1 && AllNonEmpty(ps) && lo < |ps[0]|
    ensures InRange([lo] + Zeros(|ps| - 1), ps)
    ensures Block(ps, lo) == From(ps, [lo] + Zeros(|ps| - 1))
  {
    var w := [lo] + Zeros(|ps| - 1);
    assert w[0] == lo && w[1..] == Zeros(|ps[1..]|);
    FromZeros(ps[1..]);
    FromUnfold(ps, w);
  }

  /** The odometer stops when every index is at the end of its list. */
  lemma {:induction false} NextNone(ps: seq<seq<nat>>, v: seq<nat>)
    requires InRange(v, ps) && ps != [] && AllNonEmpty(ps)
    requires forall k :: 0 <= k < |v| ==> v[k] == |ps[k]| - 1
    ensures Next(ps, v) == None
    decreases |ps|
  {
    if |ps| > 1 {
      NextNone(ps[1..], v[1..]);
    }
  }

  /** The state Advance stops in when index `u` could be incremented. */
  lemma CarryDone(ps: seq<seq<nat>>, v: seq<nat>, w: seq<nat>, u: nat)
    requires InRange(v, ps) && ps != [] && AllNonEmpty(ps)
    requires u < |v| == |w| && w[u] == v[u] + 1 && w[u] < |ps[u]|
    requires forall k :: 0 <= k < u ==> w[k] == v[k]
    requires forall k :: u < k < |v| ==> w[k] == 0 && v[k] == |ps[k]| - 1
    ensures Next(ps, v) == Some(w)
  {
    NextAt(ps, v, u);
    assert w == Bumped(v, u);
  }

  /** `v` with index `u` incremented and every index after it reset to zero. */
  function Bumped(v: seq<nat>, u: nat): (w: seq<nat>)
    requires u < |v|
    ensures |w| == |v|
  {
    v[..u] + [v[u] + 1] + Zeros(|v| - u - 1)
  }

  lemma BumpedCons(v: seq<nat>, u: nat)
    requires 0 < u < |v|
    ensures Bumped(v, u) == [v[0]] + Bumped(v[1..], u - 1)
  {
    assert v[..u] == [v[0]] + v[1..][..u - 1];
  }

  lemma BumpedFirst(v: seq<nat>)
    requires 0 < |v|
    ensures Bumped(v, 0) == [v[0] + 1] + Zeros(|v| - 1)
  {
    assert v[..0] == [];
  }

  /**
   * The odometer increments the last index that is not at the end of its
   * list and resets the ones after it.
   */
  lemma {:induction false} NextAt(ps: seq<seq<nat>>, v: seq<nat>, u: nat)
    requires InRange(v, ps) && ps != [] && AllNonEmpty(ps)
    requires u < |v| && v[u] + 1 < |ps[u]|
    requires forall k :: u < k < |v| ==> v[k] == |ps[k]| - 1
    ensures Next(ps, v) == Some(Bumped(v, u))
    decreases |ps|
  {
    if u == 0 {
      BumpedFirst(v);
      if |ps| == 1 {
        assert Bumped(v, 0) == [v[0] + 1];
      } else {
        NextNone(ps[1..], v[1..]);
      }
    } else {
      NextAt(ps[1..], v[1..], u - 1);
      BumpedCons(v, u);
    }
  }

  // ---------------------------------------------------------------------
  // What the combinations are.
  // ---------------------------------------------------------------------

  /** The lists query_sequence returns for a non-empty query. */
  lemma SequenceLists(info: LineInfo, query: string)
    requires WellFormed(info) && query != [] && Sequence(info, query).Some?
    ensures var ps := Sequence(info, query).value;
      |ps| == |query| && AllNonEmpty(ps) && forall k :: 0 <= k < |ps| ==> StrictlyAscending(ps[k])
  {
    var ps := Sequence(info, query).value;
    ChainLength(info.charMap, query, None);
    forall k | 0 <= k < |ps|
      ensures ps[k] != [] && StrictlyAscending(ps[k])
    {
      SequenceShape(info, query, k);
      ChainAscending(info.charMap, query, None, k);
    }
  }

  lemma {:induction false} TuplesMembers(ps: seq<seq<nat>>, t: seq<nat>)
    ensures t in Tuples(ps) <==> Choice(ps, t)
    decreases |ps|, 1, 0
  {
    if ps != [] {
      BlockMembers(ps, 0, t);
      assert ps[0][0..] == ps[0];
    }
  }

  lemma {:induction false} BlockMembers(ps: seq<seq<nat>>, lo: nat, t: seq<nat>)
    requires ps != []
    ensures t in Block(ps, lo) <==> Choice(ps, t) && lo <= |ps[0]| && t[0] in ps[0][lo..]
    decreases |ps|, 0, |ps[0]| - lo
  {
    if lo < |ps[0]| {
      var x := ps[0][lo];
      BlockMembers(ps, lo + 1, t);
      assert ps[0][lo..] == [x] + ps[0][lo + 1..];
      if t != [] {
        TuplesMembers(ps[1..], t[1..]);
        assert t == [t[0]] + t[1..];
        if Choice(ps, t) {
          assert Choice(ps[1..], t[1..]);
        }
        if t[0] in ps[0] && Choice(ps[1..], t[1..]) {
          assert forall k :: 1 <= k < |t| ==> t[k] == t[1..][k - 1];
        }
      }
    }
  }

  lemma {:induction false} KeepIncreasingMembers(vs: seq<seq<nat>>, t: seq<nat>)
    ensures t in KeepIncreasing(vs) <==> t in vs && StrictlyAscending(t)
  {
    if vs != [] {
      KeepIncreasingMembers(vs[1..], t);
      assert vs == [vs[0]] + vs[1..];
    }
  }

  /** Strict lexicographic order on offset vectors. */
  predicate LexLess(a: seq<nat>, b: seq<nat>) {
    |a| > 0 && |b| > 0 && (a[0] < b[0] || (a[0] == b[0] && LexLess(a[1..], b[1..])))
  }

  /** Strictly increasing in lexicographic order, so no combination appears twice. */
  predicate LexSorted(vs: seq<seq<nat>>) {
    forall i, j :: 0 <= i < j < |vs| ==> LexLess(vs[i], vs[j])
  }

  lemma {:induction false} LexIrreflexive(a: seq<nat>)
    ensures !LexLess(a, a)
  {
    if |a| > 0 {
      LexIrreflexive(a[1..]);
    }
  }

  lemma SortedAppend(a: seq<seq<nat>>, b: seq<seq<nat>>)
    requires LexSorted(a) && LexSorted(b)
    requires forall i, j :: 0 <= i < |a| && 0 <= j < |b| ==> LexLess(a[i], b[j])
    ensures LexSorted(a + b)
  {
  }

  lemma {:induction false} TuplesSorted(ps: seq<seq<nat>>)
    requires forall k :: 0 <= k < |ps| ==> StrictlyAscending(ps[k])
    ensures LexSorted(Tuples(ps))
    decreases |ps|, 1, 0
  {
    if ps != [] {
      BlockSorted(ps, 0);
    }
  }

  lemma {:induction false} BlockSorted(ps: seq<seq<nat>>, lo: nat)
    requires ps != [] && forall k :: 0 <= k < |ps| ==> StrictlyAscending(ps[k])
    ensures LexSorted(Block(ps, lo))
    decreases |ps|, 0, |ps[0]| - lo
  {
    if lo < |ps[0]| {
      var x := ps[0][lo];
      var front := Prefix(x, Tuples(ps[1..]));
      var back := Block(ps, lo + 1);
      TuplesSorted(ps[1..]);
      BlockSorted(ps, lo + 1);
      forall i, j | 0 <= i < j < |front|
        ensures LexLess(front[i], front[j])
      {
        assert front[i][1..] == Tuples(ps[1..])[i];
        assert front[j][1..] == Tuples(ps[1..])[j];
      }
      forall i, j | 0 <= i < |front| && 0 <= j < |back|
        ensures LexLess(front[i], back[j])
      {
        BlockMembers(ps, lo + 1, back[j]);
        var y := back[j][0];
        var m :| lo + 1 <= m < |ps[0]| && ps[0][m] == y;
      }
      SortedAppend(front, back);
    }
  }

  lemma {:induction false} KeepIncreasingSorted(vs: seq<seq<nat>>)
    requires LexSorted(vs)
    ensures LexSorted(KeepIncreasing(vs))
  {
    if vs != [] {
      KeepIncreasingSorted(vs[1..]);
      var rest := KeepIncreasing(vs[1..]);
      forall j | 0 <= j < |rest|
        ensures LexLess(vs[0], rest[j])
      {
        KeepIncreasingMembers(vs[1..], rest[j]);
        var i :| 0 <= i < |vs[1..]| && vs[1..][i] == rest[j];
        assert vs[i + 1] == rest[j];
      }
    }
  }

  // ---------------------------------------------------------------------
  // What query_positions promises.
  // ---------------------------------------------------------------------

  /**
   * The combinations query_positions returns are exactly the strictly
   * increasing placements of the query in the line: one offset per query
   * character, taken from that character's offsets.
   */
  lemma PositionsMembers(info: LineInfo, query: string, p: seq<nat>)
    requires WellFormed(info) && Positions(info, query).Some?
    ensures p in Positions(info, query).value <==> Embeds(info.charMap, query, p)
  {
    var ps := Sequence(info, query).value;
    KeepIncreasingMembers(Tuples(ps), p);
    TuplesMembers(ps, p);
    ChoicesArePlacements(info, query, p);
  }

  /** They come in strictly ascending lexicographic order, so each appears once. */
  lemma PositionsSorted(info: LineInfo, query: string)
    requires WellFormed(info) && query != [] && Positions(info, query).Some?
    ensures LexSorted(Positions(info, query).value)
    ensures forall i, j :: 0 <= i < j < |Positions(info, query).value| ==>
      Positions(info, query).value[i] != Positions(info, query).value[j]
  {
    var ps := Sequence(info, query).value;
    var res := Positions(info, query).value;
    SequenceLists(info, query);
    TuplesSorted(ps);
    KeepIncreasingSorted(Tuples(ps));
    forall i, j | 0 <= i < j < |res|
      ensures res[i] != res[j]
    {
      LexIrreflexive(res[i]);
    }
  }

  /** Lines without a full placement of the query are the ones query_sequence rejects. */
  lemma PositionsNone(info: LineInfo, query: string)
    requires WellFormed(info)
    ensures Positions(info, query).None? <==> Sequence(info, query).None?
  {
  }
}
