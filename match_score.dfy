/**
 * query_score of search.rs: the best score of a line for a query, over all
 * strictly increasing placements of the query in the line.
 */
module MatchScore {
  import opened Wrappers
  import opened Constants
  import opened Unicode
  import opened LineIndex
  import opened MatchSequence
  import opened MatchPositions

  /** A placement that can be scored against a heatmap: non-empty, every offset inside it. */
  predicate InHeat(heat: seq<int>, g: seq<nat>) {
    |g| >= 1 && forall k :: 0 <= k < |g| ==> g[k] < |heat|
  }

  /** The sum of the gaps between neighbouring offsets, accumulated left to right. */
  function DistTotal(g: seq<nat>): int {
    if |g| <= 1 then 0 else DistTotal(g[..|g| - 1]) + (g[|g| - 1] as int - g[|g| - 2])
  }

  /** The number of gaps, counted as 1 when there is none. */
  function DistCount(g: seq<nat>): (n: int)
    ensures n >= 1
  {
    if |g| <= 1 then 1 else |g| - 1
  }

  /** The summed heat of the offsets of a placement. */
  function HeatSum(heat: seq<int>, g: seq<nat>): int
    requires forall k :: 0 <= k < |g| ==> g[k] < |heat|
  {
    if g == [] then 0 else HeatSum(heat, g[..|g| - 1]) + heat[g[|g| - 1]]
  }

  /** The score of one placement: average gap against summed heat. */
  function GroupScore(heat: seq<int>, g: seq<nat>): int
    requires InHeat(heat, g)
  {
    RustDiv(DistTotal(g), DistCount(g)) * DIST_WEIGHT + HeatSum(heat, g) * HEAT_WEIGHT
  }

  /**
   * The running best of query_score's loop over the placements, the first
   * of equal scores kept: the largest group score, None when there is no group.
   */
  function Top(heat: seq<int>, gs: seq<seq<nat>>): (r: Option<int>)
    requires forall g :: g in gs ==> InHeat(heat, g)
    ensures r.None? <==> gs == []
    ensures r.Some? ==> exists i :: 0 <= i < |gs| && r.value == GroupScore(heat, gs[i])
    ensures r.Some? ==> forall i :: 0 <= i < |gs| ==> GroupScore(heat, gs[i]) <= r.value
  {
    if gs == [] then None
    else
      var score := GroupScore(heat, gs[|gs| - 1]);
      match Top(heat, gs[..|gs| - 1])
      case None => Some(score)
      case Some(last) => if score > last then Some(score) else Some(last)
  }

  /** What query_score returns: the best placement's score plus the recency bonus. */
  function Score(info: LineInfo, query: string): Option<int>
    requires WellFormed(info) && query != []
  {
    match Positions(info, query)
    case None => None
    case Some(groups) =>
      PositionsInHeat(info, query);
      match Top(info.heatmap, groups)
      case None => None
      case Some(best) => Some(best + RustDiv(info.factor, FACTOR_REDUCE))
  }

  // ---------------------------------------------------------------------
  // query_score
  // ---------------------------------------------------------------------

  method QueryScore(info: LineInfo, query: string) returns (r: Option<int>)
    requires WellFormed(info)
    requires query != []
    ensures r == Score(info, query)
  {
    var positions := QueryPositions(info, query);
    ScoreUnfold(info, query);
    if positions.None? {
      return None;
    }
    var groups := positions.value;
    var topScore := BestScore(info.heatmap, groups);
    match topScore {
      case None =>
        return None;
      case Some(score) =>
        return Some(score + RustDiv(info.factor, FACTOR_REDUCE));
    }
  }

  /** The loop of query_score over the placements, keeping the running best. */
  method BestScore(heat: seq<int>, groups: seq<seq<nat>>) returns (topScore: Option<int>)
    requires forall g :: g in groups ==> InHeat(heat, g)
    ensures topScore == Top(heat, groups)
  {
    topScore := None;
    for j := 0 to |groups|
      invariant topScore == Top(heat, groups[..j])
    {
      var pgroup := groups[j];
      assert groups[..j + 1][..j] == groups[..j];
      var score := ScoreGroup(heat, pgroup);
      match topScore {
        case None =>
          topScore := Some(score);
        case Some(last) =>
          if score > last {
            topScore := Some(score);
          }
      }
    }
    assert groups[..|groups|] == groups;
  }

  /** The body of query_score's loop for one placement. */
  method ScoreGroup(heat: seq<int>, pgroup: seq<nat>) returns (score: int)
    requires InHeat(heat, pgroup)
    ensures score == GroupScore(heat, pgroup)
  {
    // the gaps between consecutive offsets, and how many there are
    var distTotal := 0;
    var distCount := 0;
    for i := 0 to |pgroup| - 1
      invariant distTotal == DistTotal(pgroup[..i + 1])
      invariant distCount == i
    {
      assert pgroup[..i + 2][..i + 1] == pgroup[..i + 1];
      distTotal := distTotal + (pgroup[i + 1] as int - pgroup[i]);
      distCount := distCount + 1;
    }
    assert pgroup[..|pgroup|] == pgroup;
    // a one-character group has no gap; count it as one
    if distCount == 0 {
      distCount := 1;
    }
    // the heat of every offset in the group
    var heatSum := 0;
    for k := 0 to |pgroup|
      invariant heatSum == HeatSum(heat, pgroup[..k])
    {
      assert pgroup[..k + 1][..k] == pgroup[..k];
      heatSum := heatSum + heat[pgroup[k]];
    }
    score := RustDiv(distTotal, distCount) * DIST_WEIGHT + heatSum * HEAT_WEIGHT;
  }

  /** Score unfolded by the outcome of query_positions. */
  lemma ScoreUnfold(info: LineInfo, query: string)
    requires WellFormed(info) && query != []
    ensures Positions(info, query).None? ==> Score(info, query).None?
    ensures Positions(info, query).Some? ==>
      && (forall g :: g in Positions(info, query).value ==> InHeat(info.heatmap, g))
      && (Top(info.heatmap, Positions(info, query).value).None? ==> Score(info, query).None?)
      && (Top(info.heatmap, Positions(info, query).value).Some? ==>
            Score(info, query) == Some(Top(info.heatmap, Positions(info, query).value).value + RustDiv(info.factor, FACTOR_REDUCE)))
  {
    if Positions(info, query).Some? {
      PositionsInHeat(info, query);
    }
  }

  // ---------------------------------------------------------------------
  // Properties
  // ---------------------------------------------------------------------

  /** Every placement query_positions returns can be scored against the line's heatmap. */
  lemma PositionsInHeat(info: LineInfo, query: string)
    requires WellFormed(info) && query != [] && Positions(info, query).Some?
    ensures forall g :: g in Positions(info, query).value ==> InHeat(info.heatmap, g)
  {
    forall g | g in Positions(info, query).value
      ensures InHeat(info.heatmap, g)
    {
      PositionsMembers(info, query, g);
      forall k | 0 <= k < |g|
        ensures g[k] < |info.heatmap|
      {
        var list := info.charMap[query[k]];
        var a :| 0 <= a < |list| && list[a] == g[k];
      }
    }
  }

  /** The gaps telescope: their sum is the distance from the first offset to the last. */
  lemma {:induction false} DistTelescopes(g: seq<nat>)
    requires |g| >= 1
    ensures DistTotal(g) == g[|g| - 1] as int - g[0]
  {
    if |g| > 1 {
      var init := g[..|g| - 1];
      DistTelescopes(init);
      assert init[0] == g[0] && init[|init| - 1] == g[|g| - 2];
    }
  }

  /**
   * A placement's gap term is the span from its first to its last offset,
   * divided by the number of gaps; for a strictly increasing placement the
   * span is at least the number of gaps.
   */
  lemma GroupScoreSpan(heat: seq<int>, g: seq<nat>)
    requires InHeat(heat, g) && Util.StrictlyAscending(g)
    ensures GroupScore(heat, g)
      == ((g[|g| - 1] as int - g[0]) / DistCount(g)) * DIST_WEIGHT + HeatSum(heat, g) * HEAT_WEIGHT
    ensures g[|g| - 1] as int - g[0] >= |g| - 1
  {
    DistTelescopes(g);
    SpanAtLeast(g, |g| - 1);
  }

  lemma {:induction false} SpanAtLeast(g: seq<nat>, k: nat)
    requires Util.StrictlyAscending(g) && k < |g|
    ensures g[k] as int - g[0] >= k
  {
    if k > 0 {
      SpanAtLeast(g, k - 1);
    }
  }

  /**
   * An ASCII query scores on a line exactly when the query can be placed in
   * the line: one offset per character, from that character's offsets,
   * strictly increasing.
   */
  lemma ScoreSomeIffPlaced(info: LineInfo, query: string)
    requires WellFormed(info) && query != [] && IsAscii(query)
    ensures Score(info, query).Some? <==> exists p :: Embeds(info.charMap, query, p)
  {
    if Score(info, query).Some? {
      var groups := Positions(info, query).value;
      PositionsMembers(info, query, groups[0]);
    }
    if p :| Embeds(info.charMap, query, p) {
      SequenceComplete(info, query, p);
      PositionsMembers(info, query, p);
    }
  }

  /** A query with a non-ASCII character never scores (its lists are counted against bytes). */
  lemma NonAsciiNeverScores(info: LineInfo, query: string)
    requires WellFormed(info) && query != [] && !IsAscii(query)
    ensures Score(info, query).None?
  {
    NonAsciiNeverMatches(info, query);
  }

  /**
   * A score is the score of some placement of the query plus the recency
   * bonus, and no placement scores higher.
   */
  lemma ScoreIsBest(info: LineInfo, query: string)
    requires WellFormed(info) && query != [] && Score(info, query).Some?
    ensures exists p :: (Embeds(info.charMap, query, p) && InHeat(info.heatmap, p) &&
      Score(info, query).value == GroupScore(info.heatmap, p) + RustDiv(info.factor, FACTOR_REDUCE))
    ensures forall p :: Embeds(info.charMap, query, p) ==> (InHeat(info.heatmap, p) &&
      GroupScore(info.heatmap, p) + RustDiv(info.factor, FACTOR_REDUCE) <= Score(info, query).value)
  {
    var groups := Positions(info, query).value;
    PositionsInHeat(info, query);
    var i :| 0 <= i < |groups| && Top(info.heatmap, groups).value == GroupScore(info.heatmap, groups[i]);
    PositionsMembers(info, query, groups[i]);
    forall p | Embeds(info.charMap, query, p)
      ensures InHeat(info.heatmap, p)
      ensures GroupScore(info.heatmap, p) + RustDiv(info.factor, FACTOR_REDUCE) <= Score(info, query).value
    {
      PositionsMembers(info, query, p);
      var j :| 0 <= j < |groups| && groups[j] == p;
    }
  }
}
