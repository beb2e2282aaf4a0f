/**
 * SearchBase of search.rs: the history as a map from line text to its index,
 * and the bounded best-first query over it.
 */
module Search {
  import opened Wrappers
  import opened Constants
  import opened LineIndex
  import opened MatchScore
  import opened Ranking

  /** Every stored index is well formed. */
  ghost predicate AllWellFormed(lines: map<string, LineInfo>) {
    forall l :: l in lines ==> WellFormed(lines[l])
  }

  /**
   * The map after inserting the history lines in order, the k-th (from 0)
   * indexed with factor k; a later copy of a line replaces an earlier one.
   */
  function Loaded(lines: map<string, LineInfo>, history: seq<string>): map<string, LineInfo> {
    if history == [] then lines
    else
      var n := |history| - 1;
      Loaded(lines, history[..n])[history[n] := IndexLine(history[n], n)]
  }

  /** The line is stored and the query scores on it. */
  ghost predicate Matches(lines: map<string, LineInfo>, query: string, line: string)
    requires AllWellFormed(lines) && query != []
  {
    line in lines && Score(lines[line], query).Some?
  }

  /**
   * The heap entry query_inplace makes for a matching line: score and factor
   * negated, so that the heap's greatest item is the weakest match.
   */
  function Candidate(lines: map<string, LineInfo>, query: string, line: string): LineMatch
    requires AllWellFormed(lines) && query != [] && Matches(lines, query, line)
  {
    LineMatch(-Score(lines[line], query).value, -lines[line].factor, line)
  }

  /** `a` ranks at least as high as `b`: a higher score, or the same score and a later line. */
  ghost predicate AtLeastAsGood(lines: map<string, LineInfo>, query: string, a: string, b: string)
    requires AllWellFormed(lines) && query != [] && Matches(lines, query, a) && Matches(lines, query, b)
  {
    var sa, sb := Score(lines[a], query).value, Score(lines[b], query).value;
    sa > sb || (sa == sb && lines[a].factor >= lines[b].factor)
  }

  /**
   * An entry is in the heap, or the heap is full and every item in it
   * is no greater (no weaker a match) than the entry.
   */
  ghost predicate KeptOrBeaten(items: seq<LineMatch>, capacity: nat, d: LineMatch) {
    d in items || (|items| == capacity && forall k :: 0 <= k < |items| ==> Le(items[k], d))
  }

  /** Each item of `before` missing from `after` was pushed out by a strictly smaller item of `after`. */
  ghost predicate OnlyStrictlyDisplaced(before: seq<LineMatch>, after: seq<LineMatch>) {
    forall d :: d in before && d !in after ==> exists e :: e in after && Lt(e, d)
  }

  /** No two items are entries for the same line. */
  ghost predicate DistinctLines(ms: seq<LineMatch>) {
    forall i, j :: 0 <= i < j < |ms| ==> ms[i].line != ms[j].line
  }

  /** The item's line matches and the item is that line's entry. */
  ghost predicate IsCandidate(lines: map<string, LineInfo>, query: string, m: LineMatch)
    requires AllWellFormed(lines) && query != []
  {
    Matches(lines, query, m.line) && m == Candidate(lines, query, m.line)
  }

  /** The lines of the matches, in order. */
  function Lines(ms: seq<LineMatch>): (r: seq<string>)
    ensures |r| == |ms|
    ensures forall i :: 0 <= i < |ms| ==> r[i] == ms[i].line
  {
    if ms == [] then [] else [ms[0].line] + Lines(ms[1..])
  }

  class SearchBase {
    var lines: map<string, LineInfo>

    ghost predicate Valid()
      reads this
    {
      AllWellFormed(lines)
    }

    /** SearchBase::default: no lines. */
    constructor()
      ensures lines == map[]
      ensures Valid()
    {
      lines := map[];
    }

    /** read_history over the lines of the history file; returns the last line number, -1 for none. */
    method ReadHistory(history: seq<string>) returns (lineNumber: int)
      requires Valid()
      modifies this
      ensures Valid()
      ensures lineNumber == |history| - 1
      ensures lines == Loaded(old(lines), history)
    {
      lineNumber := -1;
      for k := 0 to |history|
        invariant lineNumber == k - 1
        invariant lines == Loaded(old(lines), history[..k])
        invariant Valid()
      {
        var line := history[k];
        lineNumber := lineNumber + 1;
        var info := NewLineInfo(line, lineNumber);
        IndexLineWellFormed(line, lineNumber);
        assert history[..k + 1][..k] == history[..k];
        lines := lines[line := info];
      }
      assert history[..|history|] == history;
    }

    /**
     * query_inplace: offers every matching line to the heap. Afterwards each
     * matching line is kept, or the heap is full of matches at least as good.
     */
    method QueryInplace(query: string, matches: MatchHeap)
      requires Valid() && query != []
      requires matches.Valid()
      modifies matches
      ensures matches.Valid()
      ensures forall k :: 0 <= k < |matches.items| ==>
        matches.items[k] in old(matches.items) || IsCandidate(lines, query, matches.items[k])
      ensures forall line :: Matches(lines, query, line) ==>
        KeptOrBeaten(matches.items, matches.capacity, Candidate(lines, query, line))
      ensures OnlyStrictlyDisplaced(old(matches.items), matches.items)
      ensures old(matches.items) == [] ==> DistinctLines(matches.items)
    {
      var remaining := lines.Keys;
      ghost var done: set<string> := {};
      while remaining != {}
        invariant forall l :: l in remaining ==> l in lines
        invariant forall l :: l in lines && l !in remaining ==> l in done
        invariant forall l :: l in done ==> l !in remaining
        invariant matches.Valid()
        invariant forall k :: 0 <= k < |matches.items| ==>
          matches.items[k] in old(matches.items) || IsCandidate(lines, query, matches.items[k])
        invariant forall line :: line in done && Matches(lines, query, line) ==>
          KeptOrBeaten(matches.items, matches.capacity, Candidate(lines, query, line))
        invariant OnlyStrictlyDisplaced(old(matches.items), matches.items)
        invariant old(matches.items) == [] ==> LinesWithin(matches.items, done) && DistinctLines(matches.items)
        decreases |remaining|
      {
        var line :| line in remaining;
        var info := lines[line];
        remaining := remaining - {line};
        ghost var before := matches.items;
        var lineScore := QueryScore(info, query);
        if lineScore.Some? {
          // negated, so the heap's greatest item is the weakest match kept
          var matchItem := LineMatch(-lineScore.value, -info.factor, line);
          Offer(matches, matchItem);
          CandidatesStay(lines, query, old(matches.items), before, matches.items, matchItem);
          DisplacedTransitive(old(matches.items), before, matches.items);
          if old(matches.items) == [] {
            OfferedDistinct(before, matchItem, matches.items, done);
          }
        }
        BeatenStay(lines, query, done, line, before, matches.items, matches.capacity);
        done := done + {line};
      }
    }

    /** query: the best matching lines, at most MATCH_NUMBER, best first. */
    method Query(query: string) returns (result: seq<string>)
      requires Valid() && query != []
      ensures |result| <= MATCH_NUMBER
      ensures forall i, j :: 0 <= i < j < |result| ==> result[i] != result[j]
      ensures forall i :: 0 <= i < |result| ==> Matches(lines, query, result[i])
      ensures forall i, j :: 0 <= i < j < |result| ==> AtLeastAsGood(lines, query, result[i], result[j])
      ensures forall line :: Matches(lines, query, line) && line !in result ==>
        |result| == MATCH_NUMBER && forall i :: 0 <= i < |result| ==> AtLeastAsGood(lines, query, result[i], line)
    {
      var matches := new MatchHeap(MATCH_NUMBER);
      QueryInplace(query, matches);
      var sorted := SortedVec(matches.items);
      result := Lines(sorted);
      QueryOutcome(lines, query, matches.items, sorted, result);
    }
  }

  /**
   * The peek-and-insert step of query_inplace's loop: push while there is
   * room, otherwise push_pop when the entry is strictly less than the top.
   */
  method Offer(matches: MatchHeap, matchItem: LineMatch)
    requires matches.Valid()
    modifies matches
    ensures matches.Valid()
    // room left: the entry is pushed
    ensures |old(matches.items)| < matches.capacity ==> matches.items == old(matches.items) + [matchItem]
    // full: the entry replaces the top only when strictly smaller; otherwise the heap is kept
    ensures |old(matches.items)| == matches.capacity && old(matches.items) != [] ==>
      var top := MaxIndex(old(matches.items));
      matches.items ==
        if Lt(matchItem, old(matches.items)[top]) then old(matches.items)[top := matchItem]
        else old(matches.items)
    // no room at all: push_pop hands the entry straight back
    ensures matches.capacity == 0 ==> matches.items == []
    ensures forall k :: 0 <= k < |matches.items| ==>
      matches.items[k] in old(matches.items) || matches.items[k] == matchItem
    ensures KeptOrBeaten(matches.items, matches.capacity, matchItem)
    ensures forall d :: KeptOrBeaten(old(matches.items), matches.capacity, d) ==>
      KeptOrBeaten(matches.items, matches.capacity, d)
    ensures OnlyStrictlyDisplaced(old(matches.items), matches.items)
  {
    var matchesLen := matches.Len();
    var matchesCapacity := matches.capacity;
    var insert;
    match matches.Peek() {
      case None =>
        insert := true;
      case Some(item) =>
        if Lt(matchItem, item) || matchesLen < matchesCapacity {
          insert := true;
        } else {
          insert := false;
        }
    }
    if insert {
      if matchesLen < matchesCapacity {
        ghost var before := matches.items;
        matches.Push(matchItem);
        PushKeeps(before, matches.capacity, matchItem);
      } else {
        ghost var before := matches.items;
        var popped := matches.PushPop(matchItem);
        assert before != [] ==> matches.items[MaxIndex(before)] == matchItem;
        PushPopKeeps(before, matches.capacity, matchItem, matches.items, popped);
        if before != [] && Lt(matchItem, before[MaxIndex(before)]) {
          ReplaceDisplaces(before, MaxIndex(before), matchItem);
        }
      }
    } else {
      RejectKeeps(matches.items, matches.capacity, matchItem);
    }
  }

  /** Items that were old or entries stay so when the one added is an entry. */
  lemma CandidatesStay(lines: map<string, LineInfo>, query: string, start: seq<LineMatch>,
                       before: seq<LineMatch>, after: seq<LineMatch>, item: LineMatch)
    requires AllWellFormed(lines) && query != []
    requires forall k :: 0 <= k < |before| ==> before[k] in start || IsCandidate(lines, query, before[k])
    requires forall k :: 0 <= k < |after| ==> after[k] in before || after[k] == item
    requires IsCandidate(lines, query, item)
    ensures forall k :: 0 <= k < |after| ==> after[k] in start || IsCandidate(lines, query, after[k])
  {
    forall k | 0 <= k < |after| && after[k] != item
      ensures after[k] in start || IsCandidate(lines, query, after[k])
    {
      var j :| 0 <= j < |before| && before[j] == after[k];
    }
  }

  /** Lines offered so far stay kept or beaten when one more line has been offered. */
  lemma BeatenStay(lines: map<string, LineInfo>, query: string, done: set<string>, line: string,
                   before: seq<LineMatch>, after: seq<LineMatch>, capacity: nat)
    requires AllWellFormed(lines) && query != []
    requires forall l :: l in done && Matches(lines, query, l) ==>
      KeptOrBeaten(before, capacity, Candidate(lines, query, l))
    requires forall d :: KeptOrBeaten(before, capacity, d) ==> KeptOrBeaten(after, capacity, d)
    requires Matches(lines, query, line) ==> KeptOrBeaten(after, capacity, Candidate(lines, query, line))
    ensures forall l :: l in done + {line} && Matches(lines, query, l) ==>
      KeptOrBeaten(after, capacity, Candidate(lines, query, l))
  {
  }

  lemma PushKeeps(items: seq<LineMatch>, capacity: nat, x: LineMatch)
    requires |items| < capacity
    ensures KeptOrBeaten(items + [x], capacity, x)
    ensures forall d :: KeptOrBeaten(items, capacity, d) ==> KeptOrBeaten(items + [x], capacity, d)
  {
    assert (items + [x])[|items|] == x;
    forall d | KeptOrBeaten(items, capacity, d)
      ensures KeptOrBeaten(items + [x], capacity, d)
    {
      var i :| 0 <= i < |items| && items[i] == d;
      assert (items + [x])[i] == d;
    }
  }

  lemma PushPopKeeps(items: seq<LineMatch>, capacity: nat, x: LineMatch, after: seq<LineMatch>, popped: LineMatch)
    requires |items| == capacity && |after| == |items|
    requires items == [] ==> after == []
    requires items != [] ==> x in after
    requires multiset(after) + multiset{popped} == multiset(items) + multiset{x}
    requires forall k :: 0 <= k < |after| ==> Le(after[k], popped)
    requires Le(x, popped)
    ensures KeptOrBeaten(after, capacity, x)
    ensures forall d :: KeptOrBeaten(items, capacity, d) ==> KeptOrBeaten(after, capacity, d)
  {
    forall d | KeptOrBeaten(items, capacity, d) && d !in after
      ensures |after| == capacity && forall k :: 0 <= k < |after| ==> Le(after[k], d)
    {
      if d in items {
        assert multiset(after)[d] == 0 && multiset(items)[d] >= 1;
        assert (multiset(items) + multiset{x})[d] >= 1;
        assert multiset{popped}[d] >= 1;
      } else {
        forall k | 0 <= k < |after|
          ensures Le(after[k], d)
        {
          assert after[k] in multiset(after);
          if after[k] in multiset(items) {
            var j :| 0 <= j < |items| && items[j] == after[k];
          } else {
            // x took the place of the popped top
            var m := after[k];
            assert multiset(after)[m] >= 1 && multiset(items)[m] == 0;
            assert (multiset(items) + multiset{x})[m] >= 1;
            assert m == x;
            assert (multiset(items) + multiset{x})[x] == 1;
            assert popped != x;
            assert (multiset(items) + multiset{x})[popped] >= 1;
            assert multiset(items)[popped] >= 1;
            var j :| 0 <= j < |items| && items[j] == popped;
            CmpTransitive(x, popped, d);
          }
        }
      }
    }
  }

  lemma RejectKeeps(items: seq<LineMatch>, capacity: nat, x: LineMatch)
    requires items != [] && !Lt(x, items[MaxIndex(items)]) && |items| == capacity
    ensures KeptOrBeaten(items, capacity, x)
  {
    BelowTop(items, x);
  }

  /** Replacing an item by a strictly smaller one displaces only that item. */
  lemma ReplaceDisplaces(items: seq<LineMatch>, i: nat, x: LineMatch)
    requires i < |items| && Lt(x, items[i])
    ensures OnlyStrictlyDisplaced(items, items[i := x])
  {
    forall d | d in items && d !in items[i := x]
      ensures exists e :: e in items[i := x] && Lt(e, d)
    {
      var k :| 0 <= k < |items| && items[k] == d;
      assert items[i := x][k] == if k == i then x else d;
      assert items[i := x][i] == x;
    }
  }

  /** An item pushed out over several offers was pushed out by a strictly smaller one still there. */
  lemma DisplacedTransitive(a: seq<LineMatch>, b: seq<LineMatch>, c: seq<LineMatch>)
    requires OnlyStrictlyDisplaced(a, b) && OnlyStrictlyDisplaced(b, c)
    ensures OnlyStrictlyDisplaced(a, c)
  {
    forall d | d in a && d !in c
      ensures exists e :: e in c && Lt(e, d)
    {
      if d !in b {
        var e :| e in b && Lt(e, d);
        if e !in c {
          var e' :| e' in c && Lt(e', e);
          CmpTransitive(e', e, d);
        }
      }
    }
  }

  /** Every item's line is among `done`. */
  ghost predicate LinesWithin(ms: seq<LineMatch>, done: set<string>) {
    forall k :: 0 <= k < |ms| ==> ms[k].line in done
  }

  /** Offering the entry of a line not offered before keeps the lines distinct. */
  lemma OfferedDistinct(before: seq<LineMatch>, x: LineMatch, after: seq<LineMatch>, done: set<string>)
    requires LinesWithin(before, done) && DistinctLines(before) && x.line !in done
    requires after == before || after == before + [x] || (before != [] && after == before[MaxIndex(before) := x])
    ensures LinesWithin(after, done + {x.line}) && DistinctLines(after)
  {
  }

  /** Entries compare as their lines rank, in reverse. */
  lemma CandidateOrder(lines: map<string, LineInfo>, query: string, a: string, b: string)
    requires AllWellFormed(lines) && query != [] && Matches(lines, query, a) && Matches(lines, query, b)
    ensures Le(Candidate(lines, query, a), Candidate(lines, query, b)) <==> AtLeastAsGood(lines, query, a, b)
  {
  }

  /** What query returns, from what query_inplace leaves in a heap that started empty. */
  lemma QueryOutcome(lines: map<string, LineInfo>, query: string, items: seq<LineMatch>,
                     sorted: seq<LineMatch>, result: seq<string>)
    requires AllWellFormed(lines) && query != []
    requires |items| <= MATCH_NUMBER
    requires forall k :: 0 <= k < |items| ==> IsCandidate(lines, query, items[k])
    requires DistinctLines(items)
    requires forall line :: Matches(lines, query, line) ==>
      KeptOrBeaten(items, MATCH_NUMBER, Candidate(lines, query, line))
    requires Sorted(sorted) && multiset(sorted) == multiset(items) && result == Lines(sorted)
    ensures |result| <= MATCH_NUMBER
    ensures forall i, j :: 0 <= i < j < |result| ==> result[i] != result[j]
    ensures forall i :: 0 <= i < |result| ==> Matches(lines, query, result[i])
    ensures forall i, j :: 0 <= i < j < |result| ==> AtLeastAsGood(lines, query, result[i], result[j])
    ensures forall line :: Matches(lines, query, line) && line !in result ==>
      |result| == MATCH_NUMBER && forall i :: 0 <= i < |result| ==> AtLeastAsGood(lines, query, result[i], line)
  {
    SortedCandidates(lines, query, items, sorted);
    SortedDistinct(lines, query, items, sorted);
    ResultOrdered(lines, query, sorted, result);
    forall line | Matches(lines, query, line) && line !in result
      ensures |result| == MATCH_NUMBER
      ensures forall i :: 0 <= i < |result| ==> AtLeastAsGood(lines, query, result[i], line)
    {
      ResultBeats(lines, query, items, sorted, result, line);
    }
  }

  /** The sorted items are the heap's items, so each is a line's entry. */
  lemma SortedCandidates(lines: map<string, LineInfo>, query: string, items: seq<LineMatch>, sorted: seq<LineMatch>)
    requires AllWellFormed(lines) && query != []
    requires forall k :: 0 <= k < |items| ==> IsCandidate(lines, query, items[k])
    requires multiset(sorted) == multiset(items)
    ensures |sorted| == |items|
    ensures forall i :: 0 <= i < |sorted| ==> IsCandidate(lines, query, sorted[i])
  {
    assert |multiset(sorted)| == |multiset(items)|;
    forall i | 0 <= i < |sorted|
      ensures IsCandidate(lines, query, sorted[i])
    {
      assert sorted[i] in multiset(items);
    }
  }

  /** Sorting entries for distinct lines keeps the lines distinct. */
  lemma SortedDistinct(lines: map<string, LineInfo>, query: string, items: seq<LineMatch>, sorted: seq<LineMatch>)
    requires AllWellFormed(lines) && query != []
    requires DistinctLines(items)
    requires forall i :: 0 <= i < |sorted| ==> IsCandidate(lines, query, sorted[i])
    requires multiset(sorted) == multiset(items)
    ensures DistinctLines(sorted)
  {
    forall i, j | 0 <= i < j < |sorted|
      ensures sorted[i].line != sorted[j].line
    {
      if sorted[i].line == sorted[j].line {
        // both are the entry of the same line, so the entry occurs twice
        TwoCopies(sorted, i, j);
        AtMostOneCopy(items, sorted[i]);
        assert false;
      }
    }
  }

  lemma TwoCopies(s: seq<LineMatch>, i: nat, j: nat)
    requires i < j < |s| && s[i] == s[j]
    ensures multiset(s)[s[i]] >= 2
  {
    assert s == s[..j] + [s[j]] + s[j + 1..];
    assert s[..j][i] == s[i];
    assert multiset(s[..j])[s[i]] >= 1;
  }

  lemma {:induction false} AtMostOneCopy(s: seq<LineMatch>, v: LineMatch)
    requires DistinctLines(s)
    ensures multiset(s)[v] <= 1
  {
    if s != [] {
      var n := |s| - 1;
      assert s == s[..n] + [s[n]];
      AtMostOneCopy(s[..n], v);
      if s[n] == v {
        assert v !in s[..n];
      }
    }
  }

  /** Ascending entries are lines in descending rank. */
  lemma ResultOrdered(lines: map<string, LineInfo>, query: string, sorted: seq<LineMatch>, result: seq<string>)
    requires AllWellFormed(lines) && query != []
    requires forall i :: 0 <= i < |sorted| ==> IsCandidate(lines, query, sorted[i])
    requires Sorted(sorted) && result == Lines(sorted)
    ensures forall i :: 0 <= i < |result| ==> Matches(lines, query, result[i])
    ensures forall i, j :: 0 <= i < j < |result| ==> AtLeastAsGood(lines, query, result[i], result[j])
  {
    forall i, j | 0 <= i < j < |result|
      ensures AtLeastAsGood(lines, query, result[i], result[j])
    {
      CandidateOrder(lines, query, result[i], result[j]);
    }
  }

  /** A matching line left out of the result is ranked no higher than any line in it. */
  lemma ResultBeats(lines: map<string, LineInfo>, query: string, items: seq<LineMatch>,
                    sorted: seq<LineMatch>, result: seq<string>, line: string)
    requires AllWellFormed(lines) && query != []
    requires |sorted| == |items|
    requires forall i :: 0 <= i < |sorted| ==> IsCandidate(lines, query, sorted[i])
    requires multiset(sorted) == multiset(items) && result == Lines(sorted)
    requires forall i :: 0 <= i < |result| ==> Matches(lines, query, result[i])
    requires Matches(lines, query, line) && line !in result
    requires KeptOrBeaten(items, MATCH_NUMBER, Candidate(lines, query, line))
    ensures |result| == MATCH_NUMBER
    ensures forall i :: 0 <= i < |result| ==> AtLeastAsGood(lines, query, result[i], line)
  {
    var d := Candidate(lines, query, line);
    forall i | 0 <= i < |sorted|
      ensures sorted[i] != d
    {
      assert result[i] == sorted[i].line;
    }
    assert d !in multiset(sorted);
    forall i | 0 <= i < |result|
      ensures AtLeastAsGood(lines, query, result[i], line)
    {
      assert sorted[i] in multiset(items);
      var k :| 0 <= k < |items| && items[k] == sorted[i];
      CandidateOrder(lines, query, result[i], line);
    }
  }

  // ---------------------------------------------------------------------
  // read_history
  // ---------------------------------------------------------------------

  /**
   * A line of the history is stored with the index of its last occurrence as
   * factor, and its index is the one built from it.
   */
  lemma {:induction false} LoadedLast(lines: map<string, LineInfo>, history: seq<string>, line: string)
    requires line in history
    ensures line in Loaded(lines, history)
    ensures var info := Loaded(lines, history)[line];
      && 0 <= info.factor < |history| && history[info.factor] == line
      && (forall j :: info.factor < j < |history| ==> history[j] != line)
      && info == IndexLine(line, info.factor)
  {
    var n := |history| - 1;
    if history[n] != line {
      var k :| 0 <= k < |history| && history[k] == line;
      assert history[..n][k] == line;
      LoadedLast(lines, history[..n], line);
      var f := Loaded(lines, history[..n])[line].factor;
      assert history[f] == history[..n][f];
      forall j | f < j < |history|
        ensures history[j] != line
      {
        if j < n {
          assert history[j] == history[..n][j];
        }
      }
    }
  }

  /** Lines not in the history keep what they had. */
  lemma {:induction false} LoadedOthers(lines: map<string, LineInfo>, history: seq<string>, line: string)
    requires line !in history
    ensures line in Loaded(lines, history) <==> line in lines
    ensures line in lines ==> Loaded(lines, history)[line] == lines[line]
  {
    if history != [] {
      var n := |history| - 1;
      assert line !in history[..n];
      LoadedOthers(lines, history[..n], line);
    }
  }

  /** Distinct lines of the history get distinct factors. */
  lemma LoadedFactorsDistinct(lines: map<string, LineInfo>, history: seq<string>, a: string, b: string)
    requires a in history && b in history && a != b
    ensures a in Loaded(lines, history) && b in Loaded(lines, history)
    ensures Loaded(lines, history)[a].factor != Loaded(lines, history)[b].factor
  {
    LoadedLast(lines, history, a);
    LoadedLast(lines, history, b);
  }

  /** Loading keeps every stored index well formed. */
  lemma LoadedWellFormed(lines: map<string, LineInfo>, history: seq<string>)
    requires AllWellFormed(lines)
    ensures AllWellFormed(Loaded(lines, history))
  {
    forall l | l in Loaded(lines, history)
      ensures WellFormed(Loaded(lines, history)[l])
    {
      if l in history {
        LoadedLast(lines, history, l);
        IndexLineWellFormed(l, Loaded(lines, history)[l].factor);
      } else {
        LoadedOthers(lines, history, l);
      }
    }
  }
}
