# bis: a verified model of the fuzzy history search

bis is an interactive search over the shell history. Every history line
gets an index: for each character, the offsets where it occurs, and a "heat"
value per offset that rewards word starts and class changes. As the user
types, a query is scored against every line. A query scores on a line when
its characters can be placed in the line at strictly increasing offsets. The
score is the best placement's score, where tight gaps and hot offsets score
higher, plus a bonus for recent lines. The ten best lines are kept in a
bounded heap and shown best first. The terminal side has two parts. A small
interpreter expands terminfo capability strings (`%pN`, `%d`). A loop
reacts to keys, result lists and stop signals, and in the end may insert the
best match into the shell.

The model is in Dafny, one module per part of the program:

- `Constants`: the tuning constants, the control characters, and Rust's truncating `/`.
- `Unicode`: the `char` predicates the program uses.
- `Util` (util.rs): `build_string`, `align_len` on 64-bit words with an explicit bitwise model, and `find_hole`.
- `LineIndex` (`LineInfo::new`): the indexing loop is a method proved equal to `IndexLine`, a definition per offset; the properties of the character map and the heat values are lemmas.
- `MatchSequence` (`query_sequence`): the narrowing loop with its binary search, proved against `Sequence`, the chain of narrowed lists.
- `MatchPositions` (`query_positions`): the odometer over an `array` of indices, proved to return exactly the strictly increasing placements, in lexicographic order, each once.
- `MatchScore` (`query_score`): the running maximum over placements, proved to be the best placement's score.
- `Ranking`: `LineMatch` and its order, `into_sorted_vec`, and the bounded `BinaryHeap` as a class whose items are a sequence (the heap layout is not modelled).
- `Search` (`SearchBase`): a class holding the line map; `read_history` as a fold over the lines, `query_inplace` and `query` with the top-K property: distinct lines, best first, and a kept line displaced only by a strictly better one.
- `TermInfo` (`TermControl::get_string`): the walk over a capability string, with its malformed-escape cases.
- `Session` (`UI::start`): the event loop as a state machine over query, best match, stopped flag and whether the search thread still takes queries, with the effects it has (drawn lines, bell, cleared query, echoed characters, queries sent to the search thread), and the truncation of over-wide matches.

## Model

| member | source | states |
|---|---|---|
| Unicode.ToLowercase | src/search.rs:215-221 | the lower case of an upper-case letter is a different, lower-case letter |
| Unicode.ToDigit | src/ui.rs:140 | `to_digit(10)` gives a value exactly for the decimal digits, and it is below 10 |
| Unicode.ByteLength | src/search.rs:285 | `str::len` counts UTF-8 bytes: at least the number of characters, and equal to it exactly for ASCII strings |
| Util.BuildString | src/util.rs:31-41 | the string has `count` characters and every one is `ch` |
| Util.BuildStringExample | src/util.rs:123-126 | `build_string('a', 5)` is `"aaaaa"` |
| Util.AlignLen | src/util.rs:95-97 | `(len + to - 1) & !(to - 1)` on 64-bit words is a multiple of `to` in `[len, len + to)` |
| Util.AlignLenLeast | src/util.rs:95-97 | the aligned length is at most any multiple of `to` that is at least `len`, so it is the least one |
| Util.AlignLenIdempotent | src/util.rs:95-97 | aligning an aligned length returns it unchanged, and does not overflow |
| Util.MaskClearsLowBits | src/util.rs:96 | `x & !(to - 1)` on a 64-bit word rounds `x` down to a multiple of the power of two `to` |
| Util.MaskRoundsDown | src/util.rs:96 | masking an n-bit word with the complement of `2^k - 1` subtracts `x mod 2^k` |
| Util.MaskLow | src/util.rs:96 | masking with the bits from k up clears exactly the k low bits |
| Util.FindHole | src/util.rs:99-111 | on usize keys the loop returns the hole `Hole(keys, 0)` that a scan from 0 finds, and None where `assert!(last + 1 != 0)` panics |
| Util.FindHolePanics | src/util.rs:100-110 | the panic happens exactly when the keys are non-empty, have no gap and end at the largest usize |
| Util.FindHoleFirstGap | src/util.rs:101-107 | at the first key that exceeds its predecessor (0 at the start) by more than one, the result is that key minus one |
| Util.FindHoleNoGap | src/util.rs:100-110 | without a gap the result is the last key plus one, and 1 for no keys |
| Util.FindHoleIsFree | src/util.rs:99-111 | on strictly ascending keys the result is at least 1 and is none of the keys |
| LineIndex.Indexed | src/search.rs:168-172 | the offsets processed are `0..=MAX_LEN`, or the whole line when it is shorter |
| LineIndex.HeatPrefix | src/search.rs:229-230 | one heat value per processed offset |
| LineIndex.NewLineInfo | src/search.rs:157-244 | the indexing loop builds exactly `IndexLine(line, factor)`: the character map, the heat values and the factor |
| LineIndex.VisitChar | src/search.rs:174-227 | one character's scanner step and its map entries, as `Bump` and `Register` define them |
| LineIndex.ClassStep | src/search.rs:176-211 | the first-character bonus, then the class bonus unless a change is pending, and the new class and flag |
| LineIndex.ScanStep | src/search.rs:229-236 | the heat pushed at an offset is `ws_score + cs_score` before the decay; then `ws` halves, and `cs` halves unless a change is pending |
| LineIndex.RegisteredIsMapOf | src/search.rs:213-222 | registering offset after offset builds the map of every offset under its character and its lower case |
| LineIndex.OffsetsMembers | src/search.rs:214-220 | an offset is listed under a key exactly when it is processed and registers under that key |
| LineIndex.OffsetsAscending | src/search.rs:214 | every list is strictly ascending and below the number of processed offsets |
| LineIndex.IndexLineWellFormed | src/search.rs:157-244 | every list is non-empty, strictly ascending and inside the heatmap; the heatmap has one value per processed offset; the factor is kept |
| LineIndex.CharMapExact | src/search.rs:174-222 | offset i is under key exactly when it is processed, is not white space, and holds the key or an upper-case letter lowering to it |
| LineIndex.NoWhitespaceIndexed | src/search.rs:174-175 | no white-space offset is ever recorded |
| LineIndex.UppercaseAlsoLowercase | src/search.rs:214-221 | an upper-case offset is listed under the letter and under its lower case |
| LineIndex.UppercaseKeyExact | src/search.rs:215-221 | an upper-case key lists only offsets holding that very letter: lower case never registers under upper case |
| LineIndex.BumpBounded | src/search.rs:176-227 | one character's step keeps both scores within their bounds |
| LineIndex.ScanSettled | src/search.rs:162-236 | between offsets both scores stay non-negative and bounded |
| LineIndex.HeatBounds | src/search.rs:229-236 | every heat value is between 0 and WHITESPACE_FACTOR + FIRST_FACTOR + CLASS_FACTOR |
| LineIndex.HeatAtLineStart | src/search.rs:177-187 | a line starting with a non-blank character has FIRST_FACTOR + CLASS_FACTOR at offset 0 |
| LineIndex.HeatAtWhitespace | src/search.rs:223-230 | a white-space offset carries at least WHITESPACE_FACTOR |
| LineIndex.HeatAtClassChange | src/search.rs:181-211 | a class change with no change pending carries at least CLASS_FACTOR |
| MatchSequence.BinarySearch | src/search.rs:260-277 | on a strictly ascending list: `Ok(i)` where the value is, `Err(i)` with everything before `i` smaller and everything from `i` larger |
| MatchSequence.NarrowAfter | src/search.rs:259-277 | the two binary-search branches keep exactly the offsets after the bound, and give up when none is left |
| MatchSequence.QuerySequence | src/search.rs:246-290 | the loop returns `Sequence`: the chain of narrowed lists when it covers the query's byte length, otherwise None |
| MatchSequence.AboveMembers | src/search.rs:260-277 | an offset survives narrowing exactly when it is in the list and after the bound |
| MatchSequence.AboveSuffix | src/search.rs:266-274 | a narrowed list is a suffix of the character's list |
| MatchSequence.AboveAscending | src/search.rs:266-274 | narrowing keeps a list strictly ascending |
| MatchSequence.ChainLength | src/search.rs:250-283 | the loop pushes at most one list per query character |
| MatchSequence.ChainShape | src/search.rs:250-283 | the k-th list is non-empty and is the k-th character's list narrowed after the first offset of the list pushed before it |
| MatchSequence.ChainAscending | src/search.rs:250-283 | every pushed list is strictly ascending |
| MatchSequence.NonAsciiNeverMatches | src/search.rs:285-289 | a query with a non-ASCII character never gets its lists, because the count is compared with the byte length |
| MatchSequence.SequenceShape | src/search.rs:246-290 | on Some: one list per character; each is a non-empty suffix of its character's list; from the second on it holds exactly the offsets after the first offset of the previous list |
| MatchSequence.SequenceComplete | src/search.rs:246-290 | an ASCII query that can be placed in the line always gets its lists |
| MatchSequence.ChoicesArePlacements | src/search.rs:250-289 | the strictly increasing choices from the lists are exactly the placements of the query in the character map |
| MatchPositions.Next | src/search.rs:325-343 | the odometer's next index vector stays in range |
| MatchPositions.QueryPositions | src/search.rs:292-354 | the odometer loop returns `Positions`: the strictly increasing combinations, in odometer order |
| MatchPositions.CheckIncreasing | src/search.rs:301-318 | `ignore` is set exactly when the selected offsets are not strictly increasing |
| MatchPositions.Advance | src/search.rs:325-347 | the carry loop steps the index array to `Next` of the old one, and reports `finished` exactly when there is none |
| MatchPositions.KeepStep | src/search.rs:300-348 | one turn of the loop moves the current combination, if kept, from the ones to come to the result |
| MatchPositions.FromZeros | src/search.rs:298 | from the all-zero index vector the odometer visits every combination of the lists |
| MatchPositions.FromStep | src/search.rs:320-343 | the walk from a vector is its own combination followed by the walk from the next vector |
| MatchPositions.NextNone | src/search.rs:328-334 | the odometer stops exactly after every index reaches the end of its list |
| MatchPositions.NextAt | src/search.rs:328-342 | the next vector increments the last index that can grow and resets every later one |
| MatchPositions.TuplesMembers | src/search.rs:298-348 | the combinations visited are exactly the choices of one offset per list |
| MatchPositions.KeepIncreasingMembers | src/search.rs:320-323 | a combination is kept exactly when it is visited and strictly increasing |
| MatchPositions.TuplesSorted | src/search.rs:298-348 | the odometer visits the combinations in strictly ascending lexicographic order |
| MatchPositions.PositionsMembers | src/search.rs:292-354 | the combinations returned are exactly the strictly increasing placements of the query, one offset per character |
| MatchPositions.PositionsSorted | src/search.rs:292-354 | they come in strictly ascending lexicographic order, so each appears once |
| MatchPositions.PositionsNone | src/search.rs:293-294 | query_positions is None exactly when query_sequence is |
| MatchScore.DistCount | src/search.rs:364-372 | the gap count is at least one |
| MatchScore.Top | src/search.rs:377-385 | the running best is None only for no placements; otherwise it is the score of one placement and no placement scores higher |
| MatchScore.QueryScore | src/search.rs:356-396 | query_score returns `Score`: the best placement's score plus `factor / FACTOR_REDUCE` |
| MatchScore.BestScore | src/search.rs:360-385 | the loop over placements keeps `Top` of the placements seen |
| MatchScore.ScoreGroup | src/search.rs:362-376 | one placement's score is `(gap_total / max(gap_count, 1)) * DIST_WEIGHT + heat_sum * HEAT_WEIGHT` with truncating division |
| MatchScore.ScoreUnfold | src/search.rs:356-395 | the score follows the outcome of query_positions: None for None, otherwise `Top` plus the recency bonus |
| MatchScore.PositionsInHeat | src/search.rs:374 | every returned placement indexes inside the heatmap |
| MatchScore.DistTelescopes | src/search.rs:363-368 | the summed gaps are the distance from the first offset to the last |
| MatchScore.GroupScoreSpan | src/search.rs:362-376 | a placement's gap term is its span over its gap count, and the span is at least the gap count |
| MatchScore.ScoreSomeIffPlaced | src/search.rs:356-395 | an ASCII query scores on a line exactly when it can be placed at strictly increasing offsets |
| MatchScore.NonAsciiNeverScores | src/search.rs:285-289 | a query with a non-ASCII character never scores |
| MatchScore.ScoreIsBest | src/search.rs:356-395 | a score is some placement's score plus the bonus, and no placement scores higher |
| Ranking.CmpLexicographic | src/search.rs:49-56 | `LineMatch::cmp` compares scores first and factors on a tie; the text plays no part |
| Ranking.CmpAntisymmetric | src/search.rs:49-56 | swapping the arguments reverses the order; equal both ways means equal |
| Ranking.CmpTransitive | src/search.rs:49-56 | the order is transitive, also for strict steps |
| Ranking.CmpTotal | src/search.rs:49-56 | any two matches are comparable and the order is reflexive |
| Ranking.MaxIndex | src/search.rs:123 | the position of an item no smaller than any other |
| Ranking.Insert | src/search.rs:152 | inserting into a sorted sequence keeps it sorted and adds exactly that item |
| Ranking.SortedVec | src/search.rs:152 | `into_sorted_vec` returns the heap's items as an ascending permutation |
| Ranking.ReplaceTop | src/search.rs:139 | replacing the top by a smaller item swaps the two in the multiset, and every item stays at most the old top |
| Ranking.BelowTop | src/search.rs:127-133 | an item no smaller than the top is at least every item |
| Ranking.MatchHeap.constructor | src/search.rs:147 | `with_capacity`: an empty heap with the given capacity, within its capacity (`Valid`) |
| Ranking.MatchHeap.Peek | src/search.rs:123 | None exactly for an empty heap, otherwise a greatest item |
| Ranking.MatchHeap.Push | src/search.rs:137 | push within the capacity adds exactly that item |
| Ranking.MatchHeap.PushPop | src/search.rs:139 | push then pop: when the top exceeds the item, the item takes the top's place and the top comes back; otherwise the item comes back and the heap is unchanged |
| Search.Lines | src/search.rs:152 | the texts of the matches, in order |
| Search.SearchBase.constructor | src/search.rs:41-47 | the default search base has no lines |
| Search.SearchBase.ReadHistory | src/search.rs:73-99 | the result is the last line number (-1 for none), and the map is `Loaded`: the k-th line indexed with factor k, later copies replacing earlier ones |
| Search.SearchBase.QueryInplace | src/search.rs:101-143 | the heap gains only matching lines' entries; every matching line is kept, or the heap is full of entries no weaker; an item leaves only for a strictly smaller one that stays; a heap that starts empty ends with one entry per line at most |
| Search.SearchBase.Query | src/search.rs:145-153 | at most MATCH_NUMBER distinct lines, all matching, best first (higher score, then more recent); a matching line left out means the result is full of lines ranked at least as high |
| Search.Offer | src/search.rs:114-141 | the new heap, case by case: the entry pushed while there is room; on a full heap the top replaced by the entry when the entry is strictly smaller, and the heap unchanged otherwise (a tie keeps the top); nothing kept at capacity 0 |
| Search.ReplaceDisplaces | src/search.rs:138-139 | replacing the top by a strictly smaller entry displaces only the top, for a smaller item |
| Search.DisplacedTransitive | src/search.rs:103-142 | over successive offers, an item that left was pushed out by a strictly smaller item still in the heap |
| Search.OfferedDistinct | src/search.rs:103-142 | offering a line not offered before keeps one entry per line |
| Search.SortedDistinct | src/search.rs:152 | sorting entries for distinct lines keeps the lines distinct |
| Search.CandidatesStay | src/search.rs:135-141 | the heap keeps holding only original items or line entries |
| Search.BeatenStay | src/search.rs:103-142 | lines already offered stay kept or beaten |
| Search.PushKeeps | src/search.rs:136-137 | after a push the entry is kept and what was kept stays kept |
| Search.PushPopKeeps | src/search.rs:138-139 | after push_pop on a full heap the entry is kept or beaten, and so is everything that was |
| Search.RejectKeeps | src/search.rs:127-133 | an entry not below the top of a full heap is beaten by every item |
| Search.CandidateOrder | src/search.rs:114-119 | negated keys compare in reverse of rank |
| Search.QueryOutcome | src/search.rs:145-152 | the sorted, mapped heap is the top-K result that `Query` promises: distinct matching lines, best first, and full whenever a matching line is left out |
| Search.SortedCandidates | src/search.rs:152 | the sorted items are line entries |
| Search.ResultOrdered | src/search.rs:151-152 | ascending negated keys are lines best first |
| Search.ResultBeats | src/search.rs:145-152 | a matching line missing from the result ranks no higher than any line in it, and the result is full |
| Search.LoadedLast | src/search.rs:79-98 | a history line is stored with the number of its last occurrence as factor, indexed from its text |
| Search.LoadedOthers | src/search.rs:89-95 | lines not in the history keep what they had |
| Search.LoadedFactorsDistinct | src/search.rs:89-95 | distinct lines of the history get distinct factors |
| Search.LoadedWellFormed | src/search.rs:89-95 | loading keeps every stored index well formed |
| TermInfo.Digits | src/ui.rs:121 | the decimal digits of a natural number are non-empty and numeric |
| TermInfo.DigitsRoundTrip | src/ui.rs:121 | reading back the digits gives the number |
| TermInfo.DecimalRoundTrip | src/ui.rs:121 | reading back `format!("{}", v)` gives `v`, negative numbers included |
| TermInfo.GetString | src/ui.rs:90-174 | None exactly when the name is absent; otherwise the walk of the template, as `Lookup` defines it |
| TermInfo.RunAppend | src/ui.rs:110-168 | walking a template in two pieces is walking it whole |
| TermInfo.EscapeShape | src/ui.rs:117-167 | the pending escape is empty or `p`, and is pending only inside an escape |
| TermInfo.LiteralUnchanged | src/ui.rs:110-116 | a template without `%` expands to itself |
| TermInfo.LiteralCopies | src/ui.rs:111-116 | text outside escapes is copied to the output in order |
| TermInfo.PushParam | src/ui.rs:132-146 | `%pN` with 1 <= N <= number of parameters pushes parameter N |
| TermInfo.PrintInt | src/ui.rs:118-131 | `%d` with an integer on top pops it and appends it in decimal |
| TermInfo.PushPrint | src/ui.rs:118-146 | `%pN%d` with an integer parameter N appends it in decimal and leaves the stack as it was |
| TermInfo.PrintMalformed | src/ui.rs:119-131 | `%d` on an empty stack or a non-integer top prints nothing, still pops, and returns to literal mode |
| TermInfo.UnknownEscape | src/ui.rs:134-137 | an unknown escape character is consumed without output |
| TermInfo.BadParam | src/ui.rs:139-161 | `%p` with a non-digit, 0 or a missing parameter is consumed without effect |
| TermInfo.ExpandPushPrint | src/ui.rs:110-168 | text, `%pN%d`, text expands to the text with parameter N in decimal |
| TermInfo.CursorUpExample | src/ui.rs:314-315 | `\E[%p1%dA` with `Int(10)` expands to `\E[10A` |
| Session.Drawn | src/ui.rs:383-406 | one drawn line per match |
| Session.TruncateLine | src/ui.rs:384-398 | the popping loop yields `Fit`, the match cut to the width of the terminal |
| Session.DrawMatches | src/ui.rs:383-406 | the drawing loop draws `Drawn` of the result list |
| Session.Start | src/ui.rs:348-565 | the loop's outcome is `Run` of the events, its effects are `Effects`, and the insertion is made only for a loop that ended without a stop and with a best match |
| Session.HandleEvent | src/ui.rs:354-506 | one turn of the loop does what `Step` and `StepEffects` define for the event received |
| Session.HandleKey | src/ui.rs:416-506 | a key press does what `KeyStep` defines, and echoes, sends, clears or rings the bell as `StepEffects` says |
| Session.ClosedStays | src/ui.rs:496-503 | once the query channel has lost its receiver, every later running state knows it |
| Session.SendFails | src/ui.rs:496-503 | after that, the next printable character that fits makes the loop return an error, with nothing inserted |
| Session.RunEnded | src/ui.rs:351-424 | once the loop has broken out or returned an error, later events change nothing |
| Session.PrintableKey | src/ui.rs:470-506 | a printable character is appended exactly when query, prompt and character are narrower than the terminal and the query can be sent; a failed send is an error; otherwise nothing changes |
| Session.ControlKeys | src/ui.rs:427-468 | Ctrl-U empties query and best match; EOT sets stopped and ends; newline ends without stopping; any other control character changes nothing |
| Session.ResultsSetBest | src/ui.rs:373-380 | a result list makes its first line the best match, or None when empty, and leaves the query |
| Session.StepKeepsFit | src/ui.rs:470-484 | every step keeps the query within the line after the prompt |
| Session.QueryAlwaysFits | src/ui.rs:470-484 | whatever the events, the query never runs past the end of the line |
| Session.StopInsertsNothing | src/ui.rs:355-363 | a stop signal or EOT ends the loop with stopped set and nothing inserted |
| Session.InsertionExact | src/ui.rs:556-565 | a match is inserted exactly when the loop ended without a stop and a best match exists, and it is that match |
| Session.WidthPrefix | src/ui.rs:384-389 | a prefix is never wider than the whole string |
| Session.FitIsLongestPrefix | src/ui.rs:384-389 | the drawn text is a prefix no wider than the terminal, every longer prefix is wider, and a match that fits is drawn whole |
| Session.SentQueriesFit | src/ui.rs:481-503 | every query sent to the search thread is non-empty and fits on the line after the prompt |
| Session.DrawnFits | src/ui.rs:383-406 | each drawn line is the longest prefix of its match that fits in the terminal |

## Left out

- The constants module is not part of this model. The values used are MAX_LEN 80, WHITESPACE_FACTOR 5, FIRST_FACTOR 3, CLASS_FACTOR 3, WHITESPACE_REDUCE 2, CLASS_REDUCE 2, DIST_WEIGHT -10, HEAT_WEIGHT 5, FACTOR_REDUCE 50 and MATCH_NUMBER 10. EOT is taken as U+0004 and CTRL_U as U+0015. The heat bounds assume no order among the factors: the scanner invariant (`Settled`) bounds the class score after a decay by `(FIRST_FACTOR + CLASS_FACTOR) / CLASS_REDUCE`. The whole model also verifies with the other reading of the factors, FIRST_FACTOR 5 and WHITESPACE_FACTOR 3. Other lemmas use a value only where they name the constant.
- Unicode: white space, control characters, decimal digits and UTF-8 length are exact. `is_numeric`, `is_alphabetic`, `is_uppercase` and `to_lowercase` are modelled on ASCII, and every other character is treated as neither numeric, alphabetic nor upper case.
- Display width (the `unicode_width` crate) is a parameter of the session's `Screen`: a width per character, with `width(...).unwrap_or(0)` folded in. A string's width is the sum of its characters' widths. The prompt is a parameter too.
- Integer widths: `isize` scores, heat values and factors are unbounded integers. Overflow of these is not modelled. Division follows Rust's truncation (`RustDiv`). `usize` subtraction in `query_score` cannot underflow, because the offsets of a placement increase.
- Util.AlignLen: requires `len + to - 1 < 2^64`. The source's wrapping addition past that bound is not modelled, and `to` must be a power of two, as the source assumes.
- Util.FindHole: requires non-decreasing keys. On a decreasing key the source's `key - last` underflows, which panics in a debug build. The keys are usize values (`Words`); the panic of the final assertion is the result None.
- MatchPositions.QueryPositions: requires a non-empty query. The source's `idx.len() - 1` panics for an empty query once a line has its lists.
- Search.SearchBase.QueryInplace: requires a non-empty query, for the same reason. The source panics only if some line reaches query_positions.
- Ranking.MatchHeap: the items are a sequence, not the heap's array layout. `Peek` returns the first greatest item, so which of two equal-keyed items the real heap drops is not modelled. `Push` requires room below the capacity, which `Offer` always has. The capacity of `with_capacity` is taken as exact.
- Ranking.SortedVec: the order among equal keys is that of an insertion sort. The top-K property does not depend on it.
- `LineMatch` equality in Rust compares only score and factor. The model uses it only through `Cmp`.
- Search.SearchBase.ReadHistory: takes the lines of the file as a sequence. Opening the file and read errors are left out.
- HashMap iteration order in `query_inplace` is an arbitrary choice of the next unvisited line.
- TermInfo.GetString: the "unknown escape sequence" branch cannot be reached, because the pending escape is only ever `p` (`EscapeShape`). It is still modelled.
- Session.Start: the three channels of `select!` become one sequence of events, in the order they arrive. The threads (`search_thread`, `input_thread`, `signal_thread`), `insert_match`, `UI::create`, `TermControl::create` and all terminal writes and flushes are left out. A failed write, which returns an error in the source, is not modelled. The loop fails when the results channel hangs up (`ResultsClosed`) and when a query cannot be sent because the search thread no longer receives (`QueriesClosed`, then a character that would be sent). Effects record what the loop draws and sends, not the escape sequences it writes.
- The work inside several loops is split into helper methods proved against the same definitions: VisitChar, ClassStep, NarrowAfter, CheckIncreasing, Advance, BestScore, ScoreGroup, Offer, HandleEvent and HandleKey. The loop of `UI::start` keeps its variables in one `State` value.
- Also outside the model: process.rs, the C bindings, error.rs and main.rs; in util.rs, `expand_path`, `condense_path`, `env_to_cstring`, the byte transmutes and `read_string`; and logging.
