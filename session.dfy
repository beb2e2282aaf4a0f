/**
 * The event loop of UI::start in ui.rs, without its terminal writes and
 * channels: a state machine over the query, the best match and the stopped
 * flag, driven by stop events, result lists and key presses, and the
 * truncation of over-wide matches when they are drawn.
 */
module Session {
  import opened Wrappers
  import opened Constants
  import opened Unicode

  /**
   * The terminal: its width in columns, the prompt drawn before the query,
   * and the display width of a character (0 for one without a width).
   */
  datatype Screen = Screen(cols: nat, prompt: string, charWidth: char -> nat)

  /** The display width of a string: the sum of its characters' widths. */
  function Width(charWidth: char -> nat, s: string): nat {
    if s == [] then 0 else Width(charWidth, s[..|s| - 1]) + charWidth(s[|s| - 1])
  }

  /** What happens on the session's channels. */
  datatype Event =
    | Stop                         // the signal thread asks to stop
    | Results(lines: seq<string>)  // the search thread's best matches, best first
    | ResultsClosed                // the search thread hung up
    | Key(c: char)                 // a character typed
    | KeysClosed                   // the input thread hung up
    | QueriesClosed                // the search thread stopped taking queries; seen at the next send

  /**
   * The loop's variables, and whether the query channel has lost its
   * receiver, so that the next send fails.
   */
  datatype State = State(query: string, bestMatch: Option<string>, stopped: bool, queriesClosed: bool)

  /** The loop is still waiting for events, has left its loop, or returned an error. */
  datatype Outcome = Running(state: State) | Ended(state: State) | Failed

  const Initial: State := State("", None, false, false)

  // ---------------------------------------------------------------------
  // The transition function
  // ---------------------------------------------------------------------

  /** Typing `c` after the prompt and the query would reach the end of the line. */
  predicate PastLineEnd(screen: Screen, query: string, c: char) {
    Width(screen.charWidth, query) + Width(screen.charWidth, screen.prompt) + screen.charWidth(c) >= screen.cols
  }

  /** What a key press does. */
  function KeyStep(screen: Screen, s: State, c: char): Outcome {
    if IsControl(c) then
      if c == EOT then Ended(s.(stopped := true))
      else if c == CTRL_U then Running(s.(query := "", bestMatch := None))
      else if c == '\n' then Ended(s)
      else Running(s)
    else if PastLineEnd(screen, s.query, c) then Running(s)
    else if s.queriesClosed then Failed
    else
      Running(s.(query := s.query + [c]))
  }

  /** What one event does to a running session. */
  function Step(screen: Screen, s: State, e: Event): Outcome {
    match e
    case Stop => Ended(s.(stopped := true))
    case Results(lines) => Running(s.(bestMatch := if lines == [] then None else Some(lines[0])))
    case ResultsClosed => Failed
    case Key(c) => KeyStep(screen, s, c)
    case KeysClosed => Ended(s)
    case QueriesClosed => Running(s.(queriesClosed := true))
  }

  /** The session after a sequence of events; events after the loop has ended change nothing. */
  function Run(screen: Screen, events: seq<Event>): Outcome {
    if events == [] then Running(Initial)
    else
      match Run(screen, events[..|events| - 1])
      case Running(s) => Step(screen, s, events[|events| - 1])
      case other => other
  }

  /** The match typed into the shell: only when the loop ended without a stop, and a best match exists. */
  function Insertion(o: Outcome): Option<string> {
    if o.Ended? && !o.state.stopped then o.state.bestMatch else None
  }

  // ---------------------------------------------------------------------
  // Truncating an over-wide match
  // ---------------------------------------------------------------------

  /** The text drawn for a match: characters popped from the end until it fits. */
  function Fit(charWidth: char -> nat, cols: nat, item: string): string {
    if Width(charWidth, item) <= cols then item else Fit(charWidth, cols, item[..|item| - 1])
  }

  /** The texts drawn for a result list. */
  function Drawn(screen: Screen, lines: seq<string>): (r: seq<string>)
    ensures |r| == |lines|
  {
    if lines == [] then []
    else Drawn(screen, lines[..|lines| - 1]) + [Fit(screen.charWidth, screen.cols, lines[|lines| - 1])]
  }

  /** What a running session does to the outside for one event, besides changing its state. */
  datatype Effect =
    | Drew(lines: seq<string>)  // the matches drawn under the prompt
    | Cleared                   // the query erased from the screen
    | Bell                      // the bell rung
    | Echoed(query: string)     // the typed character drawn; the query it completes
    | Sent(query: string)       // the new query sent to the search thread

  function StepEffects(screen: Screen, s: State, e: Event): seq<Effect> {
    match e
    case Results(lines) => [Drew(Drawn(screen, lines))]
    case Key(c) =>
      if IsControl(c) then
        if c == EOT || c == '\n' then []
        else if c == CTRL_U then [Cleared]
        else [Bell]
      else if PastLineEnd(screen, s.query, c) then [Bell]
      else if s.queriesClosed then [Echoed(s.query + [c])]
      else [Echoed(s.query + [c]), Sent(s.query + [c])]
    case _ => []
  }

  /** Everything the session did while running, in order. */
  function Effects(screen: Screen, events: seq<Event>): seq<Effect> {
    if events == [] then []
    else
      var n := |events| - 1;
      match Run(screen, events[..n])
      case Running(s) => Effects(screen, events[..n]) + StepEffects(screen, s, events[n])
      case _ => Effects(screen, events[..n])
  }

  method TruncateLine(screen: Screen, item: string) returns (owned: string)
    ensures owned == Fit(screen.charWidth, screen.cols, item)
  {
    if Width(screen.charWidth, item) > screen.cols {
      owned := item;
      while Width(screen.charWidth, owned) > screen.cols
        invariant Fit(screen.charWidth, screen.cols, owned) == Fit(screen.charWidth, screen.cols, item)
        decreases |owned|
      {
        owned := owned[..|owned| - 1];
      }
    } else {
      owned := item;
    }
  }

  /** The drawing loop over a result list. */
  method DrawMatches(screen: Screen, matches: seq<string>) returns (drawn: seq<string>)
    ensures drawn == Drawn(screen, matches)
  {
    drawn := [];
    for k := 0 to |matches|
      invariant drawn == Drawn(screen, matches[..k])
    {
      var owned := TruncateLine(screen, matches[k]);
      assert matches[..k + 1][..k] == matches[..k];
      drawn := drawn + [owned];
    }
    assert matches[..|matches|] == matches;
  }

  // ---------------------------------------------------------------------
  // UI::start
  // ---------------------------------------------------------------------

  /**
   * The loop of UI::start over the events it receives, then the decision to
   * insert the best match. Returns the outcome, what the loop did to the
   * outside, and the match inserted into the shell, if any.
   */
  method Start(screen: Screen, events: seq<Event>) returns (outcome: Outcome, effects: seq<Effect>, inserted: Option<string>)
    ensures outcome == Run(screen, events)
    ensures effects == Effects(screen, events)
    ensures inserted == Insertion(outcome)
  {
    var s := Initial;
    effects := [];
    var i := 0;
    while i < |events|
      invariant 0 <= i <= |events|
      invariant Run(screen, events[..i]) == Running(s)
      invariant effects == Effects(screen, events[..i])
    {
      StepOnce(screen, events, i);
      var next, stepEffects := HandleEvent(screen, s, events[i]);
      effects := effects + stepEffects;
      match next {
        case Running(s') =>
          s := s';
        case Ended(s') =>
          RunEnded(screen, events, i + 1);
          outcome := next;
          // the best match goes to the shell unless the loop was stopped
          if !s'.stopped && s'.bestMatch.Some? {
            inserted := s'.bestMatch;
          } else {
            inserted := None;
          }
          return;
        case Failed =>
          RunEnded(screen, events, i + 1);
          return Failed, effects, None;
      }
      i := i + 1;
    }
    assert events[..|events|] == events;
    outcome := Running(s);
    inserted := None;
  }

  /** One turn of the loop: the event received and what it does to the state and to the outside. */
  method HandleEvent(screen: Screen, s: State, e: Event) returns (next: Outcome, effects: seq<Effect>)
    ensures next == Step(screen, s, e)
    ensures effects == StepEffects(screen, s, e)
  {
    effects := [];
    match e {
      case Stop =>
        // a stop request ends the loop at once
        next := Ended(s.(stopped := true));
      case Results(matches) =>
        // the first line of the list is the new best match
        var bestMatch := if matches != [] then Some(matches[0]) else None;
        var drawn := DrawMatches(screen, matches);
        next := Running(s.(bestMatch := bestMatch));
        effects := [Drew(drawn)];
      case ResultsClosed =>
        // the search thread hung up
        next := Failed;
      case Key(chr) =>
        next, effects := HandleKey(screen, s, chr);
      case KeysClosed =>
        // input hung up
        next := Ended(s);
      case QueriesClosed =>
        next := Running(s.(queriesClosed := true));
    }
  }

  /** The key arm of the loop: what a key press does to the state and to the outside. */
  method HandleKey(screen: Screen, s: State, chr: char) returns (next: Outcome, effects: seq<Effect>)
    ensures next == KeyStep(screen, s, chr)
    ensures effects == StepEffects(screen, s, Key(chr))
  {
    next := Running(s);
    effects := [];
    if IsControl(chr) {
      if chr == EOT {
        next := Ended(s.(stopped := true));
      } else if chr == CTRL_U {
        next := Running(s.(query := "", bestMatch := None));
        effects := [Cleared];
      } else if chr == '\n' {
        next := Ended(s);
      } else {
        effects := [Bell];
      }
    } else if PastLineEnd(screen, s.query, chr) {
      // the character would not fit: ring the bell instead
      effects := [Bell];
    } else {
      var query := s.query + [chr];
      effects := [Echoed(query)];
      if s.queriesClosed {
        // the send fails: the loop returns an error
        next := Failed;
      } else {
        next := Running(s.(query := query));
        effects := effects + [Sent(query)];
      }
    }
  }

  /** One more event on a running session: its step and the effects of that step. */
  lemma StepOnce(screen: Screen, events: seq<Event>, i: nat)
    requires i < |events| && Run(screen, events[..i]).Running?
    ensures Run(screen, events[..i + 1]) == Step(screen, Run(screen, events[..i]).state, events[i])
    ensures Effects(screen, events[..i + 1]) ==
      Effects(screen, events[..i]) + StepEffects(screen, Run(screen, events[..i]).state, events[i])
  {
    assert events[..i + 1][..i] == events[..i];
  }

  /** Once the loop has ended or failed, later events change neither the outcome nor the effects. */
  lemma {:induction false} RunEnded(screen: Screen, events: seq<Event>, n: nat)
    requires n <= |events| && !Run(screen, events[..n]).Running?
    ensures Run(screen, events) == Run(screen, events[..n])
    ensures Effects(screen, events) == Effects(screen, events[..n])
    decreases |events| - n
  {
    if n < |events| {
      var init := events[..|events| - 1];
      assert init[..n] == events[..n];
      RunEnded(screen, init, n);
    } else {
      assert events[..n] == events;
    }
  }

  // ---------------------------------------------------------------------
  // Properties
  // ---------------------------------------------------------------------

  /** A printable character is appended exactly when prompt, query and character fit in the line. */
  lemma PrintableKey(screen: Screen, s: State, c: char)
    requires !IsControl(c)
    ensures var w := screen.charWidth;
      Step(screen, s, Key(c)) ==
        if Width(w, s.query) + Width(w, screen.prompt) + w(c) >= screen.cols then Running(s)
        else if s.queriesClosed then Failed
        else Running(s.(query := s.query + [c]))
  {
  }

  /**
   * Control keys: Ctrl-U empties the query and the best match, EOT stops and
   * ends the loop, a newline ends it without stopping, any other changes nothing.
   */
  lemma ControlKeys(screen: Screen, s: State, c: char)
    requires IsControl(c)
    ensures c == CTRL_U ==> Step(screen, s, Key(c)) == Running(State("", None, s.stopped, s.queriesClosed))
    ensures c == EOT ==> Step(screen, s, Key(c)) == Ended(s.(stopped := true))
    ensures c == '\n' ==> Step(screen, s, Key(c)) == Ended(s)
    ensures c != CTRL_U && c != EOT && c != '\n' ==> Step(screen, s, Key(c)) == Running(s)
  {
  }

  /** Once the query channel has lost its receiver, a running session remembers it. */
  lemma {:induction false} ClosedStays(screen: Screen, events: seq<Event>, n: nat, k: nat)
    requires n < k <= |events| && events[n] == QueriesClosed && Run(screen, events[..k]).Running?
    ensures Run(screen, events[..k]).state.queriesClosed
    decreases k
  {
    assert events[..k][..k - 1] == events[..k - 1];
    if k > n + 1 {
      ClosedStays(screen, events, n, k - 1);
    }
  }

  /**
   * After the search thread stops taking queries, the next character typed
   * that fits on the line makes the loop fail: its query cannot be sent.
   */
  lemma SendFails(screen: Screen, events: seq<Event>, n: nat, m: nat)
    requires n < m < |events| && events[n] == QueriesClosed && Run(screen, events[..m]).Running?
    requires events[m].Key? && !IsControl(events[m].c)
    requires !PastLineEnd(screen, Run(screen, events[..m]).state.query, events[m].c)
    ensures Run(screen, events).Failed?
    ensures Insertion(Run(screen, events)).None?
  {
    ClosedStays(screen, events, n, m);
    assert events[..m + 1][..m] == events[..m];
    RunEnded(screen, events, m + 1);
  }

  /** A result list makes its first line the best match, or clears it when empty. */
  lemma ResultsSetBest(screen: Screen, s: State, lines: seq<string>)
    ensures Step(screen, s, Results(lines)).Running?
    ensures Step(screen, s, Results(lines)).state.bestMatch == if lines == [] then None else Some(lines[0])
    ensures Step(screen, s, Results(lines)).state.query == s.query
  {
  }

  /** What the session's state allows: the query fits on the line after the prompt. */
  ghost predicate QueryFits(screen: Screen, s: State) {
    s.query == [] || Width(screen.charWidth, s.query) + Width(screen.charWidth, screen.prompt) < screen.cols
  }

  lemma WidthAppend(charWidth: char -> nat, s: string, c: char)
    ensures Width(charWidth, s + [c]) == Width(charWidth, s) + charWidth(c)
  {
    assert (s + [c])[..|s|] == s;
  }

  /** Every step keeps the query within the line. */
  lemma StepKeepsFit(screen: Screen, s: State, e: Event)
    requires QueryFits(screen, s)
    ensures !Step(screen, s, e).Failed? ==> QueryFits(screen, Step(screen, s, e).state)
  {
    if e.Key? && !IsControl(e.c) {
      WidthAppend(screen.charWidth, s.query, e.c);
    }
  }

  /** However the events arrive, the query never runs past the end of the line. */
  lemma {:induction false} QueryAlwaysFits(screen: Screen, events: seq<Event>)
    ensures !Run(screen, events).Failed? ==> QueryFits(screen, Run(screen, events).state)
  {
    if events != [] {
      var init := events[..|events| - 1];
      QueryAlwaysFits(screen, init);
      if Run(screen, init).Running? {
        StepKeepsFit(screen, Run(screen, init).state, events[|events| - 1]);
      }
    }
  }

  /** A stop, by signal or by EOT, means nothing is inserted. */
  lemma StopInsertsNothing(screen: Screen, events: seq<Event>, n: nat)
    requires n < |events| && Run(screen, events[..n]).Running?
    requires events[n] == Stop || events[n] == Key(EOT)
    ensures Run(screen, events).Ended? && Run(screen, events).state.stopped
    ensures Insertion(Run(screen, events)).None?
  {
    assert events[..n + 1][..n] == events[..n];
    assert IsControl(EOT);
    RunEnded(screen, events, n + 1);
  }

  /** The match inserted is the best match of a loop that ended without a stop. */
  lemma InsertionExact(o: Outcome)
    ensures Insertion(o).Some? <==> o.Ended? && !o.state.stopped && o.state.bestMatch.Some?
    ensures Insertion(o).Some? ==> Insertion(o) == o.state.bestMatch
  {
  }

  /** Width only grows along a string. */
  lemma {:induction false} WidthPrefix(charWidth: char -> nat, s: string, k: nat)
    requires k <= |s|
    ensures Width(charWidth, s[..k]) <= Width(charWidth, s)
    decreases |s|
  {
    if k < |s| {
      var init := s[..|s| - 1];
      assert init[..k] == s[..k];
      WidthPrefix(charWidth, init, k);
    } else {
      assert s[..k] == s;
    }
  }

  /**
   * The drawn text is the longest prefix of the match that fits in the
   * line: a prefix, no wider than the line, and every longer prefix is wider.
   * A match that fits is drawn whole.
   */
  lemma {:induction false} FitIsLongestPrefix(charWidth: char -> nat, cols: nat, item: string)
    ensures var f := Fit(charWidth, cols, item);
      && |f| <= |item| && f == item[..|f|]
      && Width(charWidth, f) <= cols
      && (forall k :: |f| < k <= |item| ==> Width(charWidth, item[..k]) > cols)
    ensures Width(charWidth, item) <= cols ==> Fit(charWidth, cols, item) == item
    decreases |item|
  {
    if Width(charWidth, item) > cols {
      var init := item[..|item| - 1];
      FitIsLongestPrefix(charWidth, cols, init);
      var f := Fit(charWidth, cols, init);
      assert init[..|f|] == item[..|f|];
      forall k | |f| < k <= |item|
        ensures Width(charWidth, item[..k]) > cols
      {
        if k < |item| {
          assert init[..k] == item[..k];
        } else {
          assert item[..k] == item;
        }
      }
    } else {
      assert item[..|item|] == item;
    }
  }

  /** Every query sent to the search thread is non-empty and fits on the line after the prompt. */
  lemma {:induction false} SentQueriesFit(screen: Screen, events: seq<Event>)
    ensures forall k :: 0 <= k < |Effects(screen, events)| && Effects(screen, events)[k].Sent? ==>
      var q := Effects(screen, events)[k].query;
      q != [] && Width(screen.charWidth, q) + Width(screen.charWidth, screen.prompt) < screen.cols
  {
    if events != [] {
      var n := |events| - 1;
      SentQueriesFit(screen, events[..n]);
      if Run(screen, events[..n]).Running? {
        var s := Run(screen, events[..n]).state;
        if events[n].Key? && !IsControl(events[n].c) {
          WidthAppend(screen.charWidth, s.query, events[n].c);
        }
      }
    }
  }

  /** Each drawn line is the longest prefix of its match that fits in the line. */
  lemma DrawnFits(screen: Screen, lines: seq<string>)
    ensures forall i :: 0 <= i < |lines| ==>
      var d := Drawn(screen, lines)[i];
      && |d| <= |lines[i]| && d == lines[i][..|d|]
      && Width(screen.charWidth, d) <= screen.cols
      && (forall k :: |d| < k <= |lines[i]| ==> Width(screen.charWidth, lines[i][..k]) > screen.cols)
  {
    forall i | 0 <= i < |lines|
      ensures Drawn(screen, lines)[i] == Fit(screen.charWidth, screen.cols, lines[i])
    {
      DrawnAt(screen, lines, i);
    }
    forall i | 0 <= i < |lines|
    {
      FitIsLongestPrefix(screen.charWidth, screen.cols, lines[i]);
    }
  }

  lemma {:induction false} DrawnAt(screen: Screen, lines: seq<string>, i: nat)
    requires i < |lines|
    ensures Drawn(screen, lines)[i] == Fit(screen.charWidth, screen.cols, lines[i])
  {
    var n := |lines| - 1;
    if i < n {
      DrawnAt(screen, lines[..n], i);
    }
  }
}
