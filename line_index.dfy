/**
 * LineInfo::new: the per-line index of the matcher. For the offsets
 * 0..=MAX_LEN of a line it records, for every character, the ascending list
 * of offsets where it occurs (upper-case characters also under their lower
 * case), and a heat value per offset computed by a small state machine over
 * character classes.
 */
module LineIndex {
  import opened Constants
  import opened Unicode
  import Util

  datatype CharClass = Whitespace | Numeric | Alphabetic | First | Other

  /** The index of one history line. */
  datatype LineInfo = LineInfo(charMap: map<char, seq<nat>>, heatmap: seq<int>, factor: int)

  /** The state of the heat scan between two offsets. */
  datatype Scanner = Scanner(ws: int, cs: int, cls: CharClass, change: bool)

  const Start: Scanner := Scanner(0, 0, First, false)

  /** Number of offsets of `line` that are indexed. */
  function Indexed(line: string): (n: nat)
    ensures n <= |line| && n <= MAX_LEN + 1
    ensures n == |line| || n == MAX_LEN + 1
  {
    if |line| <= MAX_LEN + 1 then |line| else MAX_LEN + 1
  }

  /** The class of a non-whitespace character. */
  function ClassOf(c: char): CharClass {
    if IsNumeric(c) then Numeric else if IsAlphabetic(c) then Alphabetic else Other
  }

  // ---------------------------------------------------------------------
  // The heat scan as functions: the state change at one character before
  // the heat value is taken (Bump), and the decay after it (Decay).
  // ---------------------------------------------------------------------

  function Bump(s: Scanner, c: char): Scanner {
    if IsWhitespace(c) then
      s.(cls := Whitespace, ws := WHITESPACE_FACTOR)
    else
      var cs := if s.cls == First then s.cs + FIRST_FACTOR else s.cs;
      var k := ClassOf(c);
      if s.cls == k then Scanner(s.ws, cs, k, false)
      else if s.change then Scanner(s.ws, cs, k, true)
      else Scanner(s.ws, cs + CLASS_FACTOR, k, true)
  }

  function Decay(s: Scanner): Scanner {
    s.(ws := RustDiv(s.ws, WHITESPACE_REDUCE),
       cs := if s.change then s.cs else RustDiv(s.cs, CLASS_REDUCE))
  }

  /** The scanner after the first `n` offsets of `line`. */
  function ScanTo(line: string, n: nat): Scanner
    requires n <= |line|
  {
    if n == 0 then Start else Decay(Bump(ScanTo(line, n - 1), line[n - 1]))
  }

  /** The heat of offset `i`: both scores once its character is seen, before decay. */
  function HeatAt(line: string, i: nat): int
    requires i < |line|
  {
    var b := Bump(ScanTo(line, i), line[i]);
    b.ws + b.cs
  }

  /** The heat values of the first `n` offsets. */
  function HeatPrefix(line: string, n: nat): (h: seq<int>)
    requires n <= |line|
    ensures |h| == n
  {
    if n == 0 then [] else HeatPrefix(line, n - 1) + [HeatAt(line, n - 1)]
  }

  // ---------------------------------------------------------------------
  // The character map as functions.
  // ---------------------------------------------------------------------

  /** A character `c` at some offset registers that offset under `key`. */
  predicate Registers(c: char, key: char) {
    !IsWhitespace(c) && (c == key || (IsUppercase(c) && ToLowercase(c) == key))
  }

  /** The offsets below `n` registered under `key`, in ascending order. */
  function Offsets(line: string, key: char, n: nat): seq<nat>
    requires n <= |line|
  {
    if n == 0 then []
    else Offsets(line, key, n - 1) + (if Registers(line[n - 1], key) then [n - 1] else [])
  }

  /** The keys some offset below `n` is registered under. */
  function Keys(line: string, n: nat): set<char>
    requires n <= |line|
  {
    (set i | 0 <= i < n && !IsWhitespace(line[i]) :: line[i])
    + (set i | 0 <= i < n && !IsWhitespace(line[i]) && IsUppercase(line[i]) :: ToLowercase(line[i]))
  }

  /** The character map of the first `n` offsets. */
  function MapOf(line: string, n: nat): map<char, seq<nat>>
    requires n <= |line|
  {
    map key | key in Keys(line, n) :: Offsets(line, key, n)
  }

  /** The index of `line` with recency `factor`. */
  function IndexLine(line: string, factor: int): LineInfo {
    var n := Indexed(line);
    LineInfo(MapOf(line, n), HeatPrefix(line, n), factor)
  }

  // ---------------------------------------------------------------------
  // LineInfo::new
  // ---------------------------------------------------------------------

  method NewLineInfo(line: string, factor: int) returns (info: LineInfo)
    ensures info == IndexLine(line, factor)
  {
    var charMap: map<char, seq<nat>> := map[];
    var heat: seq<int> := [];
    var wsScore, csScore := 0, 0;
    var curClass := First;
    // set after a class change, so that a second one in a row adds nothing
    var csChange := false;

    var idx := 0;
    while idx < |line|
      invariant idx <= |line| && idx <= MAX_LEN + 1
      invariant Scanner(wsScore, csScore, curClass, csChange) == ScanTo(line, idx)
      invariant heat == HeatPrefix(line, idx)
      invariant charMap == Registered(line, idx)
    {
      if idx > MAX_LEN {
        break;
      }
      var c := line[idx];
      ghost var before := Scanner(wsScore, csScore, curClass, csChange);
      charMap, wsScore, csScore, curClass, csChange :=
        VisitChar(c, idx, charMap, wsScore, csScore, curClass, csChange);
      ghost var bumped := Scanner(wsScore, csScore, curClass, csChange);
      ScanStep(line, idx);
      assert wsScore + csScore == HeatAt(line, idx);

      heat := heat + [wsScore + csScore];
      assert heat == HeatPrefix(line, idx + 1);

      wsScore := RustDiv(wsScore, WHITESPACE_REDUCE);
      if !csChange {
        csScore := RustDiv(csScore, CLASS_REDUCE);
      }
      assert Scanner(wsScore, csScore, curClass, csChange) == Decay(bumped);
      idx := idx + 1;
    }
    assert idx == Indexed(line);
    RegisteredIsMapOf(line, idx);
    info := LineInfo(charMap, heat, factor);
  }

  /** One offset more of the scan and of the heat values. */
  lemma ScanStep(line: string, i: nat)
    requires i < |line|
    ensures ScanTo(line, i + 1) == Decay(Bump(ScanTo(line, i), line[i]))
    ensures HeatPrefix(line, i + 1) == HeatPrefix(line, i) + [HeatAt(line, i)]
    ensures HeatAt(line, i) == Bump(ScanTo(line, i), line[i]).ws + Bump(ScanTo(line, i), line[i]).cs
  {
  }

  /**
   * The body of the loop of LineInfo::new up to the heat push: the state
   * change at character `c` of offset `i`, and its entries in the map.
   */
  method VisitChar(c: char, i: nat, charMap: map<char, seq<nat>>,
                   wsScore: int, csScore: int, curClass: CharClass, csChange: bool)
    returns (charMap': map<char, seq<nat>>, ws: int, cs: int, cls: CharClass, change: bool)
    ensures Scanner(ws, cs, cls, change) == Bump(Scanner(wsScore, csScore, curClass, csChange), c)
    ensures charMap' == Register(charMap, c, i)
  {
    charMap', ws, cs, cls, change := charMap, wsScore, csScore, curClass, csChange;
    if !IsWhitespace(c) {
      cs, cls, change := ClassStep(c, cs, cls, change);
      // record offset i under the character
      charMap' := Push(charMap', c, i);
      if IsUppercase(c) {
        // the lower-case form registers too, but not the other way round
        var lc := ToLowercase(c);
        charMap' := Push(charMap', lc, i);
      }
    } else {
      cls := Whitespace;
      ws := WHITESPACE_FACTOR;
    }
  }

  /**
   * The class bookkeeping of LineInfo::new for a character that is not white
   * space: the first-character bonus, then the class-change bonus unless a
   * change is already pending.
   */
  method ClassStep(c: char, csScore: int, curClass: CharClass, csChange: bool)
    returns (cs: int, cls: CharClass, change: bool)
    requires !IsWhitespace(c)
    ensures var b := Bump(Scanner(0, csScore, curClass, csChange), c);
      cs == b.cs && cls == b.cls && change == b.change
  {
    cs, cls, change := csScore, curClass, csChange;
    if cls == First {
      // the start of the line earns FIRST_FACTOR besides the class bonus
      cs := cs + FIRST_FACTOR;
    }
    if IsNumeric(c) {
      if cls != Numeric {
        cls := Numeric;
        if !change {
          cs := cs + CLASS_FACTOR;
          change := true;
        }
      } else {
        change := false;
      }
    } else if IsAlphabetic(c) {
      if cls != Alphabetic {
        cls := Alphabetic;
        if !change {
          cs := cs + CLASS_FACTOR;
          change := true;
        }
      } else {
        change := false;
      }
    } else {
      if cls != Other {
        cls := Other;
        if !change {
          cs := cs + CLASS_FACTOR;
          change := true;
        }
      } else {
        change := false;
      }
    }
  }

  // ---------------------------------------------------------------------
  // Facts about the character map.
  // ---------------------------------------------------------------------

  /** `map.entry(key).or_insert(Vec::new()).push(i)`. */
  function Push(m: map<char, seq<nat>>, key: char, i: nat): map<char, seq<nat>> {
    m[key := (if key in m then m[key] else []) + [i]]
  }

  /** The map after offset `i` holding `c` is registered. */
  function Register(m: map<char, seq<nat>>, c: char, i: nat): map<char, seq<nat>> {
    if IsWhitespace(c) then m
    else if IsUppercase(c) then Push(Push(m, c, i), ToLowercase(c), i)
    else Push(m, c, i)
  }

  /** `m` agrees with the character map of the first `n` offsets at `key`. */
  ghost predicate MapsKey(m: map<char, seq<nat>>, line: string, n: nat, key: char)
    requires n <= |line|
  {
    (key in m <==> Offsets(line, key, n) != [])
    && (key in m ==> m[key] == Offsets(line, key, n))
  }

  /** MapOf has an entry exactly for the keys with offsets. */
  lemma MapOfMaps(line: string, n: nat, key: char)
    requires n <= |line|
    ensures MapsKey(MapOf(line, n), line, n, key)
  {
    if key in Keys(line, n) {
      KeysHaveOffsets(line, key, n);
    } else if Offsets(line, key, n) != [] {
      OffsetsInKeys(line, key, n);
    }
  }

  /** The map the loop of LineInfo::new builds over the first `n` offsets, one registration at a time. */
  function Registered(line: string, n: nat): map<char, seq<nat>>
    requires n <= |line|
  {
    if n == 0 then map[] else Register(Registered(line, n - 1), line[n - 1], n - 1)
  }

  lemma {:induction false} RegisteredMaps(line: string, n: nat, key: char)
    requires n <= |line|
    ensures MapsKey(Registered(line, n), line, n, key)
  {
    if n > 0 {
      RegisteredMaps(line, n - 1, key);
      RegisterStep(Registered(line, n - 1), line, n - 1, key);
    }
  }

  /** Registering offset after offset builds the map IndexLine describes. */
  lemma RegisteredIsMapOf(line: string, n: nat)
    requires n <= |line|
    ensures Registered(line, n) == MapOf(line, n)
  {
    var r, m := Registered(line, n), MapOf(line, n);
    forall key
      ensures (key in r <==> key in m) && (key in r ==> r[key] == m[key])
    {
      RegisteredMaps(line, n, key);
      MapOfMaps(line, n, key);
    }
    assert r.Keys == m.Keys;
  }

  lemma RegisterStep(m: map<char, seq<nat>>, line: string, i: nat, key: char)
    requires i < |line| && MapsKey(m, line, i, key)
    ensures MapsKey(Register(m, line[i], i), line, i + 1, key)
  {
    assert Offsets(line, key, i + 1)
      == Offsets(line, key, i) + (if Registers(line[i], key) then [i] else []);
  }

  /** Membership in Offsets is exactly registration below `n`. */
  lemma {:induction false} OffsetsMembers(line: string, key: char, n: nat, i: int)
    requires n <= |line|
    ensures i in Offsets(line, key, n) <==> 0 <= i < n && Registers(line[i], key)
  {
    if n > 0 {
      OffsetsMembers(line, key, n - 1, i);
    }
  }

  /** Offsets are strictly ascending and below `n`. */
  lemma {:induction false} OffsetsAscending(line: string, key: char, n: nat)
    requires n <= |line|
    ensures forall a, b :: 0 <= a < b < |Offsets(line, key, n)| ==>
      Offsets(line, key, n)[a] < Offsets(line, key, n)[b]
    ensures forall a :: 0 <= a < |Offsets(line, key, n)| ==> Offsets(line, key, n)[a] < n
  {
    if n > 0 {
      OffsetsAscending(line, key, n - 1);
    }
  }

  lemma OffsetsInKeys(line: string, key: char, n: nat)
    requires n <= |line| && Offsets(line, key, n) != []
    ensures key in Keys(line, n)
  {
    var i := Offsets(line, key, n)[0];
    OffsetsMembers(line, key, n, i);
    if line[i] != key {
      assert ToLowercase(line[i]) == key;
    }
  }

  lemma KeysHaveOffsets(line: string, key: char, n: nat)
    requires n <= |line| && key in Keys(line, n)
    ensures Offsets(line, key, n) != []
  {
    var i :| 0 <= i < n && Registers(line[i], key);
    OffsetsMembers(line, key, n, i);
  }

  /** The index is well formed: lists are non-empty, strictly ascending and below the heatmap length. */
  ghost predicate WellFormed(info: LineInfo) {
    forall key :: key in info.charMap ==>
      && info.charMap[key] != []
      && Util.StrictlyAscending(info.charMap[key])
      && (forall a :: 0 <= a < |info.charMap[key]| ==> info.charMap[key][a] < |info.heatmap|)
  }

  /** Every index built from a line is well formed and has one heat value per indexed offset. */
  lemma IndexLineWellFormed(line: string, factor: int)
    ensures WellFormed(IndexLine(line, factor))
    ensures |IndexLine(line, factor).heatmap| == Indexed(line)
    ensures IndexLine(line, factor).factor == factor
  {
    var n := Indexed(line);
    forall key | key in Keys(line, n)
      ensures Offsets(line, key, n) != []
    {
      KeysHaveOffsets(line, key, n);
    }
    forall key {
      OffsetsAscending(line, key, n);
    }
  }

  /**
   * An offset is listed under `key` exactly when it is indexed, its character
   * is not white space, and it is `key` or an upper-case letter lowering to `key`.
   */
  lemma CharMapExact(line: string, factor: int, key: char, i: int)
    ensures var info := IndexLine(line, factor);
      (key in info.charMap && i in info.charMap[key])
      <==> 0 <= i < Indexed(line) && !IsWhitespace(line[i])
           && (line[i] == key || (IsUppercase(line[i]) && ToLowercase(line[i]) == key))
  {
    var n := Indexed(line);
    OffsetsMembers(line, key, n, i);
    if 0 <= i < n && Registers(line[i], key) {
      KeysHaveOffsets(line, key, n);
      assert key in Keys(line, n) by {
        if line[i] != key {
          assert ToLowercase(line[i]) == key;
        }
      }
    }
  }

  /** White space is never indexed. */
  lemma NoWhitespaceIndexed(line: string, factor: int, key: char, i: int)
    requires key in IndexLine(line, factor).charMap && i in IndexLine(line, factor).charMap[key]
    ensures 0 <= i < |line| && !IsWhitespace(line[i])
  {
    CharMapExact(line, factor, key, i);
  }

  /** An indexed upper-case offset is listed under the letter and under its lower case. */
  lemma UppercaseAlsoLowercase(line: string, factor: int, i: nat)
    requires i < Indexed(line) && IsUppercase(line[i])
    ensures var info := IndexLine(line, factor);
      && line[i] in info.charMap && i in info.charMap[line[i]]
      && ToLowercase(line[i]) in info.charMap && i in info.charMap[ToLowercase(line[i])]
  {
    assert !IsWhitespace(line[i]);
    CharMapExact(line, factor, line[i], i);
    CharMapExact(line, factor, ToLowercase(line[i]), i);
  }

  /** An upper-case key lists only offsets holding exactly that letter. */
  lemma UppercaseKeyExact(line: string, factor: int, key: char, i: int)
    requires IsUppercase(key)
    requires key in IndexLine(line, factor).charMap && i in IndexLine(line, factor).charMap[key]
    ensures 0 <= i < |line| && line[i] == key
  {
    CharMapExact(line, factor, key, i);
  }

  // ---------------------------------------------------------------------
  // Facts about the heat values.
  // ---------------------------------------------------------------------

  /** What the scanner state satisfies between offsets. */
  ghost predicate Settled(s: Scanner) {
    && 0 <= s.ws <= WHITESPACE_FACTOR
    && 0 <= s.cs
    && (s.change ==> s.cs <= FIRST_FACTOR + CLASS_FACTOR)
    && (!s.change ==> s.cs <= RustDiv(FIRST_FACTOR + CLASS_FACTOR, CLASS_REDUCE))
    && (s.cls == First ==> s.cs == 0 && !s.change)
  }

  lemma BumpBounded(s: Scanner, c: char)
    requires Settled(s)
    ensures var b := Bump(s, c);
      0 <= b.ws <= WHITESPACE_FACTOR && 0 <= b.cs <= FIRST_FACTOR + CLASS_FACTOR
      && Settled(Decay(b))
  {
  }

  lemma {:induction false} ScanSettled(line: string, n: nat)
    requires n <= |line|
    ensures Settled(ScanTo(line, n))
  {
    if n > 0 {
      ScanSettled(line, n - 1);
      BumpBounded(ScanTo(line, n - 1), line[n - 1]);
    }
  }

  lemma {:induction false} HeatPrefixAt(line: string, n: nat, i: nat)
    requires i < n <= |line|
    ensures HeatPrefix(line, n)[i] == HeatAt(line, i)
  {
    if i < n - 1 {
      HeatPrefixAt(line, n - 1, i);
    }
  }

  /** Every heat value is between 0 and the sum of the three bonuses. */
  lemma HeatBounds(line: string, factor: int, i: nat)
    requires i < |IndexLine(line, factor).heatmap|
    ensures 0 <= IndexLine(line, factor).heatmap[i] <= WHITESPACE_FACTOR + FIRST_FACTOR + CLASS_FACTOR
  {
    HeatPrefixAt(line, Indexed(line), i);
    ScanSettled(line, i);
    BumpBounded(ScanTo(line, i), line[i]);
  }

  /** A line starting with a non-blank character has the first and class bonuses at offset 0. */
  lemma HeatAtLineStart(line: string, factor: int)
    requires |line| > 0 && !IsWhitespace(line[0])
    ensures IndexLine(line, factor).heatmap[0] == FIRST_FACTOR + CLASS_FACTOR
  {
    HeatPrefixAt(line, Indexed(line), 0);
  }

  /** White space carries at least the whitespace bonus. */
  lemma HeatAtWhitespace(line: string, factor: int, i: nat)
    requires i < Indexed(line) && IsWhitespace(line[i])
    ensures IndexLine(line, factor).heatmap[i] >= WHITESPACE_FACTOR
  {
    HeatPrefixAt(line, Indexed(line), i);
    ScanSettled(line, i);
  }

  /** A class change with the change flag clear adds the class bonus on top of the decayed scores. */
  lemma HeatAtClassChange(line: string, factor: int, i: nat)
    requires i < Indexed(line) && !IsWhitespace(line[i])
    requires ScanTo(line, i).cls != ClassOf(line[i]) && !ScanTo(line, i).change
    ensures IndexLine(line, factor).heatmap[i] >= CLASS_FACTOR
  {
    HeatPrefixAt(line, Indexed(line), i);
    ScanSettled(line, i);
  }
}
