/** The arithmetic and string helpers of util.rs. */
module Util {
  import opened Wrappers

  // ---------------------------------------------------------------------
  // build_string: a string of `count` copies of one character.
  // ---------------------------------------------------------------------

  method BuildString(ch: char, count: nat) returns (s: string)
    ensures |s| == count
    ensures forall i :: 0 <= i < |s| ==> s[i] == ch
  {
    s := "";
    var i := 0;
    while true
      invariant 0 <= i <= count
      invariant |s| == i
      invariant forall k :: 0 <= k < i ==> s[k] == ch
      decreases count - i
    {
      if i == count {
        return;
      }
      s := s + [ch];
      i := i + 1;
    }
  }

  /** The unit test of util.rs: five copies of 'a'. */
  method BuildStringExample() returns (s: string)
    ensures s == "aaaaa"
  {
    s := BuildString('a', 5);
  }

  // ---------------------------------------------------------------------
  // align_len: round a length up to a power-of-two alignment,
  // (len + to - 1) & !(to - 1) on 64-bit unsigned words. Words are
  // naturals below WORD; & and ! are defined bit by bit.
  // ---------------------------------------------------------------------

  function Pow2(k: nat): (p: nat)
    ensures p >= 1
  {
    if k == 0 then 1 else 2 * Pow2(k - 1)
  }

  /** The width of usize in bits. */
  const BITS: nat := 64

  /** One more than the largest usize. */
  const WORD: nat := Pow2(BITS)

  /** Bitwise and of two naturals, lowest bit first. */
  function BitAnd(a: nat, b: nat): nat
    decreases a
  {
    if a == 0 || b == 0 then 0
    else 2 * BitAnd(a / 2, b / 2) + (if a % 2 == 1 && b % 2 == 1 then 1 else 0)
  }

  /** Bitwise complement of an n-bit word. */
  function BitNot(x: nat, n: nat): nat
    requires x < Pow2(n)
  {
    Pow2(n) - 1 - x
  }

  predicate PowerOfTwo(to: nat) {
    exists k: nat :: k < BITS && Pow2(k) == to
  }

  function AlignLen(len: nat, to: nat): (r: nat)
    requires PowerOfTwo(to)
    requires len + to - 1 < WORD  // the sum is computed without wrapping
    ensures r % to == 0
    ensures len <= r < len + to
  {
    var sum := len + to - 1;
    MaskClearsLowBits(sum, to);
    RoundDownAligned(sum, to);
    BitAnd(sum, BitNot(to - 1, BITS))
  }

  /** The aligned length is the least multiple of `to` that is at least `len`. */
  lemma AlignLenLeast(len: nat, to: nat, m: nat)
    requires PowerOfTwo(to) && len + to - 1 < WORD
    requires m % to == 0 && len <= m
    ensures AlignLen(len, to) <= m
  {
    var r := AlignLen(len, to);
    if m < r {
      MultiplesApart(r, m, to);
    }
  }

  /** Aligning an aligned length changes nothing. */
  lemma AlignLenIdempotent(len: nat, to: nat)
    requires PowerOfTwo(to) && len + to - 1 < WORD
    ensures AlignLen(len, to) + to - 1 < WORD
    ensures AlignLen(AlignLen(len, to), to) == AlignLen(len, to)
  {
    var r := AlignLen(len, to);
    var k: nat :| k < BITS && Pow2(k) == to;
    Pow2Add(k, BITS - k);
    ModUnique(WORD, to, Pow2(BITS - k), 0);
    if r + to > WORD {
      MultiplesApart(WORD, r, to);
    }
    AlignLenLeast(r, to, r);
  }

  // Arithmetic behind the bit masks.

  lemma {:induction false} Pow2Add(a: nat, b: nat)
    ensures Pow2(a + b) == Pow2(a) * Pow2(b)
    decreases a
  {
    if a > 0 {
      Pow2Add(a - 1, b);
      assert Pow2(a + b) == 2 * (Pow2(a - 1) * Pow2(b));
    }
  }

  lemma {:induction false} Pow2Monotone(j: nat, k: nat)
    requires j <= k
    ensures Pow2(j) <= Pow2(k)
    decreases k
  {
    if j < k {
      Pow2Monotone(j, k - 1);
    }
  }

  lemma DivMod(x: int, d: int)
    requires d > 0
    ensures x == d * (x / d) + x % d && 0 <= x % d < d
  {
  }

  lemma MulAtLeast(d: int, c: int)
    requires d > 0 && c >= 1
    ensures d * c >= d
  {
    assert d * c == d + d * (c - 1);
  }

  lemma ModUnique(x: int, d: int, q: int, r: int)
    requires d > 0 && 0 <= r < d && x == d * q + r
    ensures x % d == r
  {
    var q', r' := x / d, x % d;
    if q' < q {
      assert d * (q - q') == r' - r;
      MulAtLeast(d, q - q');
    } else if q' > q {
      assert d * (q' - q) == r - r';
      MulAtLeast(d, q' - q);
    }
  }

  /** Two different multiples of `d` are at least `d` apart. */
  lemma MultiplesApart(a: int, b: int, d: int)
    requires d > 0 && a % d == 0 && b % d == 0 && b < a
    ensures a - b >= d
  {
    var qa, qb := a / d, b / d;
    DivMod(a, d);
    DivMod(b, d);
    assert a - b == d * (qa - qb);
    PositiveFactor(d, qa - qb);
    MulAtLeast(d, qa - qb);
  }

  lemma PositiveFactor(d: int, k: int)
    requires d > 0 && d * k > 0
    ensures k >= 1
  {
  }

  lemma ModHalf(x: nat, p: nat)
    requires p >= 1
    ensures x % (2 * p) == 2 * ((x / 2) % p) + x % 2
  {
    var h := x / 2;
    var q, r := h / p, h % p;
    assert h == q * p + r;
    assert x == (2 * p) * q + (2 * r + x % 2);
    ModUnique(x, 2 * p, q, 2 * r + x % 2);
  }

  lemma {:induction false} AllOnes(x: nat, n: nat)
    requires x < Pow2(n)
    ensures BitAnd(x, Pow2(n) - 1) == x
    decreases n
  {
    if n > 0 && x > 0 {
      var p := Pow2(n - 1);
      assert Pow2(n) - 1 == 2 * (p - 1) + 1;
      AllOnes(x / 2, n - 1);
    }
  }

  /** The `k` low bits of `x`. */
  function LowBits(x: nat, k: nat): nat {
    if k == 0 then 0 else 2 * LowBits(x / 2, k - 1) + x % 2
  }

  lemma {:induction false} LowBitsMod(x: nat, k: nat)
    ensures LowBits(x, k) == x % Pow2(k)
  {
    if k > 0 {
      LowBitsMod(x / 2, k - 1);
      ModHalf(x, Pow2(k - 1));
    }
  }

  lemma {:induction false} LowBitsAll(x: nat, n: nat)
    requires x < Pow2(n)
    ensures LowBits(x, n) == x
  {
    if n > 0 {
      LowBitsAll(x / 2, n - 1);
    }
  }

  /** Masking an n-bit word with the bits from k up clears its k low bits. */
  lemma {:induction false} MaskLow(x: nat, n: nat, k: nat)
    requires k <= n && x < Pow2(n)
    ensures Pow2(k) <= Pow2(n)
    ensures BitAnd(x, Pow2(n) - Pow2(k)) == x - LowBits(x, k)
    decreases k
  {
    if k == 0 {
      AllOnes(x, n);
    } else if k == n {
      LowBitsAll(x, n);
    } else {
      MaskLow(x / 2, n - 1, k - 1);
      MaskLowCase(x, n, k);
    }
  }

  /** The step of MaskLow: from the mask on x / 2 to the mask on x. */
  lemma MaskLowCase(x: nat, n: nat, k: nat)
    requires 0 < k < n
    requires Pow2(k - 1) <= Pow2(n - 1)
    requires BitAnd(x / 2, Pow2(n - 1) - Pow2(k - 1)) == x / 2 - LowBits(x / 2, k - 1)
    ensures Pow2(k) <= Pow2(n)
    ensures BitAnd(x, Pow2(n) - Pow2(k)) == x - LowBits(x, k)
  {
    var p, q := Pow2(k - 1), Pow2(n - 1);
    Pow2Monotone(k, n - 1);
    assert Pow2(n) - Pow2(k) == 2 * (q - p);
    MaskStep(x, q - p, LowBits(x / 2, k - 1));
  }

  /** One bit of MaskLow: an even mask leaves the lowest bit out. */
  lemma MaskStep(x: nat, m: nat, low: nat)
    requires m > 0 && BitAnd(x / 2, m) == x / 2 - low
    ensures BitAnd(x, 2 * m) == x - (2 * low + x % 2)
  {
    assert (2 * m) / 2 == m && (2 * m) % 2 == 0;
  }

  /** Clearing the k low bits of an n-bit word rounds it down to a multiple of `to` = 2^k. */
  lemma MaskRoundsDown(x: nat, n: nat, k: nat, to: nat)
    requires k <= n && x < Pow2(n) && to == Pow2(k)
    ensures to <= Pow2(n)
    ensures BitAnd(x, BitNot(to - 1, n)) == x - x % to
  {
    MaskLow(x, n, k);
    LowBitsMod(x, k);
    assert BitNot(to - 1, n) == Pow2(n) - Pow2(k);
  }

  /** `x & !(to - 1)` rounds a word down to a multiple of the power of two `to`. */
  lemma MaskClearsLowBits(x: nat, to: nat)
    requires PowerOfTwo(to) && x < WORD
    ensures to - 1 < WORD
    ensures BitAnd(x, BitNot(to - 1, BITS)) == x - x % to
  {
    var k: nat :| k < BITS && Pow2(k) == to;
    MaskRoundsDown(x, BITS, k, to);
  }

  lemma RoundDownAligned(x: nat, d: nat)
    requires d > 0
    ensures (x - x % d) % d == 0
  {
    var q, r := x / d, x % d;
    DivMod(x, d);
    var m := x - r;
    assert m == d * q;
    ModUnique(m, d, q, 0);
  }

  // ---------------------------------------------------------------------
  // find_hole: the first gap in an ascending sequence of keys.
  // ---------------------------------------------------------------------

  predicate Ascending(keys: seq<nat>) {
    forall i, j :: 0 <= i < j < |keys| ==> keys[i] <= keys[j]
  }

  predicate StrictlyAscending(keys: seq<nat>) {
    forall i, j :: 0 <= i < j < |keys| ==> keys[i] < keys[j]
  }

  /** The key before position `i`; the scan starts from 0. */
  function Before(keys: seq<nat>, i: nat): nat
    requires i <= |keys|
  {
    if i == 0 then 0 else keys[i - 1]
  }

  /** Position `i` opens a gap: its key exceeds the one before it by more than one. */
  predicate GapAt(keys: seq<nat>, i: nat)
    requires i < |keys|
  {
    keys[i] - Before(keys, i) > 1
  }

  /** The hole a scan from `last` finds in `keys`. */
  function Hole(keys: seq<nat>, last: nat): nat
  {
    if keys == [] then last + 1
    else if keys[0] - last > 1 then keys[0] - 1
    else Hole(keys[1..], keys[0])
  }

  /** Every key is a usize. */
  predicate Words(keys: seq<nat>) {
    forall i :: 0 <= i < |keys| ==> keys[i] < WORD
  }

  /**
   * find_hole: None where the final assertion that last + 1 does not wrap
   * to zero panics.
   */
  method FindHole(keys: seq<nat>) returns (h: Option<nat>)
    requires Ascending(keys) && Words(keys)
    ensures h == if Hole(keys, 0) < WORD then Some(Hole(keys, 0)) else None
  {
    var last := 0;
    var i := 0;
    while i < |keys|
      invariant 0 <= i <= |keys|
      invariant last == Before(keys, i)
      invariant Hole(keys, 0) == Hole(keys[i..], last)
    {
      var key := keys[i];
      assert keys[i..][1..] == keys[i + 1..];
      if key - last > 1 {
        return Some(key - 1);
      } else {
        last := key;
      }
      i := i + 1;
    }
    if last + 1 == WORD {
      return None;
    }
    return Some(last + 1);
  }

  /** A scan that meets no gap ends one past the last key. */
  lemma {:induction false} HoleNoGapFrom(keys: seq<nat>, i: nat)
    requires i <= |keys|
    requires forall j :: i <= j < |keys| ==> !GapAt(keys, j)
    ensures Hole(keys[i..], Before(keys, i)) == Before(keys, |keys|) + 1
    decreases |keys| - i
  {
    if i < |keys| {
      assert keys[i..][0] == keys[i] && keys[i..][1..] == keys[i + 1..];
      assert !GapAt(keys, i);
      HoleNoGapFrom(keys, i + 1);
    }
  }

  /** A scan stops at the first gap it meets. */
  lemma {:induction false} HoleFirstGapFrom(keys: seq<nat>, i: nat, j: nat)
    requires i <= j < |keys| && GapAt(keys, j)
    requires forall k :: i <= k < j ==> !GapAt(keys, k)
    ensures Hole(keys[i..], Before(keys, i)) == keys[j] - 1
    decreases j - i
  {
    assert keys[i..][0] == keys[i] && keys[i..][1..] == keys[i + 1..];
    if i < j {
      assert !GapAt(keys, i);
      HoleFirstGapFrom(keys, i + 1, j);
    }
  }

  /** With no gap the hole is one past the last key, and 1 for no keys. */
  lemma FindHoleNoGap(keys: seq<nat>)
    requires forall j :: 0 <= j < |keys| ==> !GapAt(keys, j)
    ensures Hole(keys, 0) == if keys == [] then 1 else keys[|keys| - 1] + 1
  {
    HoleNoGapFrom(keys, 0);
    assert keys[0..] == keys;
  }

  /** The hole is the key at the first gap, minus one. */
  lemma FindHoleFirstGap(keys: seq<nat>, j: nat)
    requires j < |keys| && GapAt(keys, j)
    requires forall k :: 0 <= k < j ==> !GapAt(keys, k)
    ensures Hole(keys, 0) == keys[j] - 1
  {
    HoleFirstGapFrom(keys, 0, j);
    assert keys[0..] == keys;
  }

  /** On strictly ascending keys the hole lies above every key already passed and is none of the rest. */
  lemma {:induction false} HoleIsFreeFrom(keys: seq<nat>, i: nat)
    requires StrictlyAscending(keys) && i <= |keys|
    ensures Hole(keys[i..], Before(keys, i)) > Before(keys, i)
    ensures Hole(keys[i..], Before(keys, i)) !in keys[i..]
    decreases |keys| - i
  {
    if i < |keys| {
      assert keys[i..][0] == keys[i] && keys[i..][1..] == keys[i + 1..];
      if !GapAt(keys, i) {
        HoleIsFreeFrom(keys, i + 1);
      }
    }
  }

  /** On strictly ascending keys the hole is positive and is not one of the keys. */
  lemma FindHoleIsFree(keys: seq<nat>)
    requires StrictlyAscending(keys)
    ensures Hole(keys, 0) >= 1
    ensures Hole(keys, 0) !in keys
  {
    HoleIsFreeFrom(keys, 0);
    assert keys[0..] == keys;
  }

  lemma WordAboveOne()
    ensures WORD > 1
  {
    assert Pow2(BITS) == 2 * Pow2(BITS - 1);
  }

  /** The hole a scan reaches is past every usize exactly when it meets no gap and ends at the largest usize. */
  lemma {:induction false} HoleOverflowFrom(keys: seq<nat>, i: nat)
    requires i <= |keys| && Words(keys) && Before(keys, i) < WORD
    ensures Hole(keys[i..], Before(keys, i)) >= WORD <==>
      (forall j :: i <= j < |keys| ==> !GapAt(keys, j)) && Before(keys, |keys|) == WORD - 1
    decreases |keys| - i
  {
    if i < |keys| {
      assert keys[i..][0] == keys[i] && keys[i..][1..] == keys[i + 1..];
      if !GapAt(keys, i) {
        HoleOverflowFrom(keys, i + 1);
      }
    }
  }

  /**
   * find_hole panics exactly when the keys are non-empty, have no gap and end
   * at the largest usize, where last + 1 would wrap to zero.
   */
  lemma FindHolePanics(keys: seq<nat>)
    requires Words(keys)
    ensures Hole(keys, 0) >= WORD <==>
      keys != [] && keys[|keys| - 1] == WORD - 1 && forall j :: 0 <= j < |keys| ==> !GapAt(keys, j)
  {
    WordAboveOne();
    HoleOverflowFrom(keys, 0);
    assert keys[0..] == keys;
  }
}
