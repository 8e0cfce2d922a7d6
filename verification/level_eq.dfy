/** The level equalizer of leveleq.cpp: equalizeLevels rewrites an 8-bit
    channel in place so that every level is used as evenly as the pixel
    count allows, keeping the order of the levels.  It counts the pixels of
    each source level, gives each of the 256 target levels a capacity, packs
    the source levels greedily into the targets with a cursor that only
    moves forward (recording, per source level, a stack of (count, target)
    segments), and finally rewrites every pixel from the top of its level's
    stack.

    The specification below describes the result without the stacks: sort
    the pixels by level (ties in scan order), give the pixel at sorted
    position k the target whose capacity band holds k, except that within a
    level the first pixel in scan order takes the highest position. */
module LevelEq {
  import opened Arith
  import opened LittleEndian
  import opened CgTypes

  /** Number of pixels holding level `v`. */
  function Count(s: seq<Byte>, v: int): nat {
    multiset(s)[v]
  }

  /** Number of pixels whose level is below `v`. */
  function Below(s: seq<Byte>, v: nat): nat
    decreases v
  {
    if v == 0 then 0 else Below(s, v - 1) + Count(s, v - 1)
  }

  /** Capacity of target level t for n pixels: n/256, plus one for the first
      n%256 levels. */
  function Cap(n: nat, t: int): nat {
    n / 256 + (if t < n % 256 then 1 else 0)
  }

  /** The capacities of the levels below t, added up one by one. */
  function CapSum(n: nat, t: nat): nat
    decreases t
  {
    if t == 0 then 0 else CapSum(n, t - 1) + Cap(n, t - 1)
  }

  /** The same sum in closed form: t full shares plus one extra for each of
      the first n%256 levels below t. */
  function CapBelow(n: nat, t: nat): nat {
    t * (n / 256) + (if t < n % 256 then t else n % 256)
  }

  /** Adding level t's capacity moves the closed form from t to t + 1. */
  lemma CapStep(n: nat, t: nat)
    ensures CapBelow(n, t + 1) == CapBelow(n, t) + Cap(n, t)
  {
    assert (t + 1) * (n / 256) == t * (n / 256) + n / 256;
  }

  /** The running sum of the capacities is the closed form. */
  lemma {:induction false} CapSumClosed(n: nat, t: nat)
    ensures CapSum(n, t) == CapBelow(n, t)
  {
    if t > 0 {
      CapSumClosed(n, t - 1);
      CapStep(n, t - 1);
    }
  }

  /** The 256 capacities add up to the pixel count. */
  lemma CapacitiesTotal(n: nat)
    ensures CapSum(n, 256) == n
  {
    CapSumClosed(n, 256);
    DivNonneg(n, 256);
  }

  /** The capacity bands are laid out in level order. */
  lemma CapMonotone(n: nat, t1: nat, t2: nat)
    requires t1 <= t2
    ensures CapBelow(n, t1) <= CapBelow(n, t2)
  {
    MulMonotone(n / 256, t1, t2);
  }

  /** No band reaches past the pixel count. */
  lemma CapBelowTotal(n: nat, t: nat)
    requires t <= 256
    ensures CapBelow(n, t) <= CapBelow(n, 256) == n
  {
    CapMonotone(n, t, 256);
    DivNonneg(n, 256);
  }

  /** A level whose band starts below n has room: the levels without
      capacity come after all the capacity. */
  lemma CapPositive(n: nat, t: nat)
    requires t < 256 && CapBelow(n, t) < n
    ensures Cap(n, t) > 0
  {
    DivNonneg(n, 256);
    if n / 256 == 0 {
      assert n == n % 256;
    }
  }

  /** Positions below r*(a + 1), where a = n/256 and r = n%256, fall in the
      first r bands, of a + 1 positions each. */
  lemma ShortBands(n: nat, k: nat)
    requires k < n % 256 * (n / 256 + 1)
    ensures var t := k / (n / 256 + 1);
      t < 256 && CapBelow(n, t) <= k < CapBelow(n, t + 1)
  {
    var a, r := n / 256, n % 256;
    var t := k / (a + 1);
    DivNonneg(k, a + 1);
    DivBelow(k, a + 1, r);
    assert CapBelow(n, t) == t * (a + 1) by {
      Distribute(t, a, 1);
    }
    assert CapBelow(n, t + 1) == t * (a + 1) + (a + 1) by {
      Distribute(t + 1, a, 1);
      Distribute(a + 1, t, 1);
    }
  }

  /** The positions after those fall in the later bands, of a each. */
  lemma LongBands(n: nat, k: nat)
    requires n % 256 * (n / 256 + 1) <= k < n
    ensures 0 < n / 256
    ensures var t := n % 256 + (k - n % 256 * (n / 256 + 1)) / (n / 256);
      t < 256 && CapBelow(n, t) <= k < CapBelow(n, t + 1)
  {
    var a, r := n / 256, n % 256;
    DivNonneg(n, 256);
    var d := k - r * (a + 1);
    Distribute(r, a, 1);
    assert 0 < a;
    var q := d / a;
    DivNonneg(d, a);
    assert d < a * (256 - r) by {
      Distribute(a, 256, -r);
    }
    DivBelow(d, a, 256 - r);
    assert CapBelow(n, r + q) == r * (a + 1) + q * a by {
      Distribute(a, r, q);
    }
    assert CapBelow(n, r + q + 1) == r * (a + 1) + q * a + a by {
      Distribute(a, r + q, 1);
      Distribute(a, r, q);
    }
  }

  /** The target level of sorted position k among n pixels: the level whose
      capacity band [CapBelow(t), CapBelow(t + 1)) holds k. */
  function TargetOfRank(n: nat, k: nat): (t: nat)
    requires k < n
    ensures t < 256 && CapBelow(n, t) <= k < CapBelow(n, t + 1)
  {
    if k < n % 256 * (n / 256 + 1) then ShortTarget(n, k) else LongTarget(n, k)
  }

  /** The band of a position among the first n%256 bands. */
  function ShortTarget(n: nat, k: nat): (t: nat)
    requires k < n % 256 * (n / 256 + 1)
    ensures t < 256 && CapBelow(n, t) <= k < CapBelow(n, t + 1)
  {
    ShortBands(n, k);
    k / (n / 256 + 1)
  }

  /** The band of a position past the first n%256 bands. */
  function LongTarget(n: nat, k: nat): (t: nat)
    requires n % 256 * (n / 256 + 1) <= k < n
    ensures t < 256 && CapBelow(n, t) <= k < CapBelow(n, t + 1)
  {
    LongBands(n, k);
    n % 256 + (k - n % 256 * (n / 256 + 1)) / (n / 256)
  }

  /** Positions within one band share their target. */
  lemma SlotUnique(n: nat, k: nat, t: nat)
    requires k < n && t < 256 && CapBelow(n, t) <= k < CapBelow(n, t + 1)
    ensures TargetOfRank(n, k) == t
  {
    var t' := TargetOfRank(n, k);
    if t' < t {
      CapMonotone(n, t' + 1, t);
    } else if t < t' {
      CapMonotone(n, t + 1, t');
    }
  }

  /** A later position never gets a lower target. */
  lemma TargetMonotone(n: nat, k1: nat, k2: nat)
    requires k1 <= k2 < n
    ensures TargetOfRank(n, k1) <= TargetOfRank(n, k2)
  {
    var t1, t2 := TargetOfRank(n, k1), TargetOfRank(n, k2);
    if t2 < t1 {
      CapMonotone(n, t2 + 1, t1);
    }
  }

  /** Appending one pixel adds it to the levels above its own. */
  lemma {:induction false} BelowAppend(s: seq<Byte>, x: Byte, v: nat)
    ensures Below(s + [x], v) == Below(s, v) + (if x < v then 1 else 0)
  {
    if v > 0 {
      BelowAppend(s, x, v - 1);
      assert multiset(s + [x]) == multiset(s) + multiset{x};
    }
  }

  /** An empty channel has no pixel below any level. */
  lemma {:induction false} BelowEmpty(v: nat)
    ensures Below([], v) == 0
  {
    if v > 0 {
      BelowEmpty(v - 1);
    }
  }

  /** Every pixel is below level 256. */
  lemma {:induction false} BelowAll(s: seq<Byte>)
    ensures Below(s, 256) == |s|
  {
    if s == [] {
      BelowEmpty(256);
    } else {
      var s' := s[..|s| - 1];
      assert s == s' + [s[|s| - 1]];
      BelowAll(s');
      BelowAppend(s', s[|s| - 1], 256);
    }
  }

  /** More pixels lie below a higher level. */
  lemma {:induction false} BelowMonotone(s: seq<Byte>, v1: nat, v2: nat)
    requires v1 <= v2
    ensures Below(s, v1) <= Below(s, v2)
    decreases v2
  {
    if v1 < v2 {
      BelowMonotone(s, v1, v2 - 1);
    }
  }

  /** The levels below v hold at most all the pixels. */
  lemma BelowBound(s: seq<Byte>, v: nat)
    requires v <= 256
    ensures Below(s, v) <= |s|
  {
    BelowMonotone(s, v, 256);
    BelowAll(s);
  }

  /** A pixel at i is counted again at every later cut j > i. */
  lemma OccurrenceStep(s: seq<Byte>, i: nat, j: nat)
    requires i < j <= |s|
    ensures Count(s[..i], s[i]) + 1 <= Count(s[..j], s[i])
  {
    assert s[..j] == s[..i] + s[i..j];
    assert s[i] in multiset(s[i..j]);
  }

  /** Sorted position of pixel i: its level's band of positions is
      [Below(v), Below(v + 1)), and the pixels of that level take it from
      the top down in scan order. */
  function Rank(s: seq<Byte>, i: int): (r: nat)
    requires 0 <= i < |s|
    ensures Below(s, s[i] as nat) <= r < Below(s, s[i] as nat + 1) <= |s|
  {
    OccurrenceStep(s, i, |s|);
    assert s[..|s|] == s;
    BelowBound(s, s[i] as nat + 1);
    Below(s, s[i]) + Count(s, s[i]) - 1 - Count(s[..i], s[i])
  }

  /** What equalizeLevels leaves in the channel. */
  function Equalized(s: seq<Byte>): (out: seq<Byte>)
    ensures |out| == |s|
  {
    seq(|s|, i requires 0 <= i < |s| => var t: Byte := TargetOfRank(|s|, Rank(s, i)); t)
  }

  /** Pixels of different levels keep their order (the cursor only moves
      forward): a lower source level never gets a higher target. */
  lemma EqualizedMonotone(s: seq<Byte>, i: nat, j: nat)
    requires i < |s| && j < |s| && s[i] < s[j]
    ensures Equalized(s)[i] <= Equalized(s)[j]
  {
    BelowMonotone(s, s[i] as nat + 1, s[j] as nat);
    TargetMonotone(|s|, Rank(s, i), Rank(s, j));
  }

  /** Within one level, a pixel later in scan order never gets a higher
      target: the rewrite takes the top (highest) segment first. */
  lemma ScanOrderWithinLevel(s: seq<Byte>, i: nat, j: nat)
    requires i < j < |s| && s[i] == s[j]
    ensures Equalized(s)[j] <= Equalized(s)[i]
  {
    OccurrenceStep(s, i, j);
    TargetMonotone(|s|, Rank(s, j), Rank(s, i));
  }

  /** Two pixels never share a sorted position. */
  lemma RankInjective(s: seq<Byte>, i: nat, j: nat)
    requires i < |s| && j < |s| && Rank(s, i) == Rank(s, j)
    ensures i == j
  {
    if s[i] < s[j] {
      BelowMonotone(s, s[i] as nat + 1, s[j] as nat);
    } else if s[j] < s[i] {
      BelowMonotone(s, s[j] as nat + 1, s[i] as nat);
    } else if i < j {
      OccurrenceStep(s, i, j);
    } else if j < i {
      OccurrenceStep(s, j, i);
    }
  }

  /** Appending a pixel adds one to its own level's count and nothing to
      any other level's. */
  lemma CountAppend(s: seq<Byte>, x: Byte, v: int)
    ensures Count(s + [x], v) == Count(s, v) + if x == v then 1 else 0
  {
    assert multiset(s + [x]) == multiset(s) + multiset{x};
  }

  /** The keys of the entries among the first m of `out` that hold t. */
  ghost function KeysOf(out: seq<Byte>, keys: seq<int>, t: int, m: nat): set<int>
    requires |keys| == |out| && m <= |out|
  {
    if m == 0 then {}
    else KeysOf(out, keys, t, m - 1) + if out[m - 1] == t then {keys[m - 1]} else {}
  }

  /** A key used by none of the first m entries is not among their keys. */
  lemma {:induction false} KeysAvoid(out: seq<Byte>, keys: seq<int>, t: int, m: nat, x: int)
    requires |keys| == |out| && m <= |out|
    requires forall i :: 0 <= i < m ==> keys[i] != x
    ensures x !in KeysOf(out, keys, t, m)
  {
    if m > 0 {
      KeysAvoid(out, keys, t, m - 1, x);
    }
  }

  /** With distinct keys, the entries holding t have as many keys as there
      are such entries. */
  lemma {:induction false} KeysCount(out: seq<Byte>, keys: seq<int>, t: int, m: nat)
    requires |keys| == |out| && m <= |out|
    requires forall i, j :: 0 <= i < j < |keys| ==> keys[i] != keys[j]
    ensures |KeysOf(out, keys, t, m)| == Count(out[..m], t)
  {
    if m > 0 {
      KeysCount(out, keys, t, m - 1);
      assert out[..m] == out[..m - 1] + [out[m - 1]];
      CountAppend(out[..m - 1], out[m - 1], t);
      if out[m - 1] == t {
        KeysAvoid(out, keys, t, m - 1, keys[m - 1]);
      }
    }
  }

  /** When every entry holding t has its key in [lo, hi), so do the keys
      of the first m such entries. */
  lemma {:induction false} KeysWithin(out: seq<Byte>, keys: seq<int>, t: int, m: nat, lo: int, hi: int)
    requires |keys| == |out| && m <= |out|
    requires forall i :: 0 <= i < |out| && out[i] == t ==> lo <= keys[i] < hi
    ensures KeysOf(out, keys, t, m) <= Interval(lo, hi)
  {
    if m > 0 {
      KeysWithin(out, keys, t, m - 1, lo, hi);
    }
  }

  /** The integers lo .. hi-1. */
  ghost function Interval(lo: int, hi: int): (r: set<int>)
    ensures forall k :: k in r <==> lo <= k < hi
    ensures |r| == if lo <= hi then hi - lo else 0
    decreases hi - lo
  {
    if hi <= lo then {} else Interval(lo, hi - 1) + {hi - 1}
  }

  /** A subset is no larger than its superset. */
  lemma SubsetCard(A: set<int>, B: set<int>)
    requires A <= B
    ensures |A| <= |B|
  {
    assert B == A + (B - A);
  }

  /** Entries with distinct keys, each key lying in its entry's band, put
      no more entries on a level than that level's capacity. */
  lemma BandedCount(out: seq<Byte>, keys: seq<int>, n: nat, t: nat)
    requires |keys| == |out| && t < 256
    requires forall i, j :: 0 <= i < j < |keys| ==> keys[i] != keys[j]
    requires forall i :: 0 <= i < |out| ==>
      CapBelow(n, out[i] as nat) <= keys[i] < CapBelow(n, out[i] as nat + 1)
    ensures Count(out, t) <= Cap(n, t)
  {
    var lo, hi := CapBelow(n, t), CapBelow(n, t + 1);
    KeysCount(out, keys, t, |out|);
    assert out[..|out|] == out;
    KeysWithin(out, keys, t, |out|, lo, hi);
    SubsetCard(KeysOf(out, keys, t, |out|), Interval(lo, hi));
    CapStep(n, t);
  }

  /** No target level receives more pixels than its capacity: the pixels
      sent to t have distinct sorted positions, all in t's band. */
  lemma CountAtMostCap(s: seq<Byte>, t: nat)
    requires t < 256
    ensures Count(Equalized(s), t) <= Cap(|s|, t)
  {
    var n, out := |s|, Equalized(s);
    var ranks := seq(n, i requires 0 <= i < n => Rank(s, i));
    forall i, j | 0 <= i < j < n
      ensures ranks[i] != ranks[j]
    {
      if ranks[i] == ranks[j] {
        RankInjective(s, i, j);
      }
    }
    forall i | 0 <= i < n
      ensures CapBelow(n, out[i] as nat) <= ranks[i] < CapBelow(n, out[i] as nat + 1)
    {
      assert out[i] as nat == TargetOfRank(n, ranks[i]);
    }
    BandedCount(out, ranks, n, t);
  }

  /** Counts bounded level by level by capacities that add up to the same
      total leave no level short: running sums compare the same way, and
      strictly once one level falls short. */
  lemma {:induction false} RunningSums(out: seq<Byte>, n: nat, T: nat)
    requires T <= 256
    requires forall t :: 0 <= t < 256 ==> Count(out, t) <= Cap(n, t)
    ensures Below(out, T) <= CapBelow(n, T)
    ensures forall t :: 0 <= t < T && Count(out, t) < Cap(n, t) ==> Below(out, T) < CapBelow(n, T)
  {
    if T > 0 {
      RunningSums(out, n, T - 1);
      CapStep(n, T - 1);
    }
  }

  /** After equalization every level v occurs exactly Cap(N, v) times. */
  lemma EqualizedHistogram(s: seq<Byte>)
    ensures forall t :: 0 <= t < 256 ==> Count(Equalized(s), t) == Cap(|s|, t)
  {
    var n, out := |s|, Equalized(s);
    forall t | 0 <= t < 256
      ensures Count(out, t) <= Cap(n, t)
    {
      CountAtMostCap(s, t);
    }
    RunningSums(out, n, 256);
    BelowAll(out);
    CapBelowTotal(n, 256);
  }

  /** A channel whose histogram already matches the capacities has its
      sorted positions in its own levels' bands, so it is left unchanged. */
  lemma EqualizedFixed(s: seq<Byte>)
    requires forall t :: 0 <= t < 256 ==> Count(s, t) == Cap(|s|, t)
    ensures Equalized(s) == s
  {
    var n := |s|;
    forall i | 0 <= i < n
      ensures Equalized(s)[i] == s[i]
    {
      var v := s[i] as nat;
      BelowIsCapBelow(s, v);
      BelowIsCapBelow(s, v + 1);
      SlotUnique(n, Rank(s, i), v);
    }
  }

  /** Under matching counts, the pixels below v fill exactly the bands
      below v. */
  lemma {:induction false} BelowIsCapBelow(s: seq<Byte>, v: nat)
    requires v <= 256
    requires forall t :: 0 <= t < 256 ==> Count(s, t) == Cap(|s|, t)
    ensures Below(s, v) == CapBelow(|s|, v)
  {
    if v > 0 {
      BelowIsCapBelow(s, v - 1);
      CapStep(|s|, v - 1);
    }
  }

  /** Equalizing an equalized channel changes nothing. */
  lemma EqualizeIdempotent(s: seq<Byte>)
    ensures Equalized(Equalized(s)) == Equalized(s)
  {
    EqualizedHistogram(s);
    EqualizedFixed(Equalized(s));
  }

  /** One entry of a source level's stack: `count` pixels of that level go
      to target `value`. */
  datatype PixCounter = PixCounter(count: int, value: Byte)

  /** A stack tiles the sorted positions [lo, hi): read from the top down,
      each entry holds a positive count of the highest positions not yet
      covered, all inside its target's capacity band, and the targets
      strictly increase from bottom to top. */
  ghost predicate Tiles(st: seq<PixCounter>, n: nat, lo: int, hi: int)
    decreases |st|
  {
    if st == [] then lo == hi
    else
      var e := st[|st| - 1];
      && 0 < e.count
      && CapBelow(n, e.value as nat) <= hi - e.count
      && hi <= CapBelow(n, e.value as nat + 1)
      && (|st| > 1 ==> st[|st| - 2].value < e.value)
      && Tiles(st[..|st| - 1], n, lo, hi - e.count)
  }

  /** Pushing an entry for the next positions extends the tiling. */
  lemma TilesPush(st: seq<PixCounter>, e: PixCounter, n: nat, lo: int, hi: int, hi': int)
    requires Tiles(st, n, lo, hi) && hi' == hi + e.count
    requires 0 < e.count && CapBelow(n, e.value as nat) <= hi
    requires hi' <= CapBelow(n, e.value as nat + 1)
    requires st != [] ==> st[|st| - 1].value < e.value
    ensures Tiles(st + [e], n, lo, hi')
  {
    assert (st + [e])[..|st|] == st;
  }

  /** The sum of the counts of a stack. */
  function Occupancy(st: seq<PixCounter>): int {
    if st == [] then 0 else Occupancy(st[..|st| - 1]) + st[|st| - 1].count
  }

  /** Stack consistency: a tiling stack has positive counts that add up to
      the positions it covers, and strictly increasing targets. */
  lemma {:induction false} TilesConsistent(st: seq<PixCounter>, n: nat, lo: int, hi: int)
    requires Tiles(st, n, lo, hi)
    ensures Occupancy(st) == hi - lo
    ensures forall k :: 0 <= k < |st| ==> st[k].count > 0
    ensures forall k, l :: 0 <= k < l < |st| ==> st[k].value < st[l].value
    decreases |st|
  {
    if st != [] {
      var e := st[|st| - 1];
      var st' := st[..|st| - 1];
      TilesConsistent(st', n, lo, hi - e.count);
      assert st == st' + [e];
    }
  }

  /** The cursor of the mapping pass stands at slot p when `cur` pixels
      have been placed: p's band holds position `cur`, or ends at it once
      every pixel is placed. */
  ghost predicate CursorAt(n: nat, p: int, cur: int) {
    && 0 <= p < 256 && cur <= n
    && CapBelow(n, p) <= cur <= CapBelow(n, p + 1)
    && (cur < n ==> cur < CapBelow(n, p + 1))
  }

  /** The target counters with the cursor at slot p after `cur` pixels:
      the slots below p are used up, slot p has what its band has left
      above `cur`, and the slots above p are untouched. */
  ghost function Remaining(n: nat, p: int, cur: int): (r: seq<int>)
    requires 0 <= p < 256
    ensures |r| == 256 && r[p] == CapBelow(n, p + 1) - cur
  {
    seq(256, u => if u < p then 0 else if u == p then CapBelow(n, p + 1) - cur else Cap(n, u))
  }

  /** Placing c more pixels in slot p takes c from its counter. */
  lemma Take(n: nat, p: int, cur: int, c: int)
    requires 0 <= p < 256
    ensures Remaining(n, p, cur)[p := CapBelow(n, p + 1) - cur - c] == Remaining(n, p, cur + c)
  {
  }

  /** Moving the cursor past a used-up slot: the next slot's band starts
      where the positions placed so far end. */
  lemma Advance(n: nat, p: int, cur: int, cur': int)
    requires 0 <= p < 255 && cur' == CapBelow(n, p + 1) <= n
    ensures Remaining(n, p, cur)[p := 0] == Remaining(n, p + 1, cur')
    ensures CursorAt(n, p + 1, cur')
  {
    CapStep(n, p + 1);
    if cur' < n {
      CapPositive(n, p + 1);
    }
  }

  /** One step of the inner loop of the mapping pass: a slot with less room
      left than the level still has to place is used up whole, its entry
      goes on the stack, and the cursor moves to the next slot, whose band
      starts where this one ends. */
  method UseUpSlot(trgCounts: array<int>, p0: int, stack0: seq<PixCounter>, left0: int,
                   ghost n: nat, ghost cur: int, ghost at0: int)
      returns (p: int, stack: seq<PixCounter>, left: int, ghost at: int)
    requires CursorAt(n, p0, at0) && trgCounts[..] == Remaining(n, p0, at0)
    requires trgCounts[p0] < left0 && at0 + left0 <= n
    requires Tiles(stack0, n, cur, at0) && (stack0 != [] ==> stack0[|stack0| - 1].value < p0)
    modifies trgCounts
    ensures p == p0 + 1 && at == CapBelow(n, p) && left == left0 - (at - at0) && 0 < left
    ensures CursorAt(n, p, at) && trgCounts[..] == Remaining(n, p, at)
    ensures Tiles(stack, n, cur, at) && stack != [] && stack[|stack| - 1].value < p
  {
    CapBelowTotal(n, 256);
    var e := PixCounter(trgCounts[p0], p0);
    at := at0 + e.count;
    TilesPush(stack0, e, n, cur, at0, at);
    Advance(n, p0, at0, at);
    stack := stack0 + [e];
    left := left0 - trgCounts[p0];
    trgCounts[p0] := 0;
    p := p0 + 1;
  }

  /** The counting pass: the number of pixels of each level. */
  method CountLevels(pixels: array<Byte>) returns (srcCounts: array<int>)
    ensures fresh(srcCounts) && srcCounts.Length == 256
    ensures forall v :: 0 <= v < 256 ==> srcCounts[v] == Count(pixels[..], v)
  {
    srcCounts := new int[256];
    for v := 0 to 256
      invariant forall u :: 0 <= u < v ==> srcCounts[u] == 0
    {
      srcCounts[v] := 0;
    }
    for i := 0 to pixels.Length
      invariant forall v :: 0 <= v < 256 ==> srcCounts[v] == Count(pixels[..i], v)
    {
      assert pixels[..i + 1] == pixels[..i] + [pixels[i]];
      srcCounts[pixels[i]] := srcCounts[pixels[i]] + 1;
    }
    assert pixels[..pixels.Length] == pixels[..];
  }

  /** The target counters: each level's capacity for n pixels, which is
      where the mapping pass starts, its cursor at level 0. */
  method TargetCapacities(n: nat) returns (trgCounts: array<int>)
    ensures fresh(trgCounts)
    ensures trgCounts[..] == Remaining(n, 0, 0) && CursorAt(n, 0, 0)
  {
    trgCounts := new int[256];
    var avg := n / 256;
    var rem := n % 256;
    for v := 0 to 256
      invariant forall u :: 0 <= u < v ==> trgCounts[u] == Cap(n, u)
    {
      trgCounts[v] := avg + if v < rem then 1 else 0;
    }
    CapStep(n, 0);
    if 0 < n {
      CapPositive(n, 0);
    }
  }

  /** The inner loop of the mapping pass for one source level: while the
      slot under the cursor has less room than the pixels left, its room is
      recorded on the stack, used up, and the cursor moves on. */
  method FillSlots(trgCounts: array<int>, p0: int, srcCount: int, ghost n: nat, ghost cur: int)
      returns (p: int, stack: seq<PixCounter>, left: int)
    requires CursorAt(n, p0, cur) && trgCounts[..] == Remaining(n, p0, cur)
    requires 0 <= srcCount && cur + srcCount <= n
    modifies trgCounts
    ensures 0 <= left <= srcCount && (srcCount > 0 ==> 0 < left)
    ensures CursorAt(n, p, cur + srcCount - left) && trgCounts[..] == Remaining(n, p, cur + srcCount - left)
    ensures left <= trgCounts[p]
    ensures Tiles(stack, n, cur, cur + srcCount - left)
    ensures stack != [] ==> stack[|stack| - 1].value < p
  {
    p, stack, left := p0, [], srcCount;
    ghost var at := cur;
    while trgCounts[p] < left
      invariant 0 <= left <= srcCount && (srcCount > 0 ==> 0 < left)
      invariant at == cur + srcCount - left
      invariant CursorAt(n, p, at) && trgCounts[..] == Remaining(n, p, at)
      invariant Tiles(stack, n, cur, at)
      invariant stack != [] ==> stack[|stack| - 1].value < p
      decreases left
    {
      p, stack, left, at := UseUpSlot(trgCounts, p, stack, left, n, cur, at);
    }
  }

  /** One source level of the mapping pass: slots too small for the pixels
      left are filled and passed, the rest goes to the slot the cursor stops
      at, and the cursor moves on when that slot is used up, but never past
      the last slot. */
  method PlaceLevel(trgCounts: array<int>, p0: int, srcCount: int, ghost n: nat, ghost cur: int, ghost cur': int)
      returns (p: int, stack: seq<PixCounter>)
    requires CursorAt(n, p0, cur) && trgCounts[..] == Remaining(n, p0, cur)
    requires 0 <= srcCount && cur' == cur + srcCount <= n
    modifies trgCounts
    ensures CursorAt(n, p, cur') && trgCounts[..] == Remaining(n, p, cur')
    ensures srcCount > 0 ==> Tiles(stack, n, cur, cur')
  {
    var left;
    p, stack, left := FillSlots(trgCounts, p0, srcCount, n, cur);
    ghost var at, at' := cur + srcCount - left, cur';
    var e := PixCounter(left, p);
    if srcCount > 0 {
      TilesPush(stack, e, n, cur, at, at');
    }
    stack := stack + [e];
    Take(n, p, at, left);
    trgCounts[p] := trgCounts[p] - left;
    CapBelowTotal(n, 256);
    if trgCounts[p] == 0 && p < 255 {
      Advance(n, p, at', at');
      p := p + 1;
    }
  }

  /** The stack of level v, when v occurs, tiles the band of sorted
      positions of v's pixels. */
  ghost predicate LevelMapped(st: seq<PixCounter>, s: seq<Byte>, v: nat) {
    Count(s, v) > 0 ==> Tiles(st, |s|, Below(s, v), Below(s, v + 1))
  }

  /** The stacks of the occupied levels below `src` tile their levels'
      bands of sorted positions. */
  ghost predicate Mapped(stacks: seq<seq<PixCounter>>, s: seq<Byte>, src: nat) {
    && |stacks| == 256
    && forall v {:trigger LevelMapped(stacks[v], s, v)} ::
         0 <= v < src && v < 256 ==> LevelMapped(stacks[v], s, v)
  }

  /** Storing the stack built for level `src` extends the mapping. */
  lemma MappedExtend(stacks: seq<seq<PixCounter>>, s: seq<Byte>, src: nat, st: seq<PixCounter>)
    requires Mapped(stacks, s, src) && src < 256
    requires Count(s, src) > 0 ==> Tiles(st, |s|, Below(s, src), Below(s, src + 1))
    ensures Mapped(stacks[src := st], s, src + 1)
  {
    var stacks' := stacks[src := st];
    forall v | 0 <= v < src + 1
      ensures LevelMapped(stacks'[v], s, v)
    {
      if v < src {
        assert LevelMapped(stacks[v], s, v);
      }
    }
  }

  /** The mapping pass: every source level in turn is placed from the
      cursor on; afterwards the stack of every occupied level tiles that
      level's band of sorted positions. */
  method MapLevels(srcCounts: array<int>, trgCounts: array<int>, ghost s: seq<Byte>)
      returns (stacks: array<seq<PixCounter>>)
    requires srcCounts.Length == 256 && srcCounts != trgCounts
    requires forall v :: 0 <= v < 256 ==> srcCounts[v] == Count(s, v)
    requires trgCounts[..] == Remaining(|s|, 0, 0) && CursorAt(|s|, 0, 0)
    modifies trgCounts
    ensures fresh(stacks) && Mapped(stacks[..], s, 256)
  {
    ghost var n := |s|;
    stacks := new seq<PixCounter>[256](_ => []);
    var p := 0;
    ghost var placed := 0;
    for src := 0 to 256
      invariant placed == Below(s, src)
      invariant CursorAt(n, p, placed) && trgCounts[..] == Remaining(n, p, placed)
      invariant Mapped(stacks[..], s, src)
    {
      ghost var placed' := Below(s, src + 1);
      BelowBound(s, src + 1);
      var stack;
      p, stack := PlaceLevel(trgCounts, p, srcCounts[src], n, placed, placed');
      MappedExtend(stacks[..], s, src, stack);
      stacks[src] := stack;
      placed := placed';
    }
  }

  /** During the rewrite, after the first i pixels: the stack of each
      occupied level tiles its band less the positions its pixels among the
      first i have taken from the top. */
  ghost predicate Pending(stacks: seq<seq<PixCounter>>, s: seq<Byte>, i: nat)
    requires i <= |s|
  {
    && |stacks| == 256
    && forall v {:trigger LevelPending(stacks[v], s, i, v)} ::
         0 <= v < 256 ==> LevelPending(stacks[v], s, i, v)
  }

  /** The stack of level v, when v occurs, tiles v's band less the
      positions the pixels of v among the first i have taken. */
  ghost predicate LevelPending(st: seq<PixCounter>, s: seq<Byte>, i: nat, v: nat)
    requires i <= |s|
  {
    Count(s, v) > 0 ==> Tiles(st, |s|, Below(s, v), Below(s, v + 1) - Count(s[..i], v))
  }

  /** Before the rewrite, the pending positions are the whole bands. */
  lemma PendingStart(stacks: seq<seq<PixCounter>>, s: seq<Byte>)
    requires Mapped(stacks, s, 256)
    ensures Pending(stacks, s, 0)
  {
    forall v | 0 <= v < 256
      ensures LevelPending(stacks[v], s, 0, v)
    {
      assert LevelMapped(stacks[v], s, v);
      assert s[..0] == [];
    }
  }

  /** Rewriting pixel i takes the top position of its level's band. */
  lemma PendingStep(stacks: seq<seq<PixCounter>>, s: seq<Byte>, i: nat, st: seq<PixCounter>)
    requires i < |s| && Pending(stacks, s, i)
    requires Tiles(st, |s|, Below(s, s[i] as nat), Below(s, s[i] as nat + 1) - Count(s[..i], s[i]) - 1)
    ensures Pending(stacks[s[i] := st], s, i + 1)
  {
    var stacks' := stacks[s[i] := st];
    assert s[..i + 1] == s[..i] + [s[i]];
    forall v | 0 <= v < 256
      ensures LevelPending(stacks'[v], s, i + 1, v)
    {
      if v != s[i] as nat {
        assert LevelPending(stacks[v], s, i, v);
        assert Count(s[..i + 1], v) == Count(s[..i], v);
      } else {
        assert Count(s[..i + 1], v) == Count(s[..i], v) + 1;
      }
    }
  }

  /** Taking one position off the top of a tiling stack: the top entry's
      band holds the highest position, and what is left, with the top count
      lowered or the entry dropped when it reaches zero, tiles the rest. */
  lemma TilesPop(st: seq<PixCounter>, n: nat, lo: int, hi: int)
    requires Tiles(st, n, lo, hi) && lo < hi
    ensures st != []
    ensures var e := st[|st| - 1];
      && CapBelow(n, e.value as nat) <= hi - 1 < CapBelow(n, e.value as nat + 1)
      && (e.count == 1 ==> Tiles(st[..|st| - 1], n, lo, hi - 1))
      && (e.count != 1 ==>
            Tiles(st[..|st| - 1] + [PixCounter(e.count - 1, e.value)], n, lo, hi - 1))
  {
    var e := st[|st| - 1];
    if e.count != 1 {
      TilesPush(st[..|st| - 1], PixCounter(e.count - 1, e.value), n, lo, hi - e.count, hi - 1);
    }
  }

  /** A stack after one pixel has taken its top entry's target: the top
      count is lowered, and the entry is dropped when it reaches zero. */
  ghost function Decremented(st: seq<PixCounter>): seq<PixCounter>
    requires st != []
  {
    var e := st[|st| - 1];
    if e.count == 1 then st[..|st| - 1] else st[..|st| - 1] + [PixCounter(e.count - 1, e.value)]
  }

  /** Pixel i finds its target on top of its level's stack. */
  lemma TopIsTarget(stacks: seq<seq<PixCounter>>, s: seq<Byte>, i: nat)
    requires i < |s| && Pending(stacks, s, i)
    ensures stacks[s[i]] != []
    ensures stacks[s[i]][|stacks[s[i]]| - 1].value as nat == TargetOfRank(|s|, Rank(s, i))
  {
    var v := s[i];
    var st := stacks[v];
    var hi := Below(s, v as nat + 1) - Count(s[..i], v);
    assert hi - 1 == Rank(s, i);
    assert LevelPending(st, s, i, v as nat);
    TilesPop(st, |s|, Below(s, v as nat), hi);
    SlotUnique(|s|, hi - 1, st[|st| - 1].value as nat);
  }

  /** Rewriting pixel i keeps the stacks pending for the next pixel. */
  lemma RewriteStep(stacks: seq<seq<PixCounter>>, s: seq<Byte>, i: nat)
    requires i < |s| && Pending(stacks, s, i)
    ensures stacks[s[i]] != [] && Pending(stacks[s[i] := Decremented(stacks[s[i]])], s, i + 1)
  {
    var v := s[i];
    var st := stacks[v];
    var hi := Below(s, v as nat + 1) - Count(s[..i], v);
    assert hi - 1 == Rank(s, i);
    assert LevelPending(st, s, i, v as nat);
    TilesPop(st, |s|, Below(s, v as nat), hi);
    PendingStep(stacks, s, i, Decremented(st));
  }

  /** The targets of the first m pixels, built one pixel at a time. */
  ghost function EqualizedPrefix(s: seq<Byte>, m: nat): (r: seq<Byte>)
    requires m <= |s|
    ensures |r| == m
  {
    if m == 0 then []
    else
      var t: Byte := TargetOfRank(|s|, Rank(s, m - 1));
      EqualizedPrefix(s, m - 1) + [t]
  }

  /** The prefix built pixel by pixel is the prefix of the equalization. */
  lemma {:induction false} PrefixOfEqualized(s: seq<Byte>, m: nat)
    requires m <= |s|
    ensures EqualizedPrefix(s, m) == Equalized(s)[..m]
    ensures m == |s| ==> EqualizedPrefix(s, m) + s[m..] == Equalized(s)
  {
    if m > 0 {
      PrefixOfEqualized(s, m - 1);
      assert Equalized(s)[..m] == Equalized(s)[..m - 1] + [Equalized(s)[m - 1]];
    }
  }

  /** The channel during the rewrite, the first i pixels rewritten and the
      rest as they were: pixel i still holds its level, and writing its
      target there extends the rewritten prefix by one. */
  lemma Spliced(s: seq<Byte>, i: nat, t: Byte)
    requires i < |s| && t as nat == TargetOfRank(|s|, Rank(s, i))
    ensures (EqualizedPrefix(s, i) + s[i..])[i] == s[i]
    ensures (EqualizedPrefix(s, i) + s[i..])[i := t] == EqualizedPrefix(s, i + 1) + s[i + 1..]
  {
    assert EqualizedPrefix(s, i + 1) == EqualizedPrefix(s, i) + [t];
    assert (EqualizedPrefix(s, i) + s[i..])[i := t] == EqualizedPrefix(s, i + 1) + s[i + 1..];
  }

  /** One step of the rewriting pass: pixel i takes the target on top of
      its level's stack, and that entry loses one pixel. */
  method RewritePixel(pixels: array<Byte>, stacks: array<seq<PixCounter>>, ghost s: seq<Byte>, i: nat)
    requires i < pixels.Length == |s|
    requires pixels[..] == EqualizedPrefix(s, i) + s[i..] && Pending(stacks[..], s, i)
    modifies pixels, stacks
    ensures pixels[..] == EqualizedPrefix(s, i + 1) + s[i + 1..] && Pending(stacks[..], s, i + 1)
  {
    ghost var before := stacks[..];
    ghost var P := pixels[..];
    assert P[i] == s[i] by {
      Spliced(s, i, TargetOfRank(|s|, Rank(s, i)) as Byte);
    }
    var srcval := pixels[i];
    assert srcval == s[i];
    TopIsTarget(before, s, i);
    RewriteStep(before, s, i);
    var st := stacks[srcval];
    assert st == before[s[i]];
    var top := st[|st| - 1];
    assert top.value as nat == TargetOfRank(|s|, Rank(s, i));
    Spliced(s, i, top.value);
    pixels[i] := top.value;
    assert pixels[..] == P[i := top.value];
    ghost var after := Decremented(st);
    if top.count == 1 {
      stacks[srcval] := st[..|st| - 1];
    } else {
      stacks[srcval] := st[..|st| - 1] + [PixCounter(top.count - 1, top.value)];
    }
    assert stacks[srcval] == after;
    assert stacks[..] == before[s[i] := after];
  }

  /** The rewriting pass: every pixel in scan order takes its target, so
      the channel becomes its equalization. */
  method RewritePixels(pixels: array<Byte>, stacks: array<seq<PixCounter>>, ghost s: seq<Byte>)
    requires pixels[..] == s && Mapped(stacks[..], s, 256)
    modifies pixels, stacks
    ensures pixels[..] == Equalized(s)
  {
    PendingStart(stacks[..], s);
    assert pixels[..] == EqualizedPrefix(s, 0) + s[0..];
    for i := 0 to pixels.Length
      invariant pixels[..] == EqualizedPrefix(s, i) + s[i..]
      invariant Pending(stacks[..], s, i)
    {
      RewritePixel(pixels, stacks, s, i);
    }
    PrefixOfEqualized(s, |s|);
  }

  /** equalizeLevels: the channel is rewritten to its equalization, and the
      call reports 0. */
  method EqualizeLevels(pixels: array<Byte>) returns (r: int)
    modifies pixels
    ensures r == 0
    ensures pixels[..] == Equalized(old(pixels[..]))
  {
    ghost var s := pixels[..];
    var srcCounts := CountLevels(pixels);
    var trgCounts := TargetCapacities(pixels.Length);
    var srcpixvals := MapLevels(srcCounts, trgCounts, s);
    RewritePixels(pixels, srcpixvals, s);
    return 0;
  }

  /** One source level of the mapping pass exactly as written, on the
      counters as values: None when the cursor reads the counter at index
      256, one past the last. */
  function PlaceAsWritten(trg: seq<int>, p: nat, left: int): (r: Option<(seq<int>, nat)>)
    requires |trg| == 256 && p <= 256
    ensures r.Some? ==> |r.value.0| == 256 && r.value.1 <= 256
    decreases 256 - p
  {
    if p == 256 then None
    else if trg[p] < left then PlaceAsWritten(trg[p := 0], p + 1, left - trg[p])
    else
      var t := trg[p := trg[p] - left];
      Some((t, if t[p] == 0 then p + 1 else p))
  }

  /** The mapping pass as written, from source level `src` on: true when
      every counter it reads lies among the 256 allocated. */
  function MapAsWritten(counts: seq<int>, trg: seq<int>, src: nat, p: nat): bool
    requires |counts| == 256 && |trg| == 256 && src <= 256 && p <= 256
    decreases 256 - src
  {
    if src == 256 then true
    else match PlaceAsWritten(trg, p, counts[src])
      case None => false
      case Some((t, q)) => MapAsWritten(counts, t, src + 1, q)
  }

  /** Once every counter is zero and the cursor is ahead of the source
      level, each remaining empty level moves the cursor one further, so it
      reaches index 256 before the levels run out. */
  lemma {:induction false} ZerosOverrun(counts: seq<int>, src: nat, p: nat)
    requires |counts| == 256 && src < p <= 256
    requires forall v :: src <= v < 256 ==> counts[v] == 0
    ensures !MapAsWritten(counts, seq(256, _ => 0), src, p)
    decreases 256 - src
  {
    var zeros: seq<int> := seq(256, _ => 0);
    if p < 256 {
      assert zeros[p := 0] == zeros;
      assert PlaceAsWritten(zeros, p, 0) == Some((zeros, p + 1));
      ZerosOverrun(counts, src + 1, p + 1);
    }
  }

  /** Two pixels of level 0: the capacities are 1, 1, 0, ..., level 0 uses
      both non-empty slots, and the cursor then walks one slot per empty
      level until the mapping pass, as written, reads trgpixcounts[256]. */
  lemma CursorOverrun()
    ensures !MapAsWritten(seq(256, v => Count([0, 0], v)), seq(256, v => Cap(2, v)), 0, 0)
  {
    var counts := seq(256, v => Count([0, 0], v));
    var trg := seq(256, v => Cap(2, v));
    var zeros: seq<int> := seq(256, _ => 0);
    assert counts[0] == 2;
    assert trg[0 := 0][1 := 0] == zeros;
    assert PlaceAsWritten(trg, 0, 2) == Some((zeros, 2));
    ZerosOverrun(counts, 1, 2);
  }
}
