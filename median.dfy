/**
 * The median table of verification.cpp: `subsets` enumerates the `k`-element
 * subsets of {0, ..., n-1} as words, and `median_table` uses them to
 * record, for every non-empty set of depths `x` below 2^(h+1), its median.
 */
module Median {
  import opened Words

  /** The number of members of `x` in [lo, hi). */
  function Cnt(x: nat, lo: nat, hi: nat): nat
    decreases hi
  {
    if hi <= lo then 0 else Cnt(x, lo, hi - 1) + (if Has(x, hi - 1) then 1 else 0)
  }

  lemma {:induction false} CntSplit(x: nat, lo: nat, mid: nat, hi: nat)
    requires lo <= mid <= hi
    ensures Cnt(x, lo, hi) == Cnt(x, lo, mid) + Cnt(x, mid, hi)
    decreases hi
  {
    if mid < hi {
      CntSplit(x, lo, mid, hi - 1);
    }
  }

  lemma {:induction false} CntLe(x: nat, lo: nat, hi: nat)
    ensures Cnt(x, lo, hi) <= if hi <= lo then 0 else hi - lo
    decreases hi
  {
    if lo < hi {
      CntLe(x, lo, hi - 1);
    }
  }

  /** Counting is invariant under a shift by `d` that preserves membership. */
  lemma {:induction false} CntShift(x: nat, y: nat, lo: nat, hi: nat, d: nat)
    requires forall j: nat :: lo <= j < hi ==> (Has(x, j + d) <==> Has(y, j))
    ensures Cnt(x, lo + d, hi + d) == Cnt(y, lo, hi)
    decreases hi
  {
    if lo < hi {
      CntShift(x, y, lo, hi - 1, d);
      assert Has(x, hi - 1 + d) <==> Has(y, hi - 1);
    }
  }

  /** A count of zero means no member in the range. */
  lemma {:induction false} CntZero(x: nat, lo: nat, hi: nat, j: nat)
    requires Cnt(x, lo, hi) == 0 && lo <= j < hi
    ensures !Has(x, j)
    decreases hi
  {
    if j < hi - 1 {
      CntZero(x, lo, hi - 1, j);
    }
  }

  /** For every rank `r` below the count there is a member with exactly `r`
      members below it. */
  lemma {:induction false} CntRank(x: nat, n: nat, r: nat)
    requires r < Cnt(x, 0, n)
    ensures exists s: nat :: s < n && Has(x, s) && Cnt(x, 0, s) == r
  {
    if r < Cnt(x, 0, n - 1) {
      CntRank(x, n - 1, r);
    } else {
      assert n - 1 < n && Has(x, n - 1) && Cnt(x, 0, n - 1) == r;
    }
  }

  // ---------------------------------------------------------------------
  // Enumerating subsets

  function Binom(n: nat, k: nat): nat
  {
    if k == 0 then 1 else if n == 0 then 0 else Binom(n - 1, k - 1) + Binom(n - 1, k)
  }

  lemma {:induction false} BinomZero(n: nat, k: nat)
    requires n < k
    ensures Binom(n, k) == 0
  {
    if n > 0 {
      BinomZero(n - 1, k - 1);
      BinomZero(n - 1, k);
    }
  }

  /** Two neighbouring entries of a row of Pascal's triangle sum to at most
      the row sum `2^n`. */
  lemma {:induction false} BinomPair(n: nat, k: nat)
    ensures Binom(n, k) + Binom(n, k + 1) <= Pow2(n)
  {
    if n > 0 {
      BinomPair(n - 1, k);
      if k > 0 {
        BinomPair(n - 1, k - 1);
      }
    }
  }

  /** Entry `i` of the list of `k`-element subsets of {0, ..., n-1} in the
      order `subsets` stores them: first those holding `n-1`, then those
      that do not. */
  function EnumAt(n: nat, k: nat, i: nat): nat
    requires i < Binom(n, k)
  {
    if k == 0 then 0
    else if i < Binom(n - 1, k - 1) then Or(EnumAt(n - 1, k - 1, i), Single(n - 1))
    else EnumAt(n - 1, k, i - Binom(n - 1, k - 1))
  }

  /** A `k`-element subset of {0, ..., n-1}. */
  ghost predicate IsSubset(x: nat, n: nat, k: nat)
  {
    x < Pow2(n) && Cnt(x, 0, n) == k
  }

  /** Every stored word has exactly `k` members, all below `n`. */
  lemma {:induction false} EnumSound(n: nat, k: nat, i: nat)
    requires i < Binom(n, k)
    ensures IsSubset(EnumAt(n, k, i), n, k)
  {
    if k == 0 {
      ZeroSubset(n);
    } else if i < Binom(n - 1, k - 1) {
      EnumSound(n - 1, k - 1, i);
      AddTop(EnumAt(n - 1, k - 1, i), n - 1);
    } else {
      EnumSound(n - 1, k, i - Binom(n - 1, k - 1));
      Widen(EnumAt(n - 1, k, i - Binom(n - 1, k - 1)), n - 1, k);
    }
  }

  lemma ZeroSubset(n: nat)
    ensures IsSubset(0, n, 0)
  {
    forall j: nat
      ensures !Has(0, j)
    {
      HasZero(j);
    }
    CntZeroOf(0, n);
  }

  /** A subset of {0, ..., n-1} is also one of {0, ..., n}. */
  lemma Widen(x: nat, n: nat, k: nat)
    requires IsSubset(x, n, k)
    ensures IsSubset(x, n + 1, k)
  {
    BoundBits(x, n);
    assert !Has(x, n);
  }

  lemma {:induction false} CntZeroOf(x: nat, n: nat)
    requires forall j: nat :: !Has(x, j)
    ensures Cnt(x, 0, n) == 0
  {
    if n > 0 {
      CntZeroOf(x, n - 1);
    }
  }

  /** Adding the top bit `n` to a subset of {0, ..., n-1}. */
  lemma AddTop(x: nat, n: nat)
    requires x < Pow2(n)
    ensures Or(x, Single(n)) < Pow2(n + 1)
    ensures Cnt(Or(x, Single(n)), 0, n + 1) == Cnt(x, 0, n) + 1
  {
    var y := Or(x, Single(n));
    BoundBits(x, n);
    forall j: nat
      ensures Has(y, j) <==> Has(x, j) || j == n
    {
      HasOr(x, Single(n), j);
      HasSingle(n, j);
    }
    BitsBound(y, n + 1);
    CntShift(y, x, 0, n, 0);
  }

  /** Every `k`-element subset of {0, ..., n-1} is stored. */
  lemma {:induction false} EnumComplete(n: nat, k: nat, x: nat)
    requires IsSubset(x, n, k)
    ensures exists i :: 0 <= i < Binom(n, k) && EnumAt(n, k, i) == x
  {
    if k == 0 {
      EmptySubset(x, n);
      assert EnumAt(n, k, 0) == x;
    } else {
      assert n > 0;
      BoundBits(x, n);
      if Has(x, n - 1) {
        var y := DropTop(x, n - 1);
        EnumComplete(n - 1, k - 1, y);
        var i :| 0 <= i < Binom(n - 1, k - 1) && EnumAt(n - 1, k - 1, i) == y;
        assert EnumAt(n, k, i) == x;
      } else {
        BitsBound(x, n - 1);
        EnumComplete(n - 1, k, x);
        var i :| 0 <= i < Binom(n - 1, k) && EnumAt(n - 1, k, i) == x;
        assert EnumAt(n, k, Binom(n - 1, k - 1) + i) == x;
      }
    }
  }

  /** The only 0-element subset is the empty word. */
  lemma EmptySubset(x: nat, n: nat)
    requires IsSubset(x, n, 0)
    ensures x == 0
  {
    BoundBits(x, n);
    forall j: nat
      ensures Has(x, j) <==> Has(0, j)
    {
      HasZero(j);
      if j < n {
        CntZero(x, 0, n, j);
      }
    }
    Ext(x, 0);
  }

  /** A subset of {0, ..., n} holding `n` is a subset of {0, ..., n-1} with `n` added. */
  lemma DropTop(x: nat, n: nat) returns (y: nat)
    requires x < Pow2(n + 1) && Has(x, n)
    ensures IsSubset(y, n, Cnt(x, 0, n + 1) - 1)
    ensures Or(y, Single(n)) == x
  {
    y := And(x, LowMask(n));
    BoundBits(x, n + 1);
    forall j: nat
      ensures Has(y, j) <==> j < n && Has(x, j)
    {
      HasAnd(x, LowMask(n), j);
      HasLowMask(n, j);
    }
    BitsBound(y, n);
    CntShift(y, x, 0, n, 0);
    forall j: nat
      ensures Has(Or(y, Single(n)), j) <==> Has(x, j)
    {
      HasOr(y, Single(n), j);
      HasSingle(n, j);
    }
    Ext(Or(y, Single(n)), x);
  }

  /** `subsets(n, k, p, T)`, with `T` shared by the caller: stores the
      `k`-element subsets of {0, ..., n-1} at `T[p..]`, in the order of
      `EnumAt(n, k, _)`, and returns `p` plus their number `C(n, k)`.
      Nothing else in `T` changes. */
  method Subsets(n: nat, k: nat, p: nat, T: array<nat>) returns (r: nat)
    requires p + Binom(n, k) <= T.Length
    modifies T
    ensures r == p + Binom(n, k)
    ensures forall j :: p <= j < r ==> T[j] == EnumAt(n, k, j - p)
    ensures forall j :: 0 <= j < T.Length && !(p <= j < r) ==> T[j] == old(T[j])
    decreases n
  {
    if n < k {
      BinomZero(n, k);
      return p;
    }
    if k == 0 {
      T[p] := 0;
      return p + 1;
    }
    ghost var t0 := T[..];
    var q := Subsets(n - 1, k - 1, p, T);
    ghost var t1 := T[..];
    AddBitRange(T, p, q, n - 1);
    ghost var t2 := T[..];
    r := Subsets(n - 1, k, q, T);
    forall j | p <= j < r
      ensures T[j] == EnumAt(n, k, j - p)
    {
      if j < q {
        assert T[j] == t2[j] == Or(t1[j], Single(n - 1));
      }
    }
  }

  /** The loop of `subsets` that adds bit `b` to `T[p..q]`. */
  method AddBitRange(T: array<nat>, p: nat, q: nat, b: nat)
    requires p <= q <= T.Length
    modifies T
    ensures forall j :: p <= j < q ==> T[j] == Or(old(T[j]), Single(b))
    ensures forall j :: 0 <= j < T.Length && !(p <= j < q) ==> T[j] == old(T[j])
  {
    var i := p;
    while i < q
      invariant p <= i <= q
      invariant forall j :: p <= j < i ==> T[j] == Or(old(T[j]), Single(b))
      invariant forall j :: 0 <= j < T.Length && !(p <= j < i) ==> T[j] == old(T[j])
    {
      T[i] := Or(T[i], Single(b));
      i := i + 1;
    }
  }

  // ---------------------------------------------------------------------
  // Medians

  /** `s` is the median of the set `x` of depths 0..h: a member with as many
      members above it as below, or one fewer above when `x` has an even
      number of members. */
  ghost predicate IsMedian(x: nat, s: nat, h: nat)
  {
    s <= h && Has(x, s) &&
    (Cnt(x, 0, s) == Cnt(x, s + 1, h + 1) || Cnt(x, 0, s) == Cnt(x, s + 1, h + 1) + 1)
  }

  lemma MedianCount(x: nat, s: nat, h: nat)
    requires IsMedian(x, s, h)
    ensures Cnt(x, 0, s) == Cnt(x, 0, h + 1) / 2
  {
    CntSplit(x, 0, s, h + 1);
    CntSplit(x, s, s + 1, h + 1);
  }

  /** Every non-empty set of depths 0..h has a median. */
  lemma MedianExists(x: nat, h: nat)
    requires 0 < x < Pow2(h + 1)
    ensures exists s: nat :: IsMedian(x, s, h)
  {
    NonZero(x);
    BoundBits(x, h + 1);
    var j: nat :| Has(x, j);
    CntSplit(x, 0, j, h + 1);
    CntSplit(x, j, j + 1, h + 1);
    var c := Cnt(x, 0, h + 1);
    CntRank(x, h + 1, c / 2);
    var s: nat :| s < h + 1 && Has(x, s) && Cnt(x, 0, s) == c / 2;
    CntSplit(x, 0, s, h + 1);
    CntSplit(x, s, s + 1, h + 1);
    assert IsMedian(x, s, h);
  }

  /** The median is unique. */
  lemma MedianUnique(x: nat, s: nat, s': nat, h: nat)
    requires IsMedian(x, s, h) && IsMedian(x, s', h)
    ensures s == s'
  {
    MedianCount(x, s, h);
    MedianCount(x, s', h);
    if s < s' {
      CntSplit(x, 0, s, s');
      CntSplit(x, s, s + 1, s');
    } else if s' < s {
      CntSplit(x, 0, s', s);
      CntSplit(x, s', s' + 1, s);
    }
  }

  /** The median of a set with two or more members is not its least member. */
  lemma MedianAboveLeast(x: nat, s: nat, h: nat, t: nat)
    requires IsMedian(x, s, h) && Has(x, t) && t <= h && t != s
    ensures exists u: nat :: u < s && Has(x, u)
  {
    CntSplit(x, 0, s, h + 1);
    CntSplit(x, s, s + 1, h + 1);
    if Cnt(x, 0, s) == 0 {
      assert Cnt(x, s + 1, h + 1) == 0;
      if t < s {
        CntZero(x, 0, s, t);
      } else {
        CntZero(x, s + 1, h + 1, t);
      }
    } else {
      CntRank(x, s, 0);
    }
  }

  // ---------------------------------------------------------------------
  // The table

  /** A set whose median is `s`, split into its members above `s` and its
      members below `s`: `x == 2^(s+1) * hi + 2^s + lo`. */
  lemma {:induction false} Decompose(x: nat, s: nat)
    requires Has(x, s)
    ensures Trunc(x, s) < Pow2(s)
    ensures x == Pow2(s + 1) * Shr(x, s + 1) + Pow2(s) + Trunc(x, s)
  {
    var lo := Trunc(x, s);
    forall j: nat | s <= j
      ensures !Has(lo, j)
    {
      HasTrunc(x, s, j);
    }
    BitsBound(lo, s);
    var y := Pow2(s + 1) * Shr(x, s + 1) + (Pow2(s) * 1 + lo);
    forall j: nat
      ensures Has(y, j) <==> Has(x, j)
    {
      HasPlace(Shr(x, s + 1), s + 1, Pow2(s) * 1 + lo, j);
      HasPlace(1, s, lo, j);
      HasTrunc(x, s, j);
      if j > s {
        HasShr(x, s + 1, j - (s + 1));
      } else if j == s {
        HasStep(0, 1, 0);
      }
    }
    Ext(y, x);
  }

  /** The index `(1 << s+1) * hi + (1 << s) + lo` that `median_table` writes. */
  function Slot(hi: nat, lo: nat, s: nat): nat
  {
    Pow2(s + 1) * hi + Pow2(s) + lo
  }

  /** The set of depths 0..h assembled by `median_table` from a `k`-element
      set `hi` of depths above `s`, the depth `s`, and a set `lo` of `k` or
      `k + 1` depths below `s`, lies within the table and has median `s`. */
  lemma {:induction false} BlockEntry(hi: nat, lo: nat, s: nat, k: nat, h: nat)
    requires s <= h && IsSubset(hi, h - s, k)
    requires lo < Pow2(s) && (Cnt(lo, 0, s) == k || Cnt(lo, 0, s) == k + 1)
    ensures 0 < Slot(hi, lo, s) < Pow2(h + 1)
    ensures IsMedian(Slot(hi, lo, s), s, h)
  {
    var y := Slot(hi, lo, s);
    BoundBits(hi, h - s);
    forall j: nat
      ensures Has(y, j) <==> if j < s then Has(lo, j) else if j == s then true else Has(hi, j - (s + 1))
    {
      SlotBits(hi, lo, s, j);
    }
    BitsBound(y, h + 1);
    CntShift(y, lo, 0, s, 0);
    CntShift(y, hi, 0, h - s, s + 1);
    if y == 0 {
      HasZero(s);
    }
  }

  /** The bits of a slot: `lo` below `s`, the depth `s` itself, `hi` above. */
  lemma SlotBits(hi: nat, lo: nat, s: nat, j: nat)
    requires lo < Pow2(s)
    ensures Has(Slot(hi, lo, s), j) <==> if j < s then Has(lo, j) else if j == s then true else Has(hi, j - (s + 1))
  {
    var lo' := Pow2(s) * 1 + lo;
    assert Slot(hi, lo, s) == Pow2(s + 1) * hi + lo';
    HasPlace(hi, s + 1, lo', j);
    HasPlace(1, s, lo, j);
    if j == s {
      HasStep(0, 1, 0);
    }
  }

  /** Conversely, every set with median `s` and `k` members above it
      is assembled that way. */
  lemma BlockCover(x: nat, s: nat, h: nat)
    requires x < Pow2(h + 1) && IsMedian(x, s, h)
    ensures IsSubset(Shr(x, s + 1), h - s, Cnt(x, s + 1, h + 1))
    ensures IsSubset(Trunc(x, s), s, Cnt(x, 0, s))
    ensures x == Slot(Shr(x, s + 1), Trunc(x, s), s)
  {
    Decompose(x, s);
    BoundBits(x, h + 1);
    var hi := Shr(x, s + 1);
    forall j: nat
      ensures Has(hi, j) <==> Has(x, j + (s + 1))
    {
      HasShr(x, s + 1, j);
    }
    BitsBound(hi, h - s);
    CntShift(x, hi, 0, h - s, s + 1);
    forall j: nat
      ensures Has(Trunc(x, s), j) <==> j < s && Has(x, j)
    {
      HasTrunc(x, s, j);
    }
    CntShift(Trunc(x, s), x, 0, s, 0);
  }

  lemma {:induction false} PowSum(a: nat, b: nat)
    requires a >= 1 && b >= 1
    ensures Pow2(a) + Pow2(b) <= Pow2(a + b)
  {
    if a > 1 {
      PowSum(a - 1, b);
    } else {
      assert Pow2(b) >= 2 by {
        assert Pow2(b) == 2 * Pow2(b - 1);
      }
    }
  }

  /** The three enumerations of one round of `median_table` fit in `T`,
      which has `2^h + 1` entries. */
  lemma TableRoom(h: nat, s: nat, k: nat)
    requires s <= h
    ensures Binom(h - s, k) + Binom(s, k) + Binom(s, k + 1) <= Pow2(h) + 1
  {
    BinomPair(s, k);
    BinomPair(h - s, k);
    if h - s >= 1 && s >= 1 {
      PowSum(h - s, s);
    } else if s == 0 {
      assert h - s == h;
    }
  }

  /** Every entry written so far holds the median of its index. */
  ghost predicate Sound(m: seq<int>, h: nat)
  {
    forall x :: 0 <= x < |m| ==> m[x] == -1 || (m[x] >= 0 && IsMedian(x, m[x], h))
  }

  /** The rounds before round `(s, k)` of `median_table` handle the sets
      with a median below `s`, or median `s` and fewer than `k` members
      above it. */
  ghost predicate Done(x: nat, s: nat, k: nat, h: nat)
  {
    exists s': nat :: IsMedian(x, s', h) && (s' < s || (s' == s && Cnt(x, s' + 1, h + 1) < k))
  }

  ghost predicate Covered(m: seq<int>, s: nat, k: nat, h: nat)
  {
    forall x :: 0 < x < |m| && Done(x, s, k, h) ==> m[x] != -1
  }

  /** The innermost loop of `median_table`: for the fixed high part `T[i]`,
      writes `s` at every index assembled from one of the low parts `T[p..q]`. */
  method FillRow(median: array<int>, T: array<nat>, h: nat, s: nat, k: nat, i: nat, p: nat, q: nat)
    requires median.Length == Pow2(h + 1) && s <= h
    requires i < T.Length && p <= q <= T.Length
    requires IsSubset(T[i], h - s, k)
    requires forall j :: p <= j < q ==> T[j] < Pow2(s) && (Cnt(T[j], 0, s) == k || Cnt(T[j], 0, s) == k + 1)
    requires Sound(median[..], h)
    modifies median
    ensures Sound(median[..], h)
    ensures forall x :: 0 <= x < median.Length && old(median[x]) != -1 ==> median[x] != -1
    ensures forall j :: p <= j < q ==> Slot(T[i], T[j], s) < median.Length && median[Slot(T[i], T[j], s)] == s
  {
    var b := Pow2(s + 1) * T[i] + Pow2(s);
    var j := p;
    while j < q
      invariant p <= j <= q
      invariant Sound(median[..], h)
      invariant forall x :: 0 <= x < median.Length && old(median[x]) != -1 ==> median[x] != -1
      invariant forall j' :: p <= j' < j ==> Slot(T[i], T[j'], s) < median.Length && median[Slot(T[i], T[j'], s)] == s
    {
      BlockEntry(T[i], T[j], s, k, h);
      median[b + T[j]] := s;
      j := j + 1;
    }
  }

  /** The loop over `i` of `median_table`: every index assembled from a high
      part in `T[..p]` and a low part in `T[p..q]` gets `s`. */
  method FillBlock(median: array<int>, T: array<nat>, h: nat, s: nat, k: nat, p: nat, q: nat)
    requires median.Length == Pow2(h + 1) && s <= h
    requires p <= q <= T.Length
    requires forall i :: 0 <= i < p ==> IsSubset(T[i], h - s, k)
    requires forall j :: p <= j < q ==> T[j] < Pow2(s) && (Cnt(T[j], 0, s) == k || Cnt(T[j], 0, s) == k + 1)
    requires Sound(median[..], h)
    modifies median
    ensures Sound(median[..], h)
    ensures forall x :: 0 <= x < median.Length && old(median[x]) != -1 ==> median[x] != -1
    ensures forall i, j :: 0 <= i < p <= j < q ==> Slot(T[i], T[j], s) < median.Length && median[Slot(T[i], T[j], s)] != -1
  {
    var i := 0;
    while i < p
      invariant i <= p
      invariant Sound(median[..], h)
      invariant forall x :: 0 <= x < median.Length && old(median[x]) != -1 ==> median[x] != -1
      invariant forall i', j :: 0 <= i' < i && p <= j < q ==>
                  Slot(T[i'], T[j], s) < median.Length && median[Slot(T[i'], T[j], s)] != -1
    {
      FillRow(median, T, h, s, k, i, p, q);
      i := i + 1;
    }
  }

  /** `T` after the three calls of `subsets` in round `(s, k)`: the
      `k`-subsets of the `h - s` depths above `s` in `T[..p]`, then the `k`-
      and the `(k+1)`-subsets of the `s` depths below `s` in `T[p..q]`. */
  ghost predicate Layout(t: seq<nat>, h: nat, s: nat, k: nat, p: nat, q1: nat, q: nat)
  {
    && s <= h && q <= |t|
    && p == Binom(h - s, k) && q1 == p + Binom(s, k) && q == q1 + Binom(s, k + 1)
    && (forall i :: 0 <= i < p ==> t[i] == EnumAt(h - s, k, i))
    && (forall j :: p <= j < q1 ==> t[j] == EnumAt(s, k, j - p))
    && (forall j :: q1 <= j < q ==> t[j] == EnumAt(s, k + 1, j - q1))
  }

  lemma {:induction false} LayoutSound(t: seq<nat>, h: nat, s: nat, k: nat, p: nat, q1: nat, q: nat)
    requires Layout(t, h, s, k, p, q1, q)
    ensures forall i :: 0 <= i < p ==> IsSubset(t[i], h - s, k)
    ensures forall j :: p <= j < q ==> t[j] < Pow2(s) && (Cnt(t[j], 0, s) == k || Cnt(t[j], 0, s) == k + 1)
  {
    forall i | 0 <= i < p
      ensures IsSubset(t[i], h - s, k)
    {
      EnumSound(h - s, k, i);
    }
    forall j | p <= j < q
      ensures t[j] < Pow2(s) && (Cnt(t[j], 0, s) == k || Cnt(t[j], 0, s) == k + 1)
    {
      if j < q1 {
        EnumSound(s, k, j - p);
      } else {
        EnumSound(s, k + 1, j - q1);
      }
    }
  }

  /** After round `(s, k)` every set with median `s` and `k` members above
      it has an entry. */
  lemma CoverRound(m: seq<int>, t: seq<nat>, h: nat, s: nat, k: nat, p: nat, q1: nat, q: nat)
    requires |m| == Pow2(h + 1) && Layout(t, h, s, k, p, q1, q)
    requires Covered(m, s, k, h)
    requires forall i, j :: 0 <= i < p <= j < q ==> Slot(t[i], t[j], s) < |m| && m[Slot(t[i], t[j], s)] != -1
    ensures Covered(m, s, k + 1, h)
  {
    forall x | 0 < x < |m| && Done(x, s, k + 1, h)
      ensures m[x] != -1
    {
      if !Done(x, s, k, h) {
        var i, j := BlockIndex(t, h, s, k, p, q1, q, x);
      }
    }
  }

  /** Where round `(s, k)` writes a set with median `s` and `k` members above it. */
  lemma BlockIndex(t: seq<nat>, h: nat, s: nat, k: nat, p: nat, q1: nat, q: nat, x: nat) returns (i: nat, j: nat)
    requires Layout(t, h, s, k, p, q1, q)
    requires x < Pow2(h + 1) && Done(x, s, k + 1, h) && !Done(x, s, k, h)
    ensures i < p <= j < q && x == Slot(t[i], t[j], s)
  {
    var s': nat :| IsMedian(x, s', h) && (s' < s || (s' == s && Cnt(x, s' + 1, h + 1) < k + 1));
    assert s' == s && Cnt(x, s + 1, h + 1) == k;
    BlockCover(x, s, h);
    i := HighIndex(t, h, s, k, p, q1, q, Shr(x, s + 1));
    j := LowIndex(t, h, s, k, p, q1, q, Trunc(x, s), Cnt(x, 0, s));
  }

  lemma HighIndex(t: seq<nat>, h: nat, s: nat, k: nat, p: nat, q1: nat, q: nat, hi: nat) returns (i: nat)
    requires Layout(t, h, s, k, p, q1, q) && IsSubset(hi, h - s, k)
    ensures i < p && t[i] == hi
  {
    EnumComplete(h - s, k, hi);
    i :| 0 <= i < p && EnumAt(h - s, k, i) == hi;
  }

  lemma LowIndex(t: seq<nat>, h: nat, s: nat, k: nat, p: nat, q1: nat, q: nat, lo: nat, c: nat) returns (j: nat)
    requires Layout(t, h, s, k, p, q1, q) && IsSubset(lo, s, c) && (c == k || c == k + 1)
    ensures p <= j < q && t[j] == lo
  {
    EnumComplete(s, c, lo);
    if c == k {
      var j' :| 0 <= j' < Binom(s, k) && EnumAt(s, k, j') == lo;
      j := p + j';
    } else {
      var j' :| 0 <= j' < Binom(s, k + 1) && EnumAt(s, k + 1, j') == lo;
      j := q1 + j';
    }
  }

  /** What is covered before an entry gains a value stays covered. */
  lemma CoveredMono(a: seq<int>, b: seq<int>, s: nat, k: nat, h: nat)
    requires |a| == |b| && Covered(a, s, k, h)
    requires forall x :: 0 <= x < |a| && a[x] != -1 ==> b[x] != -1
    ensures Covered(b, s, k, h)
  {
  }

  /** Finishing the rounds for `s` reaches the first round for `s + 1`. */
  lemma CoverNext(m: seq<int>, s: nat, h: nat)
    requires Covered(m, s, s + 1, h)
    ensures Covered(m, s + 1, 0, h)
  {
    var s1 := s + 1;
    forall x | 0 < x < |m| && Done(x, s1, 0, h)
      ensures Done(x, s, s1, h)
    {
      var s': nat :| IsMedian(x, s', h) && s' < s1;
      if s' == s {
        CntSplit(x, 0, s, h + 1);
        CntSplit(x, s, s + 1, h + 1);
        CntLe(x, 0, s);
      }
    }
  }

  /** One round `(s, k)` of `median_table`: enumerate the high and the
      low parts into `T` and write `s` at every index they assemble. */
  method MedianRound(median: array<int>, T: array<nat>, h: nat, s: nat, k: nat)
    requires median.Length == Pow2(h + 1) && T.Length == Pow2(h) + 1 && s <= h
    requires Sound(median[..], h) && Covered(median[..], s, k, h)
    modifies median, T
    ensures Sound(median[..], h) && Covered(median[..], s, k + 1, h)
  {
    TableRoom(h, s, k);
    var p := Subsets(h - s, k, 0, T);
    var q1 := Subsets(s, k, p, T);
    var q := Subsets(s, k + 1, q1, T);
    assert Layout(T[..], h, s, k, p, q1, q);
    LayoutSound(T[..], h, s, k, p, q1, q);
    ghost var before := median[..];
    FillBlock(median, T, h, s, k, p, q);
    CoveredMono(before, median[..], s, k, h);
    CoverRound(median[..], T[..], h, s, k, p, q1, q);
  }

  /** `median_table(h)`: a table of `2^(h+1)` entries holding, at every
      non-empty set `x` of depths 0..h, the median of `x`, and -1 at 0.
      `h` is small enough for `1 << (h+1)` to be a positive `int`. */
  method MedianTable(h: nat) returns (median: array<int>)
    requires h + 2 < Width
    ensures median.Length == Pow2(h + 1)
    ensures median[0] == -1
    ensures forall x :: 0 < x < median.Length ==> median[x] >= 0 && IsMedian(x, median[x], h)
  {
    var T := new nat[Pow2(h) + 1];
    median := new int[Pow2(h + 1)](_ => -1);
    var s := 0;
    while s <= h
      invariant s <= h + 1
      invariant Sound(median[..], h)
      invariant Covered(median[..], s, 0, h)
    {
      var k := 0;
      while k <= s
        invariant k <= s + 1
        invariant Sound(median[..], h)
        invariant Covered(median[..], s, k, h)
      {
        MedianRound(median, T, h, s, k);
        k := k + 1;
      }
      CoverNext(median[..], s, h);
      s := s + 1;
    }
    forall x | 0 < x < median.Length
      ensures median[x] >= 0 && IsMedian(x, median[x], h)
    {
      MedianExists(x, h);
      assert Done(x, h + 1, 0, h);
    }
    if median[0] != -1 {
      HasZero(median[0]);
    }
  }
}
