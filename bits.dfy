/**
 * Machine words as the bit sets of verification.cpp use them.  A word is a
 * natural number below 2^32; bit `j` is `Has(x, j)`.  The bitwise operators
 * are defined bit by bit (by halving), `~` is the complement of the low 32
 * bits, and `+` wraps modulo 2^32 as two's complement addition does.
 */
module Words {

  /** Number of bits in a word (a C++ `int`). */
  const Width: nat := 32

  function Pow2(n: nat): (r: nat)
    ensures r >= 1
  {
    if n == 0 then 1 else 2 * Pow2(n - 1)
  }

  /** Bit `j` of `x` is set. */
  predicate Has(x: nat, j: nat)
  {
    if j == 0 then x % 2 == 1 else Has(x / 2, j - 1)
  }

  /** `x & y` */
  function And(x: nat, y: nat): nat
  {
    if x == 0 || y == 0 then 0
    else 2 * And(x / 2, y / 2) + (if x % 2 == 1 && y % 2 == 1 then 1 else 0)
  }

  /** `x | y` */
  function Or(x: nat, y: nat): nat
    decreases x + y
  {
    if x == 0 then y
    else if y == 0 then x
    else 2 * Or(x / 2, y / 2) + (if x % 2 == 1 || y % 2 == 1 then 1 else 0)
  }

  /** `x ^ y` */
  function Xor(x: nat, y: nat): nat
    decreases x + y
  {
    if x == 0 then y
    else if y == 0 then x
    else 2 * Xor(x / 2, y / 2) + (if (x % 2 == 1) != (y % 2 == 1) then 1 else 0)
  }

  /** The low `w` bits of `~x`. */
  function Comp(x: nat, w: nat): nat
  {
    if w == 0 then 0 else 2 * Comp(x / 2, w - 1) + (if x % 2 == 1 then 0 else 1)
  }

  /** `~x` on a word. */
  function Not(x: nat): nat
  {
    Comp(x, Width)
  }

  /** The low `n` bits of `x`. */
  function Trunc(x: nat, n: nat): nat
  {
    if n == 0 then 0 else 2 * Trunc(x / 2, n - 1) + x % 2
  }

  /** `x + y` on words, wrapping around. */
  function Add(x: nat, y: nat): nat
  {
    Trunc(x + y, Width)
  }

  /** `1 << n`, the singleton set {n}. */
  function Single(n: nat): nat
  {
    Pow2(n)
  }

  /** `(1 << n) - 1`, the set {0, ..., n-1}. */
  function LowMask(n: nat): nat
  {
    Pow2(n) - 1
  }

  // ---------------------------------------------------------------------
  // Bits of the operators

  lemma HasStep(q: nat, b: nat, j: nat)
    requires b < 2
    ensures Has(2 * q + b, 0) <==> b == 1
    ensures Has(2 * q + b, j + 1) <==> Has(q, j)
  {
    assert (2 * q + b) / 2 == q;
  }

  lemma {:induction false} HasZero(j: nat)
    ensures !Has(0, j)
  {
    if j > 0 {
      HasZero(j - 1);
    }
  }

  lemma {:induction false} HasAnd(x: nat, y: nat, j: nat)
    ensures Has(And(x, y), j) <==> Has(x, j) && Has(y, j)
    decreases x
  {
    if x == 0 || y == 0 {
      HasZero(j);
    } else {
      var b := if x % 2 == 1 && y % 2 == 1 then 1 else 0;
      HasStep(And(x / 2, y / 2), b, if j == 0 then 0 else j - 1);
      if j > 0 {
        HasAnd(x / 2, y / 2, j - 1);
      }
    }
  }

  lemma {:induction false} HasOr(x: nat, y: nat, j: nat)
    ensures Has(Or(x, y), j) <==> Has(x, j) || Has(y, j)
    decreases x + y
  {
    if x == 0 || y == 0 {
      HasZero(j);
    } else {
      var b := if x % 2 == 1 || y % 2 == 1 then 1 else 0;
      HasStep(Or(x / 2, y / 2), b, if j == 0 then 0 else j - 1);
      if j > 0 {
        HasOr(x / 2, y / 2, j - 1);
      }
    }
  }

  lemma {:induction false} HasXor(x: nat, y: nat, j: nat)
    ensures Has(Xor(x, y), j) <==> Has(x, j) != Has(y, j)
    decreases x + y
  {
    if x == 0 || y == 0 {
      HasZero(j);
    } else {
      var b := if (x % 2 == 1) != (y % 2 == 1) then 1 else 0;
      HasStep(Xor(x / 2, y / 2), b, if j == 0 then 0 else j - 1);
      if j > 0 {
        HasXor(x / 2, y / 2, j - 1);
      }
    }
  }

  lemma {:induction false} HasComp(x: nat, w: nat, j: nat)
    ensures Has(Comp(x, w), j) <==> j < w && !Has(x, j)
  {
    if w == 0 {
      HasZero(j);
    } else {
      var b := if x % 2 == 1 then 0 else 1;
      HasStep(Comp(x / 2, w - 1), b, if j == 0 then 0 else j - 1);
      if j > 0 {
        HasComp(x / 2, w - 1, j - 1);
      }
    }
  }

  lemma HasNot(x: nat, j: nat)
    ensures Has(Not(x), j) <==> j < Width && !Has(x, j)
  {
    HasComp(x, Width, j);
  }

  lemma {:induction false} HasSingle(n: nat, j: nat)
    ensures Has(Single(n), j) <==> j == n
  {
    if n == 0 {
      HasStep(0, 1, if j == 0 then 0 else j - 1);
      if j > 0 {
        HasZero(j - 1);
      }
    } else {
      HasStep(Pow2(n - 1), 0, if j == 0 then 0 else j - 1);
      if j > 0 {
        HasSingle(n - 1, j - 1);
      }
    }
  }

  lemma {:induction false} HasLowMask(n: nat, j: nat)
    ensures Has(LowMask(n), j) <==> j < n
  {
    if n == 0 {
      HasZero(j);
    } else {
      HasStep(LowMask(n - 1), 1, if j == 0 then 0 else j - 1);
      if j > 0 {
        HasLowMask(n - 1, j - 1);
      }
    }
  }

  /** Words with the same bits are equal. */
  lemma {:induction false} Ext(x: nat, y: nat)
    requires forall j: nat :: Has(x, j) <==> Has(y, j)
    ensures x == y
    decreases x + y
  {
    if x != 0 || y != 0 {
      assert Has(x, 0) <==> Has(y, 0);
      forall j: nat
        ensures Has(x / 2, j) <==> Has(y / 2, j)
      {
        assert Has(x, j + 1) <==> Has(y, j + 1);
      }
      Ext(x / 2, y / 2);
    }
  }

  /** A word below `2^n` has no bit at or above `n`. */
  lemma {:induction false} BoundBits(x: nat, n: nat)
    requires x < Pow2(n)
    ensures forall j: nat :: n <= j ==> !Has(x, j)
  {
    if n == 0 {
      forall j: nat
        ensures !Has(x, j)
      {
        HasZero(j);
      }
    } else {
      BoundBits(x / 2, n - 1);
      forall j: nat | n <= j
        ensures !Has(x, j)
      {
        assert !Has(x / 2, j - 1);
      }
    }
  }

  /** A word with no bit at or above `n` is below `2^n`. */
  lemma {:induction false} BitsBound(x: nat, n: nat)
    requires forall j: nat :: n <= j ==> !Has(x, j)
    ensures x < Pow2(n)
  {
    if n == 0 {
      if x != 0 {
        NonZero(x);
      }
    } else {
      forall j: nat | n - 1 <= j
        ensures !Has(x / 2, j)
      {
        assert !Has(x, j + 1);
      }
      BitsBound(x / 2, n - 1);
    }
  }

  /** A non-zero word has a set bit. */
  lemma {:induction false} NonZero(x: nat)
    requires x != 0
    ensures exists j: nat :: Has(x, j)
    decreases x
  {
    if x % 2 == 1 {
      assert Has(x, 0);
    } else {
      NonZero(x / 2);
      var j: nat :| Has(x / 2, j);
      assert Has(x, j + 1);
    }
  }

  /** Bit `j` of the low `n` bits of `x` is bit `j` of `x` when `j < n`, and clear otherwise. */
  lemma {:induction false} HasTrunc(x: nat, n: nat, j: nat)
    ensures Has(Trunc(x, n), j) <==> j < n && Has(x, j)
  {
    if n == 0 {
      HasZero(j);
    } else {
      HasStep(Trunc(x / 2, n - 1), x % 2, if j == 0 then 0 else j - 1);
      if j > 0 {
        HasTrunc(x / 2, n - 1, j - 1);
      }
    }
  }

  // ---------------------------------------------------------------------
  // Addition, bit by bit

  /** Three-way majority, the carry out of a full adder. */
  predicate Maj(a: bool, b: bool, c: bool)
  {
    (a && b) || (a && c) || (b && c)
  }

  /** The carry into bit `t` of `x + y + c` (for a carry-in `c` of 0 or 1). */
  predicate Carry(x: nat, y: nat, c: nat, t: nat)
  {
    if t == 0 then c == 1 else Maj(Has(x, t - 1), Has(y, t - 1), Carry(x, y, c, t - 1))
  }

  /** The carry out of the lowest bit of `x + y + c`. */
  function CarryOut(x: nat, y: nat, c: nat): nat
  {
    if Maj(x % 2 == 1, y % 2 == 1, c == 1) then 1 else 0
  }

  lemma {:induction false} CarryHalf(x: nat, y: nat, c: nat, t: nat)
    ensures Carry(x, y, c, t + 1) <==> Carry(x / 2, y / 2, CarryOut(x, y, c), t)
  {
    if t > 0 {
      CarryHalf(x, y, c, t - 1);
      assert Has(x, t) <==> Has(x / 2, t - 1);
      assert Has(y, t) <==> Has(y / 2, t - 1);
    }
  }

  /** Bit `t` of a sum is the parity of the two bits and the carry into `t`. */
  lemma {:induction false} SumBit(x: nat, y: nat, c: nat, t: nat)
    requires c < 2
    ensures Has(x + y + c, t) <==> ((Has(x, t) != Has(y, t)) != Carry(x, y, c, t))
    decreases t
  {
    var c' := CarryOut(x, y, c);
    var s' := x / 2 + y / 2 + c';
    assert x + y + c == 2 * s' + (x + y + c) % 2;
    HasStep(s', (x + y + c) % 2, if t == 0 then 0 else t - 1);
    if t > 0 {
      SumBit(x / 2, y / 2, c', t - 1);
      CarryHalf(x, y, c, t - 1);
    }
  }

  lemma AddBit(x: nat, y: nat, t: nat)
    ensures Has(Add(x, y), t) <==> t < Width && ((Has(x, t) != Has(y, t)) != Carry(x, y, 0, t))
  {
    HasTrunc(x + y, Width, t);
    SumBit(x, y, 0, t);
  }

  // ---------------------------------------------------------------------
  // Hagerup's "A down-arrow B"

  /** `t` is the successor of `a` in `B`: the least member of `B` above `a`. */
  predicate IsNext(B: nat, a: nat, t: nat)
  {
    a < t && Has(B, t) && forall x: nat :: a < x < t ==> !Has(B, x)
  }

  /** `down(A, B)` of verification.cpp: `B & (~(A|B) ^ (A + (A|~B)))`. */
  function Down(A: nat, B: nat): nat
  {
    And(B, Xor(Not(Or(A, B)), Add(A, Or(A, Not(B)))))
  }

  /** Some member of `A` lies below `t` with no member of `B` strictly
      between it and `t`. */
  predicate Reaches(A: nat, B: nat, t: nat)
  {
    exists a: nat :: a < t && Has(A, a) && forall x: nat :: a < x < t ==> !Has(B, x)
  }

  /** The carry into bit `t` of `A + (A|~B)` is `Reaches(A, B, t)`. */
  lemma {:induction false} DownCarry(A: nat, B: nat, t: nat)
    requires t <= Width
    ensures Carry(A, Or(A, Not(B)), 0, t) <==> Reaches(A, B, t)
  {
    if t > 0 {
      var s := t - 1;
      DownCarry(A, B, s);
      HasOr(A, Not(B), s);
      HasNot(B, s);
      if Carry(A, Or(A, Not(B)), 0, t) {
        if Has(A, s) {
          assert s < t && Has(A, s) && forall x: nat :: s < x < t ==> !Has(B, x);
        } else {
          var a: nat :| a < s && Has(A, a) && forall x: nat :: a < x < s ==> !Has(B, x);
          assert a < t && Has(A, a) && forall x: nat :: a < x < t ==> !Has(B, x);
        }
      } else {
        forall a: nat | a < t && Has(A, a)
          ensures exists x: nat :: a < x < t && Has(B, x)
        {
          assert a != s;
          if Has(B, s) {
            assert a < s < t && Has(B, s);
          } else {
            assert !Reaches(A, B, s);
            assert !forall x: nat :: a < x < s ==> !Has(B, x);
          }
        }
      }
    }
  }

  /** Bit `t` of `down(A, B)` is bit `t` of `B` and the carry into `t`. */
  lemma DownBit(A: nat, B: nat, t: nat)
    ensures Has(Down(A, B), t) <==> t < Width && Has(B, t) && Carry(A, Or(A, Not(B)), 0, t)
  {
    var ab := Or(A, Not(B));
    HasAnd(B, Xor(Not(Or(A, B)), Add(A, ab)), t);
    HasXor(Not(Or(A, B)), Add(A, ab), t);
    HasNot(Or(A, B), t);
    HasOr(A, B, t);
    AddBit(A, ab, t);
    HasOr(A, Not(B), t);
    HasNot(B, t);
  }

  /** The members of `down(A, B)` are exactly the successors in `B` of the
      members of `A`, below the word width. */
  lemma DownSpec(A: nat, B: nat, t: nat)
    ensures Has(Down(A, B), t) <==> t < Width && exists a: nat :: Has(A, a) && IsNext(B, a, t)
  {
    DownBit(A, B, t);
    if t < Width {
      DownCarry(A, B, t);
      if Has(B, t) && Reaches(A, B, t) {
        var a: nat :| a < t && Has(A, a) && forall x: nat :: a < x < t ==> !Has(B, x);
        assert Has(A, a) && IsNext(B, a, t);
      }
    }
  }

  /** `down(A, B)` is a subset of `B`. */
  lemma DownSubset(A: nat, B: nat, t: nat)
    ensures Has(Down(A, B), t) ==> Has(B, t)
  {
    DownBit(A, B, t);
  }

  /** `down(0, B)` is empty. */
  lemma DownEmpty(B: nat)
    ensures Down(0, B) == 0
  {
    forall a: nat
      ensures !Has(0, a)
    {
      HasZero(a);
    }
    forall t: nat
      ensures Has(Down(0, B), t) <==> Has(0, t)
    {
      DownSpec(0, B, t);
    }
    Ext(Down(0, B), 0);
  }

  /** Successors in `B` of members of `A` are kept by `down(A, B)`: the
      successor of `a` in `B` is also its successor in `down(A, B)`. */
  lemma DownNext(A: nat, B: nat, a: nat, t: nat)
    requires Has(A, a) && IsNext(B, a, t) && t < Width
    ensures IsNext(Down(A, B), a, t)
  {
    DownSpec(A, B, t);
    forall x: nat | a < x < t
      ensures !Has(Down(A, B), x)
    {
      DownSubset(A, B, x);
    }
  }

  /** `down({a}, B)` is the singleton of the successor of `a` in `B`. */
  lemma DownSingle(B: nat, a: nat, t: nat)
    requires IsNext(B, a, t) && t < Width
    ensures Down(Single(a), B) == Single(t)
  {
    forall x: nat
      ensures Has(Down(Single(a), B), x) <==> Has(Single(t), x)
    {
      DownSpec(Single(a), B, x);
      HasSingle(t, x);
      HasSingle(a, a);
      if Has(Down(Single(a), B), x) {
        var a': nat :| Has(Single(a), a') && IsNext(B, a', x);
        HasSingle(a, a');
        NextUnique(B, a, t, x);
      } else {
        assert Has(Single(a), a) && IsNext(B, a, t);
      }
    }
    Ext(Down(Single(a), B), Single(t));
  }

  lemma NextUnique(B: nat, a: nat, t: nat, t': nat)
    requires IsNext(B, a, t) && IsNext(B, a, t')
    ensures t == t'
  {
  }

  /** `x & y` is at most `x`: masking never grows a word. */
  lemma {:induction false} AndLe(x: nat, y: nat)
    ensures And(x, y) <= x
  {
    if x != 0 && y != 0 {
      AndLe(x / 2, y / 2);
    }
  }

  /** The bits of `2^n * x + y`, for `y < 2^n`: those of `y` below `n`, and
      those of `x` shifted up by `n`. */
  lemma {:induction false} HasPlace(x: nat, n: nat, y: nat, j: nat)
    requires y < Pow2(n)
    ensures Has(Pow2(n) * x + y, j) <==> if j < n then Has(y, j) else Has(x, j - n)
  {
    if n > 0 {
      var z := Pow2(n - 1) * x + y / 2;
      assert Pow2(n) * x + y == 2 * z + y % 2;
      HasStep(z, y % 2, if j == 0 then 0 else j - 1);
      HasStep(y / 2, y % 2, if j == 0 then 0 else j - 1);
      assert y == 2 * (y / 2) + y % 2;
      if j > 0 {
        HasPlace(x, n - 1, y / 2, j - 1);
      }
    }
  }

  /** `x >> n` */
  function Shr(x: nat, n: nat): nat
  {
    if n == 0 then x else Shr(x / 2, n - 1)
  }

  lemma {:induction false} HasShr(x: nat, n: nat, j: nat)
    ensures Has(Shr(x, n), j) <==> Has(x, j + n)
  {
    if n > 0 {
      HasShr(x / 2, n - 1, j);
    }
  }
}
