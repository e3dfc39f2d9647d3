/** Bits of natural numbers, least significant first, and the two bitwise
    operations the allocator applies to a bitmap byte: `b | 1 << i` and
    `b & ~(1 << i)`. */
module Bits {
  import opened Outcomes
  import opened Bytes
  import opened Layout

  function Pow2(i: nat): (r: nat)
    ensures r >= 1
  {
    if i == 0 then 1 else 2 * Pow2(i - 1)
  }

  /** Bit `i` of `x` is set. */
  predicate Bit(x: nat, i: nat)
  {
    if i == 0 then x % 2 == 1 else Bit(x / 2, i - 1)
  }

  /** Python's `a | b` on non-negative integers. */
  function Or(a: nat, b: nat): nat
  {
    if a == 0 && b == 0 then 0
    else (if a % 2 == 1 || b % 2 == 1 then 1 else 0) + 2 * Or(a / 2, b / 2)
  }

  /** Python's `a & ~m` on non-negative integers. */
  function AndNot(a: nat, m: nat): nat
  {
    if a == 0 then 0
    else (if a % 2 == 1 && m % 2 == 0 then 1 else 0) + 2 * AndNot(a / 2, m / 2)
  }

  lemma {:induction false} ZeroBits(j: nat)
    ensures !Bit(0, j)
  {
    if j > 0 {
      ZeroBits(j - 1);
    }
  }

  lemma {:induction false} OrBits(a: nat, b: nat, j: nat)
    ensures Bit(Or(a, b), j) <==> Bit(a, j) || Bit(b, j)
  {
    if a == 0 && b == 0 {
      ZeroBits(j);
    } else if j > 0 {
      OrBits(a / 2, b / 2, j - 1);
    }
  }

  lemma {:induction false} AndNotBits(a: nat, m: nat, j: nat)
    ensures Bit(AndNot(a, m), j) <==> Bit(a, j) && !Bit(m, j)
  {
    if a == 0 {
      ZeroBits(j);
    } else if j > 0 {
      AndNotBits(a / 2, m / 2, j - 1);
    }
  }

  /** `1 << i` has exactly bit `i` set. */
  lemma {:induction false} Pow2Bits(i: nat, j: nat)
    ensures Bit(Pow2(i), j) <==> i == j
  {
    if i == 0 {
      if j > 0 {
        ZeroBits(j - 1);
      }
    } else if j > 0 {
      Pow2Bits(i - 1, j - 1);
    }
  }

  lemma {:induction false} OrBound(a: nat, b: nat, n: nat)
    requires a < Pow2(n) && b < Pow2(n)
    ensures Or(a, b) < Pow2(n)
  {
    if a != 0 || b != 0 {
      OrBound(a / 2, b / 2, n - 1);
    }
  }

  lemma {:induction false} AndNotBound(a: nat, m: nat)
    ensures AndNot(a, m) <= a
  {
    if a != 0 {
      AndNotBound(a / 2, m / 2);
    }
  }

  /** Two numbers below `2^n` with the same `n` low bits are equal. */
  lemma {:induction false} BitsDetermine(x: nat, y: nat, n: nat)
    requires x < Pow2(n) && y < Pow2(n)
    requires forall j :: 0 <= j < n ==> (Bit(x, j) <==> Bit(y, j))
    ensures x == y
  {
    if n > 0 {
      assert Bit(x, 0) <==> Bit(y, 0);
      forall j | 0 <= j < n - 1
        ensures Bit(x / 2, j) <==> Bit(y / 2, j)
      {
        assert Bit(x, j + 1) <==> Bit(y, j + 1);
      }
      BitsDetermine(x / 2, y / 2, n - 1);
    }
  }

  /** `2^n - 1` has its `n` low bits set. */
  lemma {:induction false} LowOnes(n: nat, j: nat)
    requires j < n
    ensures Bit(Pow2(n) - 1, j)
  {
    if j > 0 {
      assert (Pow2(n) - 1) / 2 == Pow2(n - 1) - 1;
      LowOnes(n - 1, j - 1);
    }
  }

  /** 0xFF has its eight low bits set. */
  lemma FullByteBits()
    ensures forall j: nat :: j < 8 ==> Bit(255, j)
  {
    forall j: nat | j < 8
      ensures Bit(255, j)
    {
      LowOnes(8, j);
      assert Pow2(8) - 1 == 255;
    }
  }

  /** A byte is 0xFF exactly when all eight of its bits are set. */
  lemma FullByte(b: byte)
    ensures b == 255 ==> forall j: nat :: j < 8 ==> Bit(b, j)
    ensures (forall j: nat :: j < 8 ==> Bit(b, j)) ==> b == 255
  {
    FullByteBits();
    assert Pow2(8) == 256;
    if forall j: nat :: j < 8 ==> Bit(b, j) {
      BitsDetermine(b, 255, 8);
    }
  }

  /** `b | 1 << i` on a byte. */
  function SetBit(b: byte, i: nat): (r: byte)
    requires i < 8
    ensures forall j :: Bit(r, j) <==> j == i || Bit(b, j)
  {
    assert Pow2(8) == 256 && Pow2(i) <= Pow2(8) by {
      Pow2Monotone(i, 8);
    }
    OrBound(b, Pow2(i), 8);
    forall j
      ensures Bit(Or(b, Pow2(i)), j) <==> j == i || Bit(b, j)
    {
      OrBits(b, Pow2(i), j);
      Pow2Bits(i, j);
    }
    Or(b, Pow2(i))
  }

  /** `b & ~(1 << i)` on a byte. */
  function ClearBit(b: byte, i: nat): (r: byte)
    requires i < 8
    ensures forall j :: Bit(r, j) <==> j != i && Bit(b, j)
  {
    AndNotBound(b, Pow2(i));
    forall j
      ensures Bit(AndNot(b, Pow2(i)), j) <==> j != i && Bit(b, j)
    {
      AndNotBits(b, Pow2(i), j);
      Pow2Bits(i, j);
    }
    AndNot(b, Pow2(i))
  }

  lemma {:induction false} Pow2Monotone(i: nat, j: nat)
    requires i <= j
    ensures Pow2(i) <= Pow2(j)
  {
    if i < j {
      Pow2Monotone(i, j - 1);
    }
  }

  /** Setting a bit that is already set changes nothing. */
  lemma SetBitIdempotent(b: byte, i: nat)
    requires i < 8
    ensures SetBit(SetBit(b, i), i) == SetBit(b, i)
  {
    assert Pow2(8) == 256;
    BitsDetermine(SetBit(SetBit(b, i), i), SetBit(b, i), 8);
  }

  /** Clearing a bit that is already clear changes nothing. */
  lemma ClearBitIdempotent(b: byte, i: nat)
    requires i < 8
    ensures ClearBit(ClearBit(b, i), i) == ClearBit(b, i)
  {
    assert Pow2(8) == 256;
    BitsDetermine(ClearBit(ClearBit(b, i), i), ClearBit(b, i), 8);
  }

  /** Clearing a bit that setting it turned on gives the byte back exactly
      when the bit was clear to begin with. */
  lemma ClearUndoesSet(b: byte, i: nat)
    requires i < 8
    ensures ClearBit(SetBit(b, i), i) == b <==> !Bit(b, i)
  {
    assert Pow2(8) == 256;
    if !Bit(b, i) {
      BitsDetermine(ClearBit(SetBit(b, i), i), b, 8);
    }
  }

  /** The loop of `find_first_clear`: how many low bits are set before the
      first clear one. */
  function TrailingOnes(b: nat): (r: nat)
    ensures !Bit(b, r)
    ensures forall j :: 0 <= j < r ==> Bit(b, j)
  {
    if b % 2 == 1 then
      var r := 1 + TrailingOnes(b / 2);
      assert forall j :: 0 <= j < r - 1 ==> Bit(b / 2, j);
      r
    else 0
  }

  /** `find_first_clear(byte)`: the lowest clear bit of a byte, or `None` for
      0xFF. */
  function FindFirstClear(b: byte): (r: Option<nat>)
    ensures r.None? <==> b == 255
    ensures r.Some? ==> r.value < 8 && !Bit(b, r.value)
    ensures r.Some? ==> forall j :: 0 <= j < r.value ==> Bit(b, j)
  {
    FullByte(b);
    if b == 255 then None else Some(TrailingOnes(b))
  }
  /** Bit `k + 8` of `x` is bit `k` of `x >> 8`. */
  lemma ShiftByte(x: nat, k: nat)
    ensures Bit(x, k + 8) <==> Bit(x / 256, k)
  {
    assert Bit(x, k + 8) <==> Bit(x / 2, k + 7);
    assert Bit(x / 2, k + 7) <==> Bit(x / 4, k + 6);
    assert Bit(x / 4, k + 6) <==> Bit(x / 8, k + 5);
    assert Bit(x / 8, k + 5) <==> Bit(x / 16, k + 4);
    assert Bit(x / 16, k + 4) <==> Bit(x / 32, k + 3);
    assert Bit(x / 32, k + 3) <==> Bit(x / 64, k + 2);
    assert Bit(x / 64, k + 2) <==> Bit(x / 128, k + 1);
    assert Bit(x / 128, k + 1) <==> Bit(x / 256, k);
  }

  /** The `m` low bits of `x` are those of `x % 2^m`. */
  lemma {:induction false} LowBits(x: nat, m: nat, t: nat)
    requires t < m
    ensures Bit(x % Pow2(m), t) <==> Bit(x, t)
  {
    var p := Pow2(m - 1);
    var h := x / 2;
    DivModUnique(2 * p, x / (2 * p), x % (2 * p), h / p, 2 * (h % p) + x % 2);
    assert x % Pow2(m) == 2 * (h % p) + x % 2;
    if t > 0 {
      assert (x % Pow2(m)) / 2 == h % p;
      LowBits(h, m - 1, t - 1);
    }
  }

  /** Bit `t` of a number is bit `t % 8` of byte `t / 8` of its
      little-endian encoding. */
  lemma {:induction false} EncodedBits(v: nat, w: nat, t: nat)
    requires v < Pow256(w) && t < 8 * w
    ensures Bit(ToLE(v, w)[t / 8], t % 8) <==> Bit(v, t)
  {
    assert Pow2(8) == 256;
    if t < 8 {
      LowBits(v, 8, t);
    } else {
      EncodedBits(v / 256, w - 1, t - 8);
      assert ToLE(v, w)[t / 8] == ToLE(v / 256, w - 1)[(t - 8) / 8];
      ShiftByte(v, t - 8);
    }
  }
}
