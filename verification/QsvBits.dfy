/** Basis-state indices as binary numbers: the shifts, masks and strides of the
    state-vector engine, defined bit by bit so that facts about them are inductions. */
module QsvBits {
  import opened Bytes

  function Pow2(n: nat): (p: nat)
    ensures p > 0
  {
    if n == 0 then 1 else 2 * Pow2(n - 1)
  }

  /** (k >> q) & 1 */
  function Bit(k: nat, q: nat): (b: nat)
    ensures b < 2
  {
    if q == 0 then k % 2 else Bit(k / 2, q - 1)
  }

  /** The butterfly partner of k on qubit q: k ^ (1 << q). */
  function Flip(k: nat, q: nat): nat {
    if q == 0 then (if k % 2 == 0 then k + 1 else k - 1)
    else 2 * Flip(k / 2, q - 1) + k % 2
  }

  /** The partner is one stride above an index whose bit is clear and one stride below otherwise. */
  lemma {:induction false} FlipStride(k: nat, q: nat)
    ensures Bit(k, q) == 0 ==> Flip(k, q) == k + Pow2(q)
    ensures Bit(k, q) == 1 ==> k >= Pow2(q) && Flip(k, q) == k - Pow2(q)
  {
    if q > 0 { FlipStride(k / 2, q - 1); }
  }

  lemma {:induction false} FlipFlip(k: nat, q: nat)
    ensures Flip(Flip(k, q), q) == k
    ensures Bit(Flip(k, q), q) == 1 - Bit(k, q)
  {
    if q > 0 { FlipFlip(k / 2, q - 1); }
  }

  lemma {:induction false} FlipBound(k: nat, q: nat, n: nat)
    requires q < n && k < Pow2(n)
    ensures Flip(k, q) < Pow2(n)
  {
    if q > 0 { FlipBound(k / 2, q - 1, n - 1); }
  }

  lemma FlipHalves(k: nat, q: nat)
    ensures Flip(k, q) / 2 == if q == 0 then k / 2 else Flip(k / 2, q - 1)
    ensures Flip(k, q) % 2 == if q == 0 then 1 - k % 2 else k % 2
  {
  }

  lemma HalvesDetermine(a: nat, b: nat)
    requires a / 2 == b / 2 && a % 2 == b % 2
    ensures a == b
  {
  }

  lemma BitHalf(k: nat, q: nat)
    ensures Bit(k, q) == if q == 0 then k % 2 else Bit(k / 2, q - 1)
  {
  }

  lemma {:induction false} FlipOther(k: nat, p: nat, q: nat)
    requires p != q
    ensures Bit(Flip(k, p), q) == Bit(k, q)
    ensures Flip(Flip(k, p), q) == Flip(Flip(k, q), p)
  {
    hide Flip, Bit;
    FlipHalves(k, p);
    FlipHalves(k, q);
    FlipHalves(Flip(k, p), q);
    FlipHalves(Flip(k, q), p);
    BitHalf(k, q);
    BitHalf(Flip(k, p), q);
    if p > 0 && q > 0 { FlipOther(k / 2, p - 1, q - 1); }
    HalvesDetermine(Flip(Flip(k, p), q), Flip(Flip(k, q), p));
  }

  lemma {:induction false} BitsDetermine(a: nat, b: nat, n: nat)
    requires a < Pow2(n) && b < Pow2(n)
    requires forall q: nat | q < n :: Bit(a, q) == Bit(b, q)
    ensures a == b
  {
    if n > 0 {
      assert Bit(a, 0) == Bit(b, 0);
      forall q: nat | q < n - 1 ensures Bit(a / 2, q) == Bit(b / 2, q) {
        assert Bit(a, q + 1) == Bit(b, q + 1);
      }
      BitsDetermine(a / 2, b / 2, n - 1);
    }
  }

  lemma DivTwice(k: nat, p: nat)
    requires p > 0
    ensures (k / 2) / p == k / (2 * p)
  {
    var h, q := k / 2, (k / 2) / p;
    assert h == q * p + h % p;
    ModUnique(k, 2 * p, q, 2 * (h % p) + k % 2);
  }

  /** Bit q has the weight 2^q. */
  lemma {:induction false} BitIs(k: nat, q: nat)
    ensures Bit(k, q) == k / Pow2(q) % 2
  {
    if q > 0 {
      BitIs(k / 2, q - 1);
      DivTwice(k, Pow2(q - 1));
    }
  }

  /** Where the m-th block of a strided loop over qubit q starts: m * 2^(q+1). */
  function BlockBase(m: nat, q: nat): nat {
    if m == 0 then 0 else BlockBase(m - 1, q) + 2 * Pow2(q)
  }

  lemma {:induction false} BlockHalve(m: nat, q: nat)
    requires q > 0
    ensures BlockBase(m, q) == 2 * BlockBase(m, q - 1)
  {
    if m > 0 { BlockHalve(m - 1, q); }
  }

  /** Within a block the lower half has bit q clear and the upper half has it set. */
  lemma {:induction false} BlockBits(m: nat, j: nat, q: nat)
    requires j < 2 * Pow2(q)
    ensures Bit(BlockBase(m, q) + j, q) == (if j < Pow2(q) then 0 else 1)
    decreases q
  {
    if q == 0 {
      BlockOdd(m);
      assert (BlockBase(m, 0) + j) % 2 == j;
    } else {
      BlockHalve(m, q);
      assert (BlockBase(m, q) + j) / 2 == BlockBase(m, q - 1) + j / 2;
      BlockBits(m, j / 2, q - 1);
    }
  }

  lemma {:induction false} BlockOdd(m: nat)
    ensures BlockBase(m, 0) == 2 * m
  {
    if m > 0 { BlockOdd(m - 1); }
  }

  /** The register is a whole number of blocks. */
  lemma {:induction false} Blocks(n: nat, q: nat)
    requires q < n
    ensures Pow2(n) == BlockBase(Pow2(n - 1 - q), q)
    decreases q
  {
    if q == 0 {
      BlockOdd(Pow2(n - 1));
    } else {
      Blocks(n - 1, q - 1);
      BlockHalve(Pow2(n - 1 - q), q);
    }
  }

  lemma {:induction false} BlockInside(blk: nat, blocks: nat, q: nat)
    ensures blk < blocks ==> BlockBase(blk, q) + 2 * Pow2(q) <= BlockBase(blocks, q)
    ensures blk >= blocks ==> BlockBase(blk, q) >= BlockBase(blocks, q)
    decreases blk + blocks
  {
    if blk + 1 < blocks { BlockInside(blk, blocks - 1, q); }
    else if blk > blocks { BlockInside(blk - 1, blocks, q); }
  }

  /** Bit q below the top one is not touched by adding the top stride. */
  lemma {:induction false} TopHalf(k: nat, q: nat, n: nat)
    requires k < Pow2(n)
    ensures q < n ==> Bit(k + Pow2(n), q) == Bit(k, q) && Flip(k + Pow2(n), q) == Flip(k, q) + Pow2(n)
    ensures Bit(k, n) == 0 && Bit(k + Pow2(n), n) == 1
  {
    if n > 0 {
      assert (k + Pow2(n)) / 2 == k / 2 + Pow2(n - 1);
      assert (k + Pow2(n)) % 2 == k % 2;
      TopHalf(k / 2, if q == 0 then 0 else q - 1, n - 1);
    }
  }

  lemma {:induction false} AllOnes(n: nat, q: nat)
    ensures q < n ==> Bit(Pow2(n) - 1, q) == 1
  {
    if 0 < q < n {
      assert (Pow2(n) - 1) / 2 == Pow2(n - 1) - 1;
      AllOnes(n - 1, q - 1);
    }
  }

  lemma {:induction false} ZeroBits(q: nat)
    ensures Bit(0, q) == 0
  {
    if q > 0 { ZeroBits(q - 1); }
  }

  lemma {:induction false} Pow2Mono(a: nat, b: nat)
    requires a <= b
    ensures Pow2(a) <= Pow2(b)
  {
    if a < b { Pow2Mono(a, b - 1); }
  }

  lemma {:induction false} Pow2Add(a: nat, b: nat)
    ensures Pow2(a + b) == Pow2(a) * Pow2(b)
  {
    if b > 0 { Pow2Add(a, b - 1); }
  }

  /** The power is strictly increasing, so a scale factor determines its exponent. */
  lemma Pow2Below(a: nat, b: nat)
    requires Pow2(a) <= Pow2(b)
    ensures a <= b
  {
    if a > b { Pow2Mono(b + 1, a); }
  }
}
