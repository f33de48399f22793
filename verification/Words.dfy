/** The machine integers of the service, and the two arithmetic notions every level of the tree uses. */
module Words {

  type uint8 = x: nat | x < 0x100
  type uint32 = x: nat | x < 0x1_0000_0000
  type uint64 = x: nat | x < 0x1_0000_0000_0000_0000

  const WORD_LIMIT: nat := 0x1_0000000000000000_0000000000000000_0000000000000000_0000000000000000

  /** A 256-bit word: a leaf value or a node hash. */
  type Word = w: nat | w < WORD_LIMIT

  datatype Option<+T> = None | Some(value: T)

  datatype Result<+T, +E> = Success(value: T) | Failure(error: E)

  function Pow2(n: nat): (r: nat)
    ensures r > 0
  {
    if n == 0 then 1 else 2 * Pow2(n - 1)
  }

  /** The ancestor, `level` levels up, of the leaf at index `i`. */
  function Anc(i: nat, level: nat): nat {
    if level == 0 then i else Anc(i, level - 1) / 2
  }

  /** A leaf index lies under the root exactly when it is below 2^depth. */
  lemma {:induction false} AncIsRoot(i: nat, depth: nat)
    ensures Anc(i, depth) == 0 <==> i < Pow2(depth)
  {
    if depth == 0 {
    } else {
      AncTop(i, depth);
      AncIsRoot(i / 2, depth - 1);
    }
  }

  /** Climbing one level first and then the rest is the same as climbing in order. */
  lemma {:induction false} AncTop(i: nat, level: nat)
    requires level > 0
    ensures Anc(i, level) == Anc(i / 2, level - 1)
  {
    if level > 1 {
      AncTop(i, level - 1);
    }
  }

  lemma {:induction false} Pow2Bounds(n: nat)
    requires n <= 32
    ensures Pow2(n) <= 0x1_0000_0000
  {
    if n < 32 {
      Pow2Step(n, 32);
    }
    assert Pow2(32) == 0x1_0000_0000 by {
      assert Pow2(8) == 0x100;
      assert Pow2(16) == 0x1_0000;
      assert Pow2(24) == 0x100_0000;
    }
  }

  lemma {:induction false} Pow2Step(m: nat, n: nat)
    requires m <= n
    ensures Pow2(m) <= Pow2(n)
  {
    if m < n {
      Pow2Step(m, n - 1);
    }
  }
}
