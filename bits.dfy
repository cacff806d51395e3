/**
 * Splitting a packet-type mask into its individual flags (`get_packet_types` in
 * serial_test/packet_util.py). Bits are those of Python's unbounded two's-complement
 * integers: Dafny's `/` and `%` by 2 round toward minus infinity on negative numbers,
 * as Python's `>>` and `& 1` do.
 */
module Bits {

  /** 2^k. */
  function Pow2(k: nat): (p: nat)
    ensures p >= 1
  {
    if k == 0 then 1 else 2 * Pow2(k - 1)
  }

  lemma Pow2Table()
    ensures Pow2(0) == 1 && Pow2(1) == 2 && Pow2(2) == 4 && Pow2(3) == 8
    ensures Pow2(4) == 16 && Pow2(5) == 32 && Pow2(6) == 64 && Pow2(7) == 128
    ensures Pow2(8) == 256 && Pow2(9) == 512 && Pow2(10) == 1024 && Pow2(11) == 2048
    ensures Pow2(12) == 4096 && Pow2(16) == 0x1_0000
  {
    assert Pow2(4) == 16;
    assert Pow2(8) == 256;
  }

  /** `n >> k`. */
  function Shr(n: int, k: nat): int
    decreases k
  {
    if k == 0 then n else Shr(n / 2, k - 1)
  }

  /** Bit `k` of `n` is set. */
  predicate Bit(n: int, k: nat)
  {
    Shr(n, k) % 2 == 1
  }

  /** `n & (~n + 1)` for `n != 0`: the lowest set bit of `n` (also for negative `n`). */
  function LowestSetBit(n: int): (b: nat)
    requires n != 0
    ensures b >= 1
    ensures n > 0 ==> b <= n
    decreases if n < 0 then -n else n
  {
    if n % 2 == 1 then 1 else 2 * LowestSetBit(n / 2)
  }

  /**
   * The flags of the bits of `n` at positions `k`, `k + 1`, ..., lowest first,
   * where `n` holds what is left of the mask shifted right by `k`.
   */
  function BitsFrom(n: nat, k: nat): seq<nat>
    decreases n
  {
    if n == 0 then [] else (if n % 2 == 1 then [Pow2(k)] else []) + BitsFrom(n / 2, k + 1)
  }

  /** The flags `get_packet_types(n)` yields, in the order it yields them. */
  function SetBits(n: nat): seq<nat>
  {
    BitsFrom(n, 0)
  }

  /** The flags of the bits of `m` below position `k`, lowest first. */
  function LowBits(m: nat, k: nat): seq<nat>
  {
    if k == 0 then [] else LowBits(m, k - 1) + (if Bit(m, k - 1) then [Pow2(k - 1)] else [])
  }

  function Sum(s: seq<nat>): nat
  {
    if s == [] then 0 else s[0] + Sum(s[1..])
  }

  predicate StrictlyIncreasing(s: seq<nat>)
  {
    forall i, j :: 0 <= i < j < |s| ==> s[i] < s[j]
  }

  /**
   * `get_packet_types(n)` drained into a list: while `n` is not zero, take its lowest
   * set bit `b` and clear it (`n ^= b` equals `n - b` because `b` is set in `n`).
   * For a negative `n` the source never stops (see NegativeMaskNeverClears), so the
   * caller must pass a non-negative mask.
   */
  method PacketTypes(n: int) returns (flags: seq<nat>)
    requires n >= 0
    ensures flags == SetBits(n)
  {
    var rest := n;
    flags := [];
    while rest != 0
      invariant rest >= 0
      invariant flags + SetBits(rest) == SetBits(n)
      decreases rest
    {
      var b := LowestSetBit(rest);
      LowestSetBitSplit(rest, 0);
      flags := flags + [b];
      rest := rest - b;
    }
  }

  // ---------------------------------------------------------------- arithmetic on bits

  lemma {:induction false} Pow2Monotonic(j: nat, k: nat)
    requires j < k
    ensures Pow2(j) < Pow2(k)
    decreases k
  {
    if j < k - 1 {
      Pow2Monotonic(j, k - 1);
    }
  }

  lemma Pow2Injective(j: nat, k: nat)
    requires Pow2(j) == Pow2(k)
    ensures j == k
  {
    if j < k {
      Pow2Monotonic(j, k);
    } else if k < j {
      Pow2Monotonic(k, j);
    }
  }

  lemma {:induction false} ShrZero(k: nat)
    ensures Shr(0, k) == 0
    decreases k
  {
    if k > 0 {
      ShrZero(k - 1);
    }
  }

  lemma {:induction false} ShrStep(n: int, k: nat)
    ensures Shr(n, k) / 2 == Shr(n, k + 1)
    decreases k
  {
    if k > 0 {
      ShrStep(n / 2, k - 1);
    }
  }

  lemma BitsFromUnfold(n: nat, k: nat)
    ensures BitsFrom(n, k) == (if n % 2 == 1 then [Pow2(k)] else []) + BitsFrom(n / 2, k + 1)
  {
  }

  /** Clearing the lowest set bit removes exactly the first flag of the decomposition. */
  lemma {:induction false} LowestSetBitSplit(n: nat, k: nat)
    requires n != 0
    ensures BitsFrom(n, k) == [Pow2(k) * LowestSetBit(n)] + BitsFrom(n - LowestSetBit(n), k)
    decreases n
  {
    if n % 2 == 1 {
      LowestSetBitOdd(n, k);
    } else {
      LowestSetBitSplit(n / 2, k + 1);
      LowestSetBitEven(n, k);
    }
  }

  /** An odd `n` yields bit `k` first and goes on with `n - 1`. */
  lemma LowestSetBitOdd(n: nat, k: nat)
    requires n % 2 == 1
    ensures BitsFrom(n, k) == [Pow2(k) * LowestSetBit(n)] + BitsFrom(n - LowestSetBit(n), k)
  {
    var b := LowestSetBit(n);
    assert b == 1;
    assert (n - 1) / 2 == n / 2;
    BitsFromUnfold(n, k);
    BitsFromUnfold(n - 1, k);
    assert BitsFrom(n - 1, k) == BitsFrom(n / 2, k + 1);
    assert Pow2(k) * b == Pow2(k);
  }

  /** An even `n` splits as its half does, one position up. */
  lemma LowestSetBitEven(n: nat, k: nat)
    requires n != 0 && n % 2 == 0
    requires var h := n / 2;
      BitsFrom(h, k + 1) == [Pow2(k + 1) * LowestSetBit(h)] + BitsFrom(h - LowestSetBit(h), k + 1)
    ensures BitsFrom(n, k) == [Pow2(k) * LowestSetBit(n)] + BitsFrom(n - LowestSetBit(n), k)
  {
    var b := LowestSetBit(n);
    var h := n / 2;
    var c := LowestSetBit(h);
    assert b == 2 * c;
    DoubleShifts(Pow2(k), c);
    assert (n - b) / 2 == h - c && (n - b) % 2 == 0;
    BitsFromUnfold(n, k);
    BitsFromUnfold(n - b, k);
    assert BitsFrom(n, k) == BitsFrom(h, k + 1);
    assert BitsFrom(n - b, k) == BitsFrom(h - c, k + 1);
    assert Pow2(k + 1) * c == Pow2(k) * b;
  }

  // ---------------------------------------------------------------- what the decomposition yields

  /** Every flag yielded is a power of two whose bit is set, at position `k` or above. */
  lemma {:induction false} BitsFromElements(n: nat, k: nat)
    ensures forall x :: x in BitsFrom(n, k) ==> exists j: nat :: k <= j && x == Pow2(j) && Bit(n, j - k)
    decreases n
  {
    if n != 0 {
      BitsFromElements(n / 2, k + 1);
      forall x | x in BitsFrom(n, k)
        ensures exists j: nat :: k <= j && x == Pow2(j) && Bit(n, j - k)
      {
        BitsFromUnfold(n, k);
        if x in BitsFrom(n / 2, k + 1) {
          var j :| k + 1 <= j && x == Pow2(j) && Bit(n / 2, j - (k + 1));
          assert Shr(n, j - k) == Shr(n / 2, j - (k + 1));
          assert k <= j && x == Pow2(j) && Bit(n, j - k);
        } else {
          assert n % 2 == 1 && x == Pow2(k) && Shr(n, 0) == n;
          assert k <= k && x == Pow2(k) && Bit(n, k - k);
        }
      }
      assert forall x :: x in BitsFrom(n, k) ==> exists j: nat :: k <= j && x == Pow2(j) && Bit(n, j - k);
    }
  }

  /** A power of two at position `k` or above is yielded exactly when its bit is set. */
  lemma {:induction false} BitsFromContains(n: nat, k: nat, j: nat)
    requires k <= j
    ensures Pow2(j) in BitsFrom(n, k) <==> Bit(n, j - k)
    decreases n
  {
    if n == 0 {
      ShrZero(j - k);
    } else {
      BitsFromElements(n / 2, k + 1);
      BitsFromUnfold(n, k);
      if j == k {
        if Pow2(j) in BitsFrom(n / 2, k + 1) {
          var i :| k + 1 <= i && Pow2(j) == Pow2(i) && Bit(n / 2, i - (k + 1));
          Pow2Injective(i, j);
        }
      } else {
        BitsFromContains(n / 2, k + 1, j);
        assert Shr(n, j - k) == Shr(n / 2, j - (k + 1));
        if n % 2 == 1 && Pow2(j) == Pow2(k) {
          Pow2Injective(j, k);
        }
      }
    }
  }

  /**
   * For n >= 0, `get_packet_types(n)` yields exactly the set bits of `n`, each as a
   * power of two.
   */
  lemma SetBitsAreTheSetBits(n: nat)
    ensures forall x :: x in SetBits(n) ==> exists j: nat :: x == Pow2(j) && Bit(n, j)
    ensures forall j: nat :: Pow2(j) in SetBits(n) <==> Bit(n, j)
  {
    BitsFromElements(n, 0);
    forall j: nat
      ensures Pow2(j) in SetBits(n) <==> Bit(n, j)
    {
      BitsFromContains(n, 0, j);
    }
  }

  /** Every flag of `BitsFrom(n, k)` is at least 2^k. */
  lemma BitsFromLowerBound(n: nat, k: nat)
    ensures forall x :: x in BitsFrom(n, k) ==> Pow2(k) <= x
  {
    BitsFromElements(n, k);
    forall x | x in BitsFrom(n, k)
      ensures Pow2(k) <= x
    {
      var j :| k <= j && x == Pow2(j) && Bit(n, j - k);
      if k < j {
        Pow2Monotonic(k, j);
      }
    }
  }

  /** The flags come out in strictly increasing order, so none repeats. */
  lemma {:induction false} BitsFromIncreasing(n: nat, k: nat)
    ensures StrictlyIncreasing(BitsFrom(n, k))
    decreases n
  {
    if n != 0 {
      BitsFromIncreasing(n / 2, k + 1);
      BitsFromLowerBound(n / 2, k + 1);
      Pow2Monotonic(k, k + 1);
      var r := BitsFrom(n, k);
      var tail := BitsFrom(n / 2, k + 1);
      if n % 2 == 1 {
        assert r == [Pow2(k)] + tail;
        forall i, j | 0 <= i < j < |r|
          ensures r[i] < r[j]
        {
          assert r[j] == tail[j - 1] && r[j] in tail;
          if i > 0 {
            assert r[i] == tail[i - 1];
          }
        }
      } else {
        assert r == tail;
      }
    }
  }

  lemma {:induction false} SumAppend(a: seq<nat>, b: seq<nat>)
    ensures Sum(a + b) == Sum(a) + Sum(b)
    decreases |a|
  {
    if a == [] {
      assert a + b == b;
    } else {
      assert (a + b)[0] == a[0];
      assert (a + b)[1..] == a[1..] + b;
      SumAppend(a[1..], b);
    }
  }

  /** The flags add up to the shifted mask: `n * 2^k`. */
  lemma {:induction false} BitsFromSum(n: nat, k: nat)
    ensures Sum(BitsFrom(n, k)) == n * Pow2(k)
    decreases n
  {
    if n != 0 {
      BitsFromSum(n / 2, k + 1);
      var head: seq<nat> := if n % 2 == 1 then [Pow2(k)] else [];
      SumAppend(head, BitsFrom(n / 2, k + 1));
      assert Sum(head) == (n % 2) * Pow2(k);
      HalvesRecombine(n, Pow2(k));
    }
  }

  lemma DoubleShifts(p: nat, c: nat)
    ensures (2 * p) * c == p * (2 * c)
  {
  }

  lemma HalvesRecombine(n: nat, p: nat)
    ensures (n % 2) * p + (n / 2) * (2 * p) == n * p
  {
    assert (n / 2) * (2 * p) == (2 * (n / 2)) * p;
    assert (n % 2) * p + (2 * (n / 2)) * p == (n % 2 + 2 * (n / 2)) * p;
  }

  /**
   * For n >= 0 the decomposition is a strictly increasing list of powers of two,
   * one per set bit, that sums to `n`.
   */
  lemma SetBitsDecompose(n: nat)
    ensures StrictlyIncreasing(SetBits(n))
    ensures Sum(SetBits(n)) == n
    ensures forall x :: x in SetBits(n) ==> exists j: nat :: x == Pow2(j) && Bit(n, j)
  {
    BitsFromIncreasing(n, 0);
    BitsFromSum(n, 0);
    SetBitsAreTheSetBits(n);
  }

  /** The decomposition splits into the flags below position `k` and those from `k` on. */
  lemma {:induction false} SetBitsSplit(m: nat, k: nat)
    ensures Shr(m, k) >= 0
    ensures SetBits(m) == LowBits(m, k) + BitsFrom(Shr(m, k), k)
    decreases k
  {
    if k > 0 {
      SetBitsSplit(m, k - 1);
      var n := Shr(m, k - 1);
      ShrStep(m, k - 1);
      var rest := BitsFrom(Shr(m, k), k);
      var head: seq<nat> := if Bit(m, k - 1) then [Pow2(k - 1)] else [];
      assert Bit(m, k - 1) <==> n % 2 == 1;
      BitsFromUnfold(n, k - 1);
      assert BitsFrom(n, k - 1) == head + rest;
      assert LowBits(m, k) == LowBits(m, k - 1) + head;
      assert LowBits(m, k - 1) + (head + rest) == (LowBits(m, k - 1) + head) + rest;
    }
  }

  // ---------------------------------------------------------------- negative masks

  /** The value of `n` in `get_packet_types` after `steps` passes of its loop. */
  function AfterSteps(n: int, steps: nat): int
  {
    if steps == 0 then n
    else
      var m := AfterSteps(n, steps - 1);
      if m == 0 then 0 else m - LowestSetBit(m)
  }

  /**
   * For a negative mask, clearing bits never reaches zero: the loop condition
   * `while n` holds after any number of passes, so the generator never stops.
   */
  lemma {:induction false} NegativeMaskNeverClears(n: int, steps: nat)
    requires n < 0
    ensures AfterSteps(n, steps) < 0
    decreases steps
  {
    if steps > 0 {
      NegativeMaskNeverClears(n, steps - 1);
    }
  }
}
