// Bit masks on machine words, as numbers.
module ClipMasks {

  function Pow2(k: nat): (r: nat)
    ensures r > 0
  {
    if k == 0 then 1 else 2 * Pow2(k - 1)
  }

  function BitAnd(a: nat, b: nat): nat {
    if a == 0 || b == 0 then 0 else (a % 2) * (b % 2) + 2 * BitAnd(a / 2, b / 2)
  }

  function BitOr(a: nat, b: nat): nat
    decreases a + b
  {
    if a == 0 && b == 0 then 0
    else (if a % 2 == 1 || b % 2 == 1 then 1 else 0) + 2 * BitOr(a / 2, b / 2)
  }

  predicate HasBit(m: nat, k: nat) {
    if k == 0 then m % 2 == 1 else HasBit(m / 2, k - 1)
  }

  lemma {:induction false} ZeroHasNoBit(k: nat)
    ensures !HasBit(0, k)
  {
    if k > 0 { ZeroHasNoBit(k - 1); }
  }

  lemma {:induction false} AndWithPower(m: nat, k: nat)
    ensures BitAnd(m, Pow2(k)) != 0 <==> HasBit(m, k)
  {
    if m == 0 {
      ZeroHasNoBit(k);
    } else if k > 0 {
      AndWithPower(m / 2, k - 1);
    }
  }

  lemma {:induction false} OrHasBits(a: nat, b: nat, k: nat)
    ensures HasBit(BitOr(a, b), k) <==> HasBit(a, k) || HasBit(b, k)
    decreases a + b
  {
    if a == 0 && b == 0 {
      ZeroHasNoBit(k);
    } else if k > 0 {
      OrHasBits(a / 2, b / 2, k - 1);
    }
  }

  lemma {:induction false} PowerHasOneBit(p: nat, k: nat)
    ensures HasBit(Pow2(p), k) <==> k == p
  {
    if p == 0 {
      if k > 0 { ZeroHasNoBit(k - 1); }
    } else if k > 0 {
      PowerHasOneBit(p - 1, k - 1);
    }
  }

  // Bits at and above a number's magnitude are clear.
  lemma {:induction false} SmallHasNoHighBit(m: nat, p: nat, k: nat)
    requires m < Pow2(p) && p <= k
    ensures !HasBit(m, k)
  {
    if p == 0 {
      ZeroHasNoBit(k);
    } else {
      SmallHasNoHighBit(m / 2, p - 1, k - 1);
    }
  }

  // (1 << n) - 1 has exactly the first n bits.
  lemma {:induction false} FullMask(n: nat, k: nat)
    ensures HasBit(Pow2(n) - 1, k) <==> k < n
  {
    if n == 0 {
      ZeroHasNoBit(k);
    } else if k > 0 {
      assert (Pow2(n) - 1) / 2 == Pow2(n - 1) - 1;
      FullMask(n - 1, k - 1);
    }
  }

  lemma {:induction false} OrBelow(a: nat, b: nat, p: nat)
    requires a < Pow2(p) && b < Pow2(p)
    ensures BitOr(a, b) < Pow2(p)
  {
    if p > 0 && (a != 0 || b != 0) {
      OrBelow(a / 2, b / 2, p - 1);
    }
  }

  lemma {:induction false} Pow2Monotone(j: nat, k: nat)
    requires j <= k
    ensures Pow2(j) <= Pow2(k)
  {
    if j < k { Pow2Monotone(j, k - 1); }
  }
}
