/** 128-bit words and their bits. */
module Words {
  import opened Arithmetic

  const WIDTH: nat := 128

  predicate Bit(x: nat, i: nat)
    decreases i, x
  {
    if i == 0 then x % 2 == 1 else Bit(x / 2, i - 1)
  }

  predicate IsWord(x: nat) {
    x < Pow2(WIDTH)
  }

  /** The bitwise operators. */
  function And(x: nat, y: nat): nat
    decreases x, y
  {
    if x == 0 then 0 else (x % 2) * (y % 2) + 2 * And(x / 2, y / 2)
  }

  function Or(x: nat, y: nat): nat
    decreases x + y
  {
    if x == 0 then y else (if x % 2 == 1 || y % 2 == 1 then 1 else 0) + 2 * Or(x / 2, y / 2)
  }

  function Not(x: nat): nat
    requires IsWord(x)
  {
    Pow2(WIDTH) - 1 - x
  }

  function CountOnes(x: nat): nat {
    if x == 0 then 0 else x % 2 + CountOnes(x / 2)
  }

  function TrailingZeros(x: nat): nat {
    if x == 0 then WIDTH else if x % 2 == 1 then 0 else 1 + TrailingZeros(x / 2)
  }

  // ---- What the operators do to single bits ----

  lemma {:induction false} BitOfZero(i: nat)
    ensures !Bit(0, i)
    decreases i
  {
    if i > 0 {
      BitOfZero(i - 1);
    }
  }

  lemma {:induction false} BitAnd(x: nat, y: nat, i: nat)
    ensures Bit(And(x, y), i) <==> Bit(x, i) && Bit(y, i)
    decreases i
  {
    if x == 0 {
      BitOfZero(i);
    } else if i > 0 {
      BitAnd(x / 2, y / 2, i - 1);
      assert And(x, y) / 2 == And(x / 2, y / 2);
    }
  }

  lemma {:induction false} BitOr(x: nat, y: nat, i: nat)
    ensures Bit(Or(x, y), i) <==> Bit(x, i) || Bit(y, i)
    decreases i
  {
    if x == 0 {
      BitOfZero(i);
    } else if i > 0 {
      BitOr(x / 2, y / 2, i - 1);
      assert Or(x, y) / 2 == Or(x / 2, y / 2);
    }
  }

  lemma {:induction false} BitPow2(n: nat, i: nat)
    ensures Bit(Pow2(n), i) <==> i == n
    ensures Bit(Pow2(n) - 1, i) <==> i < n
    decreases i
  {
    if n == 0 {
      BitOfZero(i);
      if i > 0 {
        BitOfZero(i - 1);
      }
    } else if i > 0 {
      BitPow2(n - 1, i - 1);
      assert Pow2(n) / 2 == Pow2(n - 1) && (Pow2(n) - 1) / 2 == Pow2(n - 1) - 1;
    }
  }

  lemma {:induction false} BitComplement(x: nat, n: nat, i: nat)
    requires x < Pow2(n) && i < n
    ensures Bit(Pow2(n) - 1 - x, i) <==> !Bit(x, i)
    decreases i
  {
    if i > 0 {
      BitComplement(x / 2, n - 1, i - 1);
      assert (Pow2(n) - 1 - x) / 2 == Pow2(n - 1) - 1 - x / 2;
    }
  }

  /** Words have bits below the width only. */
  lemma {:induction false} HighBit(x: nat, n: nat, i: nat)
    requires x < Pow2(n) && n <= i
    ensures !Bit(x, i)
    decreases n
  {
    if n == 0 {
      BitOfZero(i);
    } else {
      HighBit(x / 2, n - 1, i - 1);
    }
  }

  lemma {:induction false} AndIsSmaller(x: nat, y: nat)
    ensures And(x, y) <= x
    decreases x
  {
    if x > 0 {
      AndIsSmaller(x / 2, y / 2);
    }
  }

  lemma {:induction false} OrFits(x: nat, y: nat, n: nat)
    requires x < Pow2(n) && y < Pow2(n)
    ensures Or(x, y) < Pow2(n)
    decreases n
  {
    if n > 0 {
      OrFits(x / 2, y / 2, n - 1);
    }
  }

  lemma {:induction false} Pow2Grows(m: nat, n: nat)
    requires m < n
    ensures 2 * Pow2(m) <= Pow2(n)
    decreases n
  {
    if m < n - 1 {
      Pow2Grows(m, n - 1);
    }
  }

  // ---- Counting ----

  /** The number of bits below position `n`. */
  function Ones(x: nat, n: nat): (c: nat)
    ensures c <= n
    decreases n, x
  {
    if n == 0 then 0 else Ones(x, n - 1) + if Bit(x, n - 1) then 1 else 0
  }

  lemma {:induction false} OnesHalf(x: nat, n: nat)
    requires n > 0
    ensures Ones(x, n) == x % 2 + Ones(x / 2, n - 1)
    decreases n
  {
    if n > 1 {
      OnesHalf(x, n - 1);
    }
  }

  lemma {:induction false} CountOnesIsOnes(x: nat, n: nat)
    requires x < Pow2(n)
    ensures CountOnes(x) == Ones(x, n)
    decreases n
  {
    if n > 0 {
      OnesHalf(x, n);
      CountOnesIsOnes(x / 2, n - 1);
    }
  }

  lemma {:induction false} OnesAgree(x: nat, y: nat, n: nat)
    requires forall i: nat :: i < n ==> (Bit(x, i) <==> Bit(y, i))
    ensures Ones(x, n) == Ones(y, n)
    decreases n
  {
    if n > 0 {
      OnesAgree(x, y, n - 1);
    }
  }

  lemma {:induction false} OnesStop(x: nat, m: nat, n: nat)
    requires m <= n && forall i: nat :: m <= i < n ==> !Bit(x, i)
    ensures Ones(x, n) == Ones(x, m)
    decreases n
  {
    if m < n {
      OnesStop(x, m, n - 1);
    }
  }

  /** Masking with the bits below `n` and counting counts the bits below `n`. */
  lemma CountMasked(x: nat, n: nat)
    requires IsWord(x) && n <= WIDTH
    ensures CountOnes(And(x, Pow2(n) - 1)) == Ones(x, n)
  {
    var masked := And(x, Pow2(n) - 1);
    AndIsSmaller(x, Pow2(n) - 1);
    CountOnesIsOnes(masked, WIDTH);
    forall i: nat ensures Bit(masked, i) <==> Bit(x, i) && i < n {
      BitAnd(x, Pow2(n) - 1, i);
      BitPow2(n, i);
    }
    OnesStop(masked, n, WIDTH);
    OnesAgree(masked, x, n);
  }

  /** The first bit, or the width if there is none. */
  lemma {:induction false} TrailingZerosFirst(x: nat, n: nat)
    requires x < Pow2(n) && n <= WIDTH
    ensures var t := TrailingZeros(x);
            if x == 0 then t == WIDTH else t < n && Bit(x, t) && forall i: nat :: i < t ==> !Bit(x, i)
    decreases n
  {
    if x > 0 && x % 2 == 0 {
      TrailingZerosFirst(x / 2, n - 1);
      var t := TrailingZeros(x);
      forall i: nat | i < t ensures !Bit(x, i) {
        assert i > 0 ==> !Bit(x / 2, i - 1);
      }
    }
  }

  lemma {:induction false} ZeroHasNoBits(x: nat, n: nat)
    requires x < Pow2(n) && forall i: nat :: i < n ==> !Bit(x, i)
    ensures x == 0
    decreases n
  {
    if n > 0 {
      assert !Bit(x, 0);
      forall i: nat | i < n - 1 ensures !Bit(x / 2, i) {
        assert !Bit(x, i + 1);
      }
      ZeroHasNoBits(x / 2, n - 1);
    }
  }
}
