/** The bitmap of a trie node: a set of 32 indices in one machine word. */
module HamtBitmap {
  import opened Arithmetic
  import opened Words
  import opened Wrappers

  const FANOUT: nat := 32

  datatype SmallBitmap = SmallBitmap(bits: nat) {
    predicate Valid() {
      bits < Pow2(FANOUT)
    }

    predicate IsEmpty() {
      bits == 0
    }

    static function Once(b: nat): SmallBitmap
      requires b < FANOUT
    {
      SmallBitmap(Pow2(b))
    }

    /** The position of the child at `b`, if there is one. */
    function GetIndexSparse(b: nat): Option<nat>
      requires b < FANOUT
    {
      if And(bits, Pow2(b)) == 0 then None else Some(GetSparsePos(b))
    }

    /** The position for the child at `b`. */
    function GetSparsePos(b: nat): nat
      requires b < FANOUT
    {
      CountOnes(And(bits, Pow2(b) - 1))
    }

    function SetIndex(b: nat): SmallBitmap
      requires b < FANOUT
    {
      SmallBitmap(Or(bits, Pow2(b)))
    }

    function ClearIndex(b: nat): SmallBitmap
      requires b < FANOUT
    {
      Pow2Grows(b, FANOUT);
      SmallBitmap(And(bits, Pow2(FANOUT) - 1 - Pow2(b)))
    }

    /** Membership, as the reference for the operations above. */
    predicate Has(b: nat) {
      Bit(bits, b)
    }

    /** The number of members below `b`. */
    function Rank(b: nat): (r: nat)
      ensures r <= b
    {
      Ones(bits, b)
    }
  }

  lemma IsSmallWord(x: nat)
    requires x < Pow2(FANOUT)
    ensures IsWord(x)
  {
    Pow2Grows(FANOUT, WIDTH);
  }

  lemma SparsePosIsRank(m: SmallBitmap, b: nat)
    requires m.Valid() && b < FANOUT
    ensures m.GetSparsePos(b) == m.Rank(b)
    ensures m.GetIndexSparse(b) == if m.Has(b) then Some(m.Rank(b)) else None
  {
    IsSmallWord(m.bits);
    CountMasked(m.bits, b);
    MaskedBit(m.bits, b);
  }

  lemma MaskedBit(x: nat, b: nat)
    requires x < Pow2(FANOUT) && b < FANOUT
    ensures And(x, Pow2(b)) != 0 <==> Bit(x, b)
  {
    var masked := And(x, Pow2(b));
    AndIsSmaller(x, Pow2(b));
    forall i: nat ensures Bit(masked, i) <==> Bit(x, i) && i == b {
      BitAnd(x, Pow2(b), i);
      BitPow2(b, i);
    }
    if masked == 0 {
      BitOfZero(b);
    } else if !Bit(x, b) {
      ZeroHasNoBits(masked, FANOUT);
    }
  }

  lemma OnceHasOne(b: nat)
    requires b < FANOUT
    ensures var m := SmallBitmap.Once(b);
            m.Valid() && !m.IsEmpty() && forall i: nat :: m.Has(i) <==> i == b
  {
    Pow2Grows(b, FANOUT);
    forall i: nat ensures SmallBitmap.Once(b).Has(i) <==> i == b {
      BitPow2(b, i);
    }
  }

  lemma SetIndexAdds(m: SmallBitmap, b: nat)
    requires m.Valid() && b < FANOUT
    ensures var m' := m.SetIndex(b);
            m'.Valid() && !m'.IsEmpty() && forall i: nat :: m'.Has(i) <==> m.Has(i) || i == b
  {
    Pow2Grows(b, FANOUT);
    OrFits(m.bits, Pow2(b), FANOUT);
    forall i: nat ensures m.SetIndex(b).Has(i) <==> m.Has(i) || i == b {
      BitOr(m.bits, Pow2(b), i);
      BitPow2(b, i);
    }
    BitOfZero(b);
    assert m.SetIndex(b).Has(b);
  }

  lemma ClearIndexRemoves(m: SmallBitmap, b: nat)
    requires m.Valid() && b < FANOUT
    ensures m.ClearIndex(b).Valid() && forall i: nat :: m.ClearIndex(b).Has(i) <==> m.Has(i) && i != b
  {
    Pow2Grows(b, FANOUT);
    AndIsSmaller(m.bits, Pow2(FANOUT) - 1 - Pow2(b));
    forall i: nat ensures m.ClearIndex(b).Has(i) <==> m.Has(i) && i != b {
      ClearedBit(m.bits, b, i);
    }
  }

  lemma ClearedBit(x: nat, b: nat, i: nat)
    requires x < Pow2(FANOUT) && b < FANOUT
    ensures Pow2(b) < Pow2(FANOUT)
    ensures Bit(And(x, Pow2(FANOUT) - 1 - Pow2(b)), i) <==> Bit(x, i) && i != b
  {
    Pow2Grows(b, FANOUT);
    BitAnd(x, Pow2(FANOUT) - 1 - Pow2(b), i);
    if i < FANOUT {
      BitComplement(Pow2(b), FANOUT, i);
      BitPow2(b, i);
    } else {
      HighBit(x, FANOUT, i);
    }
  }

  lemma EmptyHasNone(m: SmallBitmap)
    requires m.Valid()
    ensures m.IsEmpty() <==> forall i: nat :: i < FANOUT ==> !m.Has(i)
  {
    if m.IsEmpty() {
      forall i: nat | i < FANOUT ensures !m.Has(i) {
        BitOfZero(i);
      }
    } else if forall i: nat :: i < FANOUT ==> !m.Has(i) {
      assert forall i: nat :: i < FANOUT ==> !Bit(m.bits, i) by {
        forall i: nat | i < FANOUT ensures !Bit(m.bits, i) {
          assert !m.Has(i);
        }
      }
      ZeroHasNoBits(m.bits, FANOUT);
    }
  }

  lemma {:induction false} RankGrows(m: SmallBitmap, i: nat, j: nat)
    requires i <= j
    ensures m.Rank(i) <= m.Rank(j)
    ensures i < j && m.Has(i) ==> m.Rank(i) < m.Rank(j)
    decreases j
  {
    if i < j {
      RankGrows(m, i, j - 1);
    }
  }

  /** Every position belongs to a member. */
  lemma {:induction false} MemberAt(m: SmallBitmap, n: nat, position: nat) returns (b: nat)
    requires position < m.Rank(n)
    ensures b < n && m.Has(b) && m.Rank(b) == position
    decreases n
  {
    if m.Has(n - 1) && m.Rank(n - 1) == position {
      b := n - 1;
    } else {
      b := MemberAt(m, n - 1, position);
    }
  }

  /** A new member moves those above it up by one. */
  lemma {:induction false} RankWith(m: SmallBitmap, m': SmallBitmap, b: nat, j: nat)
    requires !m.Has(b) && forall i: nat :: m'.Has(i) <==> m.Has(i) || i == b
    ensures m'.Rank(j) == m.Rank(j) + if b < j then 1 else 0
    decreases j
  {
    if j > 0 {
      RankWith(m, m', b, j - 1);
      assert m'.Has(j - 1) <==> m.Has(j - 1) || j - 1 == b;
    }
  }
}
