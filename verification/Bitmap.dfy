/** A set of 256 indices in two 128-bit words. */
module Bitmap {
  import opened Arithmetic
  import opened Words
  import opened Wrappers

  const SIZE: nat := 256

  datatype BitmapIndex = BitmapIndex(word0: nat, word1: nat) {
    predicate Valid() {
      IsWord(word0) && IsWord(word1)
    }

    static function GetMaskAndPart(idx: nat): (nat, nat)
      requires idx < SIZE
    {
      (Pow2(idx % WIDTH), idx / WIDTH)
    }

    predicate GetIndex(idx: nat)
      requires idx < SIZE
    {
      var (mask, part) := GetMaskAndPart(idx);
      if part == 0 then And(word0, mask) != 0 else And(word1, mask) != 0
    }

    function SetIndex(idx: nat): BitmapIndex
      requires idx < SIZE
    {
      var (mask, part) := GetMaskAndPart(idx);
      if part == 0 then this.(word0 := Or(word0, mask)) else this.(word1 := Or(word1, mask))
    }

    function RemoveIndex(idx: nat): BitmapIndex
      requires idx < SIZE
    {
      MaskIsWord(idx % WIDTH);
      var (mask, part) := GetMaskAndPart(idx);
      if part == 0 then this.(word0 := And(word0, Not(mask))) else this.(word1 := And(word1, Not(mask)))
    }

    /** The position in a dense array of the value at `idx`. */
    function GetRealIndex(idx: nat): Option<nat>
      requires idx < SIZE
    {
      if !GetIndex(idx) then None
      else
        var (mask, part) := GetMaskAndPart(idx);
        if part == 0 then Some(CountOnes(And(word0, mask - 1)) % 256)
        else Some((CountOnes(word0) + CountOnes(And(word1, mask - 1))) % 256)
    }

    predicate IsEmpty() {
      word0 == 0 && word1 == 0
    }

    function GetFirstIndex(): Option<nat> {
      var (zeros0, zeros1) := (TrailingZeros(word0), TrailingZeros(word1));
      if zeros0 < WIDTH then Some(zeros0)
      else if zeros1 < WIDTH then Some(WIDTH + zeros1)
      else None
    }

    /** Membership, as the reference for the operations above. */
    predicate Has(i: nat) {
      i < SIZE && if i < WIDTH then Bit(word0, i) else Bit(word1, i - WIDTH)
    }

    /** The number of members below `i`. */
    function Rank(i: nat): (r: nat)
      ensures r <= i
      decreases i, this
    {
      if i == 0 then 0 else Rank(i - 1) + if Has(i - 1) then 1 else 0
    }
  }

  const NO_INDEX := BitmapIndex(0, 0)

  lemma MaskIsWord(n: nat)
    requires n < WIDTH
    ensures IsWord(Pow2(n))
  {
    Pow2Grows(n, WIDTH);
  }

  lemma NoIndexIsEmpty()
    ensures NO_INDEX.Valid() && forall i :: !NO_INDEX.Has(i)
  {
    forall i: nat ensures !NO_INDEX.Has(i) {
      BitOfZero(i);
      BitOfZero(if i < WIDTH then 0 else i - WIDTH);
    }
  }

  // ---- Single words ----

  lemma MaskedIsBit(x: nat, n: nat)
    requires IsWord(x) && n < WIDTH
    ensures And(x, Pow2(n)) != 0 <==> Bit(x, n)
  {
    var masked := And(x, Pow2(n));
    AndIsSmaller(x, Pow2(n));
    forall i: nat ensures Bit(masked, i) <==> Bit(x, i) && i == n {
      BitAnd(x, Pow2(n), i);
      BitPow2(n, i);
    }
    if masked == 0 {
      BitOfZero(n);
    } else if !Bit(x, n) {
      ZeroHasNoBits(masked, WIDTH);
    }
  }

  lemma OrMask(x: nat, n: nat)
    requires IsWord(x) && n < WIDTH
    ensures IsWord(Or(x, Pow2(n))) && forall i: nat :: Bit(Or(x, Pow2(n)), i) <==> Bit(x, i) || i == n
  {
    MaskIsWord(n);
    OrFits(x, Pow2(n), WIDTH);
    forall i: nat ensures Bit(Or(x, Pow2(n)), i) <==> Bit(x, i) || i == n {
      BitOr(x, Pow2(n), i);
      BitPow2(n, i);
    }
  }

  lemma AndNotMask(x: nat, n: nat)
    requires IsWord(x) && n < WIDTH
    ensures IsWord(Pow2(n)) && IsWord(And(x, Not(Pow2(n))))
    ensures forall i: nat :: Bit(And(x, Not(Pow2(n))), i) <==> Bit(x, i) && i != n
  {
    MaskIsWord(n);
    AndIsSmaller(x, Not(Pow2(n)));
    forall i: nat ensures Bit(And(x, Not(Pow2(n))), i) <==> Bit(x, i) && i != n {
      BitAnd(x, Not(Pow2(n)), i);
      if i < WIDTH {
        BitComplement(Pow2(n), WIDTH, i);
        BitPow2(n, i);
      } else {
        HighBit(x, WIDTH, i);
      }
    }
  }

  // ---- The operations as operations on sets ----

  function Offset(idx: nat): nat {
    if idx < WIDTH then idx else idx - WIDTH
  }

  lemma MaskAndPart(idx: nat)
    requires idx < SIZE
    ensures BitmapIndex.GetMaskAndPart(idx) == (Pow2(Offset(idx)), if idx < WIDTH then 0 else 1)
  {
    if idx < WIDTH {
      assert idx / WIDTH == 0 && idx % WIDTH == idx;
    } else {
      assert idx / WIDTH == 1 && idx % WIDTH == idx - WIDTH;
    }
  }

  lemma GetIndexIsHas(b: BitmapIndex, idx: nat)
    requires b.Valid() && idx < SIZE
    ensures b.GetIndex(idx) <==> b.Has(idx)
  {
    MaskedIsBit(if idx < WIDTH then b.word0 else b.word1, Offset(idx));
    MaskAndPart(idx);
  }

  lemma SetIndexAdds(b: BitmapIndex, idx: nat)
    requires b.Valid() && idx < SIZE
    ensures b.SetIndex(idx).Valid() && forall i: nat :: b.SetIndex(idx).Has(i) <==> b.Has(i) || i == idx
  {
    OrMask(if idx < WIDTH then b.word0 else b.word1, Offset(idx));
    MaskAndPart(idx);
  }

  lemma RemoveIndexRemoves(b: BitmapIndex, idx: nat)
    requires b.Valid() && idx < SIZE
    ensures b.RemoveIndex(idx).Valid() && forall i: nat :: b.RemoveIndex(idx).Has(i) <==> b.Has(i) && i != idx
  {
    AndNotMask(if idx < WIDTH then b.word0 else b.word1, Offset(idx));
    MaskAndPart(idx);
  }

  lemma {:induction false} RankIsOnes(b: BitmapIndex, i: nat)
    requires i <= SIZE
    ensures b.Rank(i) == if i <= WIDTH then Ones(b.word0, i) else Ones(b.word0, WIDTH) + Ones(b.word1, i - WIDTH)
    decreases i
  {
    if i > 0 {
      RankIsOnes(b, i - 1);
    }
  }

  lemma CountBelow(b: BitmapIndex, idx: nat)
    requires b.Valid() && idx < SIZE
    ensures idx < WIDTH ==> CountOnes(And(b.word0, Pow2(idx) - 1)) == b.Rank(idx)
    ensures idx >= WIDTH ==> CountOnes(b.word0) + CountOnes(And(b.word1, Pow2(idx - WIDTH) - 1)) == b.Rank(idx)
  {
    RankIsOnes(b, idx);
    if idx < WIDTH {
      CountMasked(b.word0, idx);
    } else {
      CountOnesIsOnes(b.word0, WIDTH);
      CountMasked(b.word1, idx - WIDTH);
    }
  }

  lemma FitsByte(n: nat)
    requires n < 256
    ensures n % 256 == n
  {
  }

  /** The real index of a member is the number of members below it, and fits a byte. */
  lemma RealIndexIsRank(b: BitmapIndex, idx: nat)
    requires b.Valid() && idx < SIZE
    ensures b.GetRealIndex(idx) == if b.Has(idx) then Some(b.Rank(idx)) else None
  {
    GetIndexIsHas(b, idx);
    CountBelow(b, idx);
    FitsByte(b.Rank(idx));
    MaskAndPart(idx);
  }

  /** The first index is the least member. */
  lemma FirstIndexIsLeast(b: BitmapIndex)
    requires b.Valid()
    ensures match b.GetFirstIndex()
            case Some(first) => b.Has(first) && forall i: nat :: i < first ==> !b.Has(i)
            case None => forall i: nat :: !b.Has(i)
    ensures b.IsEmpty() <==> forall i: nat :: !b.Has(i)
  {
    TrailingZerosFirst(b.word0, WIDTH);
    TrailingZerosFirst(b.word1, WIDTH);
    forall i: nat | b.word0 == 0 && i < WIDTH ensures !Bit(b.word0, i) {
      BitOfZero(i);
    }
    forall i: nat | b.word1 == 0 && i < WIDTH ensures !Bit(b.word1, i) {
      BitOfZero(i);
    }
    if b.word0 != 0 {
      assert b.Has(TrailingZeros(b.word0));
    } else if b.word1 != 0 {
      assert b.Has(WIDTH + TrailingZeros(b.word1));
    }
  }

  // ---- Ranks ----

  lemma {:induction false} RankGrows(b: BitmapIndex, i: nat, j: nat)
    requires i <= j
    ensures b.Rank(i) <= b.Rank(j)
    ensures i < j && b.Has(i) ==> b.Rank(i) < b.Rank(j)
    decreases j
  {
    if i < j {
      RankGrows(b, i, j - 1);
    }
  }

  /** A new member moves those above it up by one. */
  lemma {:induction false} RankWith(b: BitmapIndex, b': BitmapIndex, idx: nat, j: nat)
    requires idx < SIZE && !b.Has(idx) && forall i: nat :: b'.Has(i) <==> b.Has(i) || i == idx
    ensures b'.Rank(j) == b.Rank(j) + if idx < j then 1 else 0
    decreases j
  {
    if j > 0 {
      RankWith(b, b', idx, j - 1);
    }
  }

  lemma {:induction false} RankSame(b: BitmapIndex, b': BitmapIndex, j: nat)
    requires forall i: nat :: b'.Has(i) <==> b.Has(i)
    ensures b'.Rank(j) == b.Rank(j)
    decreases j
  {
    if j > 0 {
      RankSame(b, b', j - 1);
    }
  }
}
