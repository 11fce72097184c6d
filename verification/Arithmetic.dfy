/** Multiplication, division and bytes. */
module Arithmetic {
  type Byte = b: nat | b < 256

  function Pow2(n: nat): (p: nat)
    ensures p > 0
  {
    if n == 0 then 1 else 2 * Pow2(n - 1)
  }

  lemma MulLe(a: nat, b: nat, c: nat)
    requires a <= b
    ensures a * c <= b * c
  {
    assert b * c == a * c + (b - a) * c;
  }

  lemma DivMod(v: nat, base: nat)
    requires base > 1
    ensures 0 <= v % base < base && 0 <= v / base && v == v % base + base * (v / base)
    ensures v > 0 ==> v / base < v
    ensures v >= base ==> v / base > 0
  {
    var q := v / base;
    if v > 0 && q >= v {
      MulLe(2, base, q);
    }
  }

  lemma DivModUnique(r: nat, q: nat, base: nat)
    requires r < base && base > 1
    ensures (r + base * q) % base == r && (r + base * q) / base == q
  {
    var v := r + base * q;
    DivMod(v, base);
    SameQuotient(v % base, v / base, r, q, base);
  }

  lemma MulStep(base: nat, p: nat, q: nat)
    ensures p < q ==> base * p + base <= base * q
  {
    if p < q {
      MulLe(p + 1, q, base);
      assert (p + 1) * base == base * p + base;
    }
  }

  lemma SameQuotient(r: nat, q: nat, r': nat, q': nat, base: nat)
    requires r < base && r' < base && r + base * q == r' + base * q'
    ensures q == q' && r == r'
  {
    MulStep(base, q, q');
    MulStep(base, q', q);
  }

  lemma DivBound(t: nat, base: nat, bound: nat)
    requires base > 1 && t < base * bound
    ensures 0 <= t / base < bound
  {
    DivMod(t, base);
    MulStep(base, bound, t / base);
  }

  // ---- Little-endian byte strings ----

  function Pow256(width: nat): (p: nat)
    ensures p > 0
  {
    if width == 0 then 1 else 256 * Pow256(width - 1)
  }

  function ToLittleEndian(v: nat, width: nat): (s: seq<Byte>)
    ensures |s| == width
    decreases width, v
  {
    if width == 0 then [] else [v % 256] + ToLittleEndian(v / 256, width - 1)
  }

  function FromLittleEndian(s: seq<Byte>): (v: nat)
    ensures v < Pow256(|s|)
  {
    if s == [] then 0 else s[0] + 256 * FromLittleEndian(s[1..])
  }

  lemma {:induction false} FromToLittleEndian(v: nat, width: nat)
    requires v < Pow256(width)
    ensures FromLittleEndian(ToLittleEndian(v, width)) == v
    decreases width
  {
    if width > 0 {
      FromToLittleEndian(v / 256, width - 1);
      assert ToLittleEndian(v, width)[1..] == ToLittleEndian(v / 256, width - 1);
    }
  }

  lemma {:induction false} ToFromLittleEndian(s: seq<Byte>)
    ensures ToLittleEndian(FromLittleEndian(s), |s|) == s
  {
    if s != [] {
      ToFromLittleEndian(s[1..]);
      assert s == [s[0]] + s[1..];
    }
  }

  lemma DivTwice(v: nat, p: nat)
    requires p > 0
    ensures v / 256 / p == v / (256 * p)
  {
    var (a, q) := (v / 256, v / 256 / p);
    var (r, s) := (v % 256, a % p);
    assert a == p * q + s;
    assert v == 256 * p * q + (256 * s + r);
    Quotients(v, 256 * p, q, 256 * s + r);
  }

  lemma Quotients(v: nat, d: nat, q: nat, r: nat)
    requires r < d && v == d * q + r
    ensures v / d == q
  {
    if d > 1 {
      DivModUnique(r, q, d);
    }
  }

  /** Byte `i` of a number. */
  lemma {:induction false} LittleEndianAt(v: nat, width: nat, i: nat)
    requires i < width
    ensures ToLittleEndian(v, width)[i] == v / Pow256(i) % 256
    decreases i
  {
    if i > 0 {
      LittleEndianAt(v / 256, width - 1, i - 1);
      DivTwice(v, Pow256(i - 1));
    }
  }
}
