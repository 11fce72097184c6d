/** Base 58: change of base by repeated multiplication in place, leading zeros apart. */
module Base58 {
  import opened Arithmetic
  import opened Wrappers

  /** The digits and letters without `0`, `I`, `O` and `l`. */
  const ALPHABET: string := "123456789" + "ABCDEFGH" + "JKLMN" + "PQRSTUVWXYZ" + "abcdefghijk" + "mnopqrstuvwxyz"

  // ---- Numbers as digits, least significant first ----

  function Val(digits: seq<nat>, base: nat): nat {
    if digits == [] then 0 else digits[0] + base * Val(digits[1..], base)
  }

  /** The digits of a number without superfluous zeros; zero itself has one digit. */
  function Digits(v: nat, base: nat): seq<nat>
    requires base > 1
    decreases v
  {
    if v < base then [v] else
      DivMod(v, base);
      [v % base] + Digits(v / base, base)
  }

  ghost predicate Canonical(digits: seq<nat>, base: nat) {
    && |digits| > 0
    && (forall i :: 0 <= i < |digits| ==> digits[i] < base)
    && (|digits| > 1 ==> digits[|digits| - 1] > 0)
  }

  lemma ValOne(d: nat, base: nat)
    ensures Val([d], base) == d
  {
    assert Val([d][1..], base) == 0;
  }

  lemma ValCons(d: nat, rest: seq<nat>, base: nat)
    ensures Val([d] + rest, base) == d + base * Val(rest, base)
  {
    assert ([d] + rest)[1..] == rest;
  }

  /** Canonical digits and numbers determine each other. */
  lemma {:induction false} DigitsVal(v: nat, base: nat)
    requires base > 1
    ensures Canonical(Digits(v, base), base) && Val(Digits(v, base), base) == v
    decreases v
  {
    if v < base {
      ValOne(v, base);
    } else {
      DivMod(v, base);
      DigitsVal(v / base, base);
      var rest := Digits(v / base, base);
      ValCons(v % base, rest, base);
      if |rest| == 1 {
        ValOne(rest[0], base);
        assert rest == [rest[0]];
      }
    }
  }

  lemma {:induction false} ValDigits(digits: seq<nat>, base: nat)
    requires base > 1 && Canonical(digits, base)
    ensures Digits(Val(digits, base), base) == digits
    ensures |digits| > 1 || digits[0] > 0 ==> Val(digits, base) > 0
    decreases |digits|
  {
    var rest := digits[1..];
    assert digits == [digits[0]] + rest;
    if |digits| == 1 {
      ValOne(digits[0], base);
    } else {
      ValDigits(rest, base);
      var q := Val(rest, base);
      MulLe(1, q, base);
      DivModUnique(digits[0], q, base);
    }
  }

  // ---- Multiply and add, digit by digit with a carry ----

  function CarryDigits(carry: nat, base: nat): seq<nat>
    requires base > 1
    decreases carry
  {
    if carry == 0 then [] else
      DivMod(carry, base);
      [carry % base] + CarryDigits(carry / base, base)
  }

  function MulAdd(digits: seq<nat>, factor: nat, carry: nat, base: nat): seq<nat>
    requires base > 1
  {
    if digits == [] then CarryDigits(carry, base) else
      DivMod(digits[0] * factor + carry, base);
      [(digits[0] * factor + carry) % base] + MulAdd(digits[1..], factor, (digits[0] * factor + carry) / base, base)
  }

  lemma {:induction false} CarryVal(carry: nat, base: nat)
    requires base > 1
    ensures Val(CarryDigits(carry, base), base) == carry
    ensures forall i :: 0 <= i < |CarryDigits(carry, base)| ==> CarryDigits(carry, base)[i] < base
    ensures var ds := CarryDigits(carry, base); if carry > 0 then |ds| > 0 && ds[|ds| - 1] > 0 else ds == []
    decreases carry
  {
    if carry > 0 {
      DivMod(carry, base);
      CarryVal(carry / base, base);
      ValCons(carry % base, CarryDigits(carry / base, base), base);
    }
  }

  lemma {:induction false} MulAddVal(digits: seq<nat>, factor: nat, carry: nat, base: nat)
    requires base > 1
    ensures Val(MulAdd(digits, factor, carry, base), base) == Val(digits, base) * factor + carry
    decreases |digits|
  {
    if digits == [] {
      CarryVal(carry, base);
    } else {
      var d, rest := digits[0], digits[1..];
      var t := d * factor + carry;
      DivMod(t, base);
      MulAddVal(rest, factor, t / base, base);
      ValCons(t % base, MulAdd(rest, factor, t / base, base), base);
      Distribute(t % base, t / base, Val(rest, base), d, carry, factor, base);
    }
  }

  /** No superfluous zero appears. */
  lemma {:induction false} MulAddShape(digits: seq<nat>, factor: nat, carry: nat, base: nat)
    requires base > 1
    ensures var r := MulAdd(digits, factor, carry, base);
            && |r| >= |digits|
            && (forall i :: 0 <= i < |r| ==> r[i] < base)
            && (factor > 0 && |digits| > 0 && digits[|digits| - 1] > 0 ==> r[|r| - 1] > 0)
    decreases |digits|
  {
    if digits == [] {
      CarryVal(carry, base);
    } else {
      var t := digits[0] * factor + carry;
      DivMod(t, base);
      MulAddShape(digits[1..], factor, t / base, base);
      if factor > 0 && |digits| == 1 && digits[0] > 0 {
        CarryVal(t / base, base);
        MulLe(1, digits[0], factor);
      }
    }
  }

  lemma Distribute(r: nat, q: nat, v: nat, d: nat, carry: nat, factor: nat, base: nat)
    requires r + base * q == d * factor + carry
    ensures r + base * (v * factor + q) == (d + base * v) * factor + carry
  {
    assert base * (v * factor + q) == base * v * factor + base * q;
  }

  /** One round of the conversion: from the digits of `v` to those of `v * factor + carry`. */
  lemma MulAddDigits(v: nat, factor: nat, carry: nat, base: nat)
    requires base > 1 && factor > 0
    ensures MulAdd(Digits(v, base), factor, carry, base) == Digits(v * factor + carry, base)
  {
    var digits := Digits(v, base);
    var r := MulAdd(digits, factor, carry, base);
    DigitsVal(v, base);
    MulAddVal(digits, factor, carry, base);
    MulAddShape(digits, factor, carry, base);
    if |digits| == 1 && digits[0] == 0 {
      DivMod(carry, base);
      CarryVal(carry / base, base);
    }
    ValDigits(r, base);
  }

  // ---- Big-endian numbers ----

  function Number(s: seq<nat>, base: nat): nat {
    if s == [] then 0 else Number(s[..|s| - 1], base) * base + s[|s| - 1]
  }

  function Reversed(s: seq<nat>): seq<nat> {
    seq(|s|, i requires 0 <= i < |s| => s[|s| - 1 - i])
  }

  lemma {:induction false} NumberIsVal(s: seq<nat>, base: nat)
    ensures Number(s, base) == Val(Reversed(s), base)
  {
    if s != [] {
      var front, last := s[..|s| - 1], s[|s| - 1];
      NumberIsVal(front, base);
      assert Reversed(s) == [last] + Reversed(front);
      ValCons(last, Reversed(front), base);
    }
  }

  function LeadingZeros(s: seq<nat>): (n: nat)
    ensures n <= |s| && (forall i :: 0 <= i < n ==> s[i] == 0) && (n < |s| ==> s[n] != 0)
  {
    if s != [] && s[0] == 0 then 1 + LeadingZeros(s[1..]) else 0
  }

  function Zeros(n: nat): seq<nat> {
    seq(n, _ => 0)
  }

  /** Leading zeros do not count. */
  lemma {:induction false} NumberZeros(n: nat, s: seq<nat>, base: nat)
    ensures Number(Zeros(n) + s, base) == Number(s, base)
    decreases n + |s|
  {
    var t := Zeros(n) + s;
    if s != [] {
      NumberZeros(n, s[..|s| - 1], base);
      assert t[..|t| - 1] == Zeros(n) + s[..|s| - 1];
    } else if n > 0 {
      NumberZeros(n - 1, [], base);
      assert t[..|t| - 1] == Zeros(n - 1) + [];
      assert Number(t, base) == Number(t[..|t| - 1], base) * base + 0;
    }
  }

  /** A digit string that starts with a non-zero digit is the reverse of canonical digits. */
  lemma NoLeadingZero(s: seq<nat>, base: nat)
    requires base > 1 && |s| > 0 && s[0] != 0 && forall i :: 0 <= i < |s| ==> s[i] < base
    ensures Digits(Number(s, base), base) == Reversed(s) && Number(s, base) > 0
  {
    NumberIsVal(s, base);
    assert Canonical(Reversed(s), base);
    ValDigits(Reversed(s), base);
  }

  lemma ReversedTwice(s: seq<nat>)
    ensures Reversed(Reversed(s)) == s
  {
  }

  // ---- Alphabets ----

  /** The conversions work for every alphabet of distinct symbols. */
  predicate IsAlphabet(alphabet: string) {
    2 <= |alphabet| <= 256 && forall i, j :: 0 <= i < j < |alphabet| ==> alphabet[i] != alphabet[j]
  }

  predicate Ascending(s: string) {
    |s| > 0 && forall i, j :: 0 <= i < j < |s| ==> s[i] < s[j]
  }

  lemma AscendingConcat(a: string, b: string)
    requires Ascending(a) && Ascending(b) && a[|a| - 1] < b[0]
    ensures Ascending(a + b)
  {
    assert forall i :: 0 <= i < |a| ==> a[i] <= a[|a| - 1];
    assert forall j :: 0 <= j < |b| ==> b[0] <= b[j];
  }

  /** The alphabet ascends and consists of the digits and letters without `0`, `I`, `O` and `l`. */
  lemma AlphabetIsAlphabet()
    ensures |ALPHABET| == 58 && IsAlphabet(ALPHABET) && Ascending(ALPHABET)
    ensures forall c :: c in ALPHABET <==> Allowed(c)
  {
    AscendingConcat("123456789", "ABCDEFGH");
    AscendingConcat("123456789" + "ABCDEFGH", "JKLMN");
    AscendingConcat("123456789" + "ABCDEFGH" + "JKLMN", "PQRSTUVWXYZ");
    AscendingConcat("123456789" + "ABCDEFGH" + "JKLMN" + "PQRSTUVWXYZ", "abcdefghijk");
    AscendingConcat("123456789" + "ABCDEFGH" + "JKLMN" + "PQRSTUVWXYZ" + "abcdefghijk", "mnopqrstuvwxyz");
    forall c ensures c in ALPHABET <==> Allowed(c) {
      AlphabetHas(c);
    }
  }

  predicate Allowed(c: char) {
    || '1' <= c <= '9'
    || ('A' <= c <= 'Z' && c != 'I' && c != 'O')
    || ('a' <= c <= 'z' && c != 'l')
  }

  lemma AlphabetHas(c: char)
    ensures c in ALPHABET <==> Allowed(c)
  {
    InConcat("123456789", "ABCDEFGH", "JKLMN", "PQRSTUVWXYZ", "abcdefghijk", "mnopqrstuvwxyz", c);
    Stretches(c);
  }

  lemma InConcat(s1: string, s2: string, s3: string, s4: string, s5: string, s6: string, c: char)
    ensures c in s1 + s2 + s3 + s4 + s5 + s6 <==> c in s1 || c in s2 || c in s3 || c in s4 || c in s5 || c in s6
  {
  }

  lemma Stretches(c: char)
    ensures c in "123456789" <==> '1' <= c <= '9'
    ensures c in "ABCDEFGH" <==> 'A' <= c <= 'H'
    ensures c in "JKLMN" <==> 'J' <= c <= 'N'
    ensures c in "PQRSTUVWXYZ" <==> 'P' <= c <= 'Z'
    ensures c in "abcdefghijk" <==> 'a' <= c <= 'k'
    ensures c in "mnopqrstuvwxyz" <==> 'm' <= c <= 'z'
  {
    StretchHas("123456789", '1');
    StretchHas("ABCDEFGH", 'A');
    StretchHas("JKLMN", 'J');
    StretchHas("PQRSTUVWXYZ", 'P');
    StretchHas("abcdefghijk", 'a');
    StretchHas("mnopqrstuvwxyz", 'm');
  }

  /** A stretch of successive characters. */
  predicate Stretch(s: string, first: char) {
    forall i :: 0 <= i < |s| ==> s[i] as int == first as int + i
  }

  lemma StretchHas(s: string, first: char)
    requires Stretch(s, first)
    ensures forall c: char :: c in s <==> first as int <= c as int < first as int + |s|
  {
    forall c: char | first as int <= c as int < first as int + |s| ensures c in s {
      assert s[c as int - first as int] == c;
    }
  }

  function PositionFrom(alphabet: string, c: char, i: nat): (r: Option<nat>)
    requires i <= |alphabet|
    ensures r.Some? ==> i <= r.value < |alphabet| && alphabet[r.value] == c
    ensures r.None? ==> forall j :: i <= j < |alphabet| ==> alphabet[j] != c
    decreases |alphabet| - i
  {
    if i == |alphabet| then None
    else if alphabet[i] == c then Some(i)
    else PositionFrom(alphabet, c, i + 1)
  }

  function Position(alphabet: string, c: char): (r: Option<nat>)
    ensures r.Some? ==> r.value < |alphabet| && alphabet[r.value] == c
    ensures r.None? ==> c !in alphabet
  {
    PositionFrom(alphabet, c, 0)
  }

  function Symbols(alphabet: string, digits: seq<nat>): string
    requires forall i :: 0 <= i < |digits| ==> digits[i] < |alphabet|
  {
    seq(|digits|, i requires 0 <= i < |digits| => alphabet[digits[i]])
  }

  predicate AllSymbols(alphabet: string, s: string) {
    forall i :: 0 <= i < |s| ==> Position(alphabet, s[i]).Some?
  }

  function Values(alphabet: string, s: string): seq<nat>
    requires AllSymbols(alphabet, s)
  {
    seq(|s|, i requires 0 <= i < |s| => Position(alphabet, s[i]).value)
  }

  /** Symbols and digits determine each other. */
  lemma ValuesOfSymbols(alphabet: string, digits: seq<nat>)
    requires IsAlphabet(alphabet) && forall i :: 0 <= i < |digits| ==> digits[i] < |alphabet|
    ensures AllSymbols(alphabet, Symbols(alphabet, digits))
    ensures Values(alphabet, Symbols(alphabet, digits)) == digits
  {
  }

  lemma SymbolsOfValues(alphabet: string, s: string)
    requires AllSymbols(alphabet, s)
    ensures forall i :: 0 <= i < |s| ==> Values(alphabet, s)[i] < |alphabet|
    ensures Symbols(alphabet, Values(alphabet, s)) == s
  {
  }

  // ---- What the conversions compute ----

  /** One symbol for each leading zero byte, then the digits of the number, at least one. */
  function Encoded(alphabet: string, input: seq<Byte>): string
    requires IsAlphabet(alphabet)
  {
    var digits := Digits(Number(input, 256), |alphabet|);
    DigitsVal(Number(input, 256), |alphabet|);
    Symbols(alphabet, Zeros(LeadingZeros(input)) + Reversed(digits))
  }

  /** The index of the first character outside the alphabet. */
  function FirstUnknown(alphabet: string, s: string): (r: Option<nat>)
    ensures r.None? <==> AllSymbols(alphabet, s)
    ensures r.Some? ==> r.value < |s| && s[r.value] !in alphabet && AllSymbols(alphabet, s[..r.value])
  {
    if s == [] then None
    else if Position(alphabet, s[0]).None? then Some(0)
    else
      var r := FirstUnknown(alphabet, s[1..]);
      assert r.Some? ==> s[..r.value + 1] == [s[0]] + s[1..][..r.value];
      if r.Some? then Some(r.value + 1) else None
  }

  function LeadingOnes(alphabet: string, s: string): (n: nat)
    requires |alphabet| > 0
    ensures n <= |s| && (forall i :: 0 <= i < n ==> s[i] == alphabet[0]) && (n < |s| ==> s[n] != alphabet[0])
  {
    if s != [] && s[0] == alphabet[0] then 1 + LeadingOnes(alphabet, s[1..]) else 0
  }

  /** The zero bytes that stand for the leading symbols, as the decoder adds them. */
  function Padded(bytes: seq<nat>, zcount: nat): seq<nat> {
    var leadingZeros := LeadingZeros(Reversed(bytes));
    if zcount > leadingZeros then
      bytes + Zeros(zcount - if leadingZeros > 0 then leadingZeros + 1 else 0)
    else
      bytes
  }

  /** The decoded bytes, or the position of the first unknown symbol counted from the end of
      the leading ones. */
  function Decoded(alphabet: string, s: string): Result<seq<nat>, nat>
    requires IsAlphabet(alphabet)
  {
    var zcount := LeadingOnes(alphabet, s);
    var rest := s[zcount..];
    if FirstUnknown(alphabet, rest).Some? then
      Err(FirstUnknown(alphabet, rest).value)
    else
      Ok(Reversed(Padded(Digits(Number(Values(alphabet, rest), |alphabet|), 256), zcount)))
  }

  // ---- What the texts stand for ----

  /** Numbers are written with the most significant digit first. */
  lemma {:induction false} NumberOfFirst(d: nat, s: seq<nat>, base: nat)
    ensures Number([d] + s, base) == d * Power(base, |s|) + Number(s, base)
    decreases |s|
  {
    var t := [d] + s;
    if s == [] {
      assert t[..0] == [];
    } else {
      var n := |s| - 1;
      NumberOfFirst(d, s[..n], base);
      assert t[..|t| - 1] == [d] + s[..n];
      FirstDigit(d, Power(base, n), Number(s[..n], base), base);
    }
  }

  lemma FirstDigit(d: nat, p: nat, v: nat, base: nat)
    ensures (d * p + v) * base == d * (base * p) + v * base
  {
    assert d * (base * p) == d * p * base;
  }

  function Power(base: nat, n: nat): nat {
    if n == 0 then 1 else base * Power(base, n - 1)
  }

  /** A text stands for the same number as the bytes it encodes. */
  lemma EncodedKeepsNumber(alphabet: string, input: seq<Byte>)
    requires IsAlphabet(alphabet)
    ensures AllSymbols(alphabet, Encoded(alphabet, input))
    ensures Number(Values(alphabet, Encoded(alphabet, input)), |alphabet|) == Number(input, 256)
  {
    var base := |alphabet|;
    var digits := Digits(Number(input, 256), base);
    DigitsVal(Number(input, 256), base);
    ValuesOfSymbols(alphabet, Zeros(LeadingZeros(input)) + Reversed(digits));
    NumberZeros(LeadingZeros(input), Reversed(digits), base);
    NumberIsVal(Reversed(digits), base);
    ReversedTwice(digits);
  }

  // ---- Round trips ----

  lemma LeadingZerosOf(n: nat, s: seq<nat>)
    requires s == [] || s[0] != 0
    ensures LeadingZeros(Zeros(n) + s) == n
  {
    var t := Zeros(n) + s;
    assert forall i :: 0 <= i < n ==> t[i] == 0;
    assert s != [] ==> t[n] == s[0];
  }

  lemma LeadingOnesOf(alphabet: string, n: nat, digits: seq<nat>)
    requires IsAlphabet(alphabet) && forall i :: 0 <= i < |digits| ==> digits[i] < |alphabet|
    requires digits == [] || digits[0] != 0
    ensures LeadingOnes(alphabet, Symbols(alphabet, Zeros(n) + digits)) == n
    ensures Symbols(alphabet, Zeros(n) + digits)[n..] == Symbols(alphabet, digits)
  {
    var s := Symbols(alphabet, Zeros(n) + digits);
    assert forall i :: 0 <= i < n ==> s[i] == alphabet[0];
    assert digits != [] ==> s[n] == alphabet[digits[0]];
  }

  /** Padding a number that starts with a non-zero byte puts zeros in front of it. */
  lemma PaddedBody(body: seq<nat>, z: nat)
    requires |body| > 0 && body[0] != 0
    ensures Reversed(Padded(Reversed(body), z)) == Zeros(z) + body
  {
    ReversedTwice(body);
    assert LeadingZeros(body) == 0;
    assert Reversed(Reversed(body) + Zeros(z)) == Zeros(z) + body;
    assert Reversed(body) + Zeros(0) == Reversed(body);
  }

  /** The most significant digit of a positive number is not zero. */
  lemma TopDigit(v: nat, base: nat)
    requires base > 1 && v > 0
    ensures Reversed(Digits(v, base))[0] != 0
    ensures forall i :: 0 <= i < |Digits(v, base)| ==> Reversed(Digits(v, base))[i] < base
    ensures Number(Reversed(Digits(v, base)), base) == v
  {
    var digits := Digits(v, base);
    DigitsVal(v, base);
    if |digits| == 1 {
      ValOne(digits[0], base);
      assert digits == [digits[0]];
    }
    NumberIsVal(Reversed(digits), base);
    ReversedTwice(digits);
  }

  lemma AllZeros(s: seq<nat>)
    ensures s == Zeros(LeadingZeros(s)) + s[LeadingZeros(s)..]
  {
  }

  /** Decoding inverts encoding on exactly the non-empty byte strings. The empty one becomes
      a single leading symbol, which decodes to a zero byte. */
  lemma DecodeEncode(alphabet: string, input: seq<Byte>)
    requires IsAlphabet(alphabet)
    ensures Decoded(alphabet, Encoded(alphabet, input)) == Ok(input) <==> input != []
    ensures input == [] ==> Decoded(alphabet, Encoded(alphabet, input)) == Ok([0])
  {
    if input == [] {
      EncodeZeros(alphabet, 0);
      assert input == Zeros(0);
      DecodeOnes(alphabet, 1);
      assert Zeros(1) == [0];
    } else {
      DecodeEncodeNonEmpty(alphabet, input);
    }
  }

  lemma DecodeEncodeNonEmpty(alphabet: string, input: seq<Byte>)
    requires IsAlphabet(alphabet) && input != []
    ensures Decoded(alphabet, Encoded(alphabet, input)) == Ok(input)
  {
    var z := LeadingZeros(input);
    var body: seq<nat> := input[z..];
    AllZeros(input);
    NumberZeros(z, body, 256);
    if body != [] {
      DecodeEncodeBody(alphabet, z, body);
    } else {
      assert input == Zeros(z) && Number(input, 256) == 0;
      DecodeEncodeZeros(alphabet, z);
    }
  }

  lemma DecodeEncodeBody(alphabet: string, z: nat, body: seq<nat>)
    requires IsAlphabet(alphabet) && |body| > 0 && body[0] != 0 && forall i :: 0 <= i < |body| ==> body[i] < 256
    ensures var digits := Digits(Number(body, 256), |alphabet|);
            && (forall i :: 0 <= i < |Reversed(digits)| ==> Reversed(digits)[i] < |alphabet|)
            && Decoded(alphabet, Symbols(alphabet, Zeros(z) + Reversed(digits))) == Ok(Zeros(z) + body)
  {
    var v, base := Number(body, 256), |alphabet|;
    NoLeadingZero(body, 256);
    TopDigit(v, base);
    var rev := Reversed(Digits(v, base));
    LeadingOnesOf(alphabet, z, rev);
    ValuesOfSymbols(alphabet, rev);
    PaddedBody(body, z);
  }

  lemma DecodeEncodeZeros(alphabet: string, z: nat)
    requires IsAlphabet(alphabet) && z > 0
    ensures Decoded(alphabet, Symbols(alphabet, Zeros(z) + Reversed(Digits(0, |alphabet|)))) == Ok(Zeros(z))
  {
    assert Zeros(z) + Reversed(Digits(0, |alphabet|)) == Zeros(z + 1) + [];
    LeadingOnesOf(alphabet, z + 1, []);
    DecodeOnes(alphabet, z + 1);
  }

  /** A string of ones decodes to one zero byte less, but to at least one. */
  lemma DecodeOnes(alphabet: string, n: nat)
    requires IsAlphabet(alphabet)
    ensures Decoded(alphabet, Symbols(alphabet, Zeros(n))) == Ok(Zeros(if n < 2 then 1 else n - 1))
  {
    assert Zeros(n) + [] == Zeros(n);
    LeadingOnesOf(alphabet, n, []);
    var rest := Symbols(alphabet, Zeros(n))[n..];
    assert rest == [] && Values(alphabet, rest) == [];
    assert Digits(0, 256) == [0] && LeadingZeros(Reversed([0])) == 1;
    assert Reversed(Padded([0], n)) == Zeros(if n < 2 then 1 else n - 1);
  }

  /** Encoding inverts decoding on every string over the alphabet, apart from the empty
      string and the string of a single one. */
  lemma EncodeDecode(alphabet: string, s: string)
    requires IsAlphabet(alphabet) && AllSymbols(alphabet, s)
    ensures Decoded(alphabet, s).Ok? && forall i :: 0 <= i < |Decoded(alphabet, s).value| ==> Decoded(alphabet, s).value[i] < 256
    ensures Encoded(alphabet, Decoded(alphabet, s).value) == s <==> s != [] && s != [alphabet[0]]
  {
    var z := LeadingOnes(alphabet, s);
    var rest := s[z..];
    var values := Values(alphabet, rest);
    SymbolsOfValues(alphabet, rest);
    if rest != [] {
      assert values[0] != 0;
      EncodeDecodeBody(alphabet, z, values);
      SymbolsConcat(alphabet, z, values);
      assert s == s[..z] + rest;
      assert s[..z] == Symbols(alphabet, Zeros(z));
    } else {
      assert s == Symbols(alphabet, Zeros(z));
      DecodeOnes(alphabet, z);
      EncodeZeros(alphabet, if z < 2 then 1 else z - 1);
    }
  }

  /** Decoding fails exactly on the strings with a foreign character. The index reported is
      that of the first one, less the number of leading ones. */
  lemma {:induction false} DecodeFails(alphabet: string, s: string)
    requires IsAlphabet(alphabet)
    ensures Decoded(alphabet, s).Ok? <==> AllSymbols(alphabet, s)
    ensures var first := FirstUnknown(alphabet, s);
            first.Some? ==> first.value >= LeadingOnes(alphabet, s)
                            && Decoded(alphabet, s) == Err(first.value - LeadingOnes(alphabet, s))
    decreases |s|
  {
    if s != [] && s[0] == alphabet[0] {
      assert Position(alphabet, s[0]).Some?;
      DecodeFails(alphabet, s[1..]);
      var z := LeadingOnes(alphabet, s[1..]);
      assert s[1..][z..] == s[z + 1..];
    } else {
      assert s[0..] == s;
    }
  }

  lemma SymbolsConcat(alphabet: string, z: nat, digits: seq<nat>)
    requires IsAlphabet(alphabet) && forall i :: 0 <= i < |digits| ==> digits[i] < |alphabet|
    ensures Symbols(alphabet, Zeros(z) + digits) == Symbols(alphabet, Zeros(z)) + Symbols(alphabet, digits)
  {
  }

  lemma EncodeZeros(alphabet: string, n: nat)
    requires IsAlphabet(alphabet)
    ensures Encoded(alphabet, Zeros(n)) == Symbols(alphabet, Zeros(n + 1))
  {
    assert Zeros(n) + [] == Zeros(n);
    NumberZeros(n, [], 256);
    LeadingZerosOf(n, []);
    assert Zeros(n) + Reversed([0]) == Zeros(n + 1);
  }

  lemma EncodeDecodeBody(alphabet: string, z: nat, values: seq<nat>)
    requires IsAlphabet(alphabet) && |values| > 0 && values[0] != 0
    requires forall i :: 0 <= i < |values| ==> values[i] < |alphabet|
    ensures var bytes := Reversed(Padded(Digits(Number(values, |alphabet|), 256), z));
            && (forall i :: 0 <= i < |bytes| ==> bytes[i] < 256)
            && Encoded(alphabet, bytes) == Symbols(alphabet, Zeros(z) + values)
  {
    var base := |alphabet|;
    var v := Number(values, base);
    NoLeadingZero(values, base);
    TopDigit(v, 256);
    var body := Reversed(Digits(v, 256));
    ReversedTwice(Digits(v, 256));
    PaddedBody(body, z);
    LeadingZerosOf(z, body);
    NumberZeros(z, body, 256);
    ReversedTwice(values);
  }

  // ---- The conversions themselves ----

  /** The carry stays below the factor, the sum below 65536. */
  lemma RoundBound(d: nat, factor: nat, carry: nat, base: nat)
    requires 2 <= base <= 256 && 0 < factor <= 256 && carry < factor && d < base
    ensures d * factor + carry < 65536
    ensures 0 <= (d * factor + carry) / base < factor && 0 <= (d * factor + carry) % base < base
  {
    var t := d * factor + carry;
    MulLe(d + 1, base, factor);
    MulLe(base, 256, factor);
    assert t < base * factor <= 65536;
    DivMod(t, base);
    DivBound(t, base, factor);
  }

  lemma RoundStep(digits: seq<nat>, j: nat, factor: nat, carry: nat, base: nat)
    requires base > 1 && j < |digits|
    ensures var t := digits[j] * factor + carry;
            && t / base >= 0 && t % base >= 0
            && MulAdd(digits[j..], factor, carry, base) == [t % base] + MulAdd(digits[j + 1..], factor, t / base, base)
  {
    DivMod(digits[j] * factor + carry, base);
    assert digits[j..][1..] == digits[j + 1..];
  }

  /** Multiplies the digits by the factor and adds the carry; nothing exceeds 32 bits. */
  method Round(digits: seq<nat>, factor: nat, carry: nat, base: nat) returns (r: seq<nat>)
    requires 2 <= base <= 256 && 0 < factor <= 256 && carry < factor
    requires forall i :: 0 <= i < |digits| ==> digits[i] < base
    ensures r == MulAdd(digits, factor, carry, base)
  {
    r := digits;
    var rest: nat := carry;
    for j := 0 to |r|
      invariant |r| == |digits| && 0 <= rest < factor && r[j..] == digits[j..]
      invariant r[..j] + MulAdd(digits[j..], factor, rest, base) == MulAdd(digits, factor, carry, base)
    {
      RoundBound(digits[j], factor, rest, base);
      RoundStep(digits, j, factor, rest, base);
      rest := rest + r[j] * factor;
      assert rest < 0x1_0000_0000;
      r, rest := r[j := rest % base], rest / base;
      assert r[..j + 1] == r[..j] + [r[j]];
    }
    assert digits[|r|..] == [] && r[..|r|] == r;
    r := PushCarry(r, rest, base);
  }

  /** The second loop of the above: what is left of the carry makes new digits. */
  method PushCarry(digits: seq<nat>, carry: nat, base: nat) returns (r: seq<nat>)
    requires base > 1
    ensures r == digits + CarryDigits(carry, base)
  {
    r := digits;
    var rest: nat := carry;
    while rest > 0
      invariant r + CarryDigits(rest, base) == digits + CarryDigits(carry, base)
    {
      DivMod(rest, base);
      r := r + [rest % base];
      rest := rest / base;
    }
  }

  /** Encodes bytes in the alphabet. */
  method BaseEncode(alphabet: string, input: seq<Byte>) returns (text: string)
    requires IsAlphabet(alphabet)
    ensures text == Encoded(alphabet, input)
  {
    var base := |alphabet|;
    var digits := [0];
    assert digits == Digits(0, base);
    for n := 0 to |input|
      invariant digits == Digits(Number(input[..n], 256), base)
    {
      DigitsVal(Number(input[..n], 256), base);
      MulAddDigits(Number(input[..n], 256), 256, input[n], base);
      assert input[..n + 1][..n] == input[..n];
      digits := Round(digits, 256, input[n], base);
    }
    assert input[..|input|] == input;
    DigitsVal(Number(input, 256), base);
    text := Rendered(alphabet, input, digits);
  }

  /** A leading symbol for each zero byte, then the digits from the most significant on. */
  method Rendered(alphabet: string, input: seq<Byte>, digits: seq<nat>) returns (text: string)
    requires IsAlphabet(alphabet) && forall i :: 0 <= i < |digits| ==> digits[i] < |alphabet|
    ensures text == Symbols(alphabet, Zeros(LeadingZeros(input)) + Reversed(digits))
  {
    text := [];
    var k := 0;
    while k < |input| && input[k] == 0
      invariant k <= LeadingZeros(input) && text == Symbols(alphabet, Zeros(k))
    {
      text := text + [alphabet[0]];
      k := k + 1;
    }
    for j := 0 to |digits|
      invariant text == Symbols(alphabet, Zeros(k)) + Symbols(alphabet, Reversed(digits)[..j])
    {
      text := text + [alphabet[digits[|digits| - 1 - j]]];
    }
    SymbolsConcat(alphabet, k, Reversed(digits));
    assert Reversed(digits)[..|digits|] == Reversed(digits);
  }

  /** The bytes of the number that the symbols stand for, least significant first. */
  method ReadSymbols(alphabet: string, rest: string) returns (r: Result<seq<nat>, nat>)
    requires IsAlphabet(alphabet)
    ensures match FirstUnknown(alphabet, rest)
            case Some(i) => r == Err(i)
            case None => r == Ok(Digits(Number(Values(alphabet, rest), |alphabet|), 256))
  {
    var base := |alphabet|;
    var bytes := [0];
    assert bytes == Digits(0, 256);
    for i := 0 to |rest|
      invariant AllSymbols(alphabet, rest[..i])
      invariant bytes == Digits(Number(Values(alphabet, rest[..i]), base), 256)
    {
      var position := Position(alphabet, rest[i]);
      if position.None? {
        FirstUnknownIs(alphabet, rest, i);
        return Err(i);
      }
      ghost var v := Number(Values(alphabet, rest[..i]), base);
      DigitsVal(v, 256);
      MulAddDigits(v, base, position.value, 256);
      bytes := Round(bytes, base, position.value, 256);
      assert Values(alphabet, rest[..i + 1])[..i] == Values(alphabet, rest[..i]);
    }
    assert rest[..|rest|] == rest;
    r := Ok(bytes);
  }

  /** Decodes a string over the alphabet. */
  method BaseDecode(alphabet: string, input: string) returns (r: Result<seq<nat>, nat>)
    requires IsAlphabet(alphabet)
    ensures r == Decoded(alphabet, input)
  {
    var zcount := 0;
    while zcount < |input| && input[zcount] == alphabet[0]
      invariant zcount <= LeadingOnes(alphabet, input)
    {
      zcount := zcount + 1;
    }
    assert zcount == LeadingOnes(alphabet, input);
    r := ReadSymbols(alphabet, input[zcount..]);
    if r.Ok? {
      var bytes := r.value;
      var leadingZeros := CountZeros(bytes);
      if zcount > leadingZeros {
        var unpad := if leadingZeros > 0 then leadingZeros + 1 else 0;
        bytes := bytes + Zeros(zcount - unpad);
      }
      r := Ok(Reversed(bytes));
    }
  }

  lemma {:induction false} FirstUnknownIs(alphabet: string, s: string, i: nat)
    requires i < |s| && AllSymbols(alphabet, s[..i]) && Position(alphabet, s[i]).None?
    ensures FirstUnknown(alphabet, s) == Some(i)
  {
    assert i > 0 ==> s[0] == s[..i][0];
    if i > 0 {
      assert s[1..][..i - 1] == s[..i][1..];
      FirstUnknownIs(alphabet, s[1..], i - 1);
    }
  }

  /** The number of zeros at the most significant end. */
  method CountZeros(bytes: seq<nat>) returns (n: nat)
    ensures n == LeadingZeros(Reversed(bytes))
  {
    n := 0;
    while n < |bytes| && bytes[|bytes| - 1 - n] == 0
      invariant n <= LeadingZeros(Reversed(bytes)) <= |bytes|
    {
      assert Reversed(bytes)[n] == 0;
      n := n + 1;
    }
    assert n < |bytes| ==> Reversed(bytes)[n] != 0;
  }
}
