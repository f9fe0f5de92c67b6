// Machine words as bits, least significant first, with the operations the
// device number is split and packed with, and the numbers they stand for.
module Words {
  import opened Machine

  type Word = seq<bool>

  function Value(x: Word): nat {
    if x == [] then 0 else (if x[0] then 1 else 0) + 2 * Value(x[1..])
  }

  // The number n as a word; bits beyond the width are cut off.
  function Bits(n: nat, width: nat): (x: Word)
    ensures |x| == width
  {
    if width == 0 then [] else [n % 2 == 1] + Bits(n / 2, width - 1)
  }

  function Zeros(n: nat): (x: Word)
    ensures |x| == n
  {
    seq(n, i => false)
  }

  function Shr(x: Word, k: nat): (r: Word)
    requires k <= |x|
    ensures |r| == |x|
  {
    x[k..] + Zeros(k)
  }

  function Shl(x: Word, k: nat): (r: Word)
    requires k <= |x|
    ensures |r| == |x|
  {
    Zeros(k) + x[..|x| - k]
  }

  function And(x: Word, y: Word): (r: Word)
    requires |x| == |y|
    ensures |r| == |x|
  {
    seq(|x|, i requires 0 <= i < |x| => x[i] && y[i])
  }

  function Or(x: Word, y: Word): (r: Word)
    requires |x| == |y|
    ensures |r| == |x|
  {
    seq(|x|, i requires 0 <= i < |x| => x[i] || y[i])
  }

  function Not(x: Word): (r: Word)
    ensures |r| == |x|
  {
    seq(|x|, i requires 0 <= i < |x| => !x[i])
  }

  function Pow2(n: nat): (p: nat)
    ensures 0 < p
  {
    if n == 0 then 1 else 2 * Pow2(n - 1)
  }

  lemma {:induction false} Powers()
    ensures Pow2(8) == 0x100 && Pow2(12) == 0x1000 && Pow2(20) == 0x10_0000
    ensures Pow2(32) == 0x1_0000_0000 && Pow2(44) == 0x1000_0000_0000
    ensures Pow2(64) == 0x1_0000_0000_0000_0000
  {
    Quadruple(0); Quadruple(4); Quadruple(8); Quadruple(12);
    Quadruple(16); Quadruple(20); Quadruple(24); Quadruple(28);
    Quadruple(32); Quadruple(36); Quadruple(40); Quadruple(44);
    Quadruple(48); Quadruple(52); Quadruple(56); Quadruple(60);
  }

  // The integer types of the program are its machine words.
  lemma {:induction false} Widths()
    ensures U8_MAX == Pow2(8) - 1 && U32_MAX == Pow2(32) - 1 && U64_MAX == Pow2(64) - 1
  {
    Powers();
  }

  lemma {:induction false} Quadruple(n: nat)
    ensures Pow2(n + 4) == 16 * Pow2(n)
  {
    assert Pow2(n + 4) == 2 * Pow2(n + 3);
    assert Pow2(n + 2) == 2 * Pow2(n + 1);
  }

  lemma {:induction false} ValueOfBits(n: nat, width: nat)
    requires n < Pow2(width)
    ensures Value(Bits(n, width)) == n
  {
    if width != 0 { ValueOfBits(n / 2, width - 1); }
  }

  lemma {:induction false} ValueOfZeros(n: nat)
    ensures Value(Zeros(n)) == 0
  {
    if n != 0 {
      assert Zeros(n)[1..] == Zeros(n - 1);
      ValueOfZeros(n - 1);
    }
  }

  lemma {:induction false} NoBits(x: Word)
    requires Value(x) == 0
    ensures forall i :: 0 <= i < |x| ==> !x[i]
  {
    if x != [] { NoBits(x[1..]); }
  }

  lemma {:induction false} ValueBelow(x: Word)
    ensures Value(x) < Pow2(|x|)
  {
    if x != [] { ValueBelow(x[1..]); }
  }

  lemma {:induction false} ValueConcat(x: Word, y: Word)
    ensures Value(x + y) == Value(x) + Pow2(|x|) * Value(y)
  {
    if x == [] {
      assert x + y == y;
    } else {
      assert (x + y)[1..] == x[1..] + y;
      ValueConcat(x[1..], y);
      var p, v := Pow2(|x| - 1), Value(y);
      assert Value(x + y) == (if x[0] then 1 else 0) + 2 * (Value(x[1..]) + p * v);
      TwiceProduct(p, v);
    }
  }

  lemma {:induction false} TwiceProduct(p: nat, v: nat)
    ensures 2 * (p * v) == (2 * p) * v
  {
  }

  // Low bits are a remainder and high bits a quotient.
  lemma {:induction false} Cut(x: Word, k: nat, p: nat)
    requires k <= |x| && p == Pow2(k)
    ensures Value(x) == p * Value(x[k..]) + Value(x[..k])
    ensures Value(x) % p == Value(x[..k]) && Value(x) / p == Value(x[k..])
  {
    assert x == x[..k] + x[k..];
    ValueConcat(x[..k], x[k..]);
    ValueBelow(x[..k]);
    QuotientAndRemainder(Value(x), p, Value(x[k..]), Value(x[..k]));
  }

  // A number below 2^k has its bits below k.
  lemma {:induction false} LowBits(x: Word, k: nat, p: nat)
    requires k <= |x| && p == Pow2(k) && Value(x) < p
    ensures Value(x[..k]) == Value(x)
    ensures forall i :: k <= i < |x| ==> !x[i]
  {
    Cut(x, k, p);
    QuotientAtLeast(Value(x), p, 1);
    NoBits(x[k..]);
    forall i | k <= i < |x|
      ensures !x[i]
    {
      assert x[i] == x[k..][i - k];
    }
  }

  lemma {:induction false} QuotientAndRemainder(a: nat, p: nat, q: nat, r: nat)
    requires r < p && a == p * q + r
    ensures a % p == r && a / p == q
  {
    QuotientIs(a, p, q);
    var d := a / p;
    assert a == p * d + a % p;
  }

  lemma {:induction false} QuotientIs(a: nat, p: nat, q: nat)
    requires 0 < p && p * q <= a < p * q + p
    ensures a / p == q
  {
    NextMultiple(p, q);
    QuotientAtLeast(a, p, q);
    QuotientAtLeast(a, p, q + 1);
  }

  lemma {:induction false} NextMultiple(p: nat, q: nat)
    ensures q * p == p * q && (q + 1) * p == p * q + p
  {
  }

  // Zeros on top do not change the number.
  lemma {:induction false} ZerosOnTop(x: Word, n: nat)
    ensures Value(x + Zeros(n)) == Value(x)
  {
    ValueConcat(x, Zeros(n));
    ValueOfZeros(n);
  }

  lemma {:induction false} ShortWord(x: Word, k: nat)
    requires k <= |x| && forall i :: k <= i < |x| ==> !x[i]
    ensures Value(x) < Pow2(k)
  {
    assert x == x[..k] + Zeros(|x| - k);
    ZerosOnTop(x[..k], |x| - k);
    ValueBelow(x[..k]);
  }
}
