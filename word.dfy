/**
 * The unsigned value of a 16-bit word (a Rust `u16`), defined bit by bit so
 * that the bitwise accessors of the identifier codec can be given their
 * arithmetic meaning: a right shift divides, a mask keeps a remainder.
 */
module Word {

  /** Bit 0 of `x`, as a number. */
  function LowBit(x: bv16): nat
  {
    if x & 1 == 1 then 1 else 0
  }

  /** The word holding only the parity of `n` in bit 0. */
  function ParityWord(n: nat): bv16
  {
    if n % 2 == 1 then 1 else 0
  }

  /** The unsigned value of `x`: its low bit plus twice the value of the rest. */
  function Nat(x: bv16): nat
    decreases x
  {
    if x == 0 then 0 else 2 * Nat(x >> 1) + LowBit(x)
  }

  /** The word whose value is `n` modulo 2^16, built from the low bit up. */
  function FromNat(n: nat): bv16
  {
    if n == 0 then 0 else (FromNat(n / 2) << 1) | ParityWord(n)
  }

  /** Bit 0 of `x` is the parity of its value; the other bits are half of it. */
  lemma NatLowBit(x: bv16)
    ensures Nat(x) % 2 == LowBit(x)
    ensures Nat(x >> 1) == Nat(x) / 2
  {
  }

  /** Only the zero word has value zero. */
  lemma {:induction false} NatPositive(x: bv16)
    requires x != 0
    ensures Nat(x) > 0
    decreases x
  {
    if LowBit(x) == 0 {
      NonZeroHalf(x);
      NatPositive(x >> 1);
    }
  }

  /** Reading a word's value back gives the word: `Nat` loses nothing. */
  lemma {:induction false} FromNatNat(x: bv16)
    ensures FromNat(Nat(x)) == x
    decreases x
  {
    if x != 0 {
      NatPositive(x);
      NatLowBit(x);
      FromNatNat(x >> 1);
      Recompose(x, Nat(x));
    }
  }

  /** Two words with the same value are the same word. */
  lemma NatInjective(a: bv16, b: bv16)
    requires Nat(a) == Nat(b)
    ensures a == b
  {
    FromNatNat(a);
    FromNatNat(b);
  }

  /** Shifting right by three bits divides the value by eight. */
  lemma NatShr3(x: bv16)
    ensures Nat(x >> 3) == Nat(x) / 8
  {
    ShrCompose(x);
    var x1 := x >> 1;
    var x2 := x1 >> 1;
    assert Nat(x1) == Nat(x) / 2 by { NatLowBit(x); }
    assert Nat(x2) == Nat(x1) / 2 by { NatLowBit(x1); }
    assert Nat(x2 >> 1) == Nat(x2) / 2 by { NatLowBit(x2); }
    DivideTwice(Nat(x));
  }

  /** Shifting left by one bit doubles the value when the top bit is clear. */
  lemma NatShl1(y: bv16)
    requires y < 0x8000
    ensures Nat(y << 1) == 2 * Nat(y)
  {
    ShlShr(y);
    NatLowBit(y << 1);
  }

  /** Shifting left by three bits multiplies the value by eight when no bit is lost. */
  lemma NatShl3(y: bv16)
    requires y < 0x2000
    ensures Nat(y << 3) == 8 * Nat(y)
  {
    ShlCompose(y);
    var y1 := y << 1;
    var y2 := y1 << 1;
    assert Nat(y1) == 2 * Nat(y) by { NatShl1(y); }
    assert Nat(y2) == 2 * Nat(y1) by { NatShl1(y1); }
    assert Nat(y2 << 1) == 2 * Nat(y2) by { NatShl1(y2); }
  }

  // Small facts about words and numbers that the lemmas above combine.

  lemma NonZeroHalf(x: bv16)
    requires x != 0 && LowBit(x) == 0
    ensures x >> 1 != 0
  {
  }

  lemma Recompose(x: bv16, n: nat)
    requires n != 0 && FromNat(n / 2) == x >> 1
    requires n % 2 == LowBit(x)
    ensures FromNat(n) == x
  {
    assert ParityWord(n) == (if LowBit(x) == 1 then 1 else 0);
    SplitLowBit(x);
  }

  lemma SplitLowBit(x: bv16)
    ensures x == ((x >> 1) << 1) | (if LowBit(x) == 1 then 1 else 0)
  {
  }

  lemma ShlShr(y: bv16)
    requires y < 0x8000
    ensures (y << 1) >> 1 == y && LowBit(y << 1) == 0 && (y == 0 <==> y << 1 == 0)
  {
  }

  lemma ShlCompose(y: bv16)
    requires y < 0x2000
    ensures y << 1 < 0x8000 && (y << 1) << 1 < 0x8000
    ensures ((y << 1) << 1) << 1 == y << 3
  {
  }

  lemma ShrCompose(x: bv16)
    ensures (x >> 1) >> 1 == x >> 2
    ensures (x >> 2) >> 1 == x >> 3
  {
  }

  lemma DivideTwice(n: nat)
    ensures n / 2 / 2 == n / 4
    ensures n / 4 / 2 == n / 8
  {
  }
}
