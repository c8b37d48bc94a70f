/** What pins the functions of SHA-256: their words bit by bit. */
module Fips180Bits {
  import opened Fips180

  /** The bit i places from the right; places count modulo 32. */
  predicate Bit(w: Word, i: bv5) {
    (w >> i) & 1 == 1
  }

  // ----- sections 2.2.2 and 3.2 -----

  lemma NotWord(w: Word, x: Word, i: bv5)
    requires w == !x
    ensures Bit(w, i) == !Bit(x, i)
  {
  }

  lemma AndWord(w: Word, x: Word, y: Word, i: bv5)
    requires w == x & y
    ensures Bit(w, i) == (Bit(x, i) && Bit(y, i))
  {
  }

  lemma XorWord(w: Word, x: Word, y: Word, i: bv5)
    requires w == x ^ y
    ensures Bit(w, i) == (Bit(x, i) != Bit(y, i))
  {
  }

  lemma NotBit(x: Word, i: bv5)
    ensures Bit(Not(x), i) == !Bit(x, i)
  {
    hide Bit;
    NotWord(Not(x), x, i);
  }

  lemma AndBit(x: Word, y: Word, i: bv5)
    ensures Bit(And(x, y), i) == (Bit(x, i) && Bit(y, i))
  {
    hide Bit;
    AndWord(And(x, y), x, y, i);
  }

  lemma XorBit(x: Word, y: Word, i: bv5)
    ensures Bit(Xor(x, y), i) == (Bit(x, i) != Bit(y, i))
  {
    hide Bit;
    XorWord(Xor(x, y), x, y, i);
  }

  predicate Parity(a: bool, b: bool, c: bool) {
    (a != b) != c
  }

  lemma ThreeBits(x: Word, y: Word, z: Word, i: bv5)
    ensures Bit(Xor(Xor(x, y), z), i) == Parity(Bit(x, i), Bit(y, i), Bit(z, i))
  {
    hide Bit, Xor;
    XorBit(x, y, i);
    XorBit(Xor(x, y), z, i);
  }

  lemma RotR2(x: Word, i: bv5) ensures Bit(RotR(2, x), i) == Bit(x, i + 2) {}

  lemma RotR6(x: Word, i: bv5) ensures Bit(RotR(6, x), i) == Bit(x, i + 6) {}

  lemma RotR7(x: Word, i: bv5) ensures Bit(RotR(7, x), i) == Bit(x, i + 7) {}

  lemma RotR11(x: Word, i: bv5) ensures Bit(RotR(11, x), i) == Bit(x, i + 11) {}

  lemma RotR13(x: Word, i: bv5) ensures Bit(RotR(13, x), i) == Bit(x, i + 13) {}

  lemma RotR17(x: Word, i: bv5) ensures Bit(RotR(17, x), i) == Bit(x, i + 17) {}

  lemma RotR18(x: Word, i: bv5) ensures Bit(RotR(18, x), i) == Bit(x, i + 18) {}

  lemma RotR19(x: Word, i: bv5) ensures Bit(RotR(19, x), i) == Bit(x, i + 19) {}

  lemma RotR22(x: Word, i: bv5) ensures Bit(RotR(22, x), i) == Bit(x, i + 22) {}

  lemma RotR25(x: Word, i: bv5) ensures Bit(RotR(25, x), i) == Bit(x, i + 25) {}

  lemma ShR3(x: Word, i: bv5) ensures Bit(ShR(3, x), i) == (i < 29 && Bit(x, i + 3)) {}

  lemma ShR10(x: Word, i: bv5) ensures Bit(ShR(10, x), i) == (i < 22 && Bit(x, i + 10)) {}

  // ----- section 4.1.2 -----

  lemma ChSelects(x: Word, y: Word, z: Word, i: bv5)
    ensures Bit(Ch(x, y, z), i) == if Bit(x, i) then Bit(y, i) else Bit(z, i)
  {
    hide Bit, Xor, And, Not;
    XorBit(And(x, y), And(Not(x), z), i);
    AndBit(x, y, i);
    AndBit(Not(x), z, i);
    NotBit(x, i);
  }

  lemma MajIsMajority(x: Word, y: Word, z: Word, i: bv5)
    ensures Bit(Maj(x, y, z), i) == if Bit(x, i) then Bit(y, i) || Bit(z, i) else Bit(y, i) && Bit(z, i)
  {
    hide Bit, Xor, And;
    ThreeBits(And(x, y), And(x, z), And(y, z), i);
    AndBit(x, y, i);
    AndBit(x, z, i);
    AndBit(y, z, i);
  }

  /** Each upper sigma is the parity of three bits, cyclically to the left. */
  lemma BigSigmasAreParities(x: Word, i: bv5)
    ensures Bit(BigSigma0(x), i) == Parity(Bit(x, i + 2), Bit(x, i + 13), Bit(x, i + 22))
    ensures Bit(BigSigma1(x), i) == Parity(Bit(x, i + 6), Bit(x, i + 11), Bit(x, i + 25))
  {
    hide Bit, Parity, Xor, RotR;
    ThreeBits(RotR(2, x), RotR(13, x), RotR(22, x), i);
    RotR2(x, i);
    RotR13(x, i);
    RotR22(x, i);
    ThreeBits(RotR(6, x), RotR(11, x), RotR(25, x), i);
    RotR6(x, i);
    RotR11(x, i);
    RotR25(x, i);
  }

  /** In the lower sigmas the third bit does not come round. */
  lemma SmallSigmasAreParities(x: Word, i: bv5)
    ensures Bit(SmallSigma0(x), i) == Parity(Bit(x, i + 7), Bit(x, i + 18), i < 29 && Bit(x, i + 3))
    ensures Bit(SmallSigma1(x), i) == Parity(Bit(x, i + 17), Bit(x, i + 19), i < 22 && Bit(x, i + 10))
  {
    hide Bit, Parity, Xor, RotR, ShR;
    ThreeBits(RotR(7, x), RotR(18, x), ShR(3, x), i);
    RotR7(x, i);
    RotR18(x, i);
    ShR3(x, i);
    ThreeBits(RotR(17, x), RotR(19, x), ShR(10, x), i);
    RotR17(x, i);
    RotR19(x, i);
    ShR10(x, i);
  }

  // ----- section 3.2: addition -----

  /** The next binary number; the one after the last is zero. */
  lemma Successor(x: Word)
    ensures Plus(x, 1) == if x & 1 == 0 then x | 1 else Plus(x >> 1, 1) << 1
  {
  }

  lemma PlusOne(x: Word)
    ensures Plus(x, 1) == x + 1
  {
  }

  lemma PlusNext(x: Word, y: Word)
    ensures Plus(x, y + 1) == Plus(x, y) + 1
  {
  }

  lemma PlusIsAddition(x: Word, y: Word)
    ensures Plus(x, 0) == x
    ensures Plus(x, Plus(y, 1)) == Plus(Plus(x, y), 1)
  {
    assert Plus(x, 0) == x;
    hide Plus;
    PlusOne(y);
    PlusOne(Plus(x, y));
    PlusNext(x, y);
  }
}
