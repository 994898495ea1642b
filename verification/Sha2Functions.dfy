/**
 The 64-bit words of SHA-384 and SHA-512 (Sha2Ext.sol:190-222) and what sections 3.1, 3.2 and 4.1.3 of FIPS 180-4 say of
 them: rotations and logical functions bit by bit, addition as addition of numbers, and words as eight bytes.
 */
module Sha2Functions {
  import opened Basics

  type Words = seq<bv64>

  // ---------------------------------------------------------------- as the contract computes them

  function Xor(x: bv64, y: bv64): bv64 { x ^ y }

  function And(x: bv64, y: bv64): bv64 { x & y }

  function Not(x: bv64): bv64 { !x }

  function ShiftRight(x: bv64, n: bv64): bv64
    requires n < 64
  {
    x >> n
  }

  /** Unchecked uint64 addition. */
  function Add(x: bv64, y: bv64): bv64 { x + y }

  function RotateRight(x: bv64, n: bv64): bv64
    requires 0 < n < 64
  {
    (x << (64 - n)) | (x >> n)
  }

  function Ch(x: bv64, y: bv64, z: bv64): bv64 { Xor(And(x, y), And(Not(x), z)) }

  function Maj(x: bv64, y: bv64, z: bv64): bv64 { Xor(Xor(And(x, y), And(x, z)), And(y, z)) }

  function Sigma0(x: bv64): bv64 { Xor(Xor(RotateRight(x, 28), RotateRight(x, 34)), RotateRight(x, 39)) }

  function Sigma1(x: bv64): bv64 { Xor(Xor(RotateRight(x, 14), RotateRight(x, 18)), RotateRight(x, 41)) }

  function Gamma0(x: bv64): bv64 { Xor(Xor(RotateRight(x, 1), RotateRight(x, 8)), ShiftRight(x, 7)) }

  function Gamma1(x: bv64): bv64 { Xor(Xor(RotateRight(x, 19), RotateRight(x, 61)), ShiftRight(x, 6)) }

  /** `readUint64`: the number that eight bytes are, as a word. */
  function WordAt(b: bytes, i: nat): bv64
    requires i + 8 <= |b|
  {
    assert FromBE(b[i..i + 8]) < Pow256(8);
    ToWord(FromBE(b[i..i + 8]))
  }

  function ToWord(n: nat): bv64
    requires n < TWO_64
  {
    n as bv64
  }

  // ---------------------------------------------------------------- bit by bit

  /** Bit `i` of a word, counted from the lowest; places are counted modulo 64. */
  predicate Bit(x: bv64, i: bv6) { (x >> i) & 1 == 1 }

  lemma XorBits(x: bv64, y: bv64, i: bv6)
    ensures Bit(x ^ y, i) <==> Bit(x, i) != Bit(y, i)
  {}

  lemma XorBit(x: bv64, y: bv64, i: bv6)
    ensures Bit(Xor(x, y), i) <==> Bit(x, i) != Bit(y, i)
  {
    hide Bit;
    XorBits(x, y, i);
  }

  lemma AndBit(x: bv64, y: bv64, i: bv6)
    ensures Bit(And(x, y), i) <==> Bit(x, i) && Bit(y, i)
  {}

  lemma NotBit(x: bv64, i: bv6)
    ensures Bit(Not(x), i) <==> !Bit(x, i)
  {}

  /** Section 3.2: a rotation to the right by n brings bit i + n to place i. */
  lemma RotateBy1(x: bv64, i: bv6)
    ensures Bit(RotateRight(x, 1), i) == Bit(x, i + 1)
  {}

  lemma RotateBy8(x: bv64, i: bv6)
    ensures Bit(RotateRight(x, 8), i) == Bit(x, i + 8)
  {}

  lemma RotateBy14(x: bv64, i: bv6)
    ensures Bit(RotateRight(x, 14), i) == Bit(x, i + 14)
  {}

  lemma RotateBy18(x: bv64, i: bv6)
    ensures Bit(RotateRight(x, 18), i) == Bit(x, i + 18)
  {}

  lemma RotateBy19(x: bv64, i: bv6)
    ensures Bit(RotateRight(x, 19), i) == Bit(x, i + 19)
  {}

  lemma RotateBy28(x: bv64, i: bv6)
    ensures Bit(RotateRight(x, 28), i) == Bit(x, i + 28)
  {}

  lemma RotateBy34(x: bv64, i: bv6)
    ensures Bit(RotateRight(x, 34), i) == Bit(x, i + 34)
  {}

  lemma RotateBy39(x: bv64, i: bv6)
    ensures Bit(RotateRight(x, 39), i) == Bit(x, i + 39)
  {}

  lemma RotateBy41(x: bv64, i: bv6)
    ensures Bit(RotateRight(x, 41), i) == Bit(x, i + 41)
  {}

  lemma RotateBy61(x: bv64, i: bv6)
    ensures Bit(RotateRight(x, 61), i) == Bit(x, i + 61)
  {}

  /** A shift to the right leaves zeros above. */
  lemma ShiftBy7(x: bv64, i: bv6)
    ensures Bit(ShiftRight(x, 7), i) <==> i < 57 && Bit(x, i + 7)
  {}

  lemma ShiftBy6(x: bv64, i: bv6)
    ensures Bit(ShiftRight(x, 6), i) <==> i < 58 && Bit(x, i + 6)
  {}

  /** Equation (4.8): x chooses between y and z. */
  lemma ChBit(x: bv64, y: bv64, z: bv64, i: bv6)
    ensures Bit(Ch(x, y, z), i) == if Bit(x, i) then Bit(y, i) else Bit(z, i)
  {
    hide Bit, Xor, And, Not;
    XorBit(And(x, y), And(Not(x), z), i);
    AndBit(x, y, i);
    AndBit(Not(x), z, i);
    NotBit(x, i);
  }

  predicate AtLeastTwo(a: bool, b: bool, c: bool) { if a then b || c else b && c }

  /** Equation (4.9): the majority of the three. */
  lemma MajBit(x: bv64, y: bv64, z: bv64, i: bv6)
    ensures Bit(Maj(x, y, z), i) == AtLeastTwo(Bit(x, i), Bit(y, i), Bit(z, i))
  {
    hide Bit, Xor, And;
    XorBit(Xor(And(x, y), And(x, z)), And(y, z), i);
    XorBit(And(x, y), And(x, z), i);
    AndBit(x, y, i);
    AndBit(x, z, i);
    AndBit(y, z, i);
  }

  /** Equation (4.10): rotations by 28, 34 and 39. */
  lemma Sigma0Bit(x: bv64, i: bv6)
    ensures Bit(Sigma0(x), i) <==> (Bit(x, i + 28) != (Bit(x, i + 34) != Bit(x, i + 39)))
  {
    hide Bit, Xor, RotateRight;
    XorBit(Xor(RotateRight(x, 28), RotateRight(x, 34)), RotateRight(x, 39), i);
    XorBit(RotateRight(x, 28), RotateRight(x, 34), i);
    RotateBy28(x, i);
    RotateBy34(x, i);
    RotateBy39(x, i);
  }

  /** Equation (4.11): rotations by 14, 18 and 41. */
  lemma Sigma1Bit(x: bv64, i: bv6)
    ensures Bit(Sigma1(x), i) <==> (Bit(x, i + 14) != (Bit(x, i + 18) != Bit(x, i + 41)))
  {
    hide Bit, Xor, RotateRight;
    XorBit(Xor(RotateRight(x, 14), RotateRight(x, 18)), RotateRight(x, 41), i);
    XorBit(RotateRight(x, 14), RotateRight(x, 18), i);
    RotateBy14(x, i);
    RotateBy18(x, i);
    RotateBy41(x, i);
  }

  /** Equation (4.12): rotations by 1 and 8, and a shift by 7. */
  lemma Gamma0Bit(x: bv64, i: bv6)
    ensures Bit(Gamma0(x), i) <==> (Bit(x, i + 1) != (Bit(x, i + 8) != (i < 57 && Bit(x, i + 7))))
  {
    hide Bit, Xor, RotateRight, ShiftRight;
    XorBit(Xor(RotateRight(x, 1), RotateRight(x, 8)), ShiftRight(x, 7), i);
    XorBit(RotateRight(x, 1), RotateRight(x, 8), i);
    RotateBy1(x, i);
    RotateBy8(x, i);
    ShiftBy7(x, i);
  }

  /** Equation (4.13): rotations by 19 and 61, and a shift by 6. */
  lemma Gamma1Bit(x: bv64, i: bv6)
    ensures Bit(Gamma1(x), i) <==> (Bit(x, i + 19) != (Bit(x, i + 61) != (i < 58 && Bit(x, i + 6))))
  {
    hide Bit, Xor, RotateRight, ShiftRight;
    XorBit(Xor(RotateRight(x, 19), RotateRight(x, 61)), ShiftRight(x, 6), i);
    XorBit(RotateRight(x, 19), RotateRight(x, 61), i);
    RotateBy19(x, i);
    RotateBy61(x, i);
    ShiftBy6(x, i);
  }

  // ---------------------------------------------------------------- the numbers that words are

  /** The number of a word, its bits being the binary digits. */
  function Number(x: bv64): nat { x as nat }

  function Half(x: bv64): bv64 { x >> 1 }

  predicate Odd(x: bv64) { x & 1 == 1 }

  function Even(h: bv64): bv64 { h << 1 }

  function Successor(x: bv64): bv64 { x + 1 }

  lemma HalfOfEven(x: bv64)
    requires !Odd(x)
    ensures Even(Half(x)) == x
  {}

  lemma HalfOfOdd(x: bv64)
    requires Odd(x)
    ensures Successor(Even(Half(x))) == x
  {}

  lemma ShiftedNumber(h: bv64)
    requires h < 0x8000_0000_0000_0000
    ensures (h << 1) as nat == 2 * (h as nat)
  {}

  lemma ShiftedAndOne(h: bv64)
    ensures ((h << 1) + 1) as nat == (h << 1) as nat + 1
  {}

  lemma SmallNumber(h: bv64)
    requires h as nat < TWO_63
    ensures h < 0x8000_0000_0000_0000
  {}

  lemma EvenIsShifted(h: bv64)
    ensures Even(h) as nat == (h << 1) as nat
  {}

  lemma OddIsShifted(h: bv64)
    ensures Successor(Even(h)) as nat == ((h << 1) + 1) as nat
  {}

  lemma HalfIsSmall(x: bv64)
    ensures (x >> 1) < 0x8000_0000_0000_0000
  {}

  lemma HalfIsShifted(x: bv64)
    ensures Half(x) as nat == (x >> 1) as nat
  {}

  lemma EvenNumber(h: bv64)
    requires Number(h) < TWO_63
    ensures Number(Even(h)) == 2 * Number(h)
  {
    hide Even;
    SmallNumber(h);
    ShiftedNumber(h);
    EvenIsShifted(h);
  }

  lemma OddNumber(h: bv64)
    ensures Number(Successor(Even(h))) == Number(Even(h)) + 1
  {
    hide Even, Successor;
    ShiftedAndOne(h);
    EvenIsShifted(h);
    OddIsShifted(h);
  }

  lemma HalfNumber(x: bv64)
    ensures Number(Half(x)) < TWO_63
  {
    hide Half;
    HalfIsSmall(x);
    ShiftedNumber(x >> 1);
    HalfIsShifted(x);
  }

  lemma ZeroNumber()
    ensures Number(0) == 0
  {}

  /** Every number below 2^64 is that of a word. */
  lemma {:induction false} WordExists(n: nat) returns (x: bv64)
    requires n < TWO_64
    ensures Number(x) == n
    decreases n
  {
    hide Even, Successor, Number;
    if n == 0 {
      ZeroNumber();
      x := 0;
    } else {
      var h := WordExists(n / 2);
      EvenNumber(h);
      OddNumber(h);
      x := if n % 2 == 0 then Even(h) else Successor(Even(h));
    }
  }

  lemma NumberBack(x: bv64)
    ensures ToWord(Number(x)) == x
  {}

  /** The conversion gives the word with that number. */
  lemma WordBack(n: nat)
    requires n < TWO_64
    ensures Number(ToWord(n)) == n
  {
    hide ToWord, Number;
    var x := WordExists(n);
    NumberBack(x);
  }

  // ---------------------------------------------------------------- addition

  lemma SuccessorOfOdd(h: bv64)
    ensures Successor(Successor(Even(h))) == Even(Successor(h))
  {}

  /** An odd number is one more than twice its half, and the next one is twice the next of its half. */
  lemma OddNumbers(x: bv64)
    requires Odd(x)
    ensures Number(x) == Number(Successor(Even(Half(x))))
    ensures Number(Successor(x)) == Number(Even(Successor(Half(x))))
  {
    hide Half, Odd, Even, Successor, Number;
    HalfOfOdd(x);
    SuccessorOfOdd(Half(x));
  }

  lemma EvenNumbers(x: bv64)
    requires !Odd(x)
    ensures Number(x) == Number(Even(Half(x))) && Number(Successor(x)) == Number(Successor(Even(Half(x))))
  {
    hide Half, Odd, Even, Successor, Number;
    HalfOfEven(x);
  }

  lemma WrappedNumber(h: bv64)
    requires h as nat == TWO_63
    ensures (h << 1) as nat == 0
  {}

  lemma TopNumber(h: bv64)
    requires Number(h) == TWO_63
    ensures Number(Even(h)) == 0
  {
    hide Even;
    WrappedNumber(h);
    EvenIsShifted(h);
  }

  /** One more, and after 2^64 - 1 around to zero. */
  lemma {:induction false} SuccessorNumber(x: bv64)
    ensures Number(Successor(x)) == (Number(x) + 1) % TWO_64
    decreases Number(x)
  {
    hide Half, Odd, Even, Successor, Number;
    var h := Half(x);
    HalfNumber(x);
    EvenNumber(h);
    OddNumber(h);
    if Odd(x) {
      OddNumbers(x);
      SuccessorNumber(h);
      if Number(Successor(h)) == TWO_63 {
        TopNumber(Successor(h));
      } else {
        EvenNumber(Successor(h));
      }
    } else {
      EvenNumbers(x);
    }
  }

  lemma AddZero(x: bv64)
    ensures Add(x, 0) == x
  {}

  lemma AddOne(x: bv64, y: bv64)
    ensures Add(x, y + 1) == Successor(Add(x, y))
  {}

  lemma SuccessorIsPlusOne(x: bv64, y: bv64)
    ensures Add(x, Successor(y)) == Add(x, y + 1)
  {
    hide Add;
  }

  lemma AddSuccessor(x: bv64, y: bv64)
    ensures Add(x, Successor(y)) == Successor(Add(x, y))
  {
    hide Add, Successor;
    SuccessorIsPlusOne(x, y);
    AddOne(x, y);
  }

  /** The word before a word. */
  lemma Predecessor(y: bv64) returns (z: bv64)
    requires Number(y) > 0
    ensures Successor(z) == y && Number(z) == Number(y) - 1
  {
    hide Successor, Number;
    z := y - 1;
    MinusOne(y);
    SuccessorNumber(z);
    NumberBound(z);
  }

  lemma MinusOne(y: bv64)
    ensures Successor(y - 1) == y
  {}

  lemma NumberBound(x: bv64)
    ensures Number(x) < TWO_64
  {}

  lemma SameNumber(x: bv64, y: bv64)
    requires Number(x) == Number(y)
    ensures x == y
  {
    hide Number;
    NumberBack(x);
    NumberBack(y);
  }

  /** Section 3.2: the sum of two words is the sum of their numbers modulo 2^64. */
  lemma {:induction false} AddIsModular(x: bv64, y: bv64)
    ensures Number(Add(x, y)) == (Number(x) + Number(y)) % TWO_64
    decreases Number(y)
  {
    hide Add, Successor, Number, ToWord;
    NumberBound(x);
    if Number(y) == 0 {
      ZeroNumber();
      SameNumber(y, 0);
      AddZero(x);
    } else {
      var z := Predecessor(y);
      AddIsModular(x, z);
      AddSuccessor(x, z);
      SuccessorNumber(Add(x, z));
    }
  }

  // ---------------------------------------------------------------- bytes

  /** Section 3.1: eight bytes are a word whose number has them as its digits. */
  lemma BytesOfWordAt(b: bytes, i: nat)
    requires i + 8 <= |b|
    ensures ToBE(Number(WordAt(b, i)), 8) == b[i..i + 8]
  {
    hide ToWord, Number, FromBE, ToBE;
    assert Pow256(8) == TWO_64;
    WordBack(FromBE(b[i..i + 8]));
    ToFromBE(b[i..i + 8]);
  }
}
