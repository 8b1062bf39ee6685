/** Named operations on 64-bit machine words: the lemmas of this project reason about them by name. */
module Words {
  function Not(x: bv64): bv64 {
    !x
  }

  function Plus(x: bv64, y: bv64): bv64 {
    x + y
  }

  function Minus(x: bv64, y: bv64): bv64 {
    x - y
  }

  function And(x: bv64, y: bv64): bv64 {
    x & y
  }

  function Or(x: bv64, y: bv64): bv64 {
    x | y
  }

  /** Bitwise exclusive or. */
  function Xor(a: bv64, b: bv64): bv64 {
    a ^ b
  }

  predicate Alike(a: bv64, b: bv64) {
    a ^ b == 0
  }

  lemma Same(a: bv64, b: bv64)
    requires Alike(a, b)
    ensures a == b
  {}

  lemma XorSelf(x: bv64)
    ensures Xor(x, x) == 0
  {}

  lemma XorApart(x: bv64, y: bv64)
    requires Xor(x, y) == 0
    ensures x == y
  {
    Same(x, y);
  }

  lemma XorIsZero(x: bv64, y: bv64)
    ensures Xor(x, y) == 0 <==> x == y
  {
    hide *;
    XorSelf(x);
    if Xor(x, y) == 0 {
      XorApart(x, y);
    }
  }

  lemma PlusMinus(target: bv64, from: bv64)
    ensures Plus(from, target - from) == target
  {}

  lemma AndIs(x: bv64, y: bv64)
    ensures And(x, y) == x & y
  {}

  lemma OrIs(x: bv64, y: bv64)
    ensures Or(x, y) == x | y
  {}

  lemma XorIs(x: bv64, y: bv64)
    ensures Xor(x, y) == x ^ y
  {}

  lemma NotIs(x: bv64)
    ensures Not(x) == !x
  {}

  function Negate(x: bv64): bv64 {
    0 - x
  }

  lemma NegateIs(x: bv64)
    ensures Negate(x) == 0 - x
  {}

  lemma PlusIs(x: bv64, y: bv64)
    ensures Plus(x, y) == x + y
  {}

  lemma MinusIs(x: bv64, y: bv64)
    ensures Minus(x, y) == x - y
  {}

  lemma MinusPlusBack(target: bv64, from: bv64)
    ensures Plus(from, Minus(target, from)) == target
  {
    hide *;
    PlusMinus(target, from);
    MinusIs(target, from);
  }

  lemma Reassociate(x: bv64, y: bv64, z: bv64)
    ensures Plus(x + y, z) == Plus(x, y + z)
  {}

  lemma PlusAssociates(x: bv64, y: bv64, z: bv64)
    ensures Plus(Plus(x, y), z) == Plus(x, Plus(y, z))
  {
    hide *;
    PlusIs(x, y);
    PlusIs(y, z);
    Reassociate(x, y, z);
  }

  lemma PlusZero(x: bv64)
    ensures Plus(x, 0) == x
  {}

  lemma MinusOfSum(x: bv64, y: bv64)
    ensures Minus(x + y, x) == y
  {}

  lemma MinusOfPlus(x: bv64, y: bv64)
    ensures Minus(Plus(x, y), x) == y
  {
    hide *;
    PlusIs(x, y);
    MinusOfSum(x, y);
  }

  lemma DifferencePlus(target: bv64, from: bv64)
    ensures Plus(target - from, from) == target
  {}

  lemma MinusThenPlus(target: bv64, from: bv64)
    ensures Plus(Minus(target, from), from) == target
  {
    hide *;
    DifferencePlus(target, from);
    MinusIs(target, from);
  }

  // Sums of a word and a shifted copy of it.

  function By2(v: bv64): bv64 {
    v + v * 4
  }

  function By4(v: bv64): bv64 {
    v + v * 0x10
  }

  function By8(v: bv64): bv64 {
    v + v * 0x100
  }

  function By16(v: bv64): bv64 {
    v + v * 0x1_0000
  }

  function By32(v: bv64): bv64 {
    v + v * 0x1_0000_0000
  }
}
