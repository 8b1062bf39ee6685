/** Named operations on 32-bit machine words. */
module Words32 {
  function Not(x: bv32): bv32 {
    !x
  }

  function Plus(x: bv32, y: bv32): bv32 {
    x + y
  }

  function Minus(x: bv32, y: bv32): bv32 {
    x - y
  }

  function And(x: bv32, y: bv32): bv32 {
    x & y
  }

  function Or(x: bv32, y: bv32): bv32 {
    x | y
  }

  function Xor(x: bv32, y: bv32): bv32 {
    x ^ y
  }

  /** x without the bits of y. */
  function Clear(x: bv32, y: bv32): bv32 {
    x & !y
  }

  function Next(pc: bv32): bv32 {
    pc + 4
  }

  lemma NextIs(pc: bv32)
    ensures Next(pc) == pc + 4
  {}

  predicate Alike(a: bv32, b: bv32) {
    a ^ b == 0
  }

  lemma Same(a: bv32, b: bv32)
    requires Alike(a, b)
    ensures a == b
  {}

  lemma AndIs(x: bv32, y: bv32)
    ensures And(x, y) == x & y
  {}

  lemma OrIs(x: bv32, y: bv32)
    ensures Or(x, y) == x | y
  {}

  lemma XorIs(x: bv32, y: bv32)
    ensures Xor(x, y) == x ^ y
  {}

  lemma NotIs(x: bv32)
    ensures Not(x) == !x
  {}

  function Negate(x: bv32): bv32 {
    0 - x
  }

  lemma NegateIs(x: bv32)
    ensures Negate(x) == 0 - x
  {}

  lemma PlusIs(x: bv32, y: bv32)
    ensures Plus(x, y) == x + y
  {}

  lemma MinusIs(x: bv32, y: bv32)
    ensures Minus(x, y) == x - y
  {}

  lemma Reassociate(x: bv32, y: bv32, z: bv32)
    ensures Plus(x + y, z) == Plus(x, y + z)
  {}

  lemma PlusAssociates(x: bv32, y: bv32, z: bv32)
    ensures Plus(Plus(x, y), z) == Plus(x, Plus(y, z))
  {
    hide *;
    PlusIs(x, y);
    PlusIs(y, z);
    Reassociate(x, y, z);
  }

  lemma DifferencePlus(target: bv32, from: bv32)
    ensures Plus(target - from, from) == target
  {}

  lemma MinusThenPlus(target: bv32, from: bv32)
    ensures Plus(Minus(target, from), from) == target
  {
    hide *;
    DifferencePlus(target, from);
    MinusIs(target, from);
  }
}
