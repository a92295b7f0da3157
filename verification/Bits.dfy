/** Single bits of a byte, as the bit-packed structures use them. */
module Bits {

  /** `1 << i` */
  function Bit(i: nat): bv8
    requires i < 8
  {
    match i
    case 0 => 0x01 case 1 => 0x02 case 2 => 0x04 case 3 => 0x08
    case 4 => 0x10 case 5 => 0x20 case 6 => 0x40 case 7 => 0x80
  }

  predicate Has(byte: bv8, i: nat)
    requires i < 8
  {
    byte & Bit(i) != 0
  }

  lemma SetBit(byte: bv8, i: nat, j: nat)
    requires i < 8 && j < 8
    ensures Has(byte | Bit(i), j) <==> i == j || Has(byte, j)
  {
  }

  lemma ClearBit(byte: bv8, i: nat, j: nat)
    requires i < 8 && j < 8
    ensures Has(byte & !Bit(i), j) <==> i != j && Has(byte, j)
  {
  }

  lemma Uniform(j: nat)
    requires j < 8
    ensures !Has(0, j) && Has(0xFF, j)
  {
  }
}

/** The bits of 64-bit words. The operators are wrapped so that proofs over many words can leave them
    hidden and use only the lemmas. */
module Words {
  predicate On(w: bv64, b: bv64) 
    requires b < 64
  {
    (w >> b) & 1 == 1
  }

  function And(x: bv64, y: bv64): bv64 {
    x & y
  }

  function Or(x: bv64, y: bv64): bv64 {
    x | y
  }

  function Xor(x: bv64, y: bv64): bv64 {
    x ^ y
  }

  /** All bits equal to the bit `g`. */
  function Spread(g: bv64): bv64 {
    0 - g
  }

  /** `w` with bit `b` replaced by `g`. */
  function Put(w: bv64, b: bv64, g: bv64): bv64
    requires b < 64
  {
    (w & !(1 << b)) | (g << b)
  }

  lemma OnAnd(x: bv64, y: bv64, c: bv64)
    requires c < 64
    ensures On(And(x, y), c) <==> On(x, c) && On(y, c)
  {
    hide On;
    AndBit(x, y, c);
  }

  lemma AndBit(x: bv64, y: bv64, c: bv64)
    requires c < 64
    ensures On(x & y, c) <==> On(x, c) && On(y, c)
  {
  }

  lemma OnOr(x: bv64, y: bv64, c: bv64)
    requires c < 64
    ensures On(Or(x, y), c) <==> On(x, c) || On(y, c)
  {
    hide On;
    OrBit(x, y, c);
  }

  lemma OrBit(x: bv64, y: bv64, c: bv64)
    requires c < 64
    ensures On(x | y, c) <==> On(x, c) || On(y, c)
  {
  }

  lemma OnXor(x: bv64, y: bv64, c: bv64)
    requires c < 64
    ensures On(Xor(x, y), c) <==> On(x, c) != On(y, c)
  {
    hide On;
    XorBit(x, y, c);
  }

  lemma XorBit(x: bv64, y: bv64, c: bv64)
    requires c < 64
    ensures On(x ^ y, c) <==> On(x, c) != On(y, c)
  {
  }

  lemma OnSpread(g: bv64, c: bv64)
    requires c < 64 && g <= 1
    ensures On(Spread(g), c) <==> g == 1
  {
  }

  lemma OnPut(w: bv64, b: bv64, g: bv64, c: bv64)
    requires b < 64 && c < 64 && g <= 1
    ensures On(Put(w, b, g), c) == if b == c then g == 1 else On(w, c)
  {
    hide On;
    PutBit(w, b, g, c);
  }

  lemma PutBit(w: bv64, b: bv64, g: bv64, c: bv64)
    requires b < 64 && c < 64 && g <= 1
    ensures On((w & !(1 << b)) | (g << b), c) == if b == c then g == 1 else On(w, c)
  {
  }

  lemma OnZero(c: bv64)
    requires c < 64
    ensures !On(0, c)
  {
  }

  /** The bits at which `(p1, p2)` is not `(g1, g2)`. */
  function Mask(p1: bv64, p2: bv64, g1: bv64, g2: bv64): bv64 {
    Or(Xor(p1, Spread(g1)), Xor(p2, Spread(g2)))
  }

  lemma OnMask(p1: bv64, p2: bv64, g1: bv64, g2: bv64, c: bv64)
    requires c < 64 && g1 <= 1 && g2 <= 1
    ensures On(Mask(p1, p2, g1, g2), c) <==> !(On(p1, c) == (g1 == 1) && On(p2, c) == (g2 == 1))
  {
    hide On, And, Or, Xor, Spread;
    OnOr(Xor(p1, Spread(g1)), Xor(p2, Spread(g2)), c);
    OnXor(p1, Spread(g1), c);
    OnXor(p2, Spread(g2), c);
    OnSpread(g1, c);
    OnSpread(g2, c);
  }
}
