/** The compact form of proof-of-work targets (src/arith_uint256.cpp) and the work a target stands for
    (src/chain.cpp).

    A compact number holds an exponent in its top byte, a sign in bit 23 and a mantissa of 23 bits
    below: it stands for the mantissa times 256 to the power of the exponent less 3. */
module CompactTarget {
  import opened ArithUint256
  import opened Basics

  const SIGN: nat := 0x80_0000

  const WIDTH: nat := 8

  function Bytes(n: nat): (p: nat)
    ensures p >= 1
  {
    Pow2(8 * n)
  }

  lemma BytesNext(n: nat)
    ensures Bytes(n + 1) == 256 * Bytes(n)
  {
    hide Pow2;
    assert 8 * (n + 1) == 8 * n + 8;
    Pow2Add(8 * n, 8);
    assert Pow2(8) == 256 by {
      EightBits();
    }
  }

  lemma EightBits()
    ensures Pow2(8) == 256 && Pow2(0) == 1
  {
  }

  lemma BytesSmall()
    ensures Bytes(0) == 1 && Bytes(1) == 256 && Bytes(2) == 0x1_0000 && Bytes(3) == 0x100_0000
  {
    hide Bytes;
    BytesNext(0);
    BytesNext(1);
    BytesNext(2);
    assert Bytes(0) == 1 by {
      BytesZero();
    }
  }

  lemma BytesZero()
    ensures Bytes(0) == 1
  {
  }

  lemma BytesAdd(a: nat, b: nat)
    ensures Bytes(a + b) == Bytes(a) * Bytes(b)
  {
    Pow2Add(8 * a, 8 * b);
  }

  lemma BytesMono(a: nat, b: nat)
    requires a <= b
    ensures Bytes(a) <= Bytes(b)
  {
    Pow2Mono(8 * a, 8 * b);
  }

  /** 256-bit numbers. */
  lemma BytesLimit()
    ensures P(WIDTH) == Bytes(32)
  {
    PowerOfLimb(WIDTH);
  }

  lemma QuotParts(x: nat, m: nat)
    requires m > 0
    ensures Quot(x, m) == x / m
    ensures Quot(x, m) * m <= x < Quot(x, m) * m + m
  {
    assert x == x / m * m + x % m;
  }

  lemma QuotUnique(x: nat, m: nat, q: nat, r: nat)
    requires r < m && x == q * m + r
    ensures Quot(x, m) == q
  {
    Quotient(x, m, q, r);
  }

  lemma QuotBounds(x: nat, m: nat, lo: nat, hi: nat)
    requires m > 0 && lo * m <= x < hi * m
    ensures lo <= Quot(x, m) < hi
  {
    hide Quot;
    QuotParts(x, m);
    var q := Quot(x, m);
    if q < lo {
      Mono(q + 1, lo, m);
      Distribute(q, 1, m);
    } else if q >= hi {
      Mono(hi, q, m);
    }
  }

  lemma QuotOne(x: nat)
    ensures Quot(x, 1) == x
  {
  }

  lemma QuotSmaller(x: nat, m: nat)
    requires m > 0
    ensures Quot(x, m) <= x
  {
    Smaller(x, m);
  }

  lemma QuotExact(x: nat, m: nat)
    requires m > 0
    ensures x * m >= 0 && Quot(x * m, m) == x
  {
    QuotUnique(x * m, m, x, 0);
  }

  lemma QuotTwice(x: nat, a: nat, b: nat)
    requires a > 0 && b > 0
    ensures a * b > 0 && Quot(Quot(x, a), b) == Quot(x, a * b)
  {
    hide Quot;
    QuotParts(x, a);
    var q, r := Quot(x, a), x - Quot(x, a) * a;
    QuotParts(q, b);
    var q', r' := Quot(q, b), q - Quot(q, b) * b;
    PositiveProduct(a, b);
    Distribute(q' * b, r', a);
    Associate(q', b, a);
    Mono(r' + 1, b, a);
    Distribute(r', 1, a);
    Mono(0, r', a);
    QuotUnique(x, a * b, q', r' * a + r);
  }

  //////////////////////////////////////////////////////////////////////////////
  // What a compact number stands for
  //////////////////////////////////////////////////////////////////////////////

  function Exponent(c: nat): nat {
    c / 0x100_0000
  }

  function Mantissa(c: nat): nat {
    c % SIGN
  }

  predicate SignBit(c: nat) {
    c / SIGN % 2 == 1
  }

  ghost function Scaled(m: nat, n: nat): nat {
    m * Bytes(n)
  }

  ghost function Expanded(c: nat): nat {
    if Exponent(c) <= 3 then Quot(Mantissa(c), Bytes(3 - Exponent(c))) else Scaled(Mantissa(c), Exponent(c) - 3)
  }

  /** The comparisons that stand for an overflow check. */
  predicate OverflowTest(word: nat, size: nat) {
    word != 0 && (size > 34 || (word > 0xff && size > 33) || (word > 0xffff && size > 32))
  }

  /** They hold exactly if the number does not fit. */
  lemma OverflowExact(word: nat, size: nat)
    requires word < SIGN && size > 3
    ensures OverflowTest(word, size) <==> Scaled(word, size - 3) >= P(WIDTH)
  {
    hide Bytes, P;
    BytesLimit();
    BytesSmall();
    var b := Bytes(size - 3);
    if word == 0 {
    } else if size > 34 {
      BytesMono(32, size - 3);
      Mono(1, word, b);
    } else if size == 34 {
      BytesAdd(1, 31);
      if word > 0xff {
        Mono(256, word, b);
      } else {
        StrictMono(word, 256, b);
      }
    } else if size == 33 {
      BytesAdd(2, 30);
      if word > 0xffff {
        Mono(0x1_0000, word, b);
      } else {
        StrictMono(word, 0x1_0000, b);
      }
    } else {
      BytesMono(size - 3, 29);
      BytesAdd(3, 29);
      Mono(word, 0x100_0000, b);
      StrictMono(word, 0x100_0000, b);
    }
  }

  lemma SmallFits(word: nat, size: nat)
    requires word < SIGN && size <= 3
    ensures Quot(word, Bytes(3 - size)) <= word
    ensures !OverflowTest(Quot(word, Bytes(3 - size)), size)
    ensures Quot(word, Bytes(3 - size)) < B < P(WIDTH)
  {
    hide Bytes, Quot;
    QuotSmaller(word, Bytes(3 - size));
    assert P(1) == B;
    assert B < P(WIDTH) by {
      PAdd(1, WIDTH - 1);
      PNext(WIDTH - 2);
    }
  }

  method AssignSmall(n: BaseUint, v: Limb)
    requires n.pn.Length == WIDTH
    modifies n.pn
    ensures n.Value() == v
  {
    hide Val, P;
    n.Clear();
    n.pn[0] := v;
    assert n.pn[1..] == seq(WIDTH - 1, _ => 0);
    ValSplit(n.pn[..], 1);
    assert n.pn[..][1..] == n.pn[1..];
    ValZero(n.pn[..][1..]);
    ValOne(n.pn[..][..1]);
  }

  method SetCompact(n: BaseUint, c: Limb) returns (negative: bool, overflow: bool)
    requires n.pn.Length == WIDTH
    modifies n.pn
    ensures n.Value() == Mod(Expanded(c), P(WIDTH))
    ensures overflow <==> Expanded(c) >= P(WIDTH)
    ensures negative <==> SignBit(c) && Expanded(c) != 0
  {
    hide Val, P, Mod, Pow2, Bytes, Quot, Scaled, Shr;
    var size := c / 0x100_0000;
    var word := c % SIGN;
    if size <= 3 {
      SmallFits(word, size);
      word := Shr(word, 8 * (3 - size));
      ShrBytes(c % SIGN, 3 - size);
      AssignSmall(n, word);
      Small(word, P(WIDTH));
    } else {
      AssignSmall(n, word);
      OverflowExact(word, size);
      n.ShiftLeft(8 * (size - 3));
      ShlBytes(word, size - 3);
    }
    negative := word != 0 && c / SIGN % 2 == 1;
    overflow := OverflowTest(word, size);
  }

  lemma ShrBytes(v: Limb, n: nat)
    ensures Shr(v, 8 * n) == Quot(v, Bytes(n))
  {
  }

  lemma ShlBytes(v: nat, n: nat)
    ensures v * Pow2(8 * n) == Scaled(v, n)
    ensures Scaled(v, n) == 0 <==> v == 0
  {
    if v > 0 {
      Mono(1, v, Bytes(n));
    }
  }

  //////////////////////////////////////////////////////////////////////////////
  // The compact form of a number
  //////////////////////////////////////////////////////////////////////////////

  /** The number of bytes of `x`. */
  ghost function ByteLength(x: nat): nat {
    if x == 0 then 0 else 1 + ByteLength(x / 256)
  }

  lemma {:induction false} ByteLengthBounds(x: nat)
    ensures x < Bytes(ByteLength(x))
    ensures x > 0 ==> ByteLength(x) > 0 && Bytes(ByteLength(x) - 1) <= x
  {
    hide Bytes;
    BytesZero();
    if x > 0 {
      ByteLengthBounds(x / 256);
      var n := ByteLength(x / 256);
      BytesNext(n);
      if x / 256 > 0 {
        BytesNext(n - 1);
      }
    }
  }

  lemma ByteLengthUnique(x: nat, n: nat)
    requires x < Bytes(n) && (n > 0 ==> Bytes(n - 1) <= x)
    ensures n == ByteLength(x)
  {
    hide Bytes, ByteLength;
    ByteLengthBounds(x);
    NonZeroLength(x);
    BytesZero();
    var m := ByteLength(x);
    if n < m {
      BytesMono(n, m - 1);
    } else if m < n {
      BytesMono(m, n - 1);
    }
  }

  /** The three leading bytes. */
  ghost function Leading(x: nat): nat {
    var size := ByteLength(x);
    if size <= 3 then Scaled(x, 3 - size) else Quot(x, Bytes(size - 3))
  }

  /** The fields put together. */
  function Packed(size: nat, word: nat): nat {
    size * 0x100_0000 + word
  }

  lemma PackedFields(size: nat, word: nat)
    requires word < SIGN
    ensures var c := Packed(size, word);
            Exponent(c) == size && Mantissa(c) == word && !SignBit(c)
    ensures var d := Packed(size, word) + SIGN;
            Exponent(d) == size && Mantissa(d) == word && SignBit(d)
  {
    var c, d := Packed(size, word), Packed(size, word) + SIGN;
    assert c / 0x100_0000 == size && c / SIGN == 2 * size;
    assert d / 0x100_0000 == size && d / SIGN == 2 * size + 1;
  }

  /** The compact form, with the sign. */
  ghost function Compacted(x: nat, negative: bool): nat {
    var size := ByteLength(x);
    var lead := Leading(x);
    var c := if lead >= SIGN then Packed(size + 1, lead / 256) else Packed(size, lead);
    if negative && x != 0 then c + SIGN else c
  }

  lemma LeadingBounds(x: nat)
    ensures Leading(x) < 0x100_0000
    ensures x > 0 ==> Leading(x) >= 0x1_0000
    ensures x == 0 ==> Leading(x) == 0
  {
    hide Bytes, ByteLength, Quot;
    ByteLengthBounds(x);
    BytesSmall();
    var size := ByteLength(x);
    if x > 0 {
      if size <= 3 {
        BytesAdd(size, 3 - size);
        BytesAdd(size - 1, 3 - size);
        StrictMono(x, Bytes(size), Bytes(3 - size));
        Mono(Bytes(size - 1), x, Bytes(3 - size));
      } else {
        BytesAdd(3, size - 3);
        BytesAdd(2, size - 3);
        QuotBounds(x, Bytes(size - 3), 0x1_0000, 0x100_0000);
      }
    } else {
      ByteLengthUnique(0, 0);
    }
  }

  /** The fields of a compact form. */
  lemma Fields(x: nat)
    ensures var c := Compacted(x, false);
            var lead := Leading(x);
            && !SignBit(c)
            && Exponent(c) == ByteLength(x) + (if lead >= SIGN then 1 else 0)
            && Mantissa(c) == (if lead >= SIGN then lead / 256 else lead)
    ensures var c := Compacted(x, true);
            && SignBit(c) == (x != 0)
            && Exponent(c) == Exponent(Compacted(x, false))
            && Mantissa(c) == Mantissa(Compacted(x, false))
  {
    hide ByteLength, Leading, Packed, Exponent, Mantissa, SignBit;
    LeadingBounds(x);
    var size, lead := ByteLength(x), Leading(x);
    if lead >= SIGN {
      PackedFields(size + 1, lead / 256);
    } else {
      PackedFields(size, lead);
    }
  }

  /** The number of low bytes that the compact form of `x` does not keep. */
  ghost function LostBytes(x: nat): nat {
    var e := Exponent(Compacted(x, false));
    if e <= 3 then 0 else e - 3
  }

  /** `x` with its low `k` bytes zeroed. */
  ghost function Truncated(x: nat, k: nat): nat {
    Scaled(Quot(x, Bytes(k)), k)
  }

  lemma ScaledDown(x: nat, n: nat, k: nat)
    requires k <= n
    ensures Quot(Scaled(x, n), Bytes(k)) == Scaled(x, n - k)
  {
    hide Bytes, Quot;
    BytesAdd(n - k, k);
    Associate(x, Bytes(n - k), Bytes(k));
    QuotExact(x * Bytes(n - k), Bytes(k));
  }

  lemma ScaledNone(x: nat)
    ensures Scaled(x, 0) == x && Quot(x, Bytes(0)) == x
  {
    hide Bytes, Quot;
    BytesZero();
    QuotOne(x);
  }

  lemma LeadingShorter(x: nat, n: nat)
    ensures Quot(x, Bytes(n)) / 256 == Quot(x, Bytes(n + 1))
  {
    hide Bytes;
    BytesNext(n);
    QuotTwice(x, Bytes(n), 256);
  }

  lemma ScaledShorter(x: nat, n: nat)
    requires n > 0
    ensures Scaled(x, n) / 256 == Scaled(x, n - 1)
  {
    hide Scaled;
    BytesSmall();
    ScaledDown(x, n, 1);
  }

  /** Expanding a compact form gives the number with its low bytes zeroed. */
  lemma ExpandCompacted(x: nat)
    ensures Expanded(Compacted(x, false)) == Truncated(x, LostBytes(x))
  {
    hide Bytes, ByteLength, Compacted, Exponent, Mantissa, Quot, Scaled;
    Fields(x);
    var size := ByteLength(x);
    ScaledNone(x);
    if size <= 3 {
      if Leading(x) < SIGN {
        ScaledDown(x, 3 - size, 3 - size);
      } else if size < 3 {
        ScaledShorter(x, 3 - size);
        ScaledDown(x, 2 - size, 2 - size);
      } else {
        LeadingShorter(x, 0);
      }
    } else if Leading(x) >= SIGN {
      LeadingShorter(x, size - 3);
    }
  }

  /** Not more bytes are lost than the 23 bits of the mantissa demand. */
  lemma LostBytesLeast(x: nat)
    ensures Quot(x, Bytes(LostBytes(x))) < SIGN
    ensures LostBytes(x) > 0 ==> Quot(x, Bytes(LostBytes(x) - 1)) >= SIGN
  {
    hide Bytes, ByteLength, Compacted, Exponent, Mantissa, Quot, Scaled;
    Fields(x);
    LeadingBounds(x);
    ByteLengthBounds(x);
    NonZeroLength(x);
    BytesSmall();
    ScaledNone(x);
    var size := ByteLength(x);
    if size < 3 {
      BytesMono(size, 2);
    } else if Leading(x) >= SIGN {
      LeadingShorter(x, size - 3);
    } else if size > 3 {
      LeastStep(x, size);
    }
  }

  lemma LeastStep(x: nat, size: nat)
    requires size > 3 && Bytes(size - 1) <= x
    ensures Quot(x, Bytes(size - 4)) >= SIGN
  {
    hide Bytes, Quot;
    BytesAdd(3, size - 4);
    BytesSmall();
    Mono(1, Bytes(size - 4), x + 1);
    QuotBounds(x, Bytes(size - 4), 0x100_0000, x + 1);
  }

  /** For every 256-bit number: the compact form expands to the number with its low bytes zeroed,
      without overflow, and with the sign asked for unless the number is zero. */
  lemma RoundTrip(x: nat)
    requires x < P(WIDTH)
    ensures var c := Compacted(x, false);
            && Expanded(c) == Truncated(x, LostBytes(x)) <= x < P(WIDTH)
            && !SignBit(c)
    ensures var d := Compacted(x, true);
            && Expanded(d) == Truncated(x, LostBytes(x))
            && SignBit(d) == (x != 0)
  {
    hide Bytes, ByteLength, P, Leading, Quot, Scaled, Compacted, Exponent, Mantissa, SignBit, Truncated;
    ExpandCompacted(x);
    Fields(x);
    TruncatedBelow(x, LostBytes(x));
  }

  lemma TruncatedBelow(x: nat, k: nat)
    ensures Truncated(x, k) <= x
  {
    hide Bytes, Quot;
    QuotParts(x, Bytes(k));
  }

  lemma SameLength(x: nat, k: nat)
    requires k < ByteLength(x)
    ensures ByteLength(Truncated(x, k)) == ByteLength(x)
  {
    hide Bytes, ByteLength, Quot;
    var size, y := ByteLength(x), Truncated(x, k);
    ByteLengthBounds(x);
    NonZeroLength(x);
    TruncatedBelow(x, k);
    BytesAdd(size - 1 - k, k);
    Mono(1, Bytes(k), x + 1);
    QuotBounds(x, Bytes(k), Bytes(size - 1 - k), x + 1);
    Mono(Bytes(size - 1 - k), Quot(x, Bytes(k)), Bytes(k));
    ByteLengthUnique(y, size);
  }

  lemma NonZeroLength(x: nat)
    ensures ByteLength(x) > 0 <==> x > 0
  {
  }

  /** The leading bytes of a truncated number. */
  lemma SameLeading(x: nat)
    requires LostBytes(x) > 0
    ensures var y := Truncated(x, LostBytes(x));
            && LostBytes(x) < ByteLength(x)
            && Leading(y) == if Leading(x) >= SIGN then Leading(x) / 256 * 256 else Leading(x)
  {
    hide Bytes, ByteLength, Compacted, Exponent, Mantissa, Quot, Scaled;
    Fields(x);
    var size, k := ByteLength(x), LostBytes(x);
    var q := Quot(x, Bytes(k));
    SameLength(x, k);
    ScaledNone(x);
    ScaledNone(Scaled(q, k));
    ScaledDown(q, k, size - 3);
    ScaledNone(q);
    if Leading(x) >= SIGN {
      LeadingShorter(x, size - 3);
      ScaledByte(q);
    }
  }

  lemma ScaledByte(q: nat)
    ensures Scaled(q, 1) == q * 256
  {
    BytesSmall();
  }

  /** Going through the compact form twice is the same as going once. */
  lemma Idempotent(x: nat)
    ensures var y := Expanded(Compacted(x, false));
            Compacted(y, false) == Compacted(x, false) && Expanded(Compacted(y, false)) == y
  {
    hide Bytes, ByteLength, Exponent, Mantissa, Leading, Quot, Scaled, Expanded;
    ExpandCompacted(x);
    var k := LostBytes(x);
    if k == 0 {
      ScaledNone(x);
      assert Truncated(x, k) == x;
    } else {
      SameLeading(x);
      SameLength(x, k);
    }
  }

  /** The three leading bytes of a number of `size` bytes. */
  method LeadingBytes(n: BaseUint, size: nat) returns (lead: nat)
    requires n.pn.Length == WIDTH && size == ByteLength(n.Value())
    ensures lead == Leading(n.Value())
  {
    hide Val, P, Mod, Pow2, Bytes, ByteLength, Scaled, Quot, Shl;
    ghost var x := n.Value();
    LeadingBounds(x);
    if size <= 3 {
      var low := n.GetLow64();
      LowBytes(x, size);
      ShlScaled(low, 3 - size);
      lead := Shl(low, 8 * (3 - size));
    } else {
      var bn := new BaseUint.Copy(n);
      bn.ShiftRight(8 * (size - 3));
      ShiftedBytes(x, size - 3);
      lead := bn.GetLow64();
      lead := lead % B;
    }
  }

  method GetCompact(n: BaseUint, negative: bool) returns (c: Limb)
    requires n.pn.Length == WIDTH
    ensures c == Compacted(n.Value(), negative)
  {
    hide Val, P, Mod, Pow2, Bytes, ByteLength, Leading;
    ghost var x := n.Value();
    var bits := n.Bits();
    var size := (bits + 7) / 8;
    BitsToBytes(x, bits);
    LeadingBounds(x);
    var lead := LeadingBytes(n, size);
    if lead / SIGN % 2 == 1 {
      lead := lead / 256;
      size := size + 1;
    }
    assert lead < SIGN && size < 256;
    c := Packed(size, lead);
    if negative && c % SIGN != 0 {
      c := c + SIGN;
    }
  }

  lemma BitsToBytes(x: nat, bits: nat)
    requires x < Pow2(bits) && (bits > 0 ==> Pow2(bits - 1) <= x) && bits <= 256
    ensures (bits + 7) / 8 == ByteLength(x) <= 32
  {
    hide Pow2, ByteLength;
    var n := (bits + 7) / 8;
    Pow2Mono(bits, 8 * n);
    if n > 0 {
      Pow2Mono(8 * (n - 1), bits - 1);
    }
    ByteLengthUnique(x, n);
  }

  lemma LowBytes(x: nat, size: nat)
    requires size == ByteLength(x) <= 3
    ensures x < 0x100_0000 && x % 0x1_0000_0000_0000_0000 == x
  {
    hide Bytes, ByteLength;
    ByteLengthBounds(x);
    BytesSmall();
    BytesMono(size, 3);
  }

  lemma ShlScaled(v: Limb, n: nat)
    requires Scaled(v, n) < B
    ensures Shl(v, 8 * n) == Scaled(v, n)
  {
  }

  lemma ShiftedBytes(x: nat, n: nat)
    ensures Quot(x, Pow2(8 * n)) == Quot(x, Bytes(n))
  {
  }

  //////////////////////////////////////////////////////////////////////////////
  // Proof of work
  //////////////////////////////////////////////////////////////////////////////

  /** The compact form stands for a number from 1 to 2^256 - 1. */
  ghost predicate ValidTarget(c: nat) {
    0 < Expanded(c) < P(WIDTH) && !SignBit(c)
  }

  /** The expected number of hashes for a block below the target. */
  ghost function Work(c: nat): nat {
    if ValidTarget(c) then P(WIDTH) / (Expanded(c) + 1) else 0
  }

  /** A higher target takes no more work. */
  lemma WorkAntitone(c: nat, d: nat)
    requires ValidTarget(c) && ValidTarget(d) && Expanded(c) <= Expanded(d)
    ensures Work(c) >= Work(d) >= 1
  {
    hide P, Expanded;
    var m, x, y := P(WIDTH), Expanded(c) + 1, Expanded(d) + 1;
    var p, q := m / x, m / y;
    hide Quot;
    QuotParts(m, x);
    QuotParts(m, y);
    Mono(1, y, m + 1);
    QuotBounds(m, y, 1, m + 1);
    Mono(x, y, q);
    Mono(1, x, m + 1);
    QuotBounds(m, x, q, m + 1);
  }

  /** A target is never the largest number, so one more than it is a divisor. */
  lemma TargetBelow(c: nat)
    requires ValidTarget(c)
    ensures Expanded(c) + 1 < P(WIDTH)
  {
    hide P, Bytes, Quot, Mantissa, Exponent;
    MantissaBound(c);
    SmallFits(Mantissa(c), 3);
    if Exponent(c) <= 3 {
      SmallFits(Mantissa(c), Exponent(c));
    } else {
      var e := Exponent(c) - 4;
      BytesNext(e);
      Even(Mantissa(c), Bytes(e), P(WIDTH - 1), Expanded(c));
      PNext(WIDTH - 1);
    }
  }

  lemma MantissaBound(c: nat)
    ensures Mantissa(c) < SIGN
  {
  }

  lemma Even(m: nat, b: nat, p: nat, t: nat)
    requires t == m * (256 * b)
    ensures t + 1 != B * p
  {
    assert t == 256 * (m * b);
  }

  lemma WorkSplit(t: nat, m: nat)
    requires 0 < t < m - 1
    ensures (m - 1 - t) / (t + 1) + 1 == m / (t + 1) < m
  {
    var d := t + 1;
    var q, r := m / d, m % d;
    assert m == q * d + r;
    Distribute(q - 1, 1, d);
    Quotient(m - d, d, q - 1, r);
    Mono(2, d, q);
  }

  method GetBlockProof(bits: Limb) returns (r: BaseUint)
    ensures fresh(r) && fresh(r.pn) && r.pn.Length == WIDTH
    ensures r.Value() == Work(bits)
  {
    hide Val, P, Mod, Pow2, Expanded;
    var target := new BaseUint.Zero(WIDTH);
    var negative, overflow := SetCompact(target, bits);
    if !overflow {
      Small(Expanded(bits), P(WIDTH));
    }
    var none := target.EqualTo(0);
    if negative || overflow || none {
      r := new BaseUint.Zero(WIDTH);
      return;
    }
    ghost var t := target.Value();
    TargetBelow(bits);
    WorkSplit(t, P(WIDTH));
    r := target.Complement();
    var one := new BaseUint.Copy(target);
    one.Increment();
    Small(t + 1, P(WIDTH));
    var ok := r.Divide(one);
    r.Increment();
    Small(Work(bits), P(WIDTH));
  }
}
