/** Big unsigned integers of src/arith_uint256.h and src/arith_uint256.cpp as arrays of 32-bit limbs,
    against the natural numbers they stand for.

    The width is a parameter, as in the source. A 64-bit intermediate is a natural number shown to be below
    2^64. */
module ArithUint256 {
  import opened Basics

  const B: nat := 0x1_0000_0000

  type Limb = n: nat | n < B witness 0

  //////////////////////////////////////////////////////////////////////////////
  // Arithmetic
  //////////////////////////////////////////////////////////////////////////////

  /** The weight of limb `i`. */
  function P(i: nat): (p: nat)
    ensures p >= 1
  {
    if i == 0 then 1 else B * P(i - 1)
  }

  lemma {:induction false} Pow2Add(a: nat, b: nat)
    ensures Pow2(a + b) == Pow2(a) * Pow2(b)
  {
    if b > 0 {
      Pow2Add(a, b - 1);
      assert Pow2(a + b) == 2 * Pow2(a + b - 1);
      assert 2 * (Pow2(a) * Pow2(b - 1)) == Pow2(a) * (2 * Pow2(b - 1));
    }
  }

  lemma Pow2Mono(a: nat, b: nat)
    requires a <= b
    ensures Pow2(a) <= Pow2(b)
  {
  }

  lemma Pow2Limb()
    ensures Pow2(32) == B
  {
    assert Pow2(8) == 256;
    Pow2Add(8, 8);
    Pow2Add(16, 16);
  }

  lemma {:induction false} PowerOfLimb(i: nat)
    ensures P(i) == Pow2(32 * i)
  {
    if i > 0 {
      PowerOfLimb(i - 1);
      Pow2Limb();
      Pow2Add(32 * (i - 1), 32);
    }
  }

  lemma {:induction false} PAdd(i: nat, j: nat)
    ensures P(i + j) == P(i) * P(j)
  {
    PowerOfLimb(i);
    PowerOfLimb(j);
    PowerOfLimb(i + j);
    Pow2Add(32 * i, 32 * j);
  }

  lemma Distribute(a: int, b: int, c: int)
    ensures (a + b) * c == a * c + b * c
  {
  }

  lemma Associate(a: int, b: int, c: int)
    ensures a * (b * c) == (a * b) * c
  {
  }

  lemma Mono(a: nat, b: nat, c: nat)
    requires a <= b
    ensures a * c <= b * c
  {
  }

  /** A carry moves from one limb to the next. */
  lemma CarryStep(n: nat, p: nat)
    ensures n * p == n % B * p + n / B * (B * p)
  {
    Distribute(n % B, B * (n / B), p);
    Associate(n / B, B, p);
    assert n == n % B + B * (n / B);
  }

  /** The remainder, kept apart from the built-in operator so that proofs can leave it hidden. */
  ghost function Mod(y: int, m: nat): nat
    requires m > 0
  {
    y % m
  }

  /** The quotient, likewise kept apart. */
  ghost function Quot(x: nat, m: nat): nat
    requires m > 0
  {
    x / m
  }

  /** Quotient and remainder are unique. */
  lemma Quotient(y: int, m: nat, q: int, x: nat)
    requires m > 0 && x < m && y == x + q * m
    ensures y / m == q && Mod(y, m) == y % m == x
  {
    var d := q - y / m;
    assert d * m == y % m - x by {
      Distribute(q, -(y / m), m);
      assert y == y / m * m + y % m;
    }
    Apart(d, m, y % m - x);
  }

  lemma Apart(d: int, m: nat, r: int)
    requires m > 0 && d * m == r && 0 - m < r < m
    ensures d == 0 && r == 0
  {
  }

  lemma Remainder(x: nat, q: int, m: nat)
    requires x < m
    ensures Mod(x + q * m, m) == x && (x + q * m) / m == q
  {
    Quotient(x + q * m, m, q, x);
  }

  lemma Small(x: nat, m: nat)
    requires x < m
    ensures Mod(x, m) == x && x / m == 0
  {
  }

  lemma PNext(i: nat)
    ensures P(i + 1) == B * P(i)
  {
  }

  //////////////////////////////////////////////////////////////////////////////
  // Limbs
  //////////////////////////////////////////////////////////////////////////////

  /** The number that limbs, least significant first, stand for. */
  ghost function Val(s: seq<Limb>): nat {
    if s == [] then 0 else Val(s[..|s| - 1]) + s[|s| - 1] * P(|s| - 1)
  }

  lemma Extend(s: seq<Limb>, i: nat)
    requires i < |s|
    ensures Val(s[..i + 1]) == Val(s[..i]) + s[i] * P(i)
  {
    assert s[..i + 1][..i] == s[..i];
  }

  lemma {:induction false} ValBound(s: seq<Limb>)
    ensures Val(s) < P(|s|)
  {
    if s != [] {
      var n := |s| - 1;
      ValBound(s[..n]);
      Mono(s[n], B - 1, P(n));
      assert (B - 1) * P(n) == B * P(n) - P(n);
    }
  }

  lemma {:induction false} ValSplit(s: seq<Limb>, k: nat)
    requires k <= |s|
    ensures Val(s) == Val(s[..k]) + P(k) * Val(s[k..])
  {
    hide P, Val;
    var n := |s| - 1;
    if k == |s| {
      assert s[..k] == s && s[k..] == [];
      ValZero(s[k..]);
    } else {
      ValSplit(s[..n], k);
      assert s[..n][..k] == s[..k] && s[..n + 1] == s;
      Extend(s, n);
      assert s[k..][..n - k] == s[..n][k..] && s[k..][..n - k + 1] == s[k..];
      Extend(s[k..], n - k);
      PAdd(k, n - k);
      Shuffle(s[n], P(k), P(n - k), Val(s[..n][k..]));
    }
  }

  lemma {:induction false} ValZero(s: seq<Limb>)
    requires forall i | 0 <= i < |s| :: s[i] == 0
    ensures Val(s) == 0
  {
    if s != [] {
      ValZero(s[..|s| - 1]);
    }
  }

  lemma Shuffle(d: nat, p: nat, q: nat, v: nat)
    ensures p * (v + d * q) == p * v + d * (p * q)
  {
    Distribute(v, d * q, p);
    Associate(p, d, q);
    Associate(d, p, q);
  }

  lemma ValOne(s: seq<Limb>)
    requires |s| == 1
    ensures Val(s) == s[0]
  {
    assert s[..0] == [];
    assert P(0) == 1;
  }

  /** Comparing from the top limb down compares the numbers. */
  lemma {:induction false} ValLess(s: seq<Limb>, t: seq<Limb>, i: nat)
    requires |s| == |t| && i < |s|
    requires s[i] < t[i] && s[i + 1..] == t[i + 1..]
    ensures Val(s) < Val(t)
  {
    ValSplit(s, i + 1);
    ValSplit(t, i + 1);
    Extend(s, i);
    Extend(t, i);
    ValBound(s[..i]);
    Mono(s[i] + 1, t[i], P(i));
    Distribute(s[i], 1, P(i));
  }

  //////////////////////////////////////////////////////////////////////////////
  // Bits of a limb
  //////////////////////////////////////////////////////////////////////////////

  lemma Smaller(v: nat, m: nat)
    requires m >= 1
    ensures v / m <= v
  {
    Mono(1, m, v / m);
    assert v == v / m * m + v % m;
  }

  function Shl(v: Limb, s: nat): Limb {
    v * Pow2(s) % B
  }

  function Divided(v: Limb, m: nat): (r: Limb)
    requires m > 0
    ensures r <= v
  {
    Smaller(v, m);
    v / m
  }

  function Shr(v: Limb, s: nat): (r: Limb)
    ensures r <= v
  {
    Divided(v, Pow2(s))
  }

  /** Bitwise or. */
  function Or(x: nat, y: nat): nat {
    if x == 0 && y == 0 then 0
    else 2 * Or(x / 2, y / 2) + if x % 2 == 1 || y % 2 == 1 then 1 else 0
  }

  function Or32(x: Limb, y: Limb): Limb {
    Pow2Limb();
    OrBound(x, y, 32);
    Or(x, y)
  }

  lemma {:induction false} OrBound(x: nat, y: nat, n: nat)
    requires x < Pow2(n) && y < Pow2(n)
    ensures Or(x, y) < Pow2(n)
    decreases n
  {
    if n > 0 {
      OrBound(x / 2, y / 2, n - 1);
    }
  }

  lemma {:induction false} OrZero(y: nat)
    ensures Or(0, y) == y && Or(y, 0) == y
  {
    if y > 0 {
      OrZero(y / 2);
    }
  }

  /** Numbers with no bit in common. */
  lemma {:induction false} OrDisjoint(x: nat, y: nat, n: nat)
    requires x % Pow2(n) == 0 && y < Pow2(n)
    ensures Or(x, y) == x + y && Or(y, x) == x + y
    decreases n
  {
    if n == 0 {
      OrZero(x);
    } else if x == 0 && y == 0 {
    } else {
      HalfMultiple(x, n);
      OrDisjoint(x / 2, y / 2, n - 1);
    }
  }

  lemma HalfMultiple(x: nat, n: nat)
    requires n > 0 && x % Pow2(n) == 0
    ensures x % 2 == 0 && (x / 2) % Pow2(n - 1) == 0
  {
    var q, m := x / Pow2(n), Pow2(n - 1);
    assert x == q * Pow2(n);
    assert q * (2 * m) == 2 * (q * m);
    Remainder(0, q, m);
  }

  //////////////////////////////////////////////////////////////////////////////
  // Big integers
  //////////////////////////////////////////////////////////////////////////////

  class BaseUint {
    const pn: array<Limb>

    ghost function Value(): nat
      reads pn
    {
      Val(pn[..])
    }

    ghost function Modulus(): nat {
      P(pn.Length)
    }

    constructor Zero(width: nat)
      requires width >= 2
      ensures fresh(pn) && pn.Length == width && Value() == 0
    {
      pn := new Limb[width](_ => 0);
      new;
      ValZero(pn[..]);
    }

    constructor Copy(b: BaseUint)
      ensures fresh(pn) && pn[..] == b.pn[..]
    {
      pn := new Limb[b.pn.Length](i requires 0 <= i < b.pn.Length reads b.pn => b.pn[i]);
    }

    lemma Bound()
      ensures Value() < Modulus()
    {
      ValBound(pn[..]);
    }

    method Add(b: BaseUint)
      requires b.pn.Length == pn.Length
      modifies pn
      ensures Value() == Mod(old(Value()) + old(b.Value()), Modulus())
    {
      hide Val, P, Mod;
      ghost var x, y := pn[..], b.pn[..];
      var carry: nat := 0;
      assert pn[..0] == x[..0] == y[..0] == [];
      ValZero([]);
      for i := 0 to pn.Length
        invariant carry <= 1
        invariant pn[i..] == x[i..] && b.pn[i..] == y[i..]
        invariant Val(pn[..i]) + carry * P(i) == Val(x[..i]) + Val(y[..i])
      {
        ghost var before := pn[..i];
        assert pn[i] == x[i] && b.pn[i] == y[i];
        var n := carry + pn[i] + b.pn[i];
        AddStep(x, y, before, carry, i);
        pn[i] := n % B;
        carry := n / B;
        assert pn[..i + 1] == before + [n % B];
      }
      assert pn[..pn.Length] == pn[..] && x[..pn.Length] == x && y[..pn.Length] == y;
      Bound();
      Quotient(Val(x) + Val(y), Modulus(), carry, Value());
    }

    method Complement() returns (r: BaseUint)
      ensures fresh(r) && fresh(r.pn) && r.pn.Length == pn.Length
      ensures r.Value() == Modulus() - 1 - Value()
    {
      r := new BaseUint.Copy(this);
      for i := 0 to pn.Length
        invariant r.pn[i..] == pn[i..]
        invariant forall j | 0 <= j < i :: r.pn[j] == B - 1 - pn[j]
      {
        r.pn[i] := B - 1 - r.pn[i];
      }
      Complemented(pn[..], r.pn[..]);
    }

    /** ++ */
    method Increment()
      modifies pn
      ensures Value() == Mod(old(Value()) + 1, Modulus())
    {
      hide Val, P, Mod;
      ghost var x := pn[..];
      var i := 0;
      assert pn[..0] == [] == x[..0];
      ValZero([]);
      PZero();
      while i < pn.Length
        invariant i <= pn.Length
        invariant pn[i..] == x[i..]
        invariant Val(pn[..i]) == 0 && Val(x[..i]) + 1 == P(i)
      {
        ghost var before := pn[..];
        assert pn[i] == x[i];
        pn[i] := (pn[i] + 1) % B;
        assert pn[..i] == before[..i];
        if pn[i] != 0 {
          assert pn[i + 1..] == x[i + 1..];
          Incremented(x, pn[..], i);
          return;
        }
        Extend(pn[..], i);
        Extend(x, i);
        PNext(i);
        i := i + 1;
      }
      assert pn[..i] == pn[..] && x[..i] == x;
      Quotient(Val(x) + 1, Modulus(), 1, 0);
    }

    /** -- */
    method Decrement()
      modifies pn
      ensures Value() == Mod(old(Value()) - 1, Modulus())
    {
      hide Val, P, Mod;
      ghost var x := pn[..];
      var i := 0;
      assert pn[..0] == [] == x[..0];
      ValZero([]);
      PZero();
      while i < pn.Length
        invariant i <= pn.Length
        invariant pn[i..] == x[i..]
        invariant Val(x[..i]) == 0 && Val(pn[..i]) + 1 == P(i)
      {
        ghost var before := pn[..];
        assert pn[i] == x[i];
        pn[i] := (pn[i] + B - 1) % B;
        assert pn[..i] == before[..i];
        if pn[i] != B - 1 {
          assert pn[i + 1..] == x[i + 1..];
          Incremented(pn[..], x, i);
          Bound();
          Small(Value(), Modulus());
          return;
        }
        Extend(pn[..], i);
        Extend(x, i);
        PNext(i);
        i := i + 1;
      }
      assert pn[..i] == pn[..] && x[..i] == x;
      Quotient(Val(x) - 1, Modulus(), -1, Value());
    }

    /** Unary minus. */
    method Negate() returns (r: BaseUint)
      ensures fresh(r) && fresh(r.pn) && r.pn.Length == pn.Length
      ensures r.Value() == Mod(0 - Value(), Modulus())
    {
      hide Val, P, Mod;
      r := Complement();
      Bound();
      Negative(Value(), Modulus());
      r.Increment();
    }

    method Subtract(b: BaseUint)
      requires b.pn.Length == pn.Length
      modifies pn
      ensures Value() == Mod(old(Value()) - old(b.Value()), Modulus())
    {
      hide Val, P, Mod;
      var minus := b.Negate();
      ModAdd(0 - b.Value(), Value(), Modulus());
      Add(minus);
    }

    method Clear()
      modifies pn
      ensures Zeros(pn[..]) && Value() == 0
    {
      for i := 0 to pn.Length
        invariant forall j | 0 <= j < i :: pn[j] == 0
      {
        pn[i] := 0;
      }
      ValZero(pn[..]);
    }

    /** Adds `d` times `b`, moved up by `j` limbs: the inner loop of the multiplication. A cleared number
        that is its own operand stays zero. */
    method AddProduct(b: BaseUint, d: Limb, j: nat)
      requires b.pn.Length == pn.Length && j < pn.Length
      modifies pn
      ensures b.pn != pn ==> Value() == Mod(old(Value()) + Term(d, b.Value(), j), Modulus())
      ensures b.pn == pn && old(Zeros(pn[..])) ==> Zeros(pn[..])
    {
      hide Val, P, Mod, At, Term, Wide;
      ghost var x, y := pn[..], b.pn[..];
      var carry: nat := 0;
      var i := 0;
      assert pn[..j] == x[..j];
      NoTerm(d, y, j);
      while i + j < pn.Length
        invariant 0 <= i && i + j <= pn.Length && carry < B
        invariant pn[i + j..] == x[i + j..]
        invariant b.pn != pn ==> Val(pn[..i + j]) + At(carry, i + j) == Val(x[..i + j]) + Term(d, Val(y[..i]), j)
        invariant b.pn == pn && Zeros(x) ==> Zeros(pn[..]) && carry == 0
      {
        ghost var before := pn[..i + j];
        assert pn[i + j] == x[i + j] && (b.pn != pn ==> b.pn[i] == y[i]);
        Product(d, b.pn[i], carry, pn[i + j]);
        var n := carry + pn[i + j] + Wide(d, b.pn[i]);
        if b.pn != pn {
          ProductStep(x, y, before, carry, d, i, j);
        }
        pn[i + j] := n % B;
        carry := n / B;
        assert pn[..i + j + 1] == before + [n % B];
        i := i + 1;
      }
      if b.pn != pn {
        assert pn[..pn.Length] == pn[..] && x[..pn.Length] == x;
        Bound();
        ProductDone(Val(x), y, d, j, Value(), carry);
      }
    }

    method Multiply(b: BaseUint)
      requires b.pn.Length == pn.Length
      modifies pn
      ensures b.pn != pn ==> Value() == Mod(old(Value()) * b.Value(), Modulus())
      ensures b.pn == pn ==> Value() == 0
    {
      hide Val, P, Mod;
      var a := new BaseUint.Copy(this);
      Clear();
      NoProduct(a.pn[..], b.Value());
      for j := 0 to pn.Length
        modifies pn
        invariant b.pn != pn ==> Value() == Mod(Val(a.pn[..j]) * b.Value(), Modulus())
        invariant b.pn == pn ==> Zeros(pn[..])
      {
        AddProduct(b, a.pn[j], j);
        if b.pn != pn {
          MoreProduct(a.pn[..], b.Value(), j, Modulus());
        }
      }
      assert a.pn[..pn.Length] == a.pn[..] == old(pn[..]);
      if b.pn == pn {
        ValZero(pn[..]);
      }
    }

    method Multiply32(b32: Limb)
      modifies pn
      ensures Value() == Mod(old(Value()) * b32, Modulus())
    {
      hide Val, P, Mod;
      ghost var x := pn[..];
      var carry: nat := 0;
      assert pn[..0] == x[..0] == [];
      ValZero([]);
      for i := 0 to pn.Length
        invariant carry < B
        invariant pn[i..] == x[i..]
        invariant Val(pn[..i]) + carry * P(i) == Val(x[..i]) * b32
      {
        ghost var before := pn[..i];
        assert pn[i] == x[i];
        Product(b32, pn[i], carry, 0);
        var n := carry + Wide(b32, pn[i]);
        ScaleStep(x, before, carry, b32, i);
        pn[i] := n % B;
        carry := n / B;
        assert pn[..i + 1] == before + [n % B];
      }
      assert pn[..pn.Length] == pn[..] && x[..pn.Length] == x;
      Bound();
      Quotient(Val(x) * b32, Modulus(), carry, Value());
    }

    /** Moves one limb, shifted left, into the limbs at `at` and above. */
    method LimbUp(v: Limb, at: nat, s: nat)
      requires s < 32
      modifies pn
      ensures MovedUp(v, at, s, old(pn[..]), pn[..])
    {
      if at + 1 < pn.Length && s != 0 {
        pn[at + 1] := Or32(pn[at + 1], Shr(v, 32 - s));
      }
      if at < pn.Length {
        pn[at] := Or32(pn[at], Shl(v, s));
      }
    }

    method ShiftLeft(shift: nat)
      modifies pn
      ensures Value() == Mod(old(Value()) * Pow2(shift), Modulus())
    {
      hide Val, P, Mod, Pow2, Or32, Shl, Shr, ShiftedUp, MovedUp;
      var a := new BaseUint.Copy(this);
      Clear();
      var k, s := shift / 32, shift % 32;
      ghost var x, w := a.pn[..], pn.Length;
      if k <= w {
        UpStart(x, pn[..], k, s);
      }
      for i := 0 to pn.Length
        modifies pn
        invariant k <= w ==> ShiftedUp(x, pn[..], k, s, if i + k <= w then i else w - k)
        invariant k > w ==> Zeros(pn[..])
      {
        ghost var r := pn[..];
        LimbUp(a.pn[i], i + k, s);
        if i + k < pn.Length {
          UpMoved(x, r, pn[..], k, s, i);
        } else {
          assert pn[..] == r;
        }
      }
      if k <= w {
        UpDone(x, pn[..], k, s);
      } else {
        ValZero(pn[..]);
        UpOver(Val(x), w, k, s);
      }
    }

    method CompareTo(b: BaseUint) returns (c: int)
      requires b.pn.Length == pn.Length
      ensures c == if Value() < b.Value() then -1 else if Value() > b.Value() then 1 else 0
    {
      hide Val, P, Mod;
      var i := pn.Length;
      while i > 0
        invariant 0 <= i <= pn.Length && pn[i..] == b.pn[i..]
      {
        i := i - 1;
        if pn[i] < b.pn[i] {
          ValLess(pn[..], b.pn[..], i);
          return -1;
        }
        if pn[i] > b.pn[i] {
          ValLess(b.pn[..], pn[..], i);
          return 1;
        }
        assert pn[i..] == [pn[i]] + pn[i + 1..];
        assert b.pn[i..] == [b.pn[i]] + b.pn[i + 1..];
      }
      assert pn[0..] == pn[..] && b.pn[0..] == b.pn[..];
      return 0;
    }

    /** Moves one limb, shifted right, into the limbs at `at` and below. */
    method LimbDown(v: Limb, at: int, s: nat)
      requires s < 32 && at < pn.Length
      modifies pn
      ensures MovedDown(v, at, s, old(pn[..]), pn[..])
    {
      if at - 1 >= 0 && s != 0 {
        pn[at - 1] := Or32(pn[at - 1], Shl(v, 32 - s));
      }
      if at >= 0 {
        pn[at] := Or32(pn[at], Shr(v, s));
      }
    }

    method ShiftRight(shift: nat)
      modifies pn
      ensures Value() == Quot(old(Value()), Pow2(shift))
    {
      hide Val, P, Mod, Quot, Pow2, Or32, Shl, Shr, ShiftedDown, MovedDown;
      var a := new BaseUint.Copy(this);
      Clear();
      var k, s := shift / 32, shift % 32;
      ghost var x, w := a.pn[..], pn.Length;
      if k <= w {
        DownStart(x, pn[..], k, s);
      }
      for i := 0 to pn.Length
        modifies pn
        invariant k <= w ==> ShiftedDown(x, pn[..], k, s, if i <= k then 0 else i - k)
        invariant k > w ==> Zeros(pn[..])
      {
        ghost var r := pn[..];
        LimbDown(a.pn[i], i - k, s);
        if i >= k {
          DownMoved(x, r, pn[..], k, s, i - k);
        } else {
          assert pn[..] == r;
        }
      }
      if k <= w {
        DownDone(x, pn[..], k, s);
      } else {
        ValZero(pn[..]);
        DownOver(x, k, s);
      }
    }

    /** The position of the highest bit set plus one, or zero. */
    method Bits() returns (n: nat)
      ensures Value() < Pow2(n) && (n > 0 ==> Pow2(n - 1) <= Value())
      ensures n <= 32 * pn.Length
    {
      hide Val, P, Pow2;
      var pos := pn.Length;
      while pos > 0
        invariant 0 <= pos <= pn.Length && Zeros(pn[pos..])
      {
        pos := pos - 1;
        if pn[pos] != 0 {
          var bits := 31;
          Pow2Limb();
          while bits > 0
            invariant 0 <= bits < 32 && pn[pos] < Pow2(bits + 1)
          {
            TopBit(pn[pos], bits);
            if pn[pos] / Pow2(bits) % 2 == 1 {
              HighestBit(pn[..], pos, bits);
              return 32 * pos + bits + 1;
            }
            bits := bits - 1;
          }
          Pow2Zero();
          HighestBit(pn[..], pos, 0);
          return 32 * pos + 1;
        }
        assert pn[pos..] == [pn[pos]] + pn[pos + 1..];
      }
      assert pn[0..] == pn[..];
      ValZero(pn[..]);
      Pow2Zero();
      return 0;
    }

    /** Decides bit `shift` of the quotient, which is in this number. */
    method TakeBit(div: BaseUint, num: BaseUint, shift: nat, ghost x: nat, ghost y: nat)
      requires pn.Length == div.pn.Length == num.pn.Length && shift < 32 * pn.Length
      requires pn != div.pn && pn != num.pn && div.pn != num.pn
      requires div.Value() == y * Pow2(shift)
      requires Dividing(x, y, num.Value(), Value(), shift + 1)
      requires LowClear(pn[..], shift + 1)
      modifies pn, num.pn
      ensures Dividing(x, y, num.Value(), Value(), shift)
      ensures LowClear(pn[..], shift)
    {
      hide Val, P, Mod, Pow2, Or32, Shl, Dividing, LowClear;
      var c := num.CompareTo(div);
      if c >= 0 {
        ghost var before, q := num.Value(), pn[..];
        num.Bound();
        Small(num.Value() - div.Value(), Modulus());
        num.Subtract(div);
        SetQuotientBit(q, shift);
        pn[shift / 32] := Or32(pn[shift / 32], Shl(1, shift % 32));
        assert pn[..] == q[shift / 32 := Or32(q[shift / 32], Shl(1, shift % 32))];
        DivideTaken(x, y, before, Val(q), shift);
      } else {
        DivideSkipped(x, y, num.Value(), Value(), shift);
        LowerClear(pn[..], shift);
      }
    }

    /** Division by zero throws after the number has been cleared. */
    method Divide(b: BaseUint) returns (ok: bool)
      requires b.pn.Length == pn.Length
      modifies pn
      ensures ok <==> old(b.Value()) != 0
      ensures ok ==> Value() == old(Value()) / old(b.Value())
      ensures !ok ==> Value() == 0
    {
      hide Val, P, Mod, Quot, Pow2, Or32, Dividing, LowClear;
      var div := new BaseUint.Copy(b);
      var num := new BaseUint.Copy(this);
      ghost var x, y := num.Value(), div.Value();
      Clear();
      var numBits := num.Bits();
      var divBits := div.Bits();
      if divBits == 0 {
        Pow2Zero();
        return false;
      }
      if divBits > numBits {
        Pow2Mono(numBits, divBits - 1);
        Quotient(x, y, 0, x);
        return true;
      }
      var shift: int := numBits - divBits;
      DivideStart(x, y, numBits, divBits, pn.Length);
      div.ShiftLeft(shift);
      QuotientStart(pn[..], shift + 1);
      while shift >= 0
        modifies pn, div.pn, num.pn
        invariant -1 <= shift < 32 * pn.Length
        invariant shift >= 0 ==> div.Value() == y * Pow2(shift)
        invariant Dividing(x, y, num.Value(), Value(), shift + 1)
        invariant LowClear(pn[..], shift + 1)
      {
        TakeBit(div, num, shift, x, y);
        if shift > 0 {
          HalfShift(y, shift);
        }
        div.ShiftRight(1);
        shift := shift - 1;
      }
      DivideDone(x, y, num.Value(), Value());
      return true;
    }

    method GetLow64() returns (n: nat)
      requires pn.Length >= 2
      ensures n == Value() % 0x1_0000_0000_0000_0000
    {
      hide Val, P, Mod;
      n := pn[0] + pn[1] * B;
      Low64(pn[..]);
    }

    method EqualTo(n: nat) returns (eq: bool)
      requires pn.Length >= 2 && n < B * B
      ensures eq <==> Value() == n
    {
      hide Val, P, Mod;
      Low64(pn[..]);
      ghost var high := pn[2..];
      var i := pn.Length;
      while i > 2
        invariant 2 <= i <= pn.Length && Zeros(pn[i..])
      {
        i := i - 1;
        if pn[i] != 0 {
          NonZero(high, i - 2);
          return false;
        }
        assert pn[i..] == [pn[i]] + pn[i + 1..];
      }
      ValZero(high);
      eq := pn[1] == n / B && pn[0] == n % B;
    }
  }

  lemma Negative(x: nat, m: nat)
    requires x < m
    ensures Mod(m - 1 - x + 1, m) == Mod(0 - x, m)
  {
    if x == 0 {
      Quotient(m, m, 1, 0);
      Quotient(0, m, 0, 0);
    } else {
      Small(m - x, m);
      Quotient(0 - x, m, -1, m - x);
    }
  }

  lemma PZero()
    ensures P(0) == 1
  {
  }

  /** The limb at `i` goes up by one and those below it from their highest value to zero. */
  lemma Incremented(x: seq<Limb>, y: seq<Limb>, i: nat)
    requires i < |x| == |y|
    requires Val(y[..i]) == 0 && Val(x[..i]) + 1 == P(i)
    requires y[i] as int == x[i] as int + 1 && y[i + 1..] == x[i + 1..]
    ensures Val(y) == Val(x) + 1 && Val(y) == Mod(Val(x) + 1, P(|x|))
  {
    hide Val, P, Mod;
    ValSplit(x, i + 1);
    ValSplit(y, i + 1);
    Extend(x, i);
    Extend(y, i);
    Distribute(x[i], 1, P(i));
    ValBound(y);
    Small(Val(y), P(|x|));
  }

  lemma AddStep(x: seq<Limb>, y: seq<Limb>, done: seq<Limb>, carry: nat, i: nat)
    requires i < |x| == |y| && |done| == i && carry <= 1
    requires Val(done) + carry * P(i) == Val(x[..i]) + Val(y[..i])
    ensures var n := carry + x[i] + y[i];
            Val(done + [n % B]) + n / B * P(i + 1) == Val(x[..i + 1]) + Val(y[..i + 1])
  {
    hide Val, P, Mod;
    var n := carry + x[i] + y[i];
    Extend(x, i);
    Extend(y, i);
    Extend(done + [n % B], i);
    assert (done + [n % B])[..i] == done && (done + [n % B])[..i + 1] == done + [n % B];
    PNext(i);
    CarryStep(n, P(i));
    Distribute(carry, x[i] as int + y[i], P(i));
    Distribute(x[i], y[i], P(i));
  }

  lemma {:induction false} Complemented(x: seq<Limb>, r: seq<Limb>)
    requires |x| == |r| && forall i | 0 <= i < |x| :: r[i] == B - 1 - x[i]
    ensures Val(r) == P(|x|) - 1 - Val(x)
  {
    if x != [] {
      var n := |x| - 1;
      Complemented(x[..n], r[..n]);
      Distribute(x[n], r[n], P(n));
      assert (x[n] + r[n]) * P(n) == (B - 1) * P(n);
    }
  }

  ghost predicate Zeros(s: seq<Limb>) {
    forall i | 0 <= i < |s| :: s[i] == 0
  }

  //////////////////////////////////////////////////////////////////////////////
  // Multiplication
  //////////////////////////////////////////////////////////////////////////////

  /** The 64-bit intermediate does not overflow. */
  lemma Product(d: Limb, e: Limb, carry: nat, r: Limb)
    requires carry < B
    ensures carry + r + Wide(d, e) < B * B && (carry + r + Wide(d, e)) / B < B
    ensures d == 0 || e == 0 ==> Wide(d, e) == 0
  {
    Mono(d, B - 1, e);
    Mono(e, B - 1, B - 1);
  }

  ghost function At(c: nat, i: nat): nat {
    c * P(i)
  }

  /** A product of two limbs, moved up by `j` limbs. */
  ghost function Term(d: Limb, v: nat, j: nat): nat {
    d * v * P(j)
  }

  /** The 64-bit product of two limbs. */
  function Wide(d: Limb, e: Limb): nat {
    d * e
  }

  lemma NoTerm(d: Limb, y: seq<Limb>, j: nat)
    ensures Term(d, Val(y[..0]), j) == 0 && At(0, j) == 0
  {
    assert y[..0] == [];
  }

  lemma NoProduct(a: seq<Limb>, b: nat)
    ensures 0 == Mod(Val(a[..0]) * b, P(|a|))
  {
    assert a[..0] == [];
    Small(0, P(|a|));
  }

  lemma MoreProduct(a: seq<Limb>, b: nat, j: nat, m: nat)
    requires j < |a| && m > 0
    ensures Mod(Mod(Val(a[..j]) * b, m) + Term(a[j], b, j), m) == Mod(Val(a[..j + 1]) * b, m)
  {
    hide Val, P, Mod;
    Extend(a, j);
    Partial(Val(a[..j]), b, a[j], P(j));
    ModAdd(Val(a[..j]) * b, a[j] * b * P(j), m);
  }

  lemma ProductStep(x: seq<Limb>, y: seq<Limb>, done: seq<Limb>, carry: nat, d: Limb, i: nat, j: nat)
    requires i + j < |x| == |y| && |done| == i + j
    requires Val(done) + At(carry, i + j) == Val(x[..i + j]) + Term(d, Val(y[..i]), j)
    ensures var n := carry + x[i + j] + Wide(d, y[i]);
            Val(done + [n % B]) + At(n / B, i + j + 1) == Val(x[..i + j + 1]) + Term(d, Val(y[..i + 1]), j)
  {
    hide Val, P, Mod;
    var n := carry + x[i + j] + Wide(d, y[i]);
    Extend(x, i + j);
    Extend(y, i);
    Extend(done + [n % B], i + j);
    assert (done + [n % B])[..i + j] == done && (done + [n % B])[..i + j + 1] == done + [n % B];
    PNext(i + j);
    CarryStep(n, P(i + j));
    PAdd(i, j);
    ProductSum(carry, x[i + j], d, y[i], P(i), P(j), Val(y[..i]));
  }

  lemma ProductSum(c: nat, x: nat, d: nat, y: nat, p: nat, q: nat, v: nat)
    ensures (c + x + d * y) * (p * q) == c * (p * q) + x * (p * q) + (d * (v + y * p) * q - d * v * q)
  {
    Distribute(c + x, d * y, p * q);
    Distribute(c, x, p * q);
    Distribute(v, y * p, d);
    Distribute(d * v, d * (y * p), q);
    assert d * y * (p * q) == d * (y * p) * q by {
      Associate(d, y, p * q);
      Associate(y, p, q);
      Associate(d, y * p, q);
    }
  }

  lemma ProductDone(x: nat, y: seq<Limb>, d: Limb, j: nat, r: nat, carry: nat)
    requires j < |y| && r < P(|y|)
    requires r + At(carry, |y|) == x + Term(d, Val(y[..|y| - j]), j)
    ensures r == Mod(x + Term(d, Val(y), j), P(|y|))
  {
    hide Val, P, Mod;
    var k := |y| - j;
    ValSplit(y, k);
    PAdd(k, j);
    var lo, hi := Val(y[..k]), Val(y[k..]);
    assert d * (lo + P(k) * hi) * P(j) == d * lo * P(j) + d * hi * P(|y|) by {
      Distribute(lo, P(k) * hi, d);
      Distribute(d * lo, d * (P(k) * hi), P(j));
      Associate(d, hi, P(k));
      Associate(d * hi, P(k), P(j));
    }
    Distribute(carry, d * hi, P(|y|));
    Quotient(x + d * Val(y) * P(j), P(|y|), carry + d * hi, r);
  }

  lemma Partial(v: nat, b: nat, d: nat, p: nat)
    ensures (v + d * p) * b == v * b + d * b * p
  {
    Distribute(v, d * p, b);
    Associate(d, p, b);
    Associate(d, b, p);
  }

  lemma ModAdd(x: int, y: int, m: nat)
    requires m > 0
    ensures Mod(Mod(x, m) + y, m) == Mod(x + y, m)
  {
    var q, r := (x % m + y) / m, (x % m + y) % m;
    assert x == x / m * m + x % m;
    assert x % m + y == q * m + r;
    Distribute(x / m, q, m);
    Quotient(x + y, m, x / m + q, r);
  }

  lemma ScaleStep(x: seq<Limb>, done: seq<Limb>, carry: nat, d: Limb, i: nat)
    requires i < |x| && |done| == i
    requires Val(done) + carry * P(i) == Val(x[..i]) * d
    ensures var n := carry + Wide(d, x[i]);
            Val(done + [n % B]) + n / B * P(i + 1) == Val(x[..i + 1]) * d
  {
    hide Val, P, Mod;
    var n := carry + Wide(d, x[i]);
    Extend(x, i);
    Extend(done + [n % B], i);
    assert (done + [n % B])[..i] == done && (done + [n % B])[..i + 1] == done + [n % B];
    PNext(i);
    CarryStep(n, P(i));
    Distribute(carry, d * x[i], P(i));
    Partial(Val(x[..i]), d, x[i], P(i));
  }

  //////////////////////////////////////////////////////////////////////////////
  // Shifts
  //////////////////////////////////////////////////////////////////////////////

  lemma PositiveProduct(a: nat, b: nat)
    requires a >= 1 && b >= 1
    ensures a * b >= 1
  {
  }

  /** Shifting a limb left splits it at bit `32 - s`. */
  lemma LimbShift(v: Limb, s: nat)
    requires s <= 32
    ensures Shl(v, s) == v % Pow2(32 - s) * Pow2(s)
    ensures v * Pow2(s) == Shl(v, s) + Shr(v, 32 - s) * B
    ensures Shr(v, 32 - s) < Pow2(s)
    ensures Shl(v, s) % Pow2(s) == 0
    ensures Shl(v, s) + Pow2(s) <= B
  {
    hide Pow2;
    var p, q := Pow2(s), Pow2(32 - s);
    Pow2Limb();
    Pow2Add(s, 32 - s);
    var hi, lo := v / q, v % q;
    assert v == hi * q + lo;
    assert v * p == hi * B + lo * p by {
      Distribute(hi * q, lo, p);
      Associate(hi, q, p);
    }
    Mono(lo + 1, q, p);
    Distribute(lo, 1, p);
    Quotient(v * p, B, hi, lo * p);
    Quotient(lo * p, p, lo, 0);
    if hi >= p {
      Mono(p, hi, q);
    }
  }

  /** The first `t` limbs have been moved up by `k` limbs and `s` bits; what is left of the last of them
      is in the limb above. */
  ghost predicate ShiftedUp(x: seq<Limb>, r: seq<Limb>, k: nat, s: nat, t: nat) {
    && |r| == |x| && t + k <= |r| && s < 32
    && Val(r[..t + k]) + Spill(x, s, t) * P(t + k) == Val(x[..t]) * Pow2(s) * P(k)
    && (t + k < |r| ==> r[t + k] == Spill(x, s, t))
    && forall m | t + k < m < |r| :: r[m] == 0
  }

  ghost function Spill(x: seq<Limb>, s: nat, t: nat): (c: nat)
    requires t <= |x| && s < 32
    ensures c < Pow2(s)
  {
    if t == 0 then 0
    else
      LimbShift(x[t - 1], s);
      Shr(x[t - 1], 32 - s)
  }

  lemma UpStart(x: seq<Limb>, r: seq<Limb>, k: nat, s: nat)
    requires |r| == |x| && k <= |r| && s < 32 && Zeros(r)
    ensures ShiftedUp(x, r, k, s, 0)
  {
    ValZero(r[..k]);
    ValZero([]);
  }

  /** The limbs that the next step writes. */
  lemma UpFacts(x: seq<Limb>, r: seq<Limb>, k: nat, s: nat, t: nat)
    requires ShiftedUp(x, r, k, s, t) && t + k < |r|
    ensures Or32(r[t + k], Shl(x[t], s)) as nat == r[t + k] as nat + Shl(x[t], s)
    ensures t + k + 1 < |r| ==> Or32(r[t + k + 1], Shr(x[t], 32 - s)) == Shr(x[t], 32 - s)
    ensures s == 0 ==> Shr(x[t], 32 - s) == 0
    ensures t + k + 1 < |r| ==> r[t + k + 1] == 0
  {
    hide Val, P, Pow2, Or, Shl, Shr;
    LimbShift(x[t], s);
    OrDisjoint(Shl(x[t], s), r[t + k], s);
    OrZero(Shr(x[t], 32 - s));
    assert s == 0 ==> Pow2(s) == 1 by {
      Pow2Zero();
    }
  }

  lemma Pow2Zero()
    ensures Pow2(0) == 1
  {
  }

  lemma UpStep(x: seq<Limb>, r: seq<Limb>, u: seq<Limb>, k: nat, s: nat, t: nat)
    requires ShiftedUp(x, r, k, s, t) && t + k < |r| == |u|
    requires u[t + k] as nat == r[t + k] as nat + Shl(x[t], s)
    requires t + k + 1 < |r| ==> u[t + k + 1] == Shr(x[t], 32 - s)
    requires forall m | 0 <= m < |r| && m != t + k && m != t + k + 1 :: u[m] == r[m]
    ensures ShiftedUp(x, u, k, s, t + 1)
  {
    hide Val, P, Pow2, Shl, Shr;
    var c, v := Spill(x, s, t), x[t];
    LimbShift(v, s);
    assert u[..t + k] == r[..t + k];
    Extend(u, t + k);
    Extend(x, t);
    PNext(t + k);
    PAdd(t, k);
    UpSum(c, Shl(v, s), Shr(v, 32 - s), v, Pow2(s), P(t), P(k), Val(x[..t]));
  }

  /** One limb has been moved, shifted left, into the limbs at `at` and above. */
  ghost predicate MovedUp(v: Limb, at: nat, s: nat, r: seq<Limb>, u: seq<Limb>)
    requires s < 32
  {
    && |u| == |r|
    && (at < |r| ==> u[at] == Or32(r[at], Shl(v, s)))
    && (at + 1 < |r| ==> u[at + 1] == if s == 0 then r[at + 1] else Or32(r[at + 1], Shr(v, 32 - s)))
    && forall m | 0 <= m < |r| && m != at && m != at + 1 :: u[m] == r[m]
  }

  /** One limb has been moved, shifted right, into the limbs at `at` and below. */
  ghost predicate MovedDown(v: Limb, at: int, s: nat, r: seq<Limb>, u: seq<Limb>)
    requires s < 32
  {
    && |u| == |r|
    && (0 <= at < |r| ==> u[at] == Or32(r[at], Shr(v, s)))
    && (1 <= at <= |r| ==> u[at - 1] == if s == 0 then r[at - 1] else Or32(r[at - 1], Shl(v, 32 - s)))
    && forall m | 0 <= m < |r| && m != at && m != at - 1 :: u[m] == r[m]
  }

  lemma UpMoved(x: seq<Limb>, r: seq<Limb>, u: seq<Limb>, k: nat, s: nat, t: nat)
    requires s < 32 && ShiftedUp(x, r, k, s, t) && t + k < |r| && MovedUp(x[t], t + k, s, r, u)
    ensures ShiftedUp(x, u, k, s, t + 1)
  {
    hide ShiftedUp, Or32, Shl, Shr, Pow2;
    UpShape(x, r, k, s, t);
    UpFacts(x, r, k, s, t);
    UpStep(x, r, u, k, s, t);
  }

  lemma UpShape(x: seq<Limb>, r: seq<Limb>, k: nat, s: nat, t: nat)
    requires ShiftedUp(x, r, k, s, t)
    ensures |x| == |r|
  {
  }

  lemma DownMoved(x: seq<Limb>, r: seq<Limb>, u: seq<Limb>, k: nat, s: nat, t: nat)
    requires s < 32 && ShiftedDown(x, r, k, s, t) && k + t < |x| && MovedDown(x[k + t], t, s, r, u)
    ensures ShiftedDown(x, u, k, s, t + 1)
  {
    hide ShiftedDown, Or32, Shl, Shr, Pow2;
    DownShape(x, r, k, s, t);
    DownFacts(x, r, k, s, t);
    DownStep(x, r, u, k, s, t);
  }

  lemma DownShape(x: seq<Limb>, r: seq<Limb>, k: nat, s: nat, t: nat)
    requires ShiftedDown(x, r, k, s, t)
    ensures |x| == |r|
  {
  }

  lemma UpSum(c: nat, lo: nat, hi: nat, v: nat, m: nat, p: nat, q: nat, x: nat)
    requires v * m == lo + hi * B
    ensures (c + lo) * (p * q) + hi * (B * (p * q)) == c * (p * q) + ((x + v * p) * m * q - x * m * q)
  {
    Distribute(c, lo, p * q);
    Associate(hi, B, p * q);
    Distribute(lo, hi * B, p * q);
    Distribute(x, v * p, m);
    Distribute(x * m, v * p * m, q);
    assert v * m * (p * q) == v * p * m * q by {
      Associate(v * m, p, q);
      Associate(v, m, p);
      Associate(v, p, m);
    }
  }

  lemma UpAlgebra(lo: nat, hi: nat, p: nat, q: nat, m: nat)
    ensures (lo + p * hi) * (q * m) == lo * m * q + hi * m * (p * q)
  {
    Distribute(lo, p * hi, q * m);
    Associate(lo, m, q);
    Associate(p * hi, q, m);
    Associate(hi, p, q);
    Associate(hi, p * q, m);
    Associate(hi, m, p * q);
  }

  lemma UpFinal(lo: nat, hi: nat, p: nat, q: nat, m: nat, c: nat, r: nat)
    requires r < p * q && r + c * (p * q) == lo * m * q
    ensures r == Mod((lo + p * hi) * (q * m), p * q)
  {
    UpAlgebra(lo, hi, p, q, m);
    Distribute(hi * m, c, p * q);
    Quotient((lo + p * hi) * (q * m), p * q, hi * m + c, r);
  }

  lemma UpDone(x: seq<Limb>, r: seq<Limb>, k: nat, s: nat)
    requires k <= |x| && ShiftedUp(x, r, k, s, |x| - k)
    ensures Val(r) == Mod(Val(x) * Pow2(32 * k + s), P(|x|))
  {
    hide Val, P, Pow2, Mod, Spill;
    var t := |x| - k;
    ValSplit(x, t);
    PAdd(t, k);
    PowerOfLimb(k);
    Pow2Add(32 * k, s);
    assert r[..t + k] == r;
    ValBound(r);
    UpFinal(Val(x[..t]), Val(x[t..]), P(t), P(k), Pow2(s), Spill(x, s, t), Val(r));
  }

  lemma UpOver(v: nat, w: nat, k: nat, s: nat)
    requires k > w
    ensures Mod(v * Pow2(32 * k + s), P(w)) == 0
  {
    hide P, Pow2;
    PAdd(w, k - w);
    PowerOfLimb(k);
    Pow2Add(32 * k, s);
    var q := v * (P(k - w) * Pow2(s));
    assert v * (P(k) * Pow2(s)) == q * P(w) by {
      Associate(P(w), P(k - w), Pow2(s));
      Associate(v, P(k - w) * Pow2(s), P(w));
    }
    Remainder(0, q, P(w));
  }

  /** The first `t` limbs from `k` on have been moved down by `k` limbs and `s` bits. */
  ghost predicate ShiftedDown(x: seq<Limb>, r: seq<Limb>, k: nat, s: nat, t: nat) {
    && |r| == |x| && k + t <= |x| && s < 32
    && Val(r[..t]) * Pow2(s) + Cut(x, k, s, t) == Val(x[k..k + t])
    && (t > 0 ==> r[t - 1] == Shr(x[k + t - 1], s))
    && forall m | t <= m < |r| :: r[m] == 0
  }

  /** The bits that fall off. */
  ghost function Cut(x: seq<Limb>, k: nat, s: nat, t: nat): (c: nat)
    requires k + t <= |x|
    ensures c < Pow2(s)
  {
    if t == 0 then 0 else x[k] % Pow2(s)
  }

  lemma DownStart(x: seq<Limb>, r: seq<Limb>, k: nat, s: nat)
    requires |r| == |x| && k <= |r| && s < 32 && Zeros(r)
    ensures ShiftedDown(x, r, k, s, 0)
  {
    assert r[..0] == [] && x[k..k + 0] == [];
  }

  lemma DownFacts(x: seq<Limb>, r: seq<Limb>, k: nat, s: nat, t: nat)
    requires ShiftedDown(x, r, k, s, t) && k + t < |x|
    ensures Or32(r[t], Shr(x[k + t], s)) == Shr(x[k + t], s)
    ensures t > 0 && s > 0 ==> Or32(r[t - 1], Shl(x[k + t], 32 - s)) as nat == r[t - 1] as nat + Shl(x[k + t], 32 - s)
  {
    hide Val, P, Pow2, Or, Shl, Shr;
    OrZero(Shr(x[k + t], s));
    if t > 0 && s > 0 {
      LimbShift(x[k + t], 32 - s);
      LimbShift(x[k + t - 1], 32 - s);
      OrDisjoint(Shl(x[k + t], 32 - s), r[t - 1], 32 - s);
    }
  }

  lemma DownFirst(x: seq<Limb>, u: seq<Limb>, k: nat, s: nat)
    requires k < |x| && |u| > 0 && u[0] == Shr(x[k], s)
    ensures Val(u[..1]) * Pow2(s) + x[k] % Pow2(s) == Val(x[k..k + 1])
  {
    hide Val, P, Pow2, Shr;
    ValOne(u[..1]);
    ValOne(x[k..k + 1]);
    LimbParts(x[k], s);
  }

  lemma DownNext(x: seq<Limb>, r: seq<Limb>, u: seq<Limb>, k: nat, s: nat, t: nat)
    requires 0 < t < |r| == |u| && k + t < |x| && s < 32
    requires u[t] == Shr(x[k + t], s)
    requires u[t - 1] as nat == r[t - 1] as nat + Over(x[k + t], s)
    requires u[..t - 1] == r[..t - 1]
    ensures Val(u[..t + 1]) * Pow2(s) == Val(r[..t]) * Pow2(s) + (Val(x[k..k + t + 1]) - Val(x[k..k + t]))
  {
    hide Val, P, Pow2, Shl, Shr, Over;
    var v, y := x[k + t], x[k..k + t + 1];
    Extend(u, t);
    Extend(y, t);
    assert y[..t] == x[k..k + t] && y[..t + 1] == y;
    Extend(u, t - 1);
    Extend(r, t - 1);
    PNext(t - 1);
    LimbParts(v, s);
    OverScaled(v, s);
    DownSum(v, Over(v, s), Shr(v, s), v % Pow2(s), Pow2(s), P(t - 1), r[t - 1], Val(r[..t - 1]));
  }

  lemma DownStep(x: seq<Limb>, r: seq<Limb>, u: seq<Limb>, k: nat, s: nat, t: nat)
    requires ShiftedDown(x, r, k, s, t) && k + t < |x| && |u| == |r|
    requires u[t] == Shr(x[k + t], s)
    requires t > 0 ==> u[t - 1] as nat == r[t - 1] as nat + Over(x[k + t], s)
    requires forall m | 0 <= m < |r| && m != t && m != t - 1 :: u[m] == r[m]
    ensures ShiftedDown(x, u, k, s, t + 1)
  {
    hide Val, P, Pow2, Shl, Shr, Over;
    if t == 0 {
      DownFirst(x, u, k, s);
    } else {
      DownNext(x, r, u, k, s, t);
    }
  }

  lemma LimbParts(v: Limb, s: nat)
    ensures v == Shr(v, s) * Pow2(s) + v % Pow2(s)
  {
  }

  /** What goes over into the limb below when a limb is shifted right by `s`. */
  ghost function Over(v: Limb, s: nat): Limb
    requires s < 32
  {
    if s == 0 then 0 else Shl(v, 32 - s)
  }

  lemma OverScaled(v: Limb, s: nat)
    requires s < 32
    ensures Over(v, s) * Pow2(s) == v % Pow2(s) * B
  {
    hide Pow2, Shl, Shr;
    if s == 0 {
      Pow2Zero();
    } else {
      LimbShift(v, 32 - s);
      Pow2Add(32 - s, s);
      Pow2Limb();
      Associate(v % Pow2(s), Pow2(32 - s), Pow2(s));
    }
  }

  lemma DownSum(v: nat, add: nat, hi: nat, lo: nat, m: nat, p: nat, r: nat, low: nat)
    requires v == hi * m + lo && add * m == lo * B
    ensures (low + (r + add) * p + hi * (B * p)) * m == (low + r * p) * m + v * (B * p)
  {
    Distribute(r, add, p);
    Distribute(low + r * p, add * p + hi * (B * p), m);
    Distribute(add * p, hi * (B * p), m);
    assert add * p * m == lo * (B * p) by {
      Associate(add, p, m);
      Associate(add, m, p);
      Associate(lo, B, p);
    }
    assert hi * (B * p) * m == hi * m * (B * p) by {
      Associate(hi, B * p, m);
      Associate(hi, m, B * p);
    }
    Distribute(hi * m, lo, B * p);
  }

  lemma DownDone(x: seq<Limb>, r: seq<Limb>, k: nat, s: nat)
    requires k <= |x| && ShiftedDown(x, r, k, s, |x| - k)
    ensures Val(r) == Quot(Val(x), Pow2(32 * k + s))
  {
    hide Val, P, Pow2, Quot, Cut, Shr;
    var t := |x| - k;
    assert x[k..k + t] == x[k..];
    ValSplit(x, k);
    ValSplit(r, t);
    ValZero(r[t..]);
    ValBound(x[..k]);
    PowerOfLimb(k);
    Pow2Add(32 * k, s);
    DownFinal(Val(r), Pow2(s), P(k), Cut(x, k, s, t), Val(x[..k]));
  }

  lemma DownFinal(r: nat, m: nat, p: nat, c: nat, low: nat)
    requires c < m && low < p
    ensures m >= 1 && p * m > 0 && Quot(low + p * (r * m + c), p * m) == r
  {
    Distribute(r * m, c, p);
    Associate(r, m, p);
    Mono(c + 1, m, p);
    Distribute(c, 1, p);
    Quotient(low + p * (r * m + c), p * m, r, low + c * p);
  }

  lemma DownOver(x: seq<Limb>, k: nat, s: nat)
    requires k > |x|
    ensures Quot(Val(x), Pow2(32 * k + s)) == 0
  {
    hide Val, P, Pow2;
    ValBound(x);
    PowerOfLimb(|x|);
    Pow2Mono(32 * |x|, 32 * k + s);
    Small(Val(x), Pow2(32 * k + s));
  }

  //////////////////////////////////////////////////////////////////////////////
  // The highest bit
  //////////////////////////////////////////////////////////////////////////////

  lemma TopBit(v: nat, n: nat)
    requires v < Pow2(n + 1)
    ensures v / Pow2(n) % 2 == 1 <==> v >= Pow2(n)
    ensures v / Pow2(n) % 2 != 1 ==> v < Pow2(n)
  {
    var p := Pow2(n);
    assert Pow2(n + 1) == 2 * p;
    if v >= p {
      Quotient(v, p, 1, v - p);
    } else {
      Small(v, p);
    }
  }

  lemma HighestBit(s: seq<Limb>, pos: nat, n: nat)
    requires pos < |s| && Zeros(s[pos + 1..])
    requires n < 32 && Pow2(n) <= s[pos] < Pow2(n + 1)
    ensures Pow2(32 * pos + n) <= Val(s) < Pow2(32 * pos + n + 1)
  {
    hide Val, P, Pow2;
    ValSplit(s, pos + 1);
    ValZero(s[pos + 1..]);
    Extend(s, pos);
    ValBound(s[..pos]);
    PowerOfLimb(pos);
    Pow2Add(n, 32 * pos);
    Pow2Add(n + 1, 32 * pos);
    Mono(Pow2(n), s[pos], P(pos));
    Mono(s[pos] as nat + 1, Pow2(n + 1), P(pos));
    Distribute(s[pos], 1, P(pos));
  }

  lemma {:induction false} NonZero(s: seq<Limb>, i: nat)
    requires i < |s| && s[i] != 0
    ensures Val(s) >= 1
  {
    hide Val, P;
    ValSplit(s, i + 1);
    Extend(s, i);
    PositiveProduct(s[i], P(i));
  }

  lemma Low64(s: seq<Limb>)
    requires |s| >= 2
    ensures Val(s) == s[0] + s[1] * B + B * B * Val(s[2..])
    ensures Val(s) % (B * B) == s[0] + s[1] * B
  {
    hide Val, P;
    ValSplit(s, 2);
    Extend(s, 1);
    Extend(s, 0);
    assert s[..0] == [];
    ValZero([]);
    PZero();
    PNext(0);
    PNext(1);
  }

  //////////////////////////////////////////////////////////////////////////////
  // Division
  //////////////////////////////////////////////////////////////////////////////

  /** What is left of the dividend, with the quotient so far, when bits from `n` up are decided. */
  ghost predicate Dividing(x: nat, y: nat, num: nat, q: nat, n: nat) {
    x == num + q * y && num < y * Pow2(n)
  }

  /** The limbs have no bits below `n`. */
  ghost predicate LowClear(s: seq<Limb>, n: nat) {
    && (forall i | 0 <= i < |s| && 32 * i + 32 <= n :: s[i] == 0)
    && (forall i | 0 <= i < |s| && 32 * i <= n < 32 * i + 32 :: s[i] % Pow2(n - 32 * i) == 0)
  }

  lemma DivideStart(x: nat, y: nat, numBits: nat, divBits: nat, w: nat)
    requires 1 <= divBits <= numBits <= 32 * w
    requires x < Pow2(numBits) && Pow2(divBits - 1) <= y < Pow2(divBits)
    ensures var shift := numBits - divBits;
            && Mod(y * Pow2(shift), P(w)) == y * Pow2(shift)
            && Dividing(x, y, x, 0, shift + 1)
  {
    hide Pow2, P, Mod;
    var shift := numBits - divBits;
    Pow2Add(divBits, shift);
    Pow2Mono(numBits, 32 * w);
    PowerOfLimb(w);
    Mono(y, Pow2(divBits), Pow2(shift));
    StrictMono(y, Pow2(divBits), Pow2(shift));
    Small(y * Pow2(shift), P(w));
    Pow2Add(divBits - 1, shift + 1);
    Mono(Pow2(divBits - 1), y, Pow2(shift + 1));
  }

  lemma StrictMono(a: nat, b: nat, c: nat)
    requires a < b && c >= 1
    ensures a * c < b * c
  {
  }

  lemma QuotientStart(s: seq<Limb>, n: nat)
    requires Zeros(s)
    ensures LowClear(s, n)
  {
    forall i | 0 <= i < |s| && 32 * i <= n < 32 * i + 32 ensures s[i] % Pow2(n - 32 * i) == 0 {
      Small(0, Pow2(n - 32 * i));
    }
  }

  lemma Pow2Next(n: nat)
    ensures Pow2(n + 1) == 2 * Pow2(n)
  {
  }

  lemma DivideTaken(x: nat, y: nat, num: nat, q: nat, n: nat)
    requires Dividing(x, y, num, q, n + 1) && num >= y * Pow2(n)
    ensures Dividing(x, y, num - y * Pow2(n), q + Pow2(n), n)
  {
    hide Pow2;
    Pow2Next(n);
    Distribute(q, Pow2(n), y);
  }

  lemma DivideSkipped(x: nat, y: nat, num: nat, q: nat, n: nat)
    requires Dividing(x, y, num, q, n + 1) && num < y * Pow2(n)
    ensures Dividing(x, y, num, q, n)
  {
  }

  lemma DivideDone(x: nat, y: nat, num: nat, q: nat)
    requires Dividing(x, y, num, q, 0)
    ensures y > 0 && q == x / y
  {
    Quotient(x, y, q, num);
  }

  lemma HalfShift(y: nat, n: nat)
    requires n > 0
    ensures Quot(y * Pow2(n), Pow2(1)) == y * Pow2(n - 1)
  {
    hide Pow2;
    Pow2Zero();
    Pow2Next(0);
    Pow2Next(n - 1);
    Quotient(y * Pow2(n), 2, y * Pow2(n - 1), 0);
  }

  lemma LowerClear(s: seq<Limb>, n: nat)
    requires LowClear(s, n + 1)
    ensures LowClear(s, n)
  {
    forall i | 0 <= i < |s| && 32 * i <= n < 32 * i + 32 ensures s[i] % Pow2(n - 32 * i) == 0 {
      if n + 1 < 32 * i + 32 {
        LowerMultiple(s[i], n - 32 * i);
      } else {
        Small(0, Pow2(n - 32 * i));
      }
    }
  }

  lemma LowerMultiple(v: nat, n: nat)
    requires v % Pow2(n + 1) == 0
    ensures v % Pow2(n) == 0
  {
    hide Pow2;
    Pow2Next(n);
    var k := v / Pow2(n + 1);
    assert v == k * Pow2(n + 1);
    assert k * (2 * Pow2(n)) == (2 * k) * Pow2(n);
    Quotient(v, Pow2(n), 2 * k, 0);
  }

  /** Setting the next bit of the quotient. */
  lemma SetQuotientBit(s: seq<Limb>, n: nat)
    requires n < 32 * |s| && LowClear(s, n + 1)
    ensures var k := n / 32;
            var u := s[k := Or32(s[k], Shl(1, n % 32))];
            Val(u) == Val(s) + Pow2(n) && LowClear(u, n)
  {
    hide Val, P, Pow2, Or32, Shl;
    var k, j := n / 32, n % 32;
    BitOr(s, n);
    var u := s[k := Or32(s[k], Shl(1, j))];
    ValSplit(s, k + 1);
    ValSplit(u, k + 1);
    Extend(s, k);
    Extend(u, k);
    assert u[..k] == s[..k] && u[k + 1..] == s[k + 1..];
    PowerOfLimb(k);
    Pow2Add(j, 32 * k);
    Distribute(s[k], Pow2(j), P(k));
    BitClear(s, u, n);
  }

  lemma BitOr(s: seq<Limb>, n: nat)
    requires n < 32 * |s| && LowClear(s, n + 1)
    ensures Or32(s[n / 32], Shl(1, n % 32)) as nat == s[n / 32] as nat + Pow2(n % 32)
  {
    hide Pow2;
    var k, j := n / 32, n % 32;
    Pow2Limb();
    Pow2Add(j, 32 - j);
    Pow2Next(j);
    Pow2Next(31 - j);
    Pow2Mono(0, 31 - j);
    BitFits(j);
    assert s[k] % Pow2(j + 1) == 0 by {
      if j + 1 == 32 {
        assert s[k] == 0;
        Small(0, B);
      }
    }
    OrDisjoint(s[k], Pow2(j), j + 1);
  }

  lemma BitFits(j: nat)
    requires j < 32
    ensures Shl(1, j) == Pow2(j) && Pow2(j) < Pow2(j + 1)
  {
    Pow2Limb();
    Pow2Mono(j + 1, 32);
  }

  lemma BitClear(s: seq<Limb>, u: seq<Limb>, n: nat)
    requires n < 32 * |s| && LowClear(s, n + 1) && |u| == |s|
    requires u[n / 32] as nat == s[n / 32] as nat + Pow2(n % 32)
    requires forall i | 0 <= i < |s| && i != n / 32 :: u[i] == s[i]
    ensures LowClear(u, n)
  {
    hide Pow2;
    LowerClear(s, n);
    forall i | 0 <= i < |u| && 32 * i <= n < 32 * i + 32 ensures u[i] % Pow2(n - 32 * i) == 0 {
      var p := Pow2(n % 32);
      assert s[i] == s[i] / p * p;
      Distribute(s[i] / p, 1, p);
      Quotient(u[i], p, s[i] / p + 1, 0);
    }
  }
}
