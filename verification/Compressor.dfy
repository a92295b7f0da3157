/** Amount compression of src/compressor.cpp. Amounts are 64-bit unsigned numbers whose arithmetic wraps;
    the functions on naturals say what they compute as long as it does not. */
module Compressor {

  const WORD: nat := 0x1_0000_0000_0000_0000

  /** The largest valid amount (src/amount.h). */
  const MAX_MONEY: nat := 50000000000 * 100000000

  type Word = n: nat | n < WORD witness 0

  function Pow10(e: nat): (p: nat)
    ensures p >= 1
  {
    if e == 0 then 1 else 10 * Pow10(e - 1)
  }

  /** The code of `n * 10^e` when `e` zeros have been taken off. */
  function Code(n: nat, e: nat): nat
    requires n > 0 && e <= 9
    decreases 9 - e
  {
    if n % 10 == 0 && e < 9 then Code(n / 10, e + 1)
    else if e < 9 then 1 + (n / 10 * 9 + n % 10 - 1) * 10 + e
    else 1 + (n - 1) * 10 + 9
  }

  function Compressed(n: nat): nat {
    if n == 0 then 0 else Code(n, 0)
  }

  /** The number before the zeros are put back. */
  function Base(x: nat): (m: nat)
    requires x > 0
    ensures m > 0
  {
    var y := (x - 1) / 10;
    if (x - 1) % 10 < 9 then y / 9 * 10 + y % 9 + 1 else y + 1
  }

  /** `m` with `e` zeros behind it. */
  function Scaled(m: nat, e: nat): nat {
    m * Pow10(e)
  }

  function Decompressed(x: nat): nat {
    if x == 0 then 0 else Scaled(Base(x), (x - 1) % 10)
  }

  lemma ScaledNext(m: nat, e: nat)
    ensures Scaled(m, e + 1) == 10 * Scaled(m, e) == Scaled(10 * m, e)
    ensures Scaled(m, 0) == m
  {
    TimesTen(m, Pow10(e));
  }

  lemma TimesTen(m: nat, p: nat)
    ensures m * (10 * p) == 10 * (m * p) == 10 * m * p
  {
  }

  /** The fields of a code. */
  lemma CodeFields(n: nat, e: nat)
    requires n > 0 && e <= 9 && (e < 9 ==> n % 10 != 0)
    ensures var x := Code(n, e); x > 0 && (x - 1) % 10 == e && Base(x) == n
  {
  }

  lemma {:induction false} CodeDecompressed(n: nat, e: nat)
    requires n > 0 && e <= 9
    ensures Code(n, e) > 0 && Decompressed(Code(n, e)) == Scaled(n, e)
    decreases 9 - e
  {
    hide Scaled, Base;
    if n % 10 == 0 && e < 9 {
      CodeDecompressed(n / 10, e + 1);
      ScaledNext(n / 10, e);
      assert n == 10 * (n / 10);
    } else {
      CodeFields(n, e);
    }
  }

  /** Every amount is recovered from its code. */
  lemma CompressDecompress(n: nat)
    ensures Decompressed(Compressed(n)) == n
  {
    hide Scaled, Decompressed;
    if n == 0 {
      assert Decompressed(0) == 0 by {
        NoAmount();
      }
    } else {
      CodeDecompressed(n, 0);
      ScaledNext(n, 0);
    }
  }

  lemma NoAmount()
    ensures Decompressed(0) == 0
  {
  }

  lemma {:induction false} CodeZeros(m: nat, k: nat, e: nat)
    requires m > 0 && k + e <= 9
    ensures Scaled(m, k) > 0 && Code(Scaled(m, k), e) == Code(m, e + k)
    decreases k
  {
    hide Scaled;
    if k == 0 {
      ScaledNext(m, 0);
    } else {
      ScaledNext(m, k - 1);
      CodeZeros(m, k - 1, e + 1);
      var n := Scaled(m, k);
      assert n % 10 == 0 && n / 10 == Scaled(m, k - 1);
    }
  }

  lemma BaseCode(x: nat)
    requires x > 0
    ensures Code(Base(x), (x - 1) % 10) == x
  {
  }

  /** Every number is the code of an amount. */
  lemma DecompressCompress(x: nat)
    ensures Compressed(Decompressed(x)) == x
  {
    hide Scaled, Base, Code;
    if x > 0 {
      CodeZeros(Base(x), (x - 1) % 10, 0);
      BaseCode(x);
    }
  }

  /** What the code is: an amount of `m` and `e` zeros, `m` not ending in zero, has the code below; one of nine or more
      zeros has ten times what is before nine of them. */
  lemma CodeExact(m: nat, e: nat)
    requires m > 0 && e <= 9 && (e < 9 ==> m % 10 != 0)
    ensures Compressed(Scaled(m, e)) == if e < 9 then 90 * (m / 10) + 10 * (m % 10) - 9 + e else 10 * m
  {
    hide Scaled;
    CodeZeros(m, e, 0);
  }

  /** The code of an amount is at most nine times the amount. */
  lemma {:induction false} CodeBound(n: nat, e: nat)
    requires n > 0 && e <= 9
    ensures Code(n, e) <= 9 * Scaled(n, e)
    decreases 9 - e
  {
    hide Scaled;
    if n % 10 == 0 && e < 9 {
      CodeBound(n / 10, e + 1);
      ScaledNext(n / 10, e);
      assert n == 10 * (n / 10);
    } else {
      ScaledGrows(n, e);
    }
  }

  lemma {:induction false} ScaledGrows(n: nat, e: nat)
    requires n > 0
    ensures Scaled(n, e) >= n + 9 * e
    ensures e > 0 ==> Scaled(n, e) >= 10 * n
  {
    hide Scaled;
    if e == 0 {
      ScaledNext(n, 0);
    } else {
      ScaledNext(n, e - 1);
      ScaledGrows(n, e - 1);
    }
  }

  /** The word result is the code, and the amount comes back from it, as long as the code fits. */
  lemma NoWrap(n: nat)
    requires n <= (WORD - 1) / 9
    ensures Compressed(n) < WORD && Decompressed(Compressed(n)) == n < WORD
  {
    hide Scaled, Decompressed, Code;
    CompressDecompress(n);
    if n > 0 {
      CodeBound(n, 0);
      ScaledNext(n, 0);
    }
  }

  /** The bound is below the largest valid amount, and is close: the next amount that ends in nine wraps. */
  lemma Wraps(n: nat)
    requires n == 2049638230412172409
    ensures (WORD - 1) / 9 < n <= MAX_MONEY && n - 9 < (WORD - 1) / 9
    ensures Compressed(n) >= WORD && Decompressed(Compressed(n) % WORD) != n
  {
    assert Compressed(n) % WORD == 65;
    assert Base(65) == 7 && (65 - 1) % 10 == 4;
    assert Pow10(4) == 10000;
  }

  method CompressAmount(n: Word) returns (x: Word)
    ensures x == Compressed(n) % WORD
  {
    if n == 0 {
      return 0;
    }
    var m: nat, e := n as nat, 0;
    while m % 10 == 0 && e < 9
      invariant 0 < m < WORD && 0 <= e <= 9 && Code(m, e) == Compressed(n)
      decreases 9 - e
    {
      m := m / 10;
      e := e + 1;
    }
    if e < 9 {
      var d := m % 10;
      assert 1 <= d <= 9;
      m := m / 10;
      x := (1 + (m * 9 + d - 1) * 10 + e) % WORD;
    } else {
      x := (1 + (m - 1) * 10 + 9) % WORD;
    }
  }

  method DecompressAmount(x: Word) returns (n: Word)
    ensures n == Decompressed(x) % WORD
  {
    hide Scaled;
    if x == 0 {
      return 0;
    }
    var y: nat := x - 1;
    var e := y % 10;
    y := y / 10;
    var m: nat;
    if e < 9 {
      var d := y % 9 + 1;
      y := y / 9;
      m := y * 10 + d;
    } else {
      m := y + 1;
    }
    ghost var base, total := m, e;
    ScaledNext(base, 0);
    while e > 0
      invariant 0 <= e <= total && m < WORD
      invariant m == Scaled(base, total - e) % WORD
    {
      WrapTen(Scaled(base, total - e));
      ScaledNext(base, total - e);
      m := m * 10 % WORD;
      e := e - 1;
    }
    return m;
  }

  lemma WrapTen(v: nat)
    ensures v % WORD * 10 % WORD == 10 * v % WORD
  {
  }

  /** The code of an amount that does not end in zero. */
  lemma CodeNoZeros(n: nat)
    requires n % 10 != 0
    ensures Compressed(n) == 90 * (n / 10) + 10 * (n % 10) - 9
  {
  }

  lemma {:induction false} CodeSmall(n: nat, e: nat)
    requires n > 0 && e <= 9
    ensures Code(n, e) <= 10 * n + e
    decreases 9 - e
  {
    if n % 10 == 0 && e < 9 {
      CodeSmall(n / 10, e + 1);
    }
  }

  /** What a code loses from its tens when it wraps `k` times. */
  function Lost(k: nat): nat {
    (k * WORD + 4 * k % 10) / 10
  }

  /** How far the number before the zeros then is from the amount, or one less. */
  function Shift(k: nat): nat {
    Lost(k) / 9 * 10 + Lost(k) % 9
  }

  lemma BaseShift(q: nat, d: nat, lost: nat, y: nat)
    requires 1 <= d <= 9 && y == 9 * q + d - 1 - lost
    ensures var shift := lost / 9 * 10 + lost % 9;
            y / 9 * 10 + y % 9 + 1 == 10 * q + d - shift || y / 9 * 10 + y % 9 + 1 == 10 * q + d - shift - 1
  {
    var a, r := lost / 9, lost % 9;
    if d - 1 - r >= 0 {
      assert y == 9 * (q - a) + (d - 1 - r);
    } else {
      assert y == 9 * (q - a - 1) + (d - 1 - r + 9);
    }
  }

  /** When a wrapped code is read: how many zeros are put back, and the number before them. */
  lemma WrappedBase(n: Word, k: nat)
    requires n % 10 != 0 && 1 <= k && k * WORD <= Compressed(n) < (k + 1) * WORD
    ensures k <= 8
    ensures var x := Compressed(n) - k * WORD;
            && x > 0 && (x - 1) % 10 == 4 * k % 10
            && (Base(x) == n - Shift(k) || Base(x) == n - Shift(k) - 1)
  {
    hide Compressed, Lost;
    CodeNoZeros(n);
    LostExact(k);
    var x := Compressed(n) - k * WORD;
    var y := 9 * (n / 10) + n % 10 - 1 - Lost(k);
    assert x - 1 == 10 * y + 4 * k % 10;
    TensFields(x - 1, y, 4 * k % 10);
    BaseShift(n / 10, n % 10, Lost(k), y);
  }

  lemma TensFields(x: int, y: int, e: nat)
    requires x == 10 * y + e && e < 9
    ensures x / 10 == y && x % 10 == e
  {
  }

  lemma LostExact(k: nat)
    requires k <= 9
    ensures 10 * Lost(k) == k * WORD + 4 * k % 10 && 4 * k % 10 < 9
  {
    match k {
      case 0 | 1 | 2 | 3 | 4 => assert 10 * Lost(k) == k * WORD + 4 * k % 10;
      case _ => assert 10 * Lost(k) == k * WORD + 4 * k % 10;
    }
  }

  /** The powers of ten that occur. */
  function Tens(e: nat): nat {
    match e
    case 2 => 100
    case 4 => 10000
    case 6 => 1000000
    case 8 => 100000000
    case _ => 1
  }

  /** The inverse of `Tens(e) - 1` modulo the word size. */
  function Inverse(e: nat): nat {
    match e
    case 2 => 12670490878911611211
    case 4 => 13458245626333751279
    case 6 => 1672254362768354751
    case 8 => 300153063250403071
    case _ => 0
  }

  lemma InverseExact(e: nat)
    requires e in {2, 4, 6, 8}
    ensures Inverse(e) * (Tens(e) - 1) % WORD == 1
  {
  }

  /** A number with an inverse `u` modulo the word size: its product with `n` fixes `n`. */
  lemma InverseFixes(n: Word, odd: nat, u: nat, rhs: nat, j: int)
    requires odd * n == rhs + j * WORD && u * odd % WORD == 1
    ensures n == u * rhs % WORD
  {
    Divided(u * odd);
    Divided(u * rhs);
    InverseLinear(n, odd, rhs, j, u, u * odd / WORD, u * rhs % WORD, u * rhs / WORD);
  }

  lemma Divided(x: nat)
    ensures x == x % WORD + x / WORD * WORD && x % WORD < WORD
  {
  }

  lemma InverseLinear(n: nat, odd: nat, rhs: nat, j: int, u: nat, t: nat, candidate: nat, c: nat)
    requires odd * n == rhs + j * WORD
    requires u * odd == 1 + t * WORD && u * rhs == candidate + c * WORD
    requires n < WORD && candidate < WORD
    ensures n == candidate
  {
    assert u * (odd * n) == u * odd * n;
    assert u * (rhs + j * WORD) == u * rhs + u * j * WORD;
    assert (1 + t * WORD) * n == n + t * n * WORD;
    var z := c + u * j - t * n;
    assert n - candidate == z * WORD;
  }

  /** The only amount that could be read back from a code that wraps `k` times, for each of the two shifts. */
  function Candidate(k: nat, shift: nat): Word {
    Inverse(4 * k % 10) * (Tens(4 * k % 10) * shift) % WORD
  }

  function CodeOf(n: nat): int {
    90 * (n / 10) + 10 * (n % 10) - 9
  }

  /** It ends in zero, or its code wraps another number of times. */
  predicate Off(k: nat, n: Word) {
    n % 10 == 0 || !(k * WORD <= CodeOf(n) < (k + 1) * WORD)
  }

  lemma Off1()
    ensures Off(1, Candidate(1, Shift(1))) && Off(1, Candidate(1, Shift(1) + 1))
  {
    assert Shift(1) == 2049638230412172402;
    assert Candidate(1, 2049638230412172402) == 15288550632769423584;
    assert Candidate(1, 2049638230412172403) == 10300052185393623248;
  }

  lemma Off2()
    ensures Off(2, Candidate(2, Shift(2))) && Off(2, Candidate(2, Shift(2) + 1))
  {
    assert Shift(2) == 4099276460824344804;
    assert Candidate(2, 4099276460824344804) == 14480868974329830400;
    assert Candidate(2, 4099276460824344805) == 14781022037580233472;
  }

  lemma Off3()
    ensures Off(3, Candidate(3, Shift(3))) && Off(3, Candidate(3, Shift(3) + 1))
  {
    assert Shift(3) == 6148914691236517205;
    assert Candidate(3, 6148914691236517205) == 1925417731599313468;
    assert Candidate(3, 6148914691236517206) == 14595908610510924680;
  }

  lemma Off4()
    ensures Off(4, Candidate(4, Shift(4))) && Off(4, Candidate(4, Shift(4) + 1))
  {
    assert Shift(4) == 8198552921648689607;
    assert Candidate(4, 8198552921648689607) == 14161661572577611840;
    assert Candidate(4, 8198552921648689608) == 15833915935345966592;
  }

  lemma Off6()
    ensures Off(6, Candidate(6, Shift(6))) && Off(6, Candidate(6, Shift(6) + 1))
  {
    assert Shift(6) == 12297829382473034411;
    assert Candidate(6, 12297829382473034411) == 4486081875444583760;
    assert Candidate(6, 12297829382473034412) == 17944327501778335040;
  }

  lemma Off7()
    ensures Off(7, Candidate(7, Shift(7))) && Off(7, Candidate(7, Shift(7) + 1))
  {
    assert Shift(7) == 14347467612885206813;
    assert Candidate(7, 14347467612885206813) == 4266028162630124288;
    assert Candidate(7, 14347467612885206814) == 4566181225880527360;
  }

  lemma Off8()
    ensures Off(8, Candidate(8, Shift(8))) && Off(8, Candidate(8, Shift(8) + 1))
  {
    assert Shift(8) == 16397105843297379214;
    assert Candidate(8, 16397105843297379214) == 7432526512302726184;
    assert Candidate(8, 16397105843297379215) == 1656273317504785780;
  }

  lemma CandidateOff(k: nat, n: Word)
    requires 1 <= k <= 8 && k != 5 && (n == Candidate(k, Shift(k)) || n == Candidate(k, Shift(k) + 1))
    ensures Off(k, n)
  {
    hide Candidate, Shift, Off;
    match k {
      case 1 => Off1();
      case 2 => Off2();
      case 3 => Off3();
      case 4 => Off4();
      case 6 => Off6();
      case 7 => Off7();
      case _ => Off8();
    }
  }

  /** No wrapped code is read as the amount it came from. */
  lemma WrappedDiffers(n: Word, k: nat, base: nat)
    requires n % 10 != 0 && 1 <= k <= 8 && k * WORD <= CodeOf(n) < (k + 1) * WORD
    requires base == n - Shift(k) || base == n - Shift(k) - 1
    ensures Tens(4 * k % 10) * base % WORD != n
  {
    hide Shift, CodeOf, Tens, Inverse, Candidate;
    var tens, v := Tens(4 * k % 10), Tens(4 * k % 10) * base;
    if k == 5 {
      ShiftFive();
    } else if v % WORD == n {
      var a := n - base;
      Remainder(n, base, a, tens, v / WORD);
      InverseExact(4 * k % 10);
      InverseFixes(n, tens - 1, Inverse(4 * k % 10), tens * a, v / WORD);
      CandidateIs(k, a);
      CandidateOff(k, n);
    }
  }

  lemma CandidateIs(k: nat, shift: nat)
    ensures Candidate(k, shift) == Inverse(4 * k % 10) * (Tens(4 * k % 10) * shift) % WORD
  {
  }

  /** Five wraps leave no zeros to put back. */
  lemma ShiftFive()
    ensures Shift(5) > 0 && Tens(4 * 5 % 10) == 1 && Shift(5) + 1 < WORD
  {
  }

  lemma Remainder(n: nat, base: nat, a: int, tens: nat, j: nat)
    requires base == n - a && tens >= 1 && tens * base == n + j * WORD
    ensures (tens - 1) * n == tens * a + j * WORD
  {
    assert tens * (n - a) == tens * n - tens * a;
  }

  /** What the two functions on words give back. */
  function ReadBack(n: Word): Word {
    Decompressed(Compressed(n) % WORD) % WORD
  }

  lemma WrappedReadBack(n: Word)
    requires n % 10 != 0 && Compressed(n) >= WORD
    ensures ReadBack(n) != n
  {
    hide Compressed, Base, Shift, Tens, Scaled, Pow10;
    var k := Compressed(n) / WORD;
    CodeNoZeros(n);
    WrappedBase(n, k);
    var x := Compressed(n) - k * WORD;
    assert x == Compressed(n) % WORD;
    ScaledTens(Base(x), k);
    WrappedDiffers(n, k, Base(x));
  }

  lemma ScaledTens(m: nat, k: nat)
    requires k <= 8
    ensures Scaled(m, 4 * k % 10) == Tens(4 * k % 10) * m
  {
    assert Pow10(0) == 1 && Pow10(2) == 100 && Pow10(4) == 10000;
    assert Pow10(6) == 1000000 && Pow10(8) == 100000000;
  }

  /** The amount is read back from the word exactly if the code fits. */
  lemma WrapExact(n: Word)
    ensures ReadBack(n) == n <==> Compressed(n) < WORD
  {
    hide Decompressed, Compressed;
    CompressDecompress(n);
    if n % 10 == 0 {
      CodeZeroFits(n);
    } else if Compressed(n) >= WORD {
      WrappedReadBack(n);
    }
  }

  /** Exactly which amounts are read back: those that end in zero, and those whose code fits a word. */
  lemma ReadBackExact(n: Word)
    ensures ReadBack(n) == n <==> n % 10 == 0 || 90 * (n / 10) + 10 * (n % 10) - 9 < WORD
  {
    hide Decompressed, Compressed, ReadBack;
    WrapExact(n);
    if n % 10 == 0 {
      CodeZeroFits(n);
    } else {
      CodeNoZeros(n);
    }
  }

  lemma CodeZeroFits(n: Word)
    requires n % 10 == 0
    ensures Compressed(n) < WORD
  {
    if n > 0 {
      CodeSmall(n / 10, 1);
    }
  }

  /** An amount is read back exactly if it ends in zero or its code fits a word. */
  method RoundTrip(n: Word) returns (m: Word)
    ensures n <= (WORD - 1) / 9 ==> m == n
    ensures m == n <==> n % 10 == 0 || 90 * (n / 10) + 10 * (n % 10) - 9 < WORD
  {
    hide Compressed, Decompressed;
    var x := CompressAmount(n);
    m := DecompressAmount(x);
    if n <= (WORD - 1) / 9 {
      NoWrap(n);
    }
    ReadBackExact(n);
  }
}
