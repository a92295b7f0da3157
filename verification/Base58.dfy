/** Base58 of src/base58.cpp: a byte string is written as the base-58 digits of the big-endian number it
    is, with one leading "1" for each leading zero byte.

    Bytes and digits are numbers; a C string is a string without the null character. */
module Base58 {
  import opened Basics

  type Byte = n: nat | n < 256 witness 0

  /** All alphanumeric characters except "0", "I", "O" and "l". */
  const ALPHABET := "123456789" + "ABCDEFGH" + "JKLMN" + "PQRSTUVWXYZ" + "abcdefghijk" + "mnopqrstuvwxyz"

  //////////////////////////////////////////////////////////////////////////////
  // Powers
  //////////////////////////////////////////////////////////////////////////////

  function Pow(b: nat, n: nat): nat {
    if n == 0 then 1 else b * Pow(b, n - 1)
  }

  lemma Mono(a: nat, b: nat, c: nat)
    requires a <= b
    ensures a * c <= b * c
  {
  }

  lemma {:induction false} PowPositive(b: nat, n: nat)
    requires b > 0
    ensures Pow(b, n) > 0
  {
    if n > 0 {
      PowPositive(b, n - 1);
      Mono(1, b, Pow(b, n - 1));
    }
  }

  lemma {:induction false} PowAdd(b: nat, m: nat, n: nat)
    ensures Pow(b, m + n) == Pow(b, m) * Pow(b, n)
  {
    if m > 0 {
      PowAdd(b, m - 1, n);
      assert b * (Pow(b, m - 1) * Pow(b, n)) == (b * Pow(b, m - 1)) * Pow(b, n);
    }
  }

  lemma {:induction false} PowTimes(b: nat, m: nat, n: nat)
    ensures Pow(b, m * n) == Pow(Pow(b, m), n)
  {
    if n > 0 {
      PowTimes(b, m, n - 1);
      assert m * n == m + m * (n - 1);
      PowAdd(b, m, m * (n - 1));
    }
  }

  lemma {:induction false} PowProduct(a: nat, b: nat, n: nat)
    ensures Pow(a * b, n) == Pow(a, n) * Pow(b, n)
  {
    if n > 0 {
      PowProduct(a, b, n - 1);
      Swap(a, b, Pow(a, n - 1), Pow(b, n - 1));
    }
  }

  lemma Swap(a: nat, b: nat, p: nat, q: nat)
    ensures (a * b) * (p * q) == (a * p) * (b * q)
  {
    assert (a * b) * (p * q) == a * (b * (p * q));
    assert b * (p * q) == p * (b * q);
    assert a * (p * (b * q)) == (a * p) * (b * q);
  }

  lemma PowNext(b: nat, n: nat)
    requires n > 0
    ensures Pow(b, n) == b * Pow(b, n - 1)
  {
  }

  lemma {:induction false} PowMono(a: nat, b: nat, n: nat)
    requires a <= b
    ensures Pow(a, n) <= Pow(b, n)
  {
    if n > 0 {
      PowMono(a, b, n - 1);
      Mono(Pow(a, n - 1), Pow(b, n - 1), a);
      Mono(a, b, Pow(b, n - 1));
    }
  }

  lemma PowLonger(b: nat, m: nat, n: nat)
    requires b > 0 && m <= n
    ensures Pow(b, m) <= Pow(b, n)
  {
    hide Pow;
    PowAdd(b, m, n - m);
    PowPositive(b, n - m);
    Mono(1, Pow(b, n - m), Pow(b, m));
  }

  /** Roots are monotone. */
  lemma {:induction false} PowRoot(a: nat, b: nat, n: nat)
    requires n > 0 && Pow(a, n) <= Pow(b, n)
    ensures a <= b
  {
    hide Pow;
    if a > b {
      PowStrict(b, a, n);
    }
  }

  lemma PowStrict(b: nat, a: nat, n: nat)
    requires n > 0 && b < a
    ensures Pow(b, n) < Pow(a, n)
  {
    hide Pow;
    PowNext(a, n);
    PowNext(b, n);
    PowMono(b, a, n - 1);
    PowPositive(a, n - 1);
    StrictProduct(b, a, Pow(b, n - 1), Pow(a, n - 1));
  }

  lemma StrictProduct(b: nat, a: nat, p: nat, q: nat)
    requires b < a && p <= q && q > 0
    ensures b * p < a * q
  {
    Mono(p, q, b);
    assert a * q == b * q + (a - b) * q;
    Mono(1, a - b, q);
  }

  lemma PowExchange(b: nat, m: nat, n: nat)
    ensures Pow(Pow(b, m), n) == Pow(Pow(b, n), m)
  {
    hide Pow;
    PowTimes(b, m, n);
    PowTimes(b, n, m);
    assert m * n == n * m;
  }

  lemma PowTower(b: nat, q: nat, m: nat, n: nat, p: nat)
    requires b > 0 && q * m <= n * p
    ensures Pow(Pow(b, q), m) <= Pow(Pow(b, n), p)
  {
    hide Pow;
    PowTimes(b, q, m);
    PowTimes(b, n, p);
    PowLonger(b, q * m, n * p);
  }

  /** From one comparison of powers to all with a smaller ratio of exponents. */
  lemma PowRatio(a: nat, b: nat, p: nat, q: nat, m: nat, n: nat)
    requires b > 0 && p > 0 && Pow(a, p) <= Pow(b, q) && q * m <= n * p
    ensures Pow(a, m) <= Pow(b, n)
  {
    hide Pow;
    PowExchange(a, m, p);
    PowMono(Pow(a, p), Pow(b, q), m);
    PowTower(b, q, m, n, p);
    PowRoot(Pow(a, m), Pow(b, n), p);
  }

  lemma EightBytes()
    ensures Pow(256, 8) <= Pow(58, 11)
  {
  }

  /** 58^7 is less than one part in 245 above 2^41. */
  lemma SevenDigits()
    ensures 245 * Pow(58, 7) <= 246 * Pow(2, 41)
  {
    assert Pow(2, 10) == 1024;
    PowAdd(2, 10, 10);
    PowAdd(2, 20, 20);
    PowAdd(2, 40, 1);
  }

  lemma TenTimes()
    ensures 58 * Pow(246, 10) <= 64 * Pow(245, 10)
  {
  }

  lemma SeventyOneDigits()
    ensures Pow(58, 71) <= Pow(256, 52)
  {
    hide Pow;
    SevenDigits();
    PowMono(245 * Pow(58, 7), 246 * Pow(2, 41), 10);
    PowProduct(245, Pow(58, 7), 10);
    PowProduct(246, Pow(2, 41), 10);
    PowTimes(58, 7, 10);
    PowTimes(2, 41, 10);
    var c, d, x, y := Pow(245, 10), Pow(246, 10), Pow(58, 70), Pow(2, 410);
    assert c * x <= d * y;
    TenTimes();
    PowAdd(58, 70, 1);
    PowAdd(2, 410, 6);
    PowSmall();
    PowTimes(2, 8, 52);
    PowPositive(245, 10);
    CancelBound(c, d, x, y);
  }

  lemma PowSmall()
    ensures Pow(58, 1) == 58 && Pow(2, 6) == 64 && Pow(2, 8) == 256
  {
  }

  lemma CancelBound(c: nat, d: nat, x: nat, y: nat)
    requires c > 0 && c * x <= d * y && 58 * d <= 64 * c
    ensures 58 * x <= 64 * y
  {
    Mono(58 * d, 64 * c, y);
    assert 58 * (c * x) <= 58 * (d * y);
    assert 58 * (d * y) == 58 * d * y && 64 * c * y == c * (64 * y) && 58 * (c * x) == c * (58 * x);
    if 58 * x > 64 * y {
      Mono(64 * y + 1, 58 * x, c);
    }
  }

  /** The buffer for the base-58 digits of `n` bytes is large enough. */
  lemma EncodeFits(n: nat)
    ensures Pow(256, n) <= Pow(58, n * 138 / 100 + 1)
  {
    EightBytes();
    PowRatio(256, 58, 8, 11, n, n * 138 / 100 + 1);
  }

  /** The buffer for the bytes of `n` base-58 digits is large enough. */
  lemma DecodeFits(n: nat)
    ensures Pow(58, n) <= Pow(256, n * 733 / 1000 + 1)
  {
    SeventyOneDigits();
    PowRatio(58, 256, 71, 52, n, n * 733 / 1000 + 1);
  }

  //////////////////////////////////////////////////////////////////////////////
  // Numbers and digits
  //////////////////////////////////////////////////////////////////////////////

  /** The number that digits, most significant first, stand for. */
  ghost function Value(base: nat, s: seq<nat>): nat {
    if s == [] then 0 else Value(base, s[..|s| - 1]) * base + s[|s| - 1]
  }

  ghost predicate DigitsOf(base: nat, s: seq<nat>) {
    forall i | 0 <= i < |s| :: s[i] < base
  }

  /** The digits of a number, without leading zeros. */
  ghost function Digits(base: nat, n: nat): (s: seq<nat>)
    requires base >= 2
    ensures DigitsOf(base, s) && (s != [] ==> s[0] != 0)
    decreases n
  {
    if n == 0 then []
    else
      Smaller(n, base);
      Digits(base, n / base) + [n % base]
  }

  lemma Smaller(n: nat, base: nat)
    requires n > 0 && base >= 2
    ensures n / base < n && (n / base == 0 ==> n % base == n)
  {
    assert n == n / base * base + n % base;
    Mono(2, base, n / base);
  }

  lemma {:induction false} DigitsValue(base: nat, n: nat)
    requires base >= 2
    ensures Value(base, Digits(base, n)) == n
    decreases n
  {
    hide Value;
    if n == 0 {
      ZerosValue(base, []);
    } else {
      Smaller(n, base);
      var q, r := n / base, n % base;
      DigitsValue(base, q);
      Append(base, Digits(base, q), r);
      assert n == q * base + r;
    }
  }

  lemma Append(base: nat, s: seq<nat>, d: nat)
    ensures Value(base, s + [d]) == Value(base, s) * base + d
  {
    assert (s + [d])[..|s|] == s;
  }

  lemma {:induction false} Prepend(base: nat, d: nat, s: seq<nat>)
    ensures Value(base, [d] + s) == d * Pow(base, |s|) + Value(base, s)
  {
    hide Pow, Value;
    if s == [] {
      assert [d] + s == [] + [d];
      Append(base, [], d);
      ZerosValue(base, []);
      PowNone(base);
    } else {
      var n := |s| - 1;
      Prepend(base, d, s[..n]);
      assert [d] + s == ([d] + s[..n]) + [s[n]] && s == s[..n] + [s[n]];
      Append(base, [d] + s[..n], s[n]);
      Append(base, s[..n], s[n]);
      PowNext(base, n + 1);
      PrependAlgebra(d, Pow(base, n), Value(base, s[..n]), base);
    }
  }

  lemma PowNone(base: nat)
    ensures Pow(base, 0) == 1
  {
  }

  lemma PrependAlgebra(d: nat, p: nat, v: nat, base: nat)
    ensures (d * p + v) * base == d * (base * p) + v * base
  {
    assert (d * p + v) * base == d * p * base + v * base;
    assert d * p * base == d * (base * p);
  }

  lemma {:induction false} ZerosValue(base: nat, s: seq<nat>)
    requires forall i | 0 <= i < |s| :: s[i] == 0
    ensures Value(base, s) == 0
  {
    if s != [] {
      ZerosValue(base, s[..|s| - 1]);
    }
  }

  lemma {:induction false} LeadingZeros(base: nat, z: seq<nat>, s: seq<nat>)
    requires forall i | 0 <= i < |z| :: z[i] == 0
    ensures Value(base, z + s) == Value(base, s)
  {
    if z == [] {
      assert z + s == s;
    } else {
      LeadingZeros(base, z[1..], s);
      assert z + s == [z[0]] + (z[1..] + s);
      Prepend(base, z[0], z[1..] + s);
    }
  }

  lemma {:induction false} ValueBound(base: nat, s: seq<nat>)
    requires base > 0 && DigitsOf(base, s)
    ensures Value(base, s) < Pow(base, |s|)
  {
    if s != [] {
      var n := |s| - 1;
      ValueBound(base, s[..n]);
      Mono(Value(base, s[..n]) + 1, Pow(base, n), base);
    }
  }

  /** Digits without leading zeros are those of their number. */
  lemma {:induction false} ValueDigits(base: nat, s: seq<nat>)
    requires base >= 2 && DigitsOf(base, s) && (s != [] ==> s[0] != 0)
    ensures Digits(base, Value(base, s)) == s
  {
    if s != [] {
      var n := |s| - 1;
      ValueDigits(base, s[..n]);
      var v := Value(base, s[..n]);
      DivMod(v, base, s[n]);
      if n == 0 {
        assert v == 0;
      } else {
        assert v != 0;
        Mono(1, v, base);
      }
      assert s == s[..n] + [s[n]];
    }
  }

  lemma DivMod(q: nat, base: nat, r: nat)
    requires r < base
    ensures (q * base + r) / base == q && (q * base + r) % base == r
  {
    var n := q * base + r;
    assert n == n / base * base + n % base;
    Near(q, n / base, base, n % base - r);
  }

  lemma Near(q: int, p: int, base: nat, r: int)
    requires q * base == p * base + r && 0 - base < r < base
    ensures q == p && r == 0
  {
    assert (q - p) * base == r;
    if q > p {
      Mono(1, q - p, base);
    } else if q < p {
      Mono(1, p - q, base);
    }
  }

  //////////////////////////////////////////////////////////////////////////////
  // The alphabet
  //////////////////////////////////////////////////////////////////////////////

  /** The letter of a digit, by ranges of the alphabet. */
  function Letter(d: nat): (c: char)
    requires d < 58
  {
    if d < 9 then '1' + d as char
    else if d < 17 then 'A' + (d - 9) as char
    else if d < 22 then 'J' + (d - 17) as char
    else if d < 33 then 'P' + (d - 22) as char
    else if d < 44 then 'a' + (d - 33) as char
    else 'm' + (d - 44) as char
  }

  lemma AlphabetLetter(d: nat)
    requires d < 58
    ensures |ALPHABET| == 58 && ALPHABET[d] == Letter(d)
  {
  }

  /** The least digit from `k` on with letter `c`, or 58. */
  function Search(c: char, k: nat): (d: nat)
    requires k <= 58
    ensures k <= d <= 58 && (d < 58 ==> Letter(d) == c)
    ensures forall j | k <= j < d :: Letter(j) != c
    decreases 58 - k
  {
    if k == 58 || Letter(k) == c then k else Search(c, k + 1)
  }

  function Code(c: char): (d: nat)
    ensures d <= 58
  {
    Search(c, 0)
  }

  lemma CodeLetter(d: nat)
    requires d < 58
    ensures Code(Letter(d)) == d
  {
  }

  /** strchr in the alphabet. */
  method Find(c: char) returns (d: nat)
    ensures d == Code(c)
  {
    hide Letter;
    d := 0;
    AlphabetLetter(0);
    while d < |ALPHABET| && ALPHABET[d] != c
      invariant d <= |ALPHABET| == 58 && Code(c) == Search(c, d)
    {
      AlphabetLetter(d);
      d := d + 1;
    }
    if d < 58 {
      AlphabetLetter(d);
    }
  }

  /** The alphabet is the digits and letters without `0`, `O`, `I` and `l`, in the order of their codes. */
  lemma AlphabetExact(c: char, d: nat)
    ensures Code(c) < 58 <==>
              ('0' <= c <= '9' || 'A' <= c <= 'Z' || 'a' <= c <= 'z') && c !in "0OIl"
    ensures d + 1 < 58 ==> Letter(d) < Letter(d + 1)
  {
    hide Search;
    if ('0' <= c <= '9' || 'A' <= c <= 'Z' || 'a' <= c <= 'z') && c !in "0OIl" {
      var k := c as int;
      var e := if c <= '9' then k - 49 else if c <= 'H' then k - 65 + 9 else if c <= 'N' then k - 74 + 17
               else if c <= 'Z' then k - 80 + 22 else if c <= 'k' then k - 97 + 33 else k - 109 + 44;
      assert Letter(e) == c;
      CodeLetter(e);
    }
  }

  /** White space is the characters with the codes 9 to 13 and 32. */
  lemma SpaceExact(c: char)
    ensures IsSpace(c) <==> c as int in {9, 10, 11, 12, 13, 32}
  {
  }

  predicate IsSpace(c: char) {
    c in " \t\n\r" || c as int == 11 || c as int == 12
  }

  lemma NoSpace(d: nat)
    requires d < 58
    ensures !IsSpace(Letter(d))
  {
  }

  //////////////////////////////////////////////////////////////////////////////
  // What is encoded
  //////////////////////////////////////////////////////////////////////////////

  /** How many times `x` is repeated at the front. */
  function Leading<T(==)>(s: seq<T>, x: T): (n: nat)
    ensures n <= |s| && (forall i | 0 <= i < n :: s[i] == x) && (n < |s| ==> s[n] != x)
  {
    if s == [] || s[0] != x then 0 else 1 + Leading(s[1..], x)
  }

  lemma LeadingUnique<T>(s: seq<T>, x: T, n: nat)
    requires n <= |s| && (forall i | 0 <= i < n :: s[i] == x) && (n < |s| ==> s[n] != x)
    ensures Leading(s, x) == n
  {
  }

  ghost function Letters(ds: seq<nat>): (t: string)
    requires DigitsOf(58, ds)
    ensures |t| == |ds|
  {
    seq(|ds|, i requires 0 <= i < |ds| => Letter(ds[i]))
  }

  ghost function Codes(t: string): (ds: seq<nat>)
    ensures |ds| == |t|
  {
    seq(|t|, i requires 0 <= i < |t| => Code(t[i]))
  }

  ghost predicate InAlphabet(t: string) {
    forall i | 0 <= i < |t| :: Code(t[i]) < 58
  }

  ghost function Repeat<T>(n: nat, x: T): seq<T> {
    seq(n, _ => x)
  }

  /** The base-58 text of a byte string. */
  ghost function Encoded(b: seq<Byte>): string {
    Repeat(Leading(b, 0), '1') + Letters(Digits(58, Value(256, b)))
  }

  /** The number of characters before the first white space. */
  function WordLength(t: string): (n: nat)
    ensures n <= |t| && (forall i | 0 <= i < n :: !IsSpace(t[i])) && (n < |t| ==> IsSpace(t[n]))
  {
    if t == [] || IsSpace(t[0]) then 0 else 1 + WordLength(t[1..])
  }

  /** The number of leading white space characters. */
  function SpaceLength(t: string): (n: nat)
    ensures n <= |t| && (forall i | 0 <= i < n :: IsSpace(t[i])) && (n < |t| ==> !IsSpace(t[n]))
  {
    if t == [] || !IsSpace(t[0]) then 0 else 1 + SpaceLength(t[1..])
  }

  /** The byte string of a text in the alphabet. */
  ghost function DecodedWord(w: string): seq<nat> {
    Repeat(Leading(w, '1'), 0) + Digits(256, Value(58, Codes(w)))
  }

  /** White space around one word in the alphabet is ignored; anything else is refused. */
  ghost function Decoded(t: string): Option<seq<nat>> {
    var u := t[SpaceLength(t)..];
    var w := u[..WordLength(u)];
    var rest := u[WordLength(u)..];
    if InAlphabet(w) && SpaceLength(rest) == |rest| then Some(DecodedWord(w)) else None
  }

  //////////////////////////////////////////////////////////////////////////////
  // Round trips
  //////////////////////////////////////////////////////////////////////////////

  lemma LettersCodes(ds: seq<nat>)
    requires DigitsOf(58, ds)
    ensures Codes(Letters(ds)) == ds && InAlphabet(Letters(ds))
  {
    forall i | 0 <= i < |ds| ensures Code(Letters(ds)[i]) == ds[i] {
      CodeLetter(ds[i]);
    }
  }

  lemma CodesLetters(t: string)
    requires InAlphabet(t)
    ensures DigitsOf(58, Codes(t)) && Letters(Codes(t)) == t
  {
  }

  /** A text of the alphabet is one word. */
  lemma OneWord(t: string)
    requires InAlphabet(t)
    ensures SpaceLength(t) == 0 && WordLength(t) == |t|
    ensures Decoded(t) == Some(DecodedWord(t))
  {
    forall i | 0 <= i < |t| ensures !IsSpace(t[i]) {
      NoSpace(Code(t[i]));
    }
    assert t[0..] == t && t[..|t|] == t && t[|t|..] == [];
  }

  lemma CodesRepeat(z: nat, t: string)
    ensures Codes(Repeat(z, '1') + t) == Repeat(z, 0) + Codes(t)
  {
    CodeLetter(0);
  }

  lemma ValueRepeat(base: nat, z: nat, s: seq<nat>)
    ensures Value(base, Repeat(z, 0) + s) == Value(base, s)
  {
    LeadingZeros(base, Repeat(z, 0), s);
  }

  /** Canonical digits after `z` zeros: both parts can be read back. */
  lemma SplitZeros(base: nat, s: seq<nat>)
    requires base >= 2 && DigitsOf(base, s)
    ensures s == Repeat(Leading(s, 0), 0) + Digits(base, Value(base, s))
  {
    hide Value, Digits;
    var z := Leading(s, 0);
    var rest := s[z..];
    assert s == Repeat(z, 0) + rest;
    ValueRepeat(base, z, rest);
    ValueDigits(base, rest);
  }

  lemma EncodeDecode(b: seq<Byte>)
    ensures Decoded(Encoded(b)) == Some(b)
  {
    hide Value, Digits, Code, Letter, Leading, SpaceLength, WordLength;
    var z, v := Leading(b, 0), Value(256, b);
    var ds := Digits(58, v);
    var t := Encoded(b);
    LettersCodes(ds);
    CodesRepeat(z, Letters(ds));
    assert Codes(t) == Repeat(z, 0) + ds;
    forall i | 0 <= i < |t| ensures Code(t[i]) < 58 {
      assert Code(t[i]) == Codes(t)[i];
    }
    OneWord(t);
    ValueRepeat(58, z, ds);
    DigitsValue(58, v);
    SplitZeros(256, b);
    assert Leading(t, '1') == z by {
      forall i | 0 <= i < |t| ensures t[i] == '1' <==> Codes(t)[i] == 0 {
        OneIsZero(t[i]);
      }
      LeadingUnique(t, '1', z);
    }
  }

  lemma OneIsZero(c: char)
    ensures c == '1' <==> Code(c) == 0
  {
    CodeLetter(0);
  }

  lemma DecodeEncode(t: string)
    requires InAlphabet(t)
    ensures Decoded(t).Some? && DigitsOf(256, Decoded(t).value) && Encoded(Decoded(t).value) == t
  {
    hide Value, Digits, Code, Letter, Leading, SpaceLength, WordLength;
    OneWord(t);
    CodesLetters(t);
    var ds := Codes(t);
    var z, v := Leading(t, '1'), Value(58, ds);
    var b := DecodedWord(t);
    assert DigitsOf(256, b);
    ValueRepeat(256, z, Digits(256, v));
    DigitsValue(256, v);
    assert Leading(ds, 0) == z by {
      forall i | 0 <= i < |t| ensures t[i] == '1' <==> ds[i] == 0 {
        OneIsZero(t[i]);
      }
      LeadingUnique(ds, 0, z);
    }
    SplitZeros(58, ds);
    LeadingUnique(b, 0, z);
    LettersRepeat(z, Digits(58, v));
  }

  lemma LettersRepeat(z: nat, ds: seq<nat>)
    requires DigitsOf(58, ds)
    ensures DigitsOf(58, Repeat(z, 0) + ds)
    ensures Letters(Repeat(z, 0) + ds) == Repeat(z, '1') + Letters(ds)
  {
  }

  //////////////////////////////////////////////////////////////////////////////
  // The loops
  //////////////////////////////////////////////////////////////////////////////

  function Low(t: nat, base: nat): (r: nat)
    requires base > 0
    ensures r < base
  {
    t % base
  }

  function High(t: nat, base: nat): nat
    requires base > 0
  {
    t / base
  }

  function Times(m: nat, d: nat): nat {
    m * d
  }

  /** The digits `y` and the carry are the digits `x` times `mult` plus `digit`. */
  ghost predicate Carried(base: nat, mult: nat, digit: nat, x: seq<nat>, y: seq<nat>, carry: nat) {
    |x| == |y| && Value(base, y) + carry * Pow(base, |x|) == Value(base, x) * mult + digit
  }

  lemma CarryStart(base: nat, mult: nat, digit: nat, x: seq<nat>)
    ensures Carried(base, mult, digit, x[|x|..], [], digit)
  {
    assert x[|x|..] == [];
  }

  /** One digit of "buffer times `mult` plus digit". */
  lemma CarryStep(base: nat, mult: nat, digit: nat, x: seq<nat>, y: seq<nat>, carry: nat, d: nat)
    requires base > 0 && Carried(base, mult, digit, x, y, carry)
    ensures var t := carry + Times(mult, d);
            Carried(base, mult, digit, [d] + x, [Low(t, base)] + y, High(t, base))
  {
    hide Value, Pow;
    var t := carry + Times(mult, d);
    var r, q := Low(t, base), High(t, base);
    assert t == r + q * base;
    Prepend(base, r, y);
    Prepend(base, d, x);
    PowNext(base, |x| + 1);
    CarryAlgebra(Pow(base, |x|), base, mult, carry, d, r, q, Value(base, x));
  }

  lemma CarryAlgebra(p: nat, base: nat, mult: nat, carry: nat, d: nat, r: nat, q: nat, v: nat)
    requires carry + mult * d == r + q * base
    ensures r * p + q * (base * p) == carry * p + ((d * p + v) * mult - v * mult)
  {
    assert (carry + mult * d) * p == carry * p + mult * d * p;
    assert (r + q * base) * p == r * p + q * base * p;
    assert q * base * p == q * (base * p);
    assert (d * p + v) * mult == d * p * mult + v * mult;
    assert d * p * mult == mult * d * p;
  }

  /** At the front of the buffer, or where only zeros are left, nothing is carried any more. */
  lemma CarryDone(base: nat, mult: nat, digit: nat, x: seq<nat>, y: seq<nat>, carry: nat, z: nat)
    requires |x| == |y| && z <= |x| && Carried(base, mult, digit, x[z..], y[z..], carry)
    requires forall j | 0 <= j < z :: x[j] == 0 && y[j] == 0
    requires z == 0 || carry == 0
    requires Value(base, x) * mult + digit < Pow(base, |x|)
    ensures carry == 0 && Value(base, y) == Value(base, x) * mult + digit
  {
    hide Value, Pow;
    assert x == x[..z] + x[z..] && y == y[..z] + y[z..];
    LeadingZeros(base, x[..z], x[z..]);
    LeadingZeros(base, y[..z], y[z..]);
    if carry > 0 {
      Mono(1, carry, Pow(base, |x|));
    }
  }

  /** "buffer times `mult` plus `digit`", in place on big-endian digits of which only the last `length` may
      differ from zero. The carry never runs off the front. */
  method MulAdd(buf: array<nat>, base: nat, mult: nat, length: nat, digit: nat) returns (i: nat)
    requires base >= 2 && DigitsOf(base, buf[..])
    requires length <= buf.Length && forall j | 0 <= j < buf.Length - length :: buf[j] == 0
    requires Value(base, buf[..]) * mult + digit < Pow(base, buf.Length)
    modifies buf
    ensures DigitsOf(base, buf[..])
    ensures Value(base, buf[..]) == old(Value(base, buf[..])) * mult + digit
    ensures i <= buf.Length && forall j | 0 <= j < buf.Length - i :: buf[j] == 0
  {
    hide Value, Pow, Carried, Low, High, Times;
    ghost var x, n := buf[..], buf.Length;
    var carry: nat := digit;
    i := 0;
    CarryStart(base, mult, digit, x);
    assert buf[n..] == [];
    while (carry != 0 || i < length) && i != buf.Length
      invariant 0 <= i <= n && buf[..n - i] == x[..n - i]
      invariant DigitsOf(base, buf[..])
      invariant Carried(base, mult, digit, x[n - i..], buf[n - i..], carry)
      decreases n - i
    {
      var j := buf.Length - 1 - i;
      ghost var suffix := buf[n - i..];
      assert buf[j] == x[j];
      var t := carry + Times(mult, buf[j]);
      CarryStep(base, mult, digit, x[n - i..], suffix, carry, x[j]);
      buf[j] := Low(t, base);
      carry := High(t, base);
      assert buf[j..] == [Low(t, base)] + suffix && x[j..] == [x[j]] + x[n - i..];
      i := i + 1;
    }
    assert forall j | 0 <= j < n - i :: buf[j] == x[..n - i][j];
    CarryDone(base, mult, digit, x, buf[..], carry, n - i);
    assert carry == 0;
  }

  /** Where the first non-zero digit is. */
  method SkipZeros(buf: array<nat>, from: nat) returns (it: nat)
    requires from <= buf.Length && forall j | 0 <= j < from :: buf[j] == 0
    ensures it <= buf.Length && forall j | 0 <= j < it :: buf[j] == 0
    ensures it < buf.Length ==> buf[it] != 0
  {
    it := from;
    while it < buf.Length && buf[it] == 0
      invariant from <= it <= buf.Length && forall j | 0 <= j < it :: buf[j] == 0
    {
      it := it + 1;
    }
  }

  /** The digits after the zeros are those of the number. */
  lemma Stripped(base: nat, s: seq<nat>, it: nat)
    requires base >= 2 && DigitsOf(base, s) && it <= |s|
    requires (forall j | 0 <= j < it :: s[j] == 0) && (it < |s| ==> s[it] != 0)
    ensures s[it..] == Digits(base, Value(base, s))
  {
    assert s == s[..it] + s[it..];
    LeadingZeros(base, s[..it], s[it..]);
    ValueDigits(base, s[it..]);
  }

  /** The number of the first `k` digits fits into a buffer for all of them. */
  lemma PrefixFits(mult: nat, s: seq<nat>, k: nat, limit: nat)
    requires mult >= 2 && DigitsOf(mult, s) && k < |s| && Pow(mult, |s|) <= limit
    ensures Value(mult, s[..k]) * mult + s[k] == Value(mult, s[..k + 1]) < limit
  {
    assert s[..k + 1] == s[..k] + [s[k]];
    Append(mult, s[..k], s[k]);
    ValueBound(mult, s[..k + 1]);
    PowLonger(mult, k + 1, |s|);
  }

  /** The base-58 digits of a byte string in a buffer of the allotted size. */
  method ToDigits(rest: seq<Byte>) returns (b58: array<nat>, length: nat)
    ensures fresh(b58) && DigitsOf(58, b58[..]) && Value(58, b58[..]) == Value(256, rest)
    ensures length <= b58.Length && forall j | 0 <= j < b58.Length - length :: b58[j] == 0
  {
    hide Value, Pow, DigitsOf;
    var size := |rest| * 138 / 100 + 1;
    b58 := new nat[size](_ => 0);
    EncodeFits(|rest|);
    AllZero(58, b58[..]);
    EmptyValue(256, rest);
    BytesAreDigits(rest);
    length := 0;
    for k := 0 to |rest|
      modifies b58
      invariant length <= b58.Length && forall j | 0 <= j < b58.Length - length :: b58[j] == 0
      invariant DigitsOf(58, b58[..]) && Value(58, b58[..]) == Value(256, rest[..k])
    {
      PrefixFits(256, rest, k, Pow(58, size));
      length := MulAdd(b58, 58, 256, length, rest[k]);
    }
    assert rest[..|rest|] == rest;
  }

  /** Translates digits into letters. */
  method ToText(zeroes: nat, ds: seq<nat>) returns (str: string)
    requires DigitsOf(58, ds)
    ensures str == Repeat(zeroes, '1') + Letters(ds)
  {
    hide Letter;
    str := seq(zeroes, _ => '1');
    for i := 0 to |ds|
      invariant str == Repeat(zeroes, '1') + Letters(ds)[..i]
    {
      AlphabetLetter(ds[i]);
      str := str + [ALPHABET[ds[i]]];
      assert Letters(ds)[..i + 1] == Letters(ds)[..i] + [Letters(ds)[i]];
    }
    assert Letters(ds)[..|ds|] == Letters(ds);
  }

  method EncodeBase58(b: seq<Byte>) returns (str: string)
    ensures str == Encoded(b)
  {
    hide Value, Pow, Digits, Letters, DigitsOf, Leading;
    var zeroes := 0;
    while zeroes < |b| && b[zeroes] == 0
      invariant zeroes <= |b| && forall i | 0 <= i < zeroes :: b[i] == 0
    {
      zeroes := zeroes + 1;
    }
    LeadingUnique(b, 0, zeroes);
    ghost var skipped := b[..zeroes];
    assert b == skipped + b[zeroes..];
    LeadingZeros(256, skipped, b[zeroes..]);
    var b58, length := ToDigits(b[zeroes..]);
    var it := SkipZeros(b58, b58.Length - length);
    Stripped(58, b58[..], it);
    str := ToText(zeroes, b58[it..]);
  }

  lemma AllZero(base: nat, s: seq<nat>)
    requires base > 0 && forall i | 0 <= i < |s| :: s[i] == 0
    ensures DigitsOf(base, s) && Value(base, s) == 0
  {
    ZerosValue(base, s);
  }

  lemma EmptyValue(base: nat, s: seq<nat>)
    ensures Value(base, s[..0]) == 0
  {
    assert s[..0] == [];
  }

  lemma BytesAreDigits(s: seq<Byte>)
    ensures DigitsOf(256, s)
  {
  }

  method DecodeBase58(psz: string) returns (ok: bool, vch: seq<nat>)
    requires '\0' !in psz
    ensures if ok then Decoded(psz) == Some(vch) else Decoded(psz) == None
  {
    hide Value, Pow, Digits, DigitsOf, InAlphabet, SpaceLength, WordLength, Decoded, Codes, Code, IsSpace;
    var start := SkipSpaces(psz, 0);
    assert psz[0..] == psz;
    var p := start;
    while p < |psz| && psz[p] == '1'
      invariant start <= p <= |psz| && forall i | start <= i < p :: psz[i] == '1'
    {
      p := p + 1;
    }
    var zeroes, t := p - start, psz[p..];
    assert psz[start..] == Repeat(zeroes, '1') + t;
    OnesApart(psz, zeroes, t);
    var b256 := new nat[|t| * 733 / 1000 + 1](_ => 0);
    var good, length, k := Convert(t, b256);
    if !good {
      return false, [];
    }
    var q := SkipSpaces(t, k);
    if q != |t| {
      return false, [];
    }
    var it := SkipZeros(b256, b256.Length - length);
    Stripped(256, b256[..], it);
    var front := seq(zeroes, _ => 0);
    assert front == Repeat(zeroes, 0);
    vch := front + b256[it..];
    assert vch == Repeat(zeroes, 0) + Digits(256, Value(58, Codes(t[..k])));
    return true, vch;
  }

  method SkipSpaces(psz: string, from: nat) returns (p: nat)
    requires from <= |psz|
    ensures p == from + SpaceLength(psz[from..]) <= |psz|
  {
    hide IsSpace;
    p := from;
    while p < |psz| && IsSpace(psz[p])
      invariant from <= p <= |psz|
      invariant SpaceLength(psz[from..]) == p - from + SpaceLength(psz[p..])
    {
      assert psz[p..][1..] == psz[p + 1..];
      p := p + 1;
    }
  }

  /** The digits of a word into the buffer; stops at a character outside the alphabet. */
  method Convert(t: string, b256: array<nat>) returns (good: bool, length: nat, k: nat)
    requires b256.Length == |t| * 733 / 1000 + 1 && forall j | 0 <= j < b256.Length :: b256[j] == 0
    modifies b256
    ensures !good ==> !InAlphabet(t[..WordLength(t)])
    ensures good ==>
              && k == WordLength(t) && InAlphabet(t[..k])
              && DigitsOf(256, b256[..]) && Value(256, b256[..]) == Value(58, Codes(t[..k]))
              && length <= b256.Length && forall j | 0 <= j < b256.Length - length :: b256[j] == 0
  {
    hide Value, Pow, Digits, Letter, DigitsOf, Code, IsSpace;
    AllZero(256, b256[..]);
    EmptyValue(58, Codes(t[..0]));
    assert Codes(t[..0])[..0] == Codes(t[..0]);
    DecodeFits(|t|);
    length, k := 0, 0;
    while k < |t| && !IsSpace(t[k])
      invariant 0 <= k <= WordLength(t) && InAlphabet(t[..k])
      invariant DigitsOf(256, b256[..]) && Value(256, b256[..]) == Value(58, Codes(t[..k]))
      invariant length <= b256.Length && forall j | 0 <= j < b256.Length - length :: b256[j] == 0
    {
      var carry := Find(t[k]);
      if carry == 58 {
        assert t[..WordLength(t)][k] == t[k];
        return false, length, k;
      }
      WordFits(t, k, Pow(256, b256.Length));
      length := MulAdd(b256, 256, 58, length, carry);
      k := k + 1;
    }
    return true, length, k;
  }

  lemma WordFits(t: string, k: nat, limit: nat)
    requires k < |t| && InAlphabet(t[..k]) && Code(t[k]) < 58 && Pow(58, |t|) <= limit
    ensures InAlphabet(t[..k + 1])
    ensures Value(58, Codes(t[..k])) * 58 + Code(t[k]) == Value(58, Codes(t[..k + 1])) < limit
  {
    hide Value, Pow, Code;
    var w := t[..k + 1];
    assert w[..k] == t[..k] && w == t[..k] + [t[k]];
    assert Codes(w) == Codes(t[..k]) + [Code(t[k])];
    assert DigitsOf(58, Codes(w));
    Append(58, Codes(t[..k]), Code(t[k]));
    ValueBound(58, Codes(t[..k + 1]));
    PowLonger(58, k + 1, |t|);
  }

  /** What is decoded when the leading ones are counted apart from the text `t` after them. */
  ghost function DecodedAfter(z: nat, t: string): Option<seq<nat>> {
    var k := WordLength(t);
    if InAlphabet(t[..k]) && SpaceLength(t[k..]) == |t[k..]|
    then Some(Repeat(z, 0) + Digits(256, Value(58, Codes(t[..k]))))
    else None
  }

  lemma OnesApart(psz: string, z: nat, t: string)
    requires psz[SpaceLength(psz)..] == Repeat(z, '1') + t
    requires t == [] || t[0] != '1'
    ensures Decoded(psz) == DecodedAfter(z, t)
  {
    hide Value, Codes, Leading, InAlphabet, WordLength, SpaceLength, Digits, Repeat, IsSpace, Decoded;
    var k := WordLength(t);
    OnesWord(z, t);
    WordParts(z, t, k);
    DecodedParts(psz, Repeat(z, '1') + t[..k], t[k..]);
    OnesInAlphabet(z, t[..k]);
    CodesRepeat(z, t[..k]);
    ValueRepeat(58, z, Codes(t[..k]));
    FirstStays(t, k);
    OnesLeading(z, t[..k]);
  }

  lemma FirstStays(t: string, k: nat)
    requires k <= |t| && (t == [] || t[0] != '1')
    ensures t[..k] == [] || t[..k][0] != '1'
  {
  }

  /** Decoding in terms of the word after the white space and what follows it. */
  lemma DecodedParts(psz: string, w: string, rest: string)
    requires var u := psz[SpaceLength(psz)..]; w == u[..WordLength(u)] && rest == u[WordLength(u)..]
    ensures Decoded(psz) == if InAlphabet(w) && SpaceLength(rest) == |rest|
                            then Some(Repeat(Leading(w, '1'), 0) + Digits(256, Value(58, Codes(w)))) else None
  {
    hide Value, Codes, Leading, InAlphabet, WordLength, SpaceLength, Digits, Repeat, IsSpace;
  }

  lemma WordParts(z: nat, t: string, k: nat)
    requires k <= |t|
    ensures var u := Repeat(z, '1') + t;
            |u| == z + |t| && u[..z + k] == Repeat(z, '1') + t[..k] && u[z + k..] == t[k..]
  {
  }

  lemma OnesLeading(z: nat, v: string)
    requires v == [] || v[0] != '1'
    ensures Leading(Repeat(z, '1') + v, '1') == z
  {
    hide Leading;
    LeadingUnique(Repeat(z, '1') + v, '1', z);
  }

  lemma OnesInAlphabet(z: nat, v: string)
    ensures InAlphabet(Repeat(z, '1') + v) <==> InAlphabet(v)
  {
    hide Code;
    var w := Repeat(z, '1') + v;
    OneIsZero('1');
    assert forall i | 0 <= i < |v| :: w[z + i] == v[i];
  }

  lemma {:induction false} OnesWord(z: nat, t: string)
    ensures WordLength(Repeat(z, '1') + t) == z + WordLength(t)
  {
    hide IsSpace;
    var u := Repeat(z, '1') + t;
    if z == 0 {
      assert u == t;
    } else {
      OnesWord(z - 1, t);
      assert u[1..] == Repeat(z - 1, '1') + t;
      assert !IsSpace(u[0]) by {
        NoSpace(0);
      }
    }
  }

  //////////////////////////////////////////////////////////////////////////////
  // Checksums
  //////////////////////////////////////////////////////////////////////////////

  /** The first four bytes of a hash. */
  type Checksum = (seq<nat>) -> seq<Byte>

  ghost predicate FourBytes(checksum: Checksum) {
    forall b :: |checksum(b)| == 4
  }

  method EncodeBase58Check(checksum: Checksum, b: seq<Byte>) returns (str: string)
    ensures str == Encoded(b + checksum(b))
  {
    str := EncodeBase58(b + checksum(b));
  }

  /** The text is that of a byte string followed by its checksum. */
  ghost predicate Carries(checksum: Checksum, psz: string, b: seq<nat>) {
    Decoded(psz) == Some(b + checksum(b))
  }

  /** Accepts exactly the texts of a byte string followed by its checksum, and gives the byte string
      without it. */
  method DecodeBase58Check(checksum: Checksum, psz: string) returns (ok: bool, vch: seq<nat>)
    requires FourBytes(checksum) && '\0' !in psz
    ensures ok <==> exists b :: Carries(checksum, psz, b)
    ensures ok ==> Decoded(psz) == Some(vch + checksum(vch))
    ensures !ok ==> vch == []
  {
    hide Decoded;
    ok, vch := DecodeBase58(psz);
    if !ok || |vch| < 4 {
      return false, [];
    }
    var body := vch[..|vch| - 4];
    var end := vch[|vch| - 4..];
    assert vch == body + end;
    if b :| vch == b + checksum(b) {
      SameSplit(vch, b, checksum(b));
    }
    if checksum(body) != end {
      return false, [];
    }
    assert Carries(checksum, psz, body);
    return true, body;
  }

  lemma SameSplit(s: seq<nat>, b: seq<nat>, c: seq<nat>)
    requires s == b + c && |c| == 4
    ensures b == s[..|s| - 4] && c == s[|s| - 4..]
  {
  }

  /** Every byte string survives the way through the text with a checksum. */
  method CheckRoundTrip(checksum: Checksum, b: seq<Byte>) returns (ok: bool, vch: seq<nat>)
    requires FourBytes(checksum)
    ensures ok && vch == b
  {
    hide Encoded, Decoded;
    var text := EncodeBase58Check(checksum, b);
    EncodeDecode(b + checksum(b));
    NoNull(b + checksum(b));
    ok, vch := DecodeBase58Check(checksum, text);
    assert Carries(checksum, text, b);
    assert vch == (vch + checksum(vch))[..|vch|] && b == (b + checksum(b))[..|b|];
  }

  lemma NoNull(b: seq<Byte>)
    ensures '\0' !in Encoded(b)
  {
  }
}
