/** The rk64 fingerprint: a polynomial over byte values 1..256 in wrapping
    64-bit arithmetic, its split power table, and its hex token. */
module Fingerprint {
  const WORD: nat := 0x1_0000_0000_0000_0000

  type byte = x: int | 0 <= x < 256
  type u64 = x: int | 0 <= x < WORD

  const FP_BASE: u64 := 0x0000_0100_0000_01b3

  function WrapAdd(a: int, b: int): u64 { (a + b) % WORD }
  function WrapSub(a: int, b: int): u64 { (a - b) % WORD }
  function WrapMul(a: int, b: int): u64 { (a * b) % WORD }

  function FpByte(b: byte): u64 { WrapAdd(b, 1) }

  function Pow(b: nat, e: nat): (p: nat)
    ensures b > 0 ==> p > 0
  {
    if e == 0 then 1 else b * Pow(b, e - 1)
  }

  /** The unreduced polynomial: the sum of `(s[i] + 1) * FP_BASE^(|s| - 1 - i)`. */
  function Poly(s: seq<byte>): nat {
    if s == [] then 0 else (s[0] + 1) * Pow(FP_BASE, |s| - 1) + Poly(s[1..])
  }

  /** The fingerprint of an already canonical content. */
  function Fp(s: seq<byte>): u64 { Poly(s) % WORD }

  // --- Modular arithmetic ---

  lemma ModShift(x: int, k: int)
    ensures (x + k * WORD) % WORD == x % WORD
  {
    var q, r := x / WORD, x % WORD;
    assert x + k * WORD == (q + k) * WORD + r;
  }

  lemma ModMul(a: int, b: int)
    ensures ((a % WORD) * b) % WORD == (a * b) % WORD
  {
    var q, r := a / WORD, a % WORD;
    calc {
      a * b;
      (q * WORD + r) * b;
      r * b + (q * b) * WORD;
    }
    ModShift(r * b, q * b);
  }

  lemma ModAdd(a: int, b: int)
    ensures (a % WORD + b) % WORD == (a + b) % WORD
  {
    var q, r := a / WORD, a % WORD;
    assert a + b == r + b + q * WORD;
    ModShift(r + b, q);
  }

  lemma ModAddBoth(a: int, b: int)
    ensures (a % WORD + b % WORD) % WORD == (a + b) % WORD
  {
    ModAdd(a, b % WORD);
    ModAdd(b, a);
  }

  lemma ModMulAdd(a: int, m: int, b: int)
    ensures WrapAdd(WrapMul(a % WORD, m), b % WORD) == (a * m + b) % WORD
  {
    ModMul(a, m);
    ModAddBoth(a * m, b);
  }

  lemma ModMulBoth(a: int, b: int)
    ensures ((a % WORD) * (b % WORD)) % WORD == (a * b) % WORD
  {
    ModMul(a, b % WORD);
    assert a * (b % WORD) == (b % WORD) * a;
    ModMul(b, a);
    assert b * a == a * b;
  }

  lemma MulAssociative(a: int, b: int, c: int)
    ensures a * (b * c) == (a * b) * c
  {
  }

  lemma PowStep(b: nat, e: nat)
    requires e > 0
    ensures Pow(b, e) == b * Pow(b, e - 1)
  {
  }

  lemma {:induction false} PowAdd(b: nat, m: nat, n: nat)
    ensures Pow(b, m + n) == Pow(b, m) * Pow(b, n)
  {
    if m > 0 {
      PowAdd(b, m - 1, n);
      PowStep(b, m + n);
      PowStep(b, m);
      MulAssociative(b, Pow(b, m - 1), Pow(b, n));
    }
  }

  // --- The polynomial ---

  lemma DistributeTerm(v: int, p: int, q: int, t: int)
    ensures (v * p + t) * q == v * (p * q) + t * q
  {
  }

  lemma {:induction false} PolyConcat(a: seq<byte>, b: seq<byte>)
    ensures Poly(a + b) == Poly(a) * Pow(FP_BASE, |b|) + Poly(b)
  {
    var q := Pow(FP_BASE, |b|);
    if a == [] {
      assert a + b == b;
    } else {
      var v: int, t := a[0], a[1..];
      calc {
        Poly(a + b);
        { assert (a + b)[1..] == t + b; }
        (v + 1) * Pow(FP_BASE, |t| + |b|) + Poly(t + b);
        { PowAdd(FP_BASE, |t|, |b|); }
        (v + 1) * (Pow(FP_BASE, |t|) * q) + Poly(t + b);
        { PolyConcat(t, b); }
        (v + 1) * (Pow(FP_BASE, |t|) * q) + Poly(t) * q + Poly(b);
        { DistributeTerm(v + 1, Pow(FP_BASE, |t|), q, Poly(t)); }
        ((v + 1) * Pow(FP_BASE, |t|) + Poly(t)) * q + Poly(b);
        Poly(a) * q + Poly(b);
      }
    }
  }

  lemma PolySnoc(s: seq<byte>, x: byte)
    ensures Poly(s + [x]) == Poly(s) * FP_BASE + (x + 1)
  {
    PolyConcat(s, [x]);
    assert Pow(FP_BASE, 1) == FP_BASE * Pow(FP_BASE, 0);
    assert [x][1..] == [];
  }

  /** One Horner step over wrapping words follows the polynomial. */
  lemma HornerStep(s: seq<byte>, x: byte)
    ensures WrapAdd(WrapMul(Fp(s), FP_BASE), FpByte(x)) == Fp(s + [x])
  {
    PolySnoc(s, x);
    ModMulAdd(Poly(s), FP_BASE, x + 1);
  }

  method Horner(bytes: seq<byte>) returns (h: u64)
    ensures h == Fp(bytes)
  {
    h := 0;
    for i := 0 to |bytes|
      invariant h == Fp(bytes[..i])
    {
      HornerStep(bytes[..i], bytes[i]);
      assert bytes[..i + 1] == bytes[..i] + [bytes[i]];
      h := WrapAdd(WrapMul(h, FP_BASE), FpByte(bytes[i]));
    }
    assert bytes[..|bytes|] == bytes;
  }

  lemma ReduceConcat(a: nat, p: nat, b: nat, whole: nat)
    requires whole == a * p + b
    ensures whole % WORD == WrapAdd(WrapMul(a % WORD, p), b % WORD)
  {
    ModMulAdd(a, p, b);
  }

  /** `horner(a + b) == horner(a) * BASE^|b| + horner(b)` over wrapping words. */
  lemma FpConcat(a: seq<byte>, b: seq<byte>)
    ensures Fp(a + b) == WrapAdd(WrapMul(Fp(a), Pow(FP_BASE, |b|)), Fp(b))
  {
    PolyConcat(a, b);
    ReduceConcat(Poly(a), Pow(FP_BASE, |b|), Poly(b), Poly(a + b));
  }

  // --- The split power table ---

  /** Entry `i` of the fine table `BASE^0 ..= BASE^255`. */
  function PowLo(i: nat): (r: u64)
    ensures r == Pow(FP_BASE, i) % WORD
  {
    if i == 0 then 1
    else
      ModMul(Pow(FP_BASE, i - 1), FP_BASE);
      WrapMul(PowLo(i - 1), FP_BASE)
  }

  /** For `n` the last fine index this is `BASE^(n + 1)`, the ratio between
      consecutive coarse entries. */
  function PowStride(n: nat): (r: u64)
    ensures r == Pow(FP_BASE, n + 1) % WORD
  {
    ModMul(Pow(FP_BASE, n), FP_BASE);
    WrapMul(PowLo(n), FP_BASE)
  }

  ghost predicate PowHiValid(powHi: seq<u64>) {
    forall j :: 0 <= j < |powHi| ==> powHi[j] == Pow(FP_BASE, 256 * j) % WORD
  }

  lemma PowHiStart()
    ensures Pow(FP_BASE, 256 * 0) % WORD == 1
  {
  }

  lemma FpNone()
    ensures Fp([]) == 0
  {
  }

  lemma PowHiNone()
    ensures PowHiValid([])
  {
  }

  lemma PowHiSnoc(powHi: seq<u64>, j: nat, p: u64)
    requires PowHiValid(powHi) && j == |powHi| && p == Pow(FP_BASE, 256 * j) % WORD
    ensures PowHiValid(powHi + [p])
  {
    hide Pow;
  }

  /** The running product of strides is the coarse half of the table. */
  lemma PowHiStep(j: nat, fine: nat)
    requires fine + 1 == 256
    ensures WrapMul(Pow(FP_BASE, 256 * j) % WORD, PowStride(fine)) == Pow(FP_BASE, 256 * (j + 1)) % WORD
  {
    var lo, hi: nat := fine + 1, 256 * j;
    calc {
      WrapMul(Pow(FP_BASE, hi) % WORD, PowStride(fine));
      { ModMulBoth(Pow(FP_BASE, hi), Pow(FP_BASE, lo)); }
      (Pow(FP_BASE, hi) * Pow(FP_BASE, lo)) % WORD;
      { PowAdd(FP_BASE, hi, lo); }
      Pow(FP_BASE, hi + lo) % WORD;
    }
  }

  function PowBase(powHi: seq<u64>, n: nat): u64
    requires n / 256 < |powHi|
  {
    WrapMul(powHi[n / 256], PowLo(n % 256))
  }

  lemma PowSplit(hi: nat, lo: nat, coarse: u64)
    requires coarse == Pow(FP_BASE, hi) % WORD
    ensures WrapMul(coarse, PowLo(lo)) == Pow(FP_BASE, hi + lo) % WORD
  {
    ModMulBoth(Pow(FP_BASE, hi), Pow(FP_BASE, lo));
    PowAdd(FP_BASE, hi, lo);
  }

  lemma PowBaseAt(powHi: seq<u64>, j: nat, lo: nat, n: nat)
    requires PowHiValid(powHi) && j < |powHi| && n == 256 * j + lo
    ensures WrapMul(powHi[j], PowLo(lo)) == Pow(FP_BASE, n) % WORD
  {
    PowSplit(256 * j, lo, powHi[j]);
  }

  lemma PowBaseIsPow(powHi: seq<u64>, n: nat)
    requires PowHiValid(powHi) && n / 256 < |powHi|
    ensures PowBase(powHi, n) == Pow(FP_BASE, n) % WORD
  {
    PowBaseAt(powHi, n / 256, n % 256, n);
  }

  lemma SubtractMod(x: nat, y: nat)
    ensures ((x + y) % WORD - x % WORD) % WORD == y % WORD
  {
    var k := x / WORD - (x + y) / WORD;
    assert (x + y) % WORD - x % WORD == y + k * WORD;
    ModShift(y, k);
  }

  /** The rolling reduction: two prefix hashes and one power give the hash of
      the bytes between them. */
  lemma RollingWindow(bytes: seq<byte>, rs: nat, re: nat, powHi: seq<u64>)
    requires rs <= re <= |bytes|
    requires PowHiValid(powHi) && (re - rs) / 256 < |powHi|
    ensures WrapSub(Fp(bytes[..re]), WrapMul(Fp(bytes[..rs]), PowBase(powHi, re - rs))) == Fp(bytes[rs..re])
  {
    hide Poly, Pow, PowBase, PowHiValid;
    var a, b := bytes[..rs], bytes[rs..re];
    assert bytes[..re] == a + b;
    PolyConcat(a, b);
    PowBaseIsPow(powHi, re - rs);
    var p := Pow(FP_BASE, |b|);
    ModMulBoth(Poly(a), p);
    SubtractMod(Poly(a) * p, Poly(b));
  }

  // --- What the hash tells apart ---

  /** An odd factor can be cancelled from a multiple of a power of two. */
  lemma {:induction false} OddFactorCancels(odd: nat, d: int, k: nat, q: int) returns (f: int)
    requires odd % 2 == 1
    requires odd * d == Pow(2, k) * q
    ensures d == Pow(2, k) * f
    decreases k
  {
    if k == 0 {
      return d;
    }
    var h, o, e := Pow(2, k - 1), odd / 2, d / 2;
    assert odd * d == 2 * (h * q) by {
      assert 2 * h * q == 2 * (h * q);
    }
    assert odd * d == 2 * (o * d) + d by {
      assert (2 * o + 1) * d == 2 * (o * d) + d;
    }
    assert d == 2 * e;
    assert odd * e == h * q by {
      assert odd * (2 * e) == 2 * (odd * e);
    }
    f := OddFactorCancels(odd, e, k - 1, q);
    assert 2 * (h * f) == 2 * h * f;
  }

  lemma OddTimesOdd(a: nat, b: nat)
    requires a % 2 == 1 && b % 2 == 1
    ensures (a * b) % 2 == 1
  {
    var x, y := a / 2, b / 2;
    assert a * b == 2 * (2 * (x * y) + x + y) + 1 by {
      assert (2 * x + 1) * (2 * y + 1) == 4 * (x * y) + 2 * x + 2 * y + 1;
    }
  }

  lemma {:induction false} OddPow(b: nat, e: nat)
    requires b % 2 == 1
    ensures Pow(b, e) % 2 == 1
  {
    if e > 0 {
      OddPow(b, e - 1);
      OddTimesOdd(b, Pow(b, e - 1));
    }
  }

  lemma WordIsPow2()
    ensures Pow(2, 64) == WORD
  {
    assert Pow(2, 4) == 16;
    hide Pow;
    PowAdd(2, 4, 4);
    assert Pow(2, 8) == 256;
    PowAdd(2, 8, 8);
    assert Pow(2, 16) == 0x1_0000;
    PowAdd(2, 16, 16);
    assert Pow(2, 32) == 0x1_0000_0000;
    PowAdd(2, 32, 32);
  }

  /** A nonzero coefficient smaller than the modulus, times a power of the odd
      base, never vanishes modulo 2^64. */
  lemma TermNeverVanishes(c: int, e: nat)
    requires c != 0 && -256 <= c <= 256
    ensures (Pow(FP_BASE, e) * c) % WORD != 0
  {
    var x := Pow(FP_BASE, e) * c;
    if x % WORD == 0 {
      WordIsPow2();
      OddPow(FP_BASE, e);
      var f := OddFactorCancels(Pow(FP_BASE, e), c, 64, x / WORD);
      assert false;
    }
  }

  lemma DifferenceMod(x: int, y: int)
    requires (x - y) % WORD != 0
    ensures x % WORD != y % WORD
  {
    if x % WORD == y % WORD {
      assert x - y == (x / WORD - y / WORD) * WORD;
      ModShift(0, x / WORD - y / WORD);
    }
  }

  /** Two contents of one length differing in exactly one byte never collide. */
  lemma OneByteNeverCollides(p: seq<byte>, x: byte, y: byte, t: seq<byte>)
    requires x != y
    ensures Fp(p + [x] + t) != Fp(p + [y] + t)
  {
    var q := Pow(FP_BASE, |t|);
    PolyConcat(p + [x], t);
    PolyConcat(p + [y], t);
    PolySnoc(p, x);
    PolySnoc(p, y);
    var h := Poly(p) * FP_BASE;
    assert Poly(p + [x] + t) - Poly(p + [y] + t) == q * (x - y) by {
      assert (h + (x + 1)) * q - (h + (y + 1)) * q == q * (x - y);
    }
    TermNeverVanishes(x - y, |t|);
    DifferenceMod(Poly(p + [x] + t), Poly(p + [y] + t));
  }

  /** Prepending a byte, a zero byte included, always changes the fingerprint. */
  lemma PrependChanges(x: byte, s: seq<byte>)
    ensures Fp([x] + s) != Fp(s)
  {
    assert ([x] + s)[1..] == s;
    assert Poly([x] + s) - Poly(s) == Pow(FP_BASE, |s|) * (x + 1);
    TermNeverVanishes(x + 1, |s|);
    DifferenceMod(Poly([x] + s), Poly(s));
  }
}
