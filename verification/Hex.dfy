/** The canonical token of a fingerprint: sixteen lowercase hex digits. */
module Hex {
  import opened Text
  import opened Fingerprint

  predicate IsDigit(c: char) { '0' <= c <= '9' || 'a' <= c <= 'f' }

  function Digit(v: nat): char
    requires v < 16
  {
    if v < 10 then '0' + v as char else 'a' + (v - 10) as char
  }

  function DigitValue(c: char): (v: nat)
    requires IsDigit(c)
    ensures v < 16 && Digit(v) == c
  {
    if c <= '9' then (c - '0') as int else (c - 'a') as int + 10
  }

  lemma DigitValueOfDigit(v: nat)
    requires v < 16
    ensures IsDigit(Digit(v)) && DigitValue(Digit(v)) == v
  {
  }

  /** The `n` low hex digits of `v`, most significant first. */
  function Digits(v: nat, n: nat): (s: string)
    ensures |s| == n
    decreases n
  {
    if n == 0 then [] else Digits(v / 16, n - 1) + [Digit(v % 16)]
  }

  function Value(s: string): nat
    requires forall c :: c in s ==> IsDigit(c)
  {
    if s == [] then 0 else 16 * Value(s[..|s| - 1]) + DigitValue(s[|s| - 1])
  }

  function Rk64ToHex(fp: u64): string { Digits(fp, 16) }

  function Rk64FromHex(s: string): Option<nat> {
    if |s| != 16 || !(forall c :: c in s ==> IsDigit(c)) then None else Some(Value(s))
  }

  function Pow16(n: nat): nat { if n == 0 then 1 else 16 * Pow16(n - 1) }

  lemma Pow16Word()
    ensures Pow16(16) == WORD
  {
    assert Pow16(8) == 0x1_0000_0000;
    Pow16Add(8, 8);
  }

  lemma {:induction false} Pow16Add(a: nat, b: nat)
    ensures Pow16(a + b) == Pow16(a) * Pow16(b)
  {
    if a > 0 {
      Pow16Add(a - 1, b);
    }
  }

  lemma {:induction false} ValueOfDigits(v: nat, n: nat)
    requires v < Pow16(n)
    ensures forall c :: c in Digits(v, n) ==> IsDigit(c)
    ensures Value(Digits(v, n)) == v
    decreases n
  {
    if n > 0 {
      ValueOfDigits(v / 16, n - 1);
      DigitValueOfDigit(v % 16);
      var s := Digits(v, n);
      assert s[..n - 1] == Digits(v / 16, n - 1);
    }
  }

  lemma DigitStep(v: nat, d: nat, n: nat)
    requires d < 16 && v < Pow16(n)
    ensures 16 * v + d < Pow16(n + 1)
    ensures Digits(16 * v + d, n + 1) == Digits(v, n) + [Digit(d)]
  {
    assert (16 * v + d) / 16 == v && (16 * v + d) % 16 == d;
  }

  lemma {:induction false} DigitsOfValue(s: string)
    requires forall c :: c in s ==> IsDigit(c)
    ensures Value(s) < Pow16(|s|) && Digits(Value(s), |s|) == s
  {
    if s != [] {
      var n := |s| - 1;
      DigitsOfValue(s[..n]);
      DigitStep(Value(s[..n]), DigitValue(s[n]), n);
      assert s == s[..n] + [s[n]];
    }
  }

  /** Writer and reader agree on every fingerprint. */
  lemma HexRoundTrip(fp: u64)
    ensures Rk64FromHex(Rk64ToHex(fp)) == Some(fp)
  {
    Pow16Word();
    ValueOfDigits(fp, 16);
  }

  /** Only the canonical spelling is accepted, and every accepted value is a word. */
  lemma HexCanonical(s: string, v: nat)
    requires Rk64FromHex(s) == Some(v)
    ensures v < WORD && Rk64ToHex(v) == s
  {
    Pow16Word();
    DigitsOfValue(s);
  }
}
