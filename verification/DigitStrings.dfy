/** Decimal digit strings: what str(n) and int(s) do on the ASCII digits. */
module DigitStrings {
  import opened Powers

  predicate IsDigit(c: char) {
    '0' <= c <= '9'
  }

  predicate AllDigits(s: string) {
    forall i :: 0 <= i < |s| ==> IsDigit(s[i])
  }

  function DigitChar(d: nat): (c: char)
    requires d < 10
    ensures IsDigit(c) && DigitValue(c) == d
  {
    '0' + d as char
  }

  function DigitValue(c: char): (d: nat)
    requires IsDigit(c)
    ensures d < 10
  {
    (c - '0') as int
  }

  /** str(n) */
  function Digits(n: nat): string {
    if n < 10 then [DigitChar(n)] else Digits(n / 10) + [DigitChar(n % 10)]
  }

  /** len(str(n)) */
  function NumDigits(n: nat): nat {
    if n < 10 then 1 else 1 + NumDigits(n / 10)
  }

  /** int(s) on a digit string, where the empty string counts as zero */
  function ToNat(s: string): nat
    requires AllDigits(s)
  {
    if s == [] then 0 else 10 * ToNat(s[..|s| - 1]) + DigitValue(s[|s| - 1])
  }

  function Zeros(k: nat): (s: string)
    ensures |s| == k && AllDigits(s)
  {
    seq(k, _ => '0')
  }

  lemma {:induction false} DigitsShape(n: nat)
    ensures AllDigits(Digits(n)) && |Digits(n)| == NumDigits(n) >= 1
    ensures ToNat(Digits(n)) == n
    ensures n > 0 ==> Digits(n)[0] != '0'
  {
    var s := Digits(n);
    if n < 10 {
      assert s[..0] == [];
    } else {
      DigitsShape(n / 10);
      assert s[..|s| - 1] == Digits(n / 10);
    }
  }

  lemma {:induction false} NumDigitsBounds(n: nat)
    ensures NumDigits(n) >= 1
    ensures n < Pow(10, NumDigits(n))
    ensures n > 0 ==> Pow(10, NumDigits(n) - 1) <= n
  {
    if n >= 10 {
      NumDigitsBounds(n / 10);
    } else {
      assert Pow(10, 1) == 10 * Pow(10, 0);
    }
  }

  lemma ManyDigits(q: nat, prec: nat)
    requires q >= Pow(10, prec)
    ensures q > 0 && NumDigits(q) > prec
  {
    PowPositive(10, prec);
    NumDigitsBounds(q);
    if NumDigits(q) <= prec {
      PowMonotone(10, NumDigits(q), prec);
    }
  }

  lemma NumDigitsUnique(n: nat, k: nat)
    requires Pow(10, k) <= n < Pow(10, k + 1)
    ensures NumDigits(n) == k + 1
  {
    PowPositive(10, k);
    NumDigitsBounds(n);
    if NumDigits(n) > k + 1 {
      PowMonotone(10, k + 1, NumDigits(n) - 1);
    } else if NumDigits(n) < k + 1 {
      PowMonotone(10, NumDigits(n), k);
    }
  }

  lemma {:induction false} NumDigitsMonotone(m: nat, n: nat)
    requires m <= n
    ensures NumDigits(m) <= NumDigits(n)
  {
    if m >= 10 {
      NumDigitsMonotone(m / 10, n / 10);
    }
  }

  lemma {:induction false} NumDigitsShift(n: nat, k: nat)
    requires n > 0
    ensures Times10(n, k) > 0
    ensures NumDigits(Times10(n, k)) == NumDigits(n) + k
  {
    if k > 0 {
      NumDigitsShift(n, k - 1);
    }
  }

  /** Dropping the last k of more than k digits leaves that many fewer. */
  lemma NumDigitsDrop(n: nat, k: nat)
    requires k < NumDigits(n)
    ensures Pow(10, k) > 0
    ensures NumDigits(n / Pow(10, k)) == NumDigits(n) - k
  {
    PowPositive(10, k);
    if k > 0 {
      NumDigitsDrop(n, k - 1);
      PowPositive(10, k - 1);
      DivTwice(n, Pow(10, k - 1), 10);
    }
  }

  lemma NumDigitsDropPositive(n: nat, k: nat)
    requires n > 0 && k < NumDigits(n)
    ensures Pow(10, k) > 0 && n / Pow(10, k) > 0
  {
    PowPositive(10, k);
    NumDigitsBounds(n);
    PowMonotone(10, k, NumDigits(n) - 1);
    DivAtLeast(n, Pow(10, k), 1);
  }

  // ----- concatenation and slices

  lemma {:induction false} ToNatBound(s: string)
    requires AllDigits(s)
    ensures ToNat(s) < Pow(10, |s|)
  {
    if s != [] {
      ToNatBound(s[..|s| - 1]);
    }
  }

  lemma {:induction false} ToNatConcat(s: string, t: string)
    requires AllDigits(s) && AllDigits(t)
    ensures ToNat(s + t) == ToNat(s) * Pow(10, |t|) + ToNat(t)
  {
    if t == [] {
      assert s + t == s;
    } else {
      var t' := t[..|t| - 1];
      ToNatConcat(s, t');
      assert (s + t)[..|s + t| - 1] == s + t';
      var a, p, b := ToNat(s), Pow(10, |t'|), ToNat(t');
      MulPull(10, a, p);
    }
  }

  /** Cutting a digit string in two is dividing its value by a power of ten. */
  lemma ToNatSplit(s: string, k: nat)
    requires AllDigits(s) && k <= |s|
    ensures Pow(10, |s| - k) > 0
    ensures ToNat(s[..k]) == ToNat(s) / Pow(10, |s| - k)
    ensures ToNat(s[k..]) == ToNat(s) % Pow(10, |s| - k)
  {
    var s0, s1 := s[..k], s[k..];
    assert s == s0 + s1 && |s1| == |s| - k;
    ToNatConcat(s0, s1);
    ToNatBound(s1);
    PowPositive(10, |s1|);
    SplitValue(ToNat(s), ToNat(s0), Pow(10, |s1|), ToNat(s1));
  }

  lemma SplitValue(n: nat, a: nat, p: nat, b: nat)
    requires n == a * p + b && b < p
    ensures n / p == a && n % p == b
  {
    DivModUnique(n, p, a, b);
  }

  lemma {:induction false} ZerosValue(k: nat)
    ensures ToNat(Zeros(k)) == 0
  {
    if k > 0 {
      assert Zeros(k)[..k - 1] == Zeros(k - 1);
      ZerosValue(k - 1);
    }
  }

  /** A digit string is worth nothing exactly when it is all zeros. */
  lemma {:induction false} ZeroIffAllZeros(s: string)
    requires AllDigits(s)
    ensures ToNat(s) == 0 <==> forall i :: 0 <= i < |s| ==> s[i] == '0'
  {
    if s != [] {
      ZeroIffAllZeros(s[..|s| - 1]);
      assert DigitValue(s[|s| - 1]) == 0 <==> s[|s| - 1] == '0';
      if ToNat(s) == 0 {
        forall i | 0 <= i < |s| ensures s[i] == '0' {
          if i < |s| - 1 {
            assert s[..|s| - 1][i] == '0';
          }
        }
      }
    }
  }

  /** Digit strings of one length with one value are the same string. */
  lemma {:induction false} ToNatInjective(s: string, t: string)
    requires AllDigits(s) && AllDigits(t) && |s| == |t|
    requires ToNat(s) == ToNat(t)
    ensures s == t
  {
    if s != [] {
      var k := |s| - 1;
      assert DigitValue(s[k]) == ToNat(s) % 10 == ToNat(t) % 10 == DigitValue(t[k]);
      ToNatInjective(s[..k], t[..k]);
      assert s == s[..k] + [s[k]];
      assert t == t[..k] + [t[k]];
    }
  }
}
