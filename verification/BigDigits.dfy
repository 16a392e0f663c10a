/** Base 2**n digit lists, long division on them, and division of signed integers. */
module BigDigits {
  import opened Powers
  import opened Bits
  import opened BigDivision

  /** The value of a little-endian list of base 2**n digits */
  function ValueOf(ds: seq<nat>, n: nat): int {
    if ds == [] then 0 else ds[0] + Shl(ValueOf(ds[1..], n), n)
  }

  /** k * n, by repeated addition: the width of k digits */
  function Width(k: nat, n: nat): nat {
    if k == 0 then 0 else n + Width(k - 1, n)
  }

  lemma {:induction false} WidthIsProduct(k: nat, n: nat)
    ensures Width(k, n) == k * n
  {
    if k > 0 {
      WidthIsProduct(k - 1, n);
      TimesNext(k - 1, n);
    }
  }

  lemma TimesNext(k: int, n: int)
    ensures (k + 1) * n == k * n + n
  {
  }

  lemma {:induction false} WidthSum(i: nat, j: nat, n: nat)
    ensures Width(i + j, n) == Width(i, n) + Width(j, n)
  {
    if i > 0 {
      WidthSum(i - 1, j, n);
      assert i + j - 1 == (i - 1) + j;
    }
  }

  predicate AllBelow(ds: seq<nat>, n: nat) {
    forall i :: 0 <= i < |ds| ==> ds[i] < Shl(1, n)
  }

  /** Proper digits without a zero at the top */
  predicate Canonical(ds: seq<nat>, n: nat) {
    AllBelow(ds, n) && (ds != [] ==> ds[|ds| - 1] != 0)
  }

  lemma {:induction false} ValueConcat(s: seq<nat>, t: seq<nat>, n: nat)
    ensures ValueOf(s + t, n) == ValueOf(s, n) + Shl(ValueOf(t, n), Width(|s|, n))
  {
    if s == [] {
      assert s + t == t;
    } else {
      ValueConcat(s[1..], t, n);
      assert (s + t)[1..] == s[1..] + t;
      var k := Width(|s[1..]|, n);
      ShlSum(ValueOf(s[1..], n), Shl(ValueOf(t, n), k), n);
      ShlTwice(ValueOf(t, n), k, n);
    }
  }

  lemma {:induction false} ValueBound(ds: seq<nat>, n: nat)
    requires AllBelow(ds, n)
    ensures 0 <= ValueOf(ds, n) < Shl(1, Width(|ds|, n))
  {
    if ds != [] {
      ValueBound(ds[1..], n);
      var v, k := ValueOf(ds[1..], n), Width(|ds[1..]|, n);
      ShlTwice(1, k, n);
      ShlOrder(v + 1, Shl(1, k), n);
      ShlOrder(Shl(1, k), v + 1, n);
      ShlSum(v, 1, n);
      ShlOrder(v, 0, n);
      ShlZero(n);
    }
  }

  /** A number has only one canonical digit list. */
  lemma {:induction false} CanonicalUnique(s: seq<nat>, t: seq<nat>, n: nat)
    requires n > 0 && Canonical(s, n) && Canonical(t, n) && ValueOf(s, n) == ValueOf(t, n)
    ensures s == t
  {
    if s == [] {
      CanonicalPositive(t, n);
    } else if t == [] {
      CanonicalPositive(s, n);
    } else {
      ShrUnique(ValueOf(s, n), n, ValueOf(s[1..], n), s[0]);
      ShrUnique(ValueOf(s, n), n, ValueOf(t[1..], n), t[0]);
      CanonicalUnique(s[1..], t[1..], n);
      assert s == [s[0]] + s[1..];
      assert t == [t[0]] + t[1..];
    }
  }

  lemma {:induction false} CanonicalPositive(ds: seq<nat>, n: nat)
    requires Canonical(ds, n)
    ensures ds != [] ==> ValueOf(ds, n) > 0
  {
    if |ds| > 1 {
      CanonicalPositive(ds[1..], n);
      ShlOrder(0, ValueOf(ds[1..], n), n);
      ShlZero(n);
    } else if |ds| == 1 {
      assert ds[1..] == [];
      ShlZero(n);
    }
  }

  // ----- splitting

  /** Writes the digits of x into a[left..right], halving the range. */
  method SplitInto(a: array<nat>, x: nat, n: nat, left: nat, right: nat)
    requires left < right <= a.Length
    requires x < Shl(1, Width(right - left, n))
    modifies a
    ensures AllBelow(a[left..right], n) && ValueOf(a[left..right], n) == x
    ensures a[..left] == old(a[..left]) && a[right..] == old(a[right..])
    decreases right - left
  {
    if left + 1 == right {
      a[left] := x;
      assert a[left..right] == [x];
      assert [x][1..] == [];
      ShlZero(n);
      assert a[..left] == old(a[..left]);
      return;
    }
    var mid := (left + right) / 2;
    WidthSum(mid - left, right - mid, n);
    var shift := Width(mid - left, n);
    CutDigits(x, shift, Width(right - mid, n));
    var upper := Shr(x, shift);
    var lower := Xor(x, Shl(upper, shift));
    ghost var a0 := a[..];
    SplitInto(a, lower, n, left, mid);
    ghost var a1 := a[..];
    ghost var low := a[left..mid];
    SplitInto(a, upper, n, mid, right);
    TwoFrames(a0, a1, a[..], left, mid, right);
    ghost var high := a[mid..right];
    ValueConcat(low, high, n);
    assert a[left..right] == low + high;
  }

  lemma TwoFrames(a0: seq<nat>, a1: seq<nat>, a2: seq<nat>, left: nat, mid: nat, right: nat)
    requires left <= mid <= right <= |a0| == |a1| == |a2|
    requires a1[..left] == a0[..left] && a1[mid..] == a0[mid..]
    requires a2[..mid] == a1[..mid] && a2[right..] == a1[right..]
    ensures a2[..left] == a0[..left] && a2[right..] == a0[right..]
    ensures a2[left..right] == a1[left..mid] + a2[mid..right]
  {
    assert a2[..left] == a2[..mid][..left];
    assert a1[..left] == a1[..mid][..left];
    assert a1[right..] == a1[mid..][right - mid..];
    assert a0[right..] == a0[mid..][right - mid..];
    assert a2[left..mid] == a2[..mid][left..];
    assert a1[left..mid] == a1[..mid][left..];
  }

  /** The two parts of x, each small enough for its half of the range */
  lemma CutDigits(x: nat, j: nat, k: nat)
    requires x < Shl(1, j + k)
    ensures 0 <= Shr(x, j) < Shl(1, k)
    ensures Shl(Shr(x, j), j) >= 0
    ensures Xor(x, Shl(Shr(x, j), j)) < Shl(1, j)
    ensures x == Xor(x, Shl(Shr(x, j), j)) + Shl(Shr(x, j), j)
  {
    UpperFits(x, j, k);
    ShrNat(x, j);
    XorHigh(x, j);
    ShrBracket(x, j);
  }

  lemma UpperFits(x: nat, j: nat, k: nat)
    requires x < Shl(1, j + k)
    ensures 0 <= Shr(x, j) < Shl(1, k)
  {
    ShrNat(x, j);
    ShrBracket(x, j);
    ShlTwice(1, k, j);
    ShlOrder(Shl(1, k), Shr(x, j), j);
    ShlOrder(Shl(1, k), Shr(x, j) + 1, j);
  }

  lemma CeilDiv(bits: nat, n: nat)
    requires n > 0
    ensures (bits + n - 1) / n >= 0
    ensures bits <= Width((bits + n - 1) / n, n) < bits + n
  {
    DivIdentity(bits + n - 1, n);
    DivPositive(bits + n - 1, n);
    WidthIsProduct((bits + n - 1) / n, n);
  }

  /** The base 2**n digits of a: proper, and without a zero at the top. */
  method Int2Digits(a: nat, n: nat) returns (digits: array<nat>)
    requires n > 0
    ensures fresh(digits)
    ensures Canonical(digits[..], n) && ValueOf(digits[..], n) == a
  {
    var bits := BitLength(a);
    CeilDiv(bits, n);
    var len := (bits + n - 1) / n;
    digits := new nat[len](i => 0);
    if a > 0 {
      assert len > 0;
      BitLengthAtMost(a, bits);
      BitLengthAtMost(a, Width(len, n));
      SplitInto(digits, a, n, 0, len);
      assert digits[0..len] == digits[..];
      TopDigit(digits[..], n, a);
    } else {
      assert digits[..] == [];
    }
  }

  /** The number of digits is the least possible, so the top one is not zero. */
  lemma TopDigit(ds: seq<nat>, n: nat, a: nat)
    requires a > 0 && |ds| > 0 && AllBelow(ds, n) && ValueOf(ds, n) == a
    requires Width(|ds|, n) < BitLength(a) + n
    ensures ds[|ds| - 1] != 0
  {
    var k := |ds| - 1;
    if ds[k] == 0 {
      var low := ds[..k];
      assert ds == low + [0];
      assert [0][1..] == [];
      ShlZero(n);
      ValueConcat(low, [0], n);
      ShlZero(Width(k, n));
      ValueBound(low, n);
      BitLengthAtMost(a, Width(k, n));
    }
  }

  // ----- joining

  /** The value of digits[left..right], joined from halves */
  function Join(digits: seq<nat>, n: nat, left: nat, right: nat): (v: int)
    requires left < right <= |digits|
    ensures v == ValueOf(digits[left..right], n)
    decreases right - left
  {
    if left + 1 == right then
      JoinOne(digits, n, left);
      digits[left]
    else
      var mid := (left + right) / 2;
      WidthSum(mid - left, right - mid, n);
      var shift := Width(mid - left, n);
      JoinTwo(digits, n, left, mid, right);
      Shl(Join(digits, n, mid, right), shift) + Join(digits, n, left, mid)
  }

  lemma JoinOne(digits: seq<nat>, n: nat, left: nat)
    requires left < |digits|
    ensures ValueOf(digits[left..left + 1], n) == digits[left]
  {
    assert digits[left..left + 1] == [digits[left]];
    assert [digits[left]][1..] == [];
    ShlZero(n);
  }

  lemma JoinTwo(digits: seq<nat>, n: nat, left: nat, mid: nat, right: nat)
    requires left <= mid <= right <= |digits|
    ensures ValueOf(digits[left..right], n)
      == ValueOf(digits[left..mid], n) + Shl(ValueOf(digits[mid..right], n), Width(mid - left, n))
  {
    assert digits[left..right] == digits[left..mid] + digits[mid..right];
    ValueConcat(digits[left..mid], digits[mid..right], n);
  }

  function Digits2Int(digits: seq<nat>, n: nat): (v: int)
    ensures v == ValueOf(digits, n)
  {
    if digits == [] then 0
    else
      assert digits[0..|digits|] == digits;
      Join(digits, n, 0, |digits|)
  }

  /** Splitting what was joined gives the digits back; Int2Digits itself promises the other direction. */
  method Resplit(ds: seq<nat>, n: nat) returns (digits: array<nat>)
    requires n > 0 && Canonical(ds, n)
    ensures fresh(digits) && digits[..] == ds
  {
    ValueBound(ds, n);
    digits := Int2Digits(Digits2Int(ds, n), n);
    CanonicalUnique(digits[..], ds, n);
  }

  // ----- long division

  function Reverse(s: seq<nat>): seq<nat> {
    if s == [] then [] else [s[|s| - 1]] + Reverse(s[..|s| - 1])
  }

  lemma NextDigitFits(r: nat, d: nat, b: nat, n: nat)
    requires r < b && d < Shl(1, n)
    ensures 0 <= Shl(r, n) + d < Shl(b, n)
  {
    ShlSum(r, 1, n);
    ShlOrder(b, r + 1, n);
    ShlOrder(r, 0, n);
    ShlZero(n);
  }

  /** Grade-school division of a by b > 0, one digit as long as b at a time. */
  method DivmodPos(a: nat, b: nat, limit: nat) returns (q: int, r: nat)
    requires b > 0
    ensures Divides(a, b, q, r)
  {
    var n := BitLength(b);
    assert n > 0;
    var aDigits := Int2Digits(a, n);
    ghost var ds := aDigits[..];
    r := 0;
    var qDigits: seq<nat> := [];
    var i := aDigits.Length;
    while i > 0
      invariant 0 <= i <= aDigits.Length && aDigits[..] == ds
      invariant r < b
      invariant ValueOf(ds[i..], n) == b * ValueOf(Reverse(qDigits), n) + r
    {
      i := i - 1;
      NextDigitFits(r, ds[i], b, n);
      var qDigit, r' := Div2n1n(Shl(r, n) + aDigits[i], b, n, limit);
      LongDivisionStep(ds, i, b, n, qDigits, r, qDigit, r');
      qDigits := qDigits + [qDigit];
      r := r';
    }
    assert ds[0..] == ds;
    q := Digits2Int(Reverse(qDigits), n);
  }

  lemma LongDivisionStep(ds: seq<nat>, i: nat, b: int, n: nat, qDigits: seq<nat>, r: nat, qDigit: nat, r': nat)
    requires i < |ds|
    requires ValueOf(ds[i + 1..], n) == b * ValueOf(Reverse(qDigits), n) + r
    requires Divides(Shl(r, n) + ds[i], b, qDigit, r')
    ensures ValueOf(ds[i..], n) == b * ValueOf(Reverse(qDigits + [qDigit]), n) + r'
  {
    var high, before := ds[i + 1..], Reverse(qDigits);
    assert ds[i..][0] == ds[i] && ds[i..][1..] == high;
    assert (qDigits + [qDigit])[..|qDigits|] == qDigits;
    var after := Reverse(qDigits + [qDigit]);
    assert after == [qDigit] + before && after[1..] == before;
    TwoSteps(b, n, ValueOf(high, n), ds[i], ValueOf(before, n), r, qDigit, r');
  }

  // ----- signed division

  datatype DivmodResult = Quotient(q: int, r: int) | ZeroDivisionError

  /** Floor division: the remainder has the sign of the divisor. */
  predicate FloorDivides(a: int, b: int, q: int, r: int) {
    a == b * q + r && (b > 0 ==> 0 <= r < b) && (b < 0 ==> b < r <= 0)
  }

  /** Floor division has one answer. */
  lemma FloorUnique(a: int, b: int, q: int, r: int, q': int, r': int)
    requires b != 0 && FloorDivides(a, b, q, r) && FloorDivides(a, b, q', r')
    ensures q == q' && r == r'
  {
    if b > 0 {
      DivModUnique(a, b, q, r);
      DivModUnique(a, b, q', r');
    } else {
      DivModUnique(-a, -b, q, -r);
      DivModUnique(-a, -b, q', -r');
    }
  }

  method IntDivmod(a: int, b: int, limit: nat) returns (result: DivmodResult)
    ensures b == 0 ==> result == ZeroDivisionError
    ensures b != 0 ==> result.Quotient? && FloorDivides(a, b, result.q, result.r)
    decreases b < 0, a < 0
  {
    if b == 0 {
      return ZeroDivisionError;
    } else if b < 0 {
      var inner := IntDivmod(-a, -b, limit);
      NegateBoth(-a, -b, inner.q, inner.r);
      return Quotient(inner.q, -inner.r);
    } else if a < 0 {
      var inner := IntDivmod(-a - 1, b, limit);
      Complement(-a - 1, b, inner.q, inner.r);
      return Quotient(-inner.q - 1, b + (-inner.r - 1));
    } else {
      var q, r := DivmodPos(a, b, limit);
      return Quotient(q, r);
    }
  }

  lemma NegateBoth(a: int, b: int, q: int, r: int)
    requires FloorDivides(a, b, q, r) && b > 0
    ensures FloorDivides(-a, -b, q, -r)
  {
    assert (-b) * q == -(b * q);
  }

  lemma Complement(a: int, b: int, q: int, r: int)
    requires FloorDivides(a, b, q, r) && b > 0
    ensures FloorDivides(-a - 1, b, -q - 1, b - r - 1)
  {
    assert b * (-q - 1) == -(b * q) - b;
  }
}
