/** Divide-and-conquer conversion of a decimal string, with remembered powers of five. */
module BigParse {
  import opened Powers
  import opened DigitStrings
  import opened Bits

  /** The powers of five computed so far; powers up to the limit are computed directly. */
  class PowerMemo {
    const limit: nat
    var mem: map<nat, nat>

    ghost predicate Valid()
      reads this
    {
      limit >= 1 && forall w :: w in mem ==> mem[w] == Pow(5, w)
    }

    constructor (limit: nat)
      requires limit >= 1
      ensures Valid() && this.limit == limit && mem == map[]
    {
      this.limit := limit;
      mem := map[];
    }

    /** 5 ** w, remembered together with the intermediate powers it needed */
    method W5Pow(w: nat) returns (result: nat)
      requires Valid()
      modifies this
      ensures Valid() && result == Pow(5, w)
      ensures w in mem && old(mem.Keys) <= mem.Keys
      decreases w
    {
      if w in mem {
        return mem[w];
      }
      if w <= limit {
        result := Pow(5, w);
      } else if w - 1 in mem {
        result := mem[w - 1] * 5;
      } else {
        var w2 := w / 2;
        var low := W5Pow(w2);
        var high := W5Pow(w - w2);
        PowAdd(5, w2, w - w2);
        result := low * high;
      }
      mem := mem[w := result];
    }

    /** int(s[a:b]) */
    method Inner(s: string, a: nat, b: nat) returns (v: nat)
      requires Valid() && AllDigits(s) && a < b <= |s|
      modifies this
      ensures Valid() && v == ToNat(s[a..b])
      decreases b - a
    {
      if b - a <= limit {
        return ToNat(s[a..b]);
      }
      var mid := (a + b + 1) / 2;
      var low := Inner(s, mid, b);
      var high := Inner(s, a, mid);
      var power := W5Pow(b - mid);
      var product := high * power;
      JoinHalves(s, a, mid, b, low, high, power, product);
      v := low + Shl(product, b - mid);
    }
  }

  lemma {:induction false} ShlIsPow(k: nat)
    ensures Shl(1, k) == Pow(2, k)
  {
    if k > 0 {
      ShlIsPow(k - 1);
    }
  }

  /** x * 10**k is x * 5**k shifted by k. */
  lemma TenPower(x: nat, k: nat)
    ensures x * Pow(10, k) == Shl(x * Pow(5, k), k)
  {
    PowOfProduct(5, 2, k);
    ShlIsPow(k);
    var y := x * Pow(5, k);
    assert y * 1 == y;
    ShlTimes(y, 1, k);
    MulAssociate(x, Pow(5, k), Pow(2, k));
  }

  lemma JoinHalves(s: string, a: nat, mid: nat, b: nat, low: nat, high: nat, power: nat, product: nat)
    requires AllDigits(s) && a <= mid <= b <= |s| && product == high * power
    requires low == ToNat(s[mid..b]) && high == ToNat(s[a..mid]) && power == Pow(5, b - mid)
    ensures ToNat(s[a..b]) == low + Shl(product, b - mid)
  {
    SplitDigits(s, a, mid, b);
    ShiftedProduct(high, power, b - mid, product);
  }

  lemma SplitDigits(s: string, a: nat, mid: nat, b: nat)
    requires AllDigits(s) && a <= mid <= b <= |s|
    ensures ToNat(s[a..b]) == ToNat(s[a..mid]) * Pow(10, b - mid) + ToNat(s[mid..b])
  {
    var s0, s1 := s[a..mid], s[mid..b];
    assert s[a..b] == s0 + s1;
    ToNatConcat(s0, s1);
  }

  lemma ShiftedProduct(high: nat, power: nat, k: nat, product: nat)
    requires power == Pow(5, k) && product == high * power
    ensures high * Pow(10, k) == Shl(product, k)
  {
    TenPower(high, k);
  }

  /** The whole conversion, for any limit on the size of the direct one */
  method StrToInt(s: string, limit: nat) returns (v: nat)
    requires AllDigits(s) && s != [] && limit >= 1
    ensures v == ToNat(s)
  {
    var memo := new PowerMemo(limit);
    v := memo.Inner(s, 0, |s|);
    assert s[0..|s|] == s;
  }
}
