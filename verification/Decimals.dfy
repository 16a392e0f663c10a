/**
 Decimal values, the arithmetic context and the final rounding of every operation.

 A coefficient is kept as a natural number; the program keeps the string Digits(coef), and the
 methods below read that string where the program does.
 */
module Decimals {
  import opened Powers
  import opened DigitStrings
  import opened Rounding

  datatype Decimal =
    | Finite(neg: bool, coef: nat, exp: int)
    | Infinity(neg: bool)
    | NaN(neg: bool, signaling: bool, payload: nat)
  {
    predicate IsZero() {
      Finite? && coef == 0
    }

    /** Exponent of the leading digit */
    function Adjusted(): int
      requires Finite?
    {
      exp + NumDigits(coef) - 1
    }
  }

  datatype Signal =
    | Clamped | DivisionByZero | Inexact | Overflow | Rounded | Underflow | InvalidOperation | Subnormal

  /** What an operation can report, with the arguments that decide the default result */
  datatype Condition =
    | Plain(signal: Signal)
    | AboveEmax(neg: bool)
    | DividedByZero(neg: bool)
    | DivisionUndefined
    | Invalid
    | InvalidNaN(nan: Decimal)

  /** The settings of a context that rounding depends on */
  datatype Params = Params(prec: int, mode: Mode, emin: int, emax: int, clamp: bool) {
    /** What the attribute checks of a context let through */
    predicate Valid() {
      1 <= prec && emin <= 0 <= emax
    }

    function Etiny(): int { emin - prec + 1 }

    function Etop(): int { emax - prec + 1 }
  }

  function Max(a: int, b: int): int { if a < b then b else a }

  function Min(a: int, b: int): int { if b < a then b else a }

  /** The default result of an overflow */
  function OverflowResult(p: Params, neg: bool): Decimal
    requires p.Valid()
  {
    PowPositive(10, p.prec);
    match p.mode
    case RoundHalfUp | RoundHalfEven | RoundHalfDown | RoundUp => Infinity(neg)
    case RoundCeiling => if !neg then Infinity(neg) else Finite(neg, Pow(10, p.prec) - 1, p.Etop())
    case RoundFloor => if neg then Infinity(neg) else Finite(neg, Pow(10, p.prec) - 1, p.Etop())
    case RoundDown | Round05Up => Finite(neg, Pow(10, p.prec) - 1, p.Etop())
  }

  /** A NaN whose payload keeps only the digits the context has room for */
  function FixNaN(p: Params, d: Decimal): Decimal
    requires p.Valid() && d.NaN?
  {
    var room := p.prec - if p.clamp then 1 else 0;
    PowPositive(10, room);
    d.(payload := d.payload % Pow(10, room))
  }

  /** The quiet form of a NaN, as an operation returns it */
  function Quieted(p: Params, d: Decimal): (r: Decimal)
    requires p.Valid() && d.NaN?
    ensures r.NaN? && r.neg == d.neg && !r.signaling && r.payload == FixNaN(p, d).payload
  {
    FixNaN(p, NaN(d.neg, false, d.payload))
  }

  function SignalOf(c: Condition): Signal {
    match c
    case Plain(s) => s
    case AboveEmax(_) => Overflow
    case DividedByZero(_) => DivisionByZero
    case DivisionUndefined => InvalidOperation
    case Invalid => InvalidOperation
    case InvalidNaN(_) => InvalidOperation
  }

  const QuietNaN := NaN(false, false, 0)

  /** The default result of a condition that is not trapped; a plain signal has none the callers use */
  function Handle(p: Params, c: Condition): Decimal
    requires p.Valid() && (c.InvalidNaN? ==> c.nan.NaN?)
  {
    match c
    case Plain(_) => QuietNaN
    case AboveEmax(neg) => OverflowResult(p, neg)
    case DividedByZero(neg) => Infinity(neg)
    case DivisionUndefined => QuietNaN
    case Invalid => QuietNaN
    case InvalidNaN(d) => Quieted(p, d)
  }

  // ----- the reference for the final rounding

  /** The least exponent the rounded value may keep */
  function Quantum(p: Params, d: Decimal): int
    requires d.Finite?
  {
    Max(d.Adjusted() - p.prec + 1, p.Etiny())
  }

  /** The coefficient at the quantum, rounded */
  function RoundedCoef(p: Params, d: Decimal): nat
    requires d.Finite? && d.exp < Quantum(p, d)
  {
    PowPositive(10, Quantum(p, d) - d.exp);
    RoundRatio(p.mode, d.neg, d.coef, Pow(10, Quantum(p, d) - d.exp))
  }

  /** Does the value, or what it rounds to, exceed the largest finite number? */
  predicate Overflows(p: Params, d: Decimal)
    requires p.Valid() && d.Finite? && d.coef > 0
  {
    || d.Adjusted() > p.emax
    || (d.exp < Quantum(p, d) && NumDigits(RoundedCoef(p, d)) + Quantum(p, d) - 1 > p.emax)
  }

  predicate LosesDigits(p: Params, d: Decimal)
    requires d.Finite?
  {
    && d.exp < Quantum(p, d)
    && (PowPositive(10, Quantum(p, d) - d.exp); d.coef % Pow(10, Quantum(p, d) - d.exp) != 0)
  }

  function FixValue(p: Params, d: Decimal): Decimal
    requires p.Valid()
  {
    if d.Infinity? then d
    else if d.NaN? then FixNaN(p, d)
    else if d.coef == 0 then
      d.(exp := Min(Max(d.exp, p.Etiny()), if p.clamp then p.Etop() else p.emax))
    else if Overflows(p, d) then OverflowResult(p, d.neg)
    else if d.exp < Quantum(p, d) then
      var n, q := RoundedCoef(p, d), Quantum(p, d);
      if NumDigits(n) > p.prec then Finite(d.neg, n / 10, q + 1) else Finite(d.neg, n, q)
    else if p.clamp && d.exp > p.Etop() then
      Finite(d.neg, Times10(d.coef, d.exp - p.Etop()), p.Etop())
    else d
  }

  function FixSignals(p: Params, d: Decimal): set<Signal>
    requires p.Valid()
  {
    if !d.Finite? then {}
    else if d.coef == 0 then if FixValue(p, d) != d then {Clamped} else {}
    else if d.Adjusted() > p.emax then {Overflow, Inexact, Rounded}
    else
      var subnormal := d.Adjusted() < p.emin;
      (if subnormal then {Subnormal} else {})
      + (if LosesDigits(p, d) then {Inexact} else {})
      + (if LosesDigits(p, d) && subnormal then {Underflow} else {})
      + (if d.exp < Quantum(p, d) then {Rounded} else {})
      + (if Overflows(p, d) then {Overflow} else {})
      + (if d.exp < Quantum(p, d) && FixValue(p, d).IsZero() then {Clamped} else {})
      + (if d.exp >= Quantum(p, d) && p.clamp && d.exp > p.Etop() then {Clamped} else {})
  }

  // ----- the context

  /** The flags dictionary, which shallow copies of a context share */
  class FlagDict {
    var raised: set<Signal>

    constructor ()
      ensures raised == {}
    {
      raised := {};
    }
  }

  class Context {
    var prec: int
    var mode: Mode
    var emin: int
    var emax: int
    var capitals: bool
    var clamp: bool
    const flags: FlagDict

    ghost predicate Valid()
      reads this
    {
      P().Valid()
    }

    function P(): Params
      reads this
    {
      Params(prec, mode, emin, emax, clamp)
    }

    constructor (p: Params, capitals: bool, flags: FlagDict)
      ensures P() == p && this.capitals == capitals && this.flags == flags
    {
      this.prec, this.mode, this.emin, this.emax, this.clamp := p.prec, p.mode, p.emin, p.emax, p.clamp;
      this.capitals := capitals;
      this.flags := flags;
    }

    /** A new context over the same flags */
    method ShallowCopy() returns (c: Context)
      ensures fresh(c) && c.flags == flags && c.P() == P() && c.capitals == capitals
    {
      c := new Context(P(), capitals, flags);
    }

    method SetRounding(m: Mode) returns (was: Mode)
      modifies this`mode
      ensures was == old(mode) && P() == old(P()).(mode := m)
    {
      was := mode;
      mode := m;
    }

    /** Sets the flag of the condition and gives its default result; no signal is trapped or ignored */
    method RaiseError(c: Condition) returns (r: Decimal)
      requires Valid() && (c.InvalidNaN? ==> c.nan.NaN?)
      modifies flags
      ensures flags.raised == old(flags.raised) + {SignalOf(c)}
      ensures r == Handle(P(), c)
    {
      flags.raised := flags.raised + {SignalOf(c)};
      r := Handle(P(), c);
    }
  }

  // ----- the final rounding, as the program does it

  /** What the program rounds: the value, or a tenth of a unit when nothing of it is kept */
  function Rounding0(d: Decimal, expMin: int): (string, nat)
    requires d.Finite? && d.exp < expMin
  {
    var k := NumDigits(d.coef) + d.exp - expMin;
    if k < 0 then (Digits(1), 0) else (Digits(d.coef), k)
  }

  lemma Rounding0InRange(d: Decimal, expMin: int)
    requires d.Finite? && d.exp < expMin
    ensures var (s, k) := Rounding0(d, expMin); k < |s| && AllDigits(s)
  {
    DigitsShape(1);
    DigitsShape(d.coef);
  }

  lemma TinyRatio(mode: Mode, neg: bool, c: nat, k: nat)
    requires 0 < c && NumDigits(c) < k
    ensures Pow(10, k) > 0 && c % Pow(10, k) != 0
    ensures RoundRatio(mode, neg, c, Pow(10, k)) == RoundRatio(mode, neg, 1, 10)
  {
    NumDigitsBounds(c);
    PowMonotone(10, NumDigits(c), k - 1);
    DivModUnique(c, Pow(10, k), 0, c);
  }

  /** Rounding by digits finds the reference coefficient and knows whether anything was lost. */
  lemma Rounding0Agrees(p: Params, d: Decimal)
    requires p.Valid() && d.Finite? && d.coef > 0 && d.exp < Quantum(p, d)
    ensures var (s, k) := Rounding0(d, Quantum(p, d));
      && k < |s| && AllDigits(s)
      && ToNat(s[..k]) + (if Decide(p.mode, d.neg, s, k) > 0 then 1 else 0) == RoundedCoef(p, d)
      && (Decide(p.mode, d.neg, s, k) != 0 <==> LosesDigits(p, d))
  {
    var q := Quantum(p, d);
    var (s, k) := Rounding0(d, q);
    Rounding0InRange(d, q);
    DecideAgrees(p.mode, d.neg, s, k);
    DigitsShape(1);
    DigitsShape(d.coef);
    if NumDigits(d.coef) + d.exp - q < 0 {
      TinyRatio(p.mode, d.neg, d.coef, q - d.exp);
      assert Pow(10, 1) == 10 * Pow(10, 0);
    }
  }

  /** Rounding to the quantum leaves at most one digit too many, and then the value is a power of ten. */
  lemma RoundedCoefBound(p: Params, d: Decimal)
    requires p.Valid() && d.Finite? && d.coef > 0 && d.exp < Quantum(p, d)
    ensures RoundedCoef(p, d) <= Pow(10, p.prec)
    ensures NumDigits(RoundedCoef(p, d)) > p.prec ==> RoundedCoef(p, d) == Pow(10, p.prec)
    ensures NumDigits(RoundedCoef(p, d)) <= p.prec + 1
  {
    var k := Quantum(p, d) - d.exp;
    NumDigitsBounds(d.coef);
    PowMonotone(10, NumDigits(d.coef), k + p.prec);
    PowAdd(10, k, p.prec);
    PowPositive(10, k);
    DivLess(d.coef, Pow(10, k), Pow(10, p.prec));
    var n := RoundedCoef(p, d);
    NumDigitsBounds(n);
    PowPositive(10, p.prec);
    NumDigitsUnique(Pow(10, p.prec), p.prec);
    NumDigitsMonotone(n, Pow(10, p.prec));
    if n < Pow(10, p.prec) && NumDigits(n) > p.prec {
      PowMonotone(10, p.prec, NumDigits(n) - 1);
    }
  }

  lemma DropLastDigit(n: nat)
    ensures |Digits(n)| == NumDigits(n) && AllDigits(Digits(n))
    ensures ToNat(Digits(n)[..NumDigits(n) - 1]) == n / 10
  {
    DigitsShape(n);
    ToNatSplit(Digits(n), NumDigits(n) - 1);
    assert Pow(10, 1) == 10 * Pow(10, 0);
  }

  lemma PaddedValue(n: nat, k: nat)
    ensures AllDigits(Digits(n) + Zeros(k))
    ensures ToNat(Digits(n) + Zeros(k)) == Times10(n, k)
  {
    Times10Product(n, k);
    DigitsShape(n);
    ToNatConcat(Digits(n), Zeros(k));
    ZerosValue(k);
  }

  /** Without rounding up, at most prec digits are kept. */
  lemma KeptDigitsFit(p: Params, d: Decimal)
    requires p.Valid() && d.Finite? && d.coef > 0 && d.exp < Quantum(p, d)
    requires var (s, k) := Rounding0(d, Quantum(p, d)); k < |s| && Decide(p.mode, d.neg, s, k) <= 0
    ensures NumDigits(RoundedCoef(p, d)) <= p.prec
  {
    var (s, k) := Rounding0(d, Quantum(p, d));
    Rounding0Agrees(p, d);
    assert k <= p.prec;
    ToNatBound(s[..k]);
    PowMonotone(10, k, p.prec);
    RoundedCoefBound(p, d);
  }

  /** Cuts the digits below the quantum off and rounds what is left. */
  method RoundDigits(d: Decimal, p: Params, expMin0: int) returns (coeff: nat, expMin: int, changed: int)
    requires p.Valid() && d.Finite? && d.coef > 0
    requires expMin0 == Quantum(p, d) && d.exp < expMin0
    ensures changed != 0 <==> LosesDigits(p, d)
    ensures var n := RoundedCoef(p, d);
      if NumDigits(n) > p.prec then coeff == n / 10 && expMin == expMin0 + 1 else coeff == n && expMin == expMin0
  {
    Rounding0Agrees(p, d);
    expMin := expMin0;
    var digitString, digits := Digits(d.coef), NumDigits(d.coef) + d.exp - expMin;
    if digits < 0 {
      digitString, digits := Digits(1), 0;
    }
    changed := Decide(p.mode, d.neg, digitString, digits);
    coeff := ToNat(digitString[..digits]);
    if changed > 0 {
      coeff := coeff + 1;
      DropLastDigit(coeff);
      if NumDigits(coeff) > p.prec {
        coeff := ToNat(Digits(coeff)[..NumDigits(coeff) - 1]);
        expMin := expMin + 1;
      }
    } else {
      KeptDigitsFit(p, d);
    }
  }

  lemma OverflowAfterRounding(p: Params, d: Decimal)
    requires p.Valid() && d.Finite? && d.coef > 0 && d.Adjusted() <= p.emax && d.exp < Quantum(p, d)
    ensures Overflows(p, d)
      <==> Quantum(p, d) + (if NumDigits(RoundedCoef(p, d)) > p.prec then 1 else 0) > p.Etop()
  {
    RoundedCoefBound(p, d);
  }

  /** The branch of Fix that cuts digits off */
  method FixDigits(d: Decimal, ctx: Context, expMin0: int, isSubnormal: bool) returns (r: Decimal)
    requires ctx.Valid() && d.Finite? && d.coef > 0 && d.Adjusted() <= ctx.emax
    requires expMin0 == Quantum(ctx.P(), d) && d.exp < expMin0
    requires isSubnormal <==> d.Adjusted() < ctx.emin
    modifies ctx.flags
    ensures r == FixValue(ctx.P(), d)
    ensures ctx.flags.raised == old(ctx.flags.raised) + FixSignals(ctx.P(), d)
  {
    var coeff, expMin, changed := RoundDigits(d, ctx.P(), expMin0);
    OverflowAfterRounding(ctx.P(), d);
    if expMin > ctx.P().Etop() {
      r := ctx.RaiseError(AboveEmax(d.neg));
    } else {
      r := Finite(d.neg, coeff, expMin);
    }
    if changed != 0 && isSubnormal {
      var _ := ctx.RaiseError(Plain(Underflow));
    }
    if isSubnormal {
      var _ := ctx.RaiseError(Plain(Subnormal));
    }
    if changed != 0 {
      var _ := ctx.RaiseError(Plain(Inexact));
    }
    var _ := ctx.RaiseError(Plain(Rounded));
    if r.IsZero() {
      var _ := ctx.RaiseError(Plain(Clamped));
    }
  }

  /** Fits a value to the context: rounds to precision, and keeps the exponent in range. */
  method Fix(d: Decimal, ctx: Context) returns (r: Decimal)
    requires ctx.Valid()
    modifies ctx.flags
    ensures r == FixValue(ctx.P(), d)
    ensures ctx.flags.raised == old(ctx.flags.raised) + FixSignals(ctx.P(), d)
  {
    if !d.Finite? {
      return if d.NaN? then FixNaN(ctx.P(), d) else d;
    }
    var etiny, etop := ctx.P().Etiny(), ctx.P().Etop();
    if d.IsZero() {
      var expMax := if ctx.clamp then etop else ctx.emax;
      var newExp := Min(Max(d.exp, etiny), expMax);
      if newExp != d.exp {
        var _ := ctx.RaiseError(Plain(Clamped));
        return Finite(d.neg, 0, newExp);
      }
      return d;
    }

    var expMin := NumDigits(d.coef) + d.exp - ctx.prec;
    if expMin > etop {
      r := ctx.RaiseError(AboveEmax(d.neg));
      var _ := ctx.RaiseError(Plain(Inexact));
      var _ := ctx.RaiseError(Plain(Rounded));
      return;
    }
    var isSubnormal := expMin < etiny;
    if isSubnormal {
      expMin := etiny;
    }
    if d.exp < expMin {
      r := FixDigits(d, ctx, expMin, isSubnormal);
      return;
    }

    if isSubnormal {
      var _ := ctx.RaiseError(Plain(Subnormal));
    }
    if ctx.clamp && d.exp > etop {
      var _ := ctx.RaiseError(Plain(Clamped));
      PaddedValue(d.coef, d.exp - etop);
      return Finite(d.neg, ToNat(Digits(d.coef) + Zeros(d.exp - etop)), etop);
    }
    r := d;
  }
}
