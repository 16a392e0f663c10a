/** The pieces of text processing that printing and parsing share: padding, stripping and int(). */
module PythonText {
  import opened Powers
  import opened DigitStrings

  datatype Option<T> = None | Some(value: T)

  // ----- printing

  /** '%0wd' % n */
  function Pad(n: nat, w: nat): string {
    if NumDigits(n) < w then Zeros(w - NumDigits(n)) + Digits(n) else Digits(n)
  }

  lemma PadShape(n: nat, w: nat)
    requires w >= 1 && n < Pow(10, w)
    ensures |Pad(n, w)| == w && AllDigits(Pad(n, w)) && ToNat(Pad(n, w)) == n
  {
    DigitsShape(n);
    FewDigits(n, w);
    if NumDigits(n) < w {
      PaddedNat(w - NumDigits(n), Digits(n));
    }
  }

  lemma {:induction false} FewDigits(n: nat, w: nat)
    requires w >= 1 && n < Pow(10, w)
    ensures NumDigits(n) <= w
  {
    if w == 1 {
      assert Pow(10, 1) == 10 * Pow(10, 0);
    } else if n >= 10 {
      FewDigits(n / 10, w - 1);
    }
  }

  lemma PaddedNat(k: nat, s: string)
    requires AllDigits(s)
    ensures AllDigits(Zeros(k) + s) && ToNat(Zeros(k) + s) == ToNat(s)
  {
    ZerosValue(k);
    ToNatConcat(Zeros(k), s);
  }

  predicate IsSpace(c: char) {
    c == ' ' || 9 as char <= c <= 13 as char || 28 as char <= c <= 31 as char
  }

  // ----- strip() and replace()

  function Strip(s: string): string {
    if s != [] && IsSpace(s[0]) then Strip(s[1..])
    else if s != [] && IsSpace(s[|s| - 1]) then Strip(s[..|s| - 1])
    else s
  }

  /** s.replace(c, "") */
  function Without(s: string, c: char): string {
    if s == [] then [] else (if s[0] == c then [] else [s[0]]) + Without(s[1..], c)
  }

  predicate Blank(s: string) {
    forall i :: 0 <= i < |s| ==> IsSpace(s[i])
  }

  predicate Trimmed(s: string) {
    s == "" || (!IsSpace(s[0]) && !IsSpace(s[|s| - 1]))
  }

  /** Strip takes away blanks at both ends, all of them, and nothing else. */
  lemma {:induction false} StripMeans(s: string, core: string)
    ensures Strip(s) == core <==>
            exists left, right :: s == left + (core + right) && Blank(left) && Blank(right) && Trimmed(core)
  {
    if Strip(s) == core {
      var left, right := BlanksAround(s);
    }
    forall left, right | s == left + (core + right) && Blank(left) && Blank(right) && Trimmed(core)
      ensures Strip(s) == core
    {
      StripExact(s, left, core, right);
    }
  }

  lemma {:induction false} BlanksAround(s: string) returns (left: string, right: string)
    ensures s == left + (Strip(s) + right) && Blank(left) && Blank(right) && Trimmed(Strip(s))
  {
    if s != [] && IsSpace(s[0]) {
      left, right := BlanksAround(s[1..]);
      BlankBefore(s, s[1..], left, Strip(s) + right);
      left := [s[0]] + left;
    } else if s != [] && IsSpace(s[|s| - 1]) {
      left, right := BlanksAround(s[..|s| - 1]);
      BlankAfter(s, s[..|s| - 1], left, Strip(s), right);
      right := right + [s[|s| - 1]];
    } else {
      left, right := "", "";
    }
  }

  lemma {:induction false} BlankBefore(s: string, t: string, left: string, rest: string)
    requires s != "" && IsSpace(s[0]) && t == s[1..] && t == left + rest && Blank(left)
    ensures s == ([s[0]] + left) + rest && Blank([s[0]] + left)
  {
  }

  lemma {:induction false} BlankAfter(s: string, t: string, left: string, core: string, right: string)
    requires s != "" && IsSpace(s[|s| - 1]) && t == s[..|s| - 1] && t == left + (core + right) && Blank(right)
    ensures s == left + (core + (right + [s[|s| - 1]])) && Blank(right + [s[|s| - 1]])
  {
  }

  lemma {:induction false} StripExact(s: string, left: string, core: string, right: string)
    requires s == left + (core + right) && Blank(left) && Blank(right) && Trimmed(core)
    ensures Strip(s) == core
    decreases |left| + |right|
  {
    if left != "" {
      assert s[1..] == left[1..] + (core + right);
      StripExact(s[1..], left[1..], core, right);
    } else if core == "" && right != "" {
      assert s[1..] == "" + ("" + right[1..]);
      StripExact(s[1..], "", "", right[1..]);
    } else if right != "" {
      assert s[..|s| - 1] == "" + (core + right[..|right| - 1]);
      StripExact(s[..|s| - 1], "", core, right[..|right| - 1]);
    } else {
      assert s == core;
    }
  }

  lemma {:induction false} WithoutConcat(a: string, b: string, c: char)
    ensures Without(a + b, c) == Without(a, c) + Without(b, c)
  {
    if a == [] {
      assert a + b == b;
    } else {
      assert (a + b)[1..] == a[1..] + b;
      WithoutConcat(a[1..], b, c);
    }
  }

  lemma {:induction false} WithoutOthers(a: string, c: char)
    ensures c !in Without(a, c)
    ensures c !in a ==> Without(a, c) == a
  {
    if a != [] {
      WithoutOthers(a[1..], c);
    }
  }

  /** Without takes away every occurrence of one character and keeps the others in order. */
  lemma {:induction false} WithoutMeans(a: string, c: char, b: string)
    ensures c !in Without(a, c)
    ensures c !in a ==> Without(a, c) == a
    ensures Without(a + ([c] + b), c) == Without(a + b, c)
  {
    WithoutOthers(a, c);
    WithoutConcat(a, [c] + b, c);
    WithoutConcat([c], b, c);
    WithoutConcat(a, b, c);
    assert Without([c], c) == [];
  }

  // ----- int()

  predicate SignMark(mark: string) {
    mark == "" || mark == "-" || mark == "+"
  }

  /** The value of digits with single underscores between them */
  function Numeral(s: string): Option<nat> {
    if s == [] || !IsDigit(s[|s| - 1]) then None
    else if |s| == 1 then Some(DigitValue(s[0]))
    else
      var high := Numeral(if s[|s| - 2] == '_' then s[..|s| - 2] else s[..|s| - 1]);
      if high.None? then None else Some(10 * high.value + DigitValue(s[|s| - 1]))
  }

  function Negated(n: Option<nat>): Option<int> {
    if n.None? then None else Some(0 - n.value)
  }

  function AsInt(n: Option<nat>): Option<int> {
    if n.None? then None else Some(n.value)
  }

  /** int(s), or None where it raises ValueError; on ASCII text */
  function PyInt(s: string): Option<int> {
    if s == [] then None
    else if IsSpace(s[0]) then PyInt(s[1..])
    else if IsSpace(s[|s| - 1]) then PyInt(s[..|s| - 1])
    else if s[0] == '-' then Negated(Numeral(s[1..]))
    else if s[0] == '+' then AsInt(Numeral(s[1..]))
    else AsInt(Numeral(s))
  }

  lemma {:induction false} NumeralDigits(s: string)
    requires AllDigits(s) && s != []
    ensures Numeral(s) == Some(ToNat(s))
  {
    if |s| == 1 {
      assert s[..0] == [];
    } else {
      NumeralDigits(s[..|s| - 1]);
    }
  }

  lemma PyIntDigits(s: string)
    requires AllDigits(s) && s != []
    ensures PyInt(s) == Some(ToNat(s))
  {
    NumeralDigits(s);
  }

  /** Digits, with at most single underscores, and those between digits */
  predicate Grouped(s: string) {
    && s != "" && IsDigit(s[0]) && IsDigit(s[|s| - 1])
    && (forall i :: 0 <= i < |s| ==> IsDigit(s[i]) || s[i] == '_')
    && (forall i, j :: 0 <= i < |s| && j == i + 1 && j < |s| ==> s[i] != '_' || s[j] != '_')
  }

  lemma {:induction false} GroupedDigits(s: string)
    requires Grouped(s)
    ensures AllDigits(Without(s, '_'))
  {
    OnlyDigitsLeft(s);
  }

  lemma {:induction false} OnlyDigitsLeft(s: string)
    requires forall i :: 0 <= i < |s| ==> IsDigit(s[i]) || s[i] == '_'
    ensures AllDigits(Without(s, '_'))
  {
    if s != [] {
      OnlyDigitsLeft(s[1..]);
    }
  }

  /** Numeral accepts exactly grouped digits, and ignores the underscores. */
  lemma {:induction false} NumeralGrammar(s: string)
    ensures Numeral(s).Some? <==> Grouped(s)
    ensures Grouped(s) ==> AllDigits(Without(s, '_')) && Numeral(s) == Some(ToNat(Without(s, '_')))
  {
    if s != [] && IsDigit(s[|s| - 1]) {
      if |s| == 1 {
        NumeralDigits(s);
        WithoutOthers(s, '_');
      } else {
        var k := if s[|s| - 2] == '_' then |s| - 2 else |s| - 1;
        NumeralGrammar(s[..k]);
        GroupedPrefix(s, k);
        if Grouped(s) {
          LastDigitJoins(s, k);
        }
      }
    }
  }

  lemma {:induction false} GroupedPrefix(s: string, k: nat)
    requires |s| >= 2 && IsDigit(s[|s| - 1]) && k == if s[|s| - 2] == '_' then |s| - 2 else |s| - 1
    ensures Grouped(s) <==> Grouped(s[..k])
  {
    if Grouped(s) {
      assert IsDigit(s[|s| - 2]) || s[|s| - 2] == '_';
    }
  }

  lemma {:induction false} LastDigitJoins(s: string, k: nat)
    requires |s| >= 2 && k == if s[|s| - 2] == '_' then |s| - 2 else |s| - 1
    requires Grouped(s) && Grouped(s[..k])
    ensures AllDigits(Without(s, '_')) && AllDigits(Without(s[..k], '_'))
    ensures ToNat(Without(s, '_')) == 10 * ToNat(Without(s[..k], '_')) + DigitValue(s[|s| - 1])
  {
    var high, last := s[..k], [s[|s| - 1]];
    GroupedDigits(s);
    GroupedDigits(high);
    WithoutOthers(last, '_');
    if k == |s| - 1 {
      assert s == high + last;
      WithoutConcat(high, last, '_');
    } else {
      assert s == high + (['_'] + last);
      WithoutConcat(high, ['_'] + last, '_');
      WithoutConcat(['_'], last, '_');
      assert Without(['_'], '_') == [];
    }
    var w := Without(high, '_');
    assert (w + last)[..|w + last| - 1] == w;
  }

  lemma {:induction false} PyIntStrips(s: string)
    ensures PyInt(s) == PyInt(Strip(s))
  {
    if s != [] && IsSpace(s[0]) {
      PyIntStrips(s[1..]);
    } else if s != [] && IsSpace(s[|s| - 1]) {
      PyIntStrips(s[..|s| - 1]);
    }
  }

  /** int() accepts exactly an optional sign and grouped digits, among blanks. */
  lemma {:induction false} PyIntGrammar(s: string, n: int)
    ensures PyInt(s) == Some(n) <==> exists mark, body :: Signed(Strip(s), mark, body, n)
  {
    var left, right := BlanksAround(s);
    PyIntStrips(s);
    var t := Strip(s);
    if PyInt(t) == Some(n) {
      var mark, body := SignedOf(t, n);
    }
    forall mark, body | Signed(t, mark, body, n) ensures PyInt(t) == Some(n) {
      SignedInt(t, mark, body, n);
    }
  }

  predicate Signed(t: string, mark: string, body: string, n: int) {
    && SignMark(mark) && Grouped(body) && t == mark + body
    && (GroupedDigits(body);
        n == if mark == "-" then 0 - ToNat(Without(body, '_')) else ToNat(Without(body, '_')))
  }

  lemma {:induction false} SignedInt(t: string, mark: string, body: string, n: int)
    requires Signed(t, mark, body, n)
    ensures PyInt(t) == Some(n)
  {
    NumeralGrammar(body);
    MarkedInt(t, mark, body);
  }

  lemma {:induction false} MarkedInt(t: string, mark: string, body: string)
    requires SignMark(mark) && t == mark + body && body != "" && IsDigit(body[0]) && IsDigit(body[|body| - 1])
    ensures PyInt(t) == if mark == "-" then Negated(Numeral(body)) else AsInt(Numeral(body))
  {
    assert t[|t| - 1] == body[|body| - 1];
    TrimmedInt(t, if mark == "" then t else t[1..]);
    if mark == "" {
      assert t == body;
    } else {
      assert t[1..] == body;
    }
  }

  lemma {:induction false} TrimmedInt(t: string, body: string)
    requires t != "" && !IsSpace(t[0]) && !IsSpace(t[|t| - 1])
    requires body == if t[0] == '-' || t[0] == '+' then t[1..] else t
    ensures PyInt(t) == if t[0] == '-' then Negated(Numeral(body)) else AsInt(Numeral(body))
  {
  }

  lemma {:induction false} SignedOf(t: string, n: int) returns (mark: string, body: string)
    requires Trimmed(t) && PyInt(t) == Some(n)
    ensures Signed(t, mark, body, n)
  {
    if t[0] == '-' || t[0] == '+' {
      mark, body := t[..1], t[1..];
    } else {
      mark, body := "", t;
    }
    assert t == mark + body;
    NumeralGrammar(body);
  }

  /** s.find(c), or -1 */
  function Find(s: string, c: char): (i: int)
    ensures -1 <= i < |s|
    ensures i >= 0 ==> s[i] == c && c !in s[..i]
    ensures i < 0 ==> c !in s
  {
    if s == [] then -1
    else if s[|s| - 1] == c && Find(s[..|s| - 1], c) < 0 then |s| - 1
    else
      var i := Find(s[..|s| - 1], c);
      assert s == s[..|s| - 1] + [s[|s| - 1]];
      assert i >= 0 ==> s[..|s| - 1][..i] == s[..i];
      i
  }

  /** s[i:j], clipped as Python clips it */
  function Slice(s: string, i: nat, j: nat): string {
    var hi := if j < |s| then j else |s|;
    if i < hi then s[i..hi] else []
  }
}
