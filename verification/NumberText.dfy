/**
 * The text of a finite number, as Number::toString of section 6.1.6.1.20 of ECMA-262 defines it. A
 * number other than zero is told by its sign, its shortest decimal digits, and where the point
 * stands: 0.digits times ten to the power of point. Negative zero has the text of zero.
 */
module NumberText {
  import D = Decimal

  datatype Number = Zero | Digits(negative: bool, digits: string, point: int)

  predicate Proper(n: Number) {
    n.Digits? ==> ProperDigits(n.digits)
  }

  /** Shortest: neither the first nor the last digit is zero. */
  predicate ProperDigits(d: string) {
    d != "" && D.AllDigits(d) && d[0] != '0' && d[|d| - 1] != '0'
  }

  type Finite = n: Number | Proper(n) witness Zero

  function Zeros(k: nat): (z: string)
    ensures |z| == k && forall i :: 0 <= i < k ==> z[i] == '0'
  {
    if k == 0 then "" else "0" + Zeros(k - 1)
  }

  function Text(n: Finite): string {
    if n.Zero? then "0" else if n.negative then "-" + Magnitude(n.digits, n.point) else Magnitude(n.digits, n.point)
  }

  datatype Layout = Whole | Split | Small | Scientific

  function LayoutOf(d: string, point: int): Layout {
    if |d| <= point <= 21 then Whole
    else if 0 < point <= 21 then Split
    else if -6 < point <= 0 then Small
    else Scientific
  }

  function Magnitude(d: string, point: int): string
    requires ProperDigits(d)
  {
    match LayoutOf(d, point)
    case Whole => d + Zeros(point - |d|)
    case Split => d[..point] + ['.'] + d[point..]
    case Small => "0." + Zeros(-point) + d
    case Scientific => Mantissa(d) + ['e'] + Exponent(point - 1)
  }

  function Mantissa(d: string): string
    requires d != ""
  {
    if |d| == 1 then d else d[..1] + ['.'] + d[1..]
  }

  function Exponent(e: int): string {
    if e < 0 then "-" + D.Print(-e) else "+" + D.Print(e)
  }

  // ----- the text determines the number -----

  /** What a number's text is made of. */
  predicate IsNumberChar(c: char) {
    D.IsDigit(c) || c == '.' || c == 'e' || c == '-' || c == '+'
  }

  predicate NumberChars(x: string) {
    forall i :: 0 <= i < |x| ==> IsNumberChar(x[i])
  }

  lemma JoinedChars(x: string, y: string)
    requires NumberChars(x) && NumberChars(y)
    ensures NumberChars(x + y)
  {
  }

  lemma DigitChars(d: string)
    requires D.AllDigits(d)
    ensures NumberChars(d)
  {
  }

  lemma ExponentChars(e: int)
    ensures NumberChars(Exponent(e))
  {
    DigitChars(D.Print(if e < 0 then -e else e));
  }

  lemma MagnitudeChars(d: string, point: int)
    requires ProperDigits(d)
    ensures NumberChars(Magnitude(d, point))
  {
    hide NumberChars, Exponent;
    DigitChars(d);
    assert NumberChars(".") && NumberChars("e") && NumberChars("0.") by { SomeChars(); }
    match LayoutOf(d, point)
    case Whole =>
      DigitChars(Zeros(point - |d|));
      JoinedChars(d, Zeros(point - |d|));
    case Split =>
      DigitChars(d[..point]);
      DigitChars(d[point..]);
      JoinedChars(d[..point], ".");
      JoinedChars(d[..point] + ".", d[point..]);
    case Small =>
      DigitChars(Zeros(-point));
      JoinedChars("0.", Zeros(-point));
      JoinedChars("0." + Zeros(-point), d);
    case Scientific =>
      DigitChars(d[..1]);
      DigitChars(d[1..]);
      JoinedChars(d[..1], ".");
      JoinedChars(d[..1] + ".", d[1..]);
      ExponentChars(point - 1);
      JoinedChars(Mantissa(d), "e");
      JoinedChars(Mantissa(d) + "e", Exponent(point - 1));
  }

  lemma SomeChars()
    ensures NumberChars(".") && NumberChars("e") && NumberChars("0.") && NumberChars("-") && NumberChars("0")
  {
  }

  lemma TextChars(n: Finite)
    ensures var x := Text(n);
      && x != "" && (x[0] == '-' || D.IsDigit(x[0])) && (x[0] == '-' <==> n.Digits? && n.negative)
      && NumberChars(x)
  {
    hide Magnitude, NumberChars;
    SomeChars();
    if n.Digits? {
      LayoutShows(n.digits, n.point);
      MagnitudeChars(n.digits, n.point);
      JoinedChars("-", Magnitude(n.digits, n.point));
      assert n.negative ==> Text(n)[0] == '-';
    }
  }

  lemma NotShorter(a: string, b: string, x: string, y: string, c: char)
    requires c !in b && a + [c] + x == b + [c] + y
    ensures |a| >= |b|
  {
    assert (a + [c] + x)[|a|] == c;
  }

  lemma CutAt(a: string, b: string, x: string, y: string, c: char)
    requires c !in a && c !in b && a + [c] + x == b + [c] + y
    ensures a == b && x == y
  {
    var p, q := a + [c] + x, b + [c] + y;
    NotShorter(a, b, x, y, c);
    NotShorter(b, a, y, x, c);
    assert p[..|a|] == a && q[..|b|] == b && p[|a| + 1..] == x && q[|b| + 1..] == y;
  }

  lemma LayoutShows(d: string, point: int)
    requires ProperDigits(d)
    ensures var x := Magnitude(d, point);
      && x != ""
      && (LayoutOf(d, point).Scientific? <==> 'e' in x)
      && (LayoutOf(d, point).Whole? <==> 'e' !in x && '.' !in x)
      && (LayoutOf(d, point).Small? <==> x[0] == '0')
      && x != "0" && D.IsDigit(x[0])
  {
    var x := Magnitude(d, point);
    match LayoutOf(d, point)
    case Whole =>
    case Split => assert x[point] == '.';
    case Small => assert x[1] == '.';
    case Scientific => assert x[|Mantissa(d)|] == 'e';
  }

  /** An exponent is used from 10^21 on and below 10^-6, a fraction when there are digits after the point. */
  lemma LayoutByPoint(n: Finite)
    requires n.Digits?
    ensures 'e' in Text(n) <==> n.point > 21 || n.point <= -6
    ensures 'e' !in Text(n) ==> ('.' in Text(n) <==> n.point < |n.digits|)
  {
    hide Magnitude;
    LayoutShows(n.digits, n.point);
    var x := Magnitude(n.digits, n.point);
    assert forall c :: c != '-' ==> (c in "-" + x <==> c in x);
  }

  lemma SameLayout(d: string, e: string, p: int, q: int)
    requires ProperDigits(d) && ProperDigits(e) && Magnitude(d, p) == Magnitude(e, q)
    ensures LayoutOf(d, p) == LayoutOf(e, q)
  {
    hide Magnitude, ProperDigits, LayoutOf;
    LayoutShows(d, p);
    LayoutShows(e, q);
  }

  lemma MagnitudeInjective(d: string, e: string, p: int, q: int)
    requires ProperDigits(d) && ProperDigits(e) && Magnitude(d, p) == Magnitude(e, q)
    ensures d == e && p == q
  {
    hide ProperDigits, Magnitude, LayoutOf;
    SameLayout(d, e, p, q);
    match LayoutOf(d, p)
    case Whole => WholeInjective(d, e, p, q);
    case Split => SplitInjective(d, e, p, q);
    case Small => SmallInjective(d, e, p, q);
    case Scientific => ScientificInjective(d, e, p, q);
  }

  /** Two numbers of one layout with the same text. */
  predicate SameText(d: string, e: string, p: int, q: int, layout: Layout) {
    && ProperDigits(d) && ProperDigits(e)
    && LayoutOf(d, p) == LayoutOf(e, q) == layout && Magnitude(d, p) == Magnitude(e, q)
  }

  lemma SplitInjective(d: string, e: string, p: int, q: int)
    requires SameText(d, e, p, q, Split)
    ensures d == e && p == q
  {
    hide Mantissa, Exponent, Zeros;
    CutAt(d[..p], e[..q], d[p..], e[q..], '.');
    assert d == d[..p] + d[p..] && e == e[..q] + e[q..];
  }

  lemma ScientificInjective(d: string, e: string, p: int, q: int)
    requires SameText(d, e, p, q, Scientific)
    ensures d == e && p == q
  {
    hide Exponent, Zeros;
    CutAt(Mantissa(d), Mantissa(e), Exponent(p - 1), Exponent(q - 1), 'e');
    MantissaInjective(d, e);
    ExponentInjective(p - 1, q - 1);
  }

  lemma WholeInjective(d: string, e: string, p: int, q: int)
    requires SameText(d, e, p, q, Whole)
    ensures d == e && p == q
  {
    hide Mantissa, Exponent;
    var x, y := d + Zeros(p - |d|), e + Zeros(q - |e|);
    assert |x| == p && |y| == q;
    assert x[|d| - 1] == d[|d| - 1] && y[|e| - 1] == e[|e| - 1];
    assert x[..|d|] == d && y[..|e|] == e;
  }

  lemma SmallInjective(d: string, e: string, p: int, q: int)
    requires SameText(d, e, p, q, Small)
    ensures d == e && p == q
  {
    hide Mantissa, Exponent;
    var x, y := "0." + Zeros(-p) + d, "0." + Zeros(-q) + e;
    assert x[2 - p] == d[0] && y[2 - q] == e[0];
    assert x[2 - p..] == d && y[2 - q..] == e;
  }

  lemma MantissaInjective(d: string, e: string)
    requires d != "" && e != "" && Mantissa(d) == Mantissa(e)
    ensures d == e
  {
    var x, y := Mantissa(d), Mantissa(e);
    assert |x| == (if |d| == 1 then 1 else |d| + 1) && |y| == (if |e| == 1 then 1 else |e| + 1);
    assert d[0] == x[0] && e[0] == y[0];
    if |d| > 1 {
      assert x[2..] == d[1..] && y[2..] == e[1..];
      assert d == [d[0]] + d[1..] && e == [e[0]] + e[1..];
    }
  }

  lemma ExponentInjective(a: int, b: int)
    requires Exponent(a) == Exponent(b)
    ensures a == b
  {
    var x, y := Exponent(a), Exponent(b);
    assert x[0] == y[0];
    assert x[1..] == D.Print(if a < 0 then -a else a) && y[1..] == D.Print(if b < 0 then -b else b);
    D.PrintInjective(if a < 0 then -a else a, if b < 0 then -b else b);
  }

  /** Different finite numbers have different texts. */
  lemma TextInjective(m: Finite, n: Finite)
    requires Text(m) == Text(n)
    ensures m == n
  {
    hide Magnitude;
    TextChars(m);
    TextChars(n);
    if m.Digits? {
      LayoutShows(m.digits, m.point);
    }
    if n.Digits? {
      LayoutShows(n.digits, n.point);
    }
    if m.Digits? && n.Digits? {
      var x, y := Magnitude(m.digits, m.point), Magnitude(n.digits, n.point);
      assert x == y by {
        assert m.negative ==> Text(m)[1..] == x && Text(n)[1..] == y;
      }
      MagnitudeInjective(m.digits, n.digits, m.point, n.point);
    }
  }
}
