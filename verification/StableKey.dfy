/**
 * stableKey: a 32-bit FNV-1a-style fold over a text (section 2 of draft-eastlake-fnv, taken here
 * over 16-bit code units), printed in hexadecimal. A 32-bit number is its value modulo 2^32.
 */
module StableKey {
  const WORD := 0x1_0000_0000
  const OFFSET := 2166136261

  /** charCodeAt(0) of one code point: itself, or its high surrogate. */
  function Unit(c: char): (u: nat)
    ensures u < 0x1_0000
  {
    var code := c as int;
    if code >= 0x1_0000 then 0xD800 + (code - 0x1_0000) / 0x400 else code
  }

  /** Exclusive or of the lowest bits of two numbers. */
  function Xor(a: nat, b: nat, bits: nat): nat {
    if bits == 0 then 0 else (a % 2 + b % 2) % 2 + 2 * Xor(a / 2, b / 2, bits - 1)
  }

  /** Math.imul(hash ^ unit, 16777619) */
  function Mix(hash: nat, unit: nat): (h: nat)
    ensures h < WORD
  {
    Times(Xor(hash, unit, 32))
  }

  function Times(a: nat): (h: nat)
    ensures h < WORD
  {
    (a * 16777619) % WORD
  }

  function Fold(hash: nat, text: string): nat {
    if text == "" then hash else Mix(Fold(hash, text[..|text| - 1]), Unit(text[|text| - 1]))
  }

  /** toString(16) */
  function Hex(n: nat): (s: string)
    ensures s != ""
  {
    var last := ["0123456789abcdef"[n % 16]];
    if n < 16 then last else Hex(n / 16) + last
  }

  method ComputeStableKey(text: string) returns (key: string)
    ensures key == Key(text)
  {
    var hash: nat := OFFSET;
    for i := 0 to |text|
      invariant hash == Fold(OFFSET, text[..i])
    {
      assert text[..i + 1][..i] == text[..i];
      hash := Mix(hash, Unit(text[i]));
    }
    assert text[..|text|] == text;
    key := Hex(hash);
  }

  function Key(text: string): string {
    Hex(Fold(OFFSET, text))
  }

  // ----- each step is a bijection -----

  function Limit(bits: nat): nat {
    if bits == 0 then 1 else 2 * Limit(bits - 1)
  }

  lemma XorStep(a: nat, b: nat, bits: nat, r: nat)
    requires bits > 0 && r == Xor(a / 2, b / 2, bits - 1)
    ensures var x := Xor(a, b, bits); x / 2 == r && x % 2 == (a % 2 + b % 2) % 2
    ensures Limit(bits) == 2 * Limit(bits - 1)
  {
  }

  lemma NoBits(a: nat, b: nat)
    ensures Limit(0) == 1 && Xor(a, b, 0) == 0 && Xor(0, a, 0) == Xor(0, b, 0) == 0
  {
  }

  lemma SameNumber(x: nat, a: nat)
    requires x / 2 == a / 2 && x % 2 == a % 2
    ensures x == a
  {
  }

  lemma {:induction false} XorTwice(a: nat, b: nat, bits: nat)
    requires a < Limit(bits) && b < Limit(bits)
    ensures Xor(a, b, bits) < Limit(bits)
    ensures Xor(Xor(a, b, bits), b, bits) == a
    ensures Xor(Xor(a, b, bits), a, bits) == b
  {
    hide Xor, Limit;
    if bits == 0 {
      NoBits(a, b);
    } else {
      XorStep(a, b, bits, Xor(a / 2, b / 2, bits - 1));
      XorTwice(a / 2, b / 2, bits - 1);
      var r := Xor(a / 2, b / 2, bits - 1);
      var x := Xor(a, b, bits);
      XorStep(x, b, bits, Xor(r, b / 2, bits - 1));
      XorStep(x, a, bits, Xor(r, a / 2, bits - 1));
      SameNumber(Xor(x, b, bits), a);
      SameNumber(Xor(x, a, bits), b);
    }
  }

  /** 899433627 is the inverse of the multiplier modulo 2^32. */
  lemma TimesInverse(a: nat)
    requires a < WORD
    ensures (Times(a) * 899433627) % WORD == a
  {
    var q := (a * 16777619) / WORD;
    assert Times(a) == a * 16777619 - q * WORD;
    assert 16777619 * 899433627 == 3513497 * WORD + 1;
    Distribute(a, q);
    WholeWords(a, a * 3513497 - q * 899433627);
  }

  lemma Distribute(a: int, q: int)
    ensures (a * 16777619 - q * WORD) * 899433627 == a + WORD * (a * 3513497 - q * 899433627)
  {
  }

  lemma WholeWords(a: int, k: int)
    requires 0 <= a < WORD
    ensures (a + WORD * k) % WORD == a
  {
  }

  lemma WordLimit()
    ensures Limit(32) == WORD
  {
    LimitStep(28);
    LimitStep(24);
    LimitStep(20);
    LimitStep(16);
    LimitStep(12);
    LimitStep(8);
    LimitStep(4);
    LimitStep(0);
  }

  lemma LimitStep(n: nat)
    ensures Limit(n + 4) == 16 * Limit(n)
  {
    assert Limit(n + 4) == 2 * Limit(n + 3) && Limit(n + 3) == 2 * Limit(n + 2);
    assert Limit(n + 2) == 2 * Limit(n + 1) && Limit(n + 1) == 2 * Limit(n);
  }

  /** The exclusive or and the product by an odd constant lose nothing, of the state or of the unit. */
  lemma MixInjective(h: nat, g: nat, u: nat, v: nat)
    requires h < WORD && g < WORD && u < WORD && v < WORD
    ensures Mix(h, u) == Mix(g, u) <==> h == g
    ensures Mix(h, u) == Mix(h, v) <==> u == v
  {
    hide Times, Limit, Xor;
    WordLimit();
    XorTwice(h, u, 32);
    XorTwice(g, u, 32);
    XorTwice(h, v, 32);
    TimesInverse(Xor(h, u, 32));
    TimesInverse(Xor(g, u, 32));
    TimesInverse(Xor(h, v, 32));
  }

  lemma FoldInWord(hash: nat, text: string)
    requires hash < WORD
    ensures Fold(hash, text) < WORD
  {
    hide Times, Xor;
  }

  /** The same text after two different states leaves two different states. */
  lemma {:induction false} FoldInjective(h: nat, g: nat, text: string)
    requires h < WORD && g < WORD
    ensures Fold(h, text) == Fold(g, text) <==> h == g
  {
    hide Mix, Unit;
    if text == "" {
    } else {
      var n := |text| - 1;
      FoldInjective(h, g, text[..n]);
      FoldInWord(h, text[..n]);
      FoldInWord(g, text[..n]);
      MixInjective(Fold(h, text[..n]), Fold(g, text[..n]), Unit(text[n]), Unit(text[n]));
    }
  }

  lemma {:induction false} FoldConcat(h: nat, a: string, b: string)
    ensures Fold(h, a + b) == Fold(Fold(h, a), b)
  {
    hide Mix, Unit;
    if b == "" {
      assert a + b == a;
    } else {
      var n := |b| - 1;
      FoldConcat(h, a, b[..n]);
      assert (a + b)[..|a + b| - 1] == a + b[..n];
      assert (a + b)[|a + b| - 1] == b[n];
    }
  }

  // ----- printing loses nothing -----

  lemma HexDigits(m: int, n: int)
    requires 0 <= m < 16 && 0 <= n < 16 && "0123456789abcdef"[m] == "0123456789abcdef"[n]
    ensures m == n
  {
  }

  lemma {:induction false} HexInjective(m: nat, n: nat)
    ensures Hex(m) == Hex(n) <==> m == n
  {
    if Hex(m) == Hex(n) {
      var s, t := Hex(m), Hex(n);
      assert s[|s| - 1] == "0123456789abcdef"[m % 16] && t[|t| - 1] == "0123456789abcdef"[n % 16];
      HexDigits(m % 16, n % 16);
      if m >= 16 && n >= 16 {
        assert s[..|s| - 1] == Hex(m / 16) && t[..|t| - 1] == Hex(n / 16);
        HexInjective(m / 16, n / 16);
      } else {
        assert |s| == 1 <==> m < 16;
        assert |t| == 1 <==> n < 16;
      }
    }
  }

  // ----- the result -----

  /**
   * Two texts that differ in exactly one place have the same key iff the two characters there have
   * the same first code unit: never within the first plane, but for characters beyond it whenever
   * they share a high surrogate.
   */
  lemma OneDifference(before: string, c: char, d: char, after: string)
    ensures Key(before + [c] + after) == Key(before + [d] + after) <==> Unit(c) == Unit(d)
    ensures c as int < 0x1_0000 && d as int < 0x1_0000 ==> (Unit(c) == Unit(d) <==> c == d)
  {
    hide Mix, Hex;
    var h := Fold(OFFSET, before);
    FoldInWord(OFFSET, before);
    FoldConcat(OFFSET, before + [c], after);
    FoldConcat(OFFSET, before + [d], after);
    FoldConcat(OFFSET, before, [c]);
    FoldConcat(OFFSET, before, [d]);
    FoldOne(h, c);
    FoldOne(h, d);
    FoldInjective(Mix(h, Unit(c)), Mix(h, Unit(d)), after);
    MixInjective(h, h, Unit(c), Unit(d));
    HexInjective(Fold(OFFSET, before + [c] + after), Fold(OFFSET, before + [d] + after));
  }

  lemma FoldOne(h: nat, c: char)
    ensures Fold(h, [c]) == Mix(h, Unit(c))
  {
    assert [c][..0] == [];
  }

  /** U+1F600 and U+1F601 share a high surrogate, so they can stand for each other anywhere. */
  lemma SmileysCollide(before: string, after: string)
    ensures Key(before + ['\U{1F600}'] + after) == Key(before + ['\U{1F601}'] + after)
  {
    hide Key;
    OneDifference(before, '\U{1F600}', '\U{1F601}', after);
  }

  // ----- known values -----

  function HexDigitValue(c: char): nat {
    if '0' <= c <= '9' then c as int - '0' as int
    else if 'a' <= c <= 'f' then c as int - 'a' as int + 10
    else 0
  }

  /** The number that hexadecimal digits denote. */
  function HexNumber(s: string): nat {
    if s == "" then 0 else 16 * HexNumber(s[..|s| - 1]) + HexDigitValue(s[|s| - 1])
  }

  /** The printed state reads back as the state. */
  lemma {:induction false} HexReadsBack(n: nat)
    ensures HexNumber(Hex(n)) == n
    ensures forall i :: 0 <= i < |Hex(n)| ==> '0' <= Hex(n)[i] <= '9' || 'a' <= Hex(n)[i] <= 'f'
    ensures n > 0 ==> Hex(n)[0] != '0'
  {
    hide HexDigitValue;
    DigitReads(n % 16);
    var last := "0123456789abcdef"[n % 16];
    if n < 16 {
      assert Hex(n) == [last] && [last][..0] == "";
      assert HexNumber("") == 0;
    } else {
      HexReadsBack(n / 16);
      var s := Hex(n / 16);
      assert Hex(n) == s + [last] && (s + [last])[..|s|] == s && (s + [last])[|s|] == last;
    }
  }

  lemma DigitReads(d: nat)
    requires d < 16
    ensures var c := "0123456789abcdef"[d];
      HexDigitValue(c) == d && ('0' <= c <= '9' || 'a' <= c <= 'f') && (d > 0 ==> c != '0')
  {
  }

  lemma {:induction false} XorZero(a: nat, bits: nat)
    requires a < Limit(bits)
    ensures Xor(a, 0, bits) == a
  {
    if bits == 0 {
    } else {
      XorZero(a / 2, bits - 1);
    }
  }

  lemma XorOf(a: nat, b: nat, bits: nat)
    requires bits > 0
    ensures Xor(a, b, bits) == (a % 2 + b % 2) % 2 + 2 * Xor(a / 2, b / 2, bits - 1)
  {
  }

  lemma OffsetXorLetter()
    ensures Xor(2166136261, 97, 32) == 2166136228
  {
    hide Xor;
    assert Limit(7) == 128 && Limit(13) == 64 * Limit(7) && Limit(19) == 64 * Limit(13) && Limit(25) == 64 * Limit(19);
    XorZero(16922939, 25);
    XorOf(33845879, 1, 26);
    XorOf(67691758, 3, 27);
    XorOf(135383516, 6, 28);
    XorOf(270767032, 12, 29);
    XorOf(541534065, 24, 30);
    XorOf(1083068130, 48, 31);
    XorOf(2166136261, 97, 32);
  }

  /** The test vectors of 32-bit FNV-1a for the empty text and for "a" (section 6 of draft-eastlake-fnv). */
  lemma KnownKeys()
    ensures HexNumber(Key("")) == 0x811c9dc5
    ensures HexNumber(Key("a")) == 0xe40c292c
  {
    hide Hex, HexNumber, Xor;
    HexReadsBack(Fold(OFFSET, ""));
    HexReadsBack(Fold(OFFSET, "a"));
    assert "a"[..0] == "" && Fold(OFFSET, "a") == Mix(OFFSET, 97);
    OffsetXorLetter();
  }

  /** The unit is the code of the character, or the high surrogate that UTF-16 begins it with. */
  lemma UnitIs(c: char)
    ensures var code := c as int;
      if code < 0x1_0000 then Unit(c) == code
      else (
        && 0xD800 <= Unit(c) <= 0xDBFF
        && 0x1_0000 + 0x400 * (Unit(c) - 0xD800) <= code < 0x1_0000 + 0x400 * (Unit(c) - 0xD800) + 0x400)
  {
  }
}
