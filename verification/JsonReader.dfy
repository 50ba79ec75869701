/**
 * A reader of JSON texts, after sections 2 to 7 of RFC 8259, and what it makes of the texts of
 * stableStringify.
 */
module JsonReader {
  import opened Wrappers
  import opened CanonicalJson
  import opened JsonText
  import opened StableSort
  import D = Decimal
  import N = NumberText
  import T = Text

  /** What is read, and the text after it. */
  type Reading<T> = Option<(T, string)>

  // ----- white space and strings -----

  function SkipSpace(s: string): (t: string)
    ensures |t| <= |s|
  {
    if s != "" && (s[0] == ' ' || s[0] == '\t' || s[0] == '\n' || s[0] == '\r') then SkipSpace(s[1..]) else s
  }

  function HexValue(c: char): Option<nat> {
    if '0' <= c <= '9' then Some(c as int - '0' as int)
    else if 'a' <= c <= 'f' then Some(c as int - 'a' as int + 10)
    else if 'A' <= c <= 'F' then Some(c as int - 'A' as int + 10)
    else None
  }

  /** Four hexadecimal digits. */
  function ReadHex(s: string): (r: Option<nat>)
    ensures r.Some? ==> |s| >= 4 && r.value < 0x1_0000
  {
    if |s| < 4 then None
    else
      var a, b, c, d := HexValue(s[0]), HexValue(s[1]), HexValue(s[2]), HexValue(s[3]);
      if a.None? || b.None? || c.None? || d.None? then None
      else Some(0x1000 * a.value + 0x100 * b.value + 0x10 * c.value + d.value)
  }

  /** The character after a backslash; a surrogate pair takes two escapes, and a lone surrogate is refused. */
  function ReadEscape(s: string): (r: Reading<char>)
    ensures r.Some? ==> |r.value.1| < |s|
  {
    if s == "" then None
    else if s[0] == '"' || s[0] == '\\' || s[0] == '/' then Some((s[0], s[1..]))
    else if s[0] == 'b' then Some(('\U{8}', s[1..]))
    else if s[0] == 'f' then Some(('\U{C}', s[1..]))
    else if s[0] == 'n' then Some(('\n', s[1..]))
    else if s[0] == 'r' then Some(('\r', s[1..]))
    else if s[0] == 't' then Some(('\t', s[1..]))
    else if s[0] != 'u' then None
    else
      var unit := ReadHex(s[1..]);
      if unit.None? then None
      else if unit.value < 0xD800 || unit.value > 0xDFFF then Some((unit.value as char, s[5..]))
      else ReadLow(unit.value, s[5..])
  }

  function ReadLow(high: nat, s: string): (r: Reading<char>)
    requires high >= 0xD800
    ensures r.Some? ==> |r.value.1| < |s|
  {
    if high > 0xDBFF || |s| < 6 || s[0] != '\\' || s[1] != 'u' then None
    else
      var low := ReadHex(s[2..]);
      if low.None? || low.value < 0xDC00 || low.value > 0xDFFF then None
      else Some(((0x1_0000 + 0x400 * (high - 0xD800) + (low.value - 0xDC00)) as char, s[6..]))
  }

  /** The characters up to the closing quotation mark. */
  function ReadChars(s: string): (r: Reading<string>)
    ensures r.Some? ==> |r.value.1| < |s|
    decreases |s|
  {
    if s == "" || s[0] < ' ' then None
    else if s[0] == '"' then Some(("", s[1..]))
    else
      var c := if s[0] == '\\' then ReadEscape(s[1..]) else Some((s[0], s[1..]));
      if c.None? then None
      else
        var rest := ReadChars(c.value.1);
        if rest.None? then None else Some(([c.value.0] + rest.value.0, rest.value.1))
  }

  // ----- numbers -----

  function DigitRun(s: string): (n: nat)
    ensures n <= |s| && D.AllDigits(s[..n])
  {
    if s == "" || !D.IsDigit(s[0]) then 0
    else
      var n := DigitRun(s[1..]);
      assert forall i :: 0 < i < n + 1 ==> s[i] == s[1..][..n][i - 1];
      n + 1
  }

  /** 0.digits times ten to the power of point, without superfluous zeros. */
  function Normal(negative: bool, digits: string, point: int): N.Finite
    requires D.AllDigits(digits)
    decreases |digits|
  {
    if digits == "" then N.Zero
    else if digits[0] == '0' then Normal(negative, digits[1..], point - 1)
    else if digits[|digits| - 1] == '0' then Normal(negative, digits[..|digits| - 1], point)
    else N.Digits(negative, digits, point)
  }

  /** [ "." 1*DIGIT ] */
  function ReadFraction(s: string): (r: Reading<string>)
    ensures r.Some? ==> |r.value.1| <= |s| && D.AllDigits(r.value.0)
  {
    if s == "" || s[0] != '.' then Some(("", s))
    else
      var n := DigitRun(s[1..]);
      if n == 0 then None else Some((s[1..][..n], s[1..][n..]))
  }

  /** [ ("e" / "E") [ "-" / "+" ] 1*DIGIT ] */
  function ReadExponent(s: string): (r: Reading<int>)
    ensures r.Some? ==> |r.value.1| <= |s|
  {
    if s == "" || (s[0] != 'e' && s[0] != 'E') then Some((0, s))
    else
      var signed := |s| > 1 && (s[1] == '-' || s[1] == '+');
      var t := if signed then s[2..] else s[1..];
      var n := DigitRun(t);
      var value: int := D.Value(t[..n]);
      if n == 0 then None else Some((if signed && s[1] == '-' then -value else value, t[n..]))
  }

  function ReadNumber(s: string): (r: Reading<N.Finite>)
    ensures r.Some? ==> |r.value.1| < |s|
  {
    var negative := s != "" && s[0] == '-';
    var t := if negative then s[1..] else s;
    var n := DigitRun(t);
    if n == 0 || (n > 1 && t[0] == '0') then None
    else
      var fraction := ReadFraction(t[n..]);
      if fraction.None? then None
      else
        var exponent := ReadExponent(fraction.value.1);
        if exponent.None? then None
        else Some((Normal(negative, t[..n] + fraction.value.0, n + exponent.value.0), exponent.value.1))
  }

  // ----- values -----

  function ReadWord(word: string, v: Json, s: string): (r: Reading<Json>)
    requires word != ""
    ensures r.Some? ==> |r.value.1| < |s|
  {
    if word <= s then Some((v, s[|word|..])) else None
  }

  function ReadValue(s: string): (r: Reading<Json>)
    ensures r.Some? ==> |r.value.1| < |s|
    decreases |s|, 1
  {
    var t := SkipSpace(s);
    if t == "" then None
    else if t[0] == 'n' then ReadWord("null", Null, t)
    else if t[0] == 't' then ReadWord("true", Bool(true), t)
    else if t[0] == 'f' then ReadWord("false", Bool(false), t)
    else if t[0] == '"' then
      var r := ReadChars(t[1..]);
      if r.None? then None else Some((Str(r.value.0), r.value.1))
    else if t[0] == '[' then
      var u := SkipSpace(t[1..]);
      if u != "" && u[0] == ']' then Some((Arr([]), u[1..]))
      else
        var r := ReadItems(u);
        if r.None? then None else Some((Arr(r.value.0), r.value.1))
    else if t[0] == '{' then
      var u := SkipSpace(t[1..]);
      if u != "" && u[0] == '}' then Some((Obj([]), u[1..]))
      else
        var r := ReadMembers(u);
        if r.None? then None else Some((Obj(r.value.0), r.value.1))
    else
      var r := ReadNumber(t);
      if r.None? then None else Some((Num(r.value.0), r.value.1))
  }

  /** Values with commas between them, and the closing bracket. */
  function ReadItems(s: string): (r: Reading<seq<Json>>)
    ensures r.Some? ==> |r.value.1| < |s|
    decreases |s|, 2
  {
    var first := ReadValue(s);
    if first.None? then None
    else
      var t := SkipSpace(first.value.1);
      if t == "" then None
      else if t[0] == ']' then Some(([first.value.0], t[1..]))
      else if t[0] != ',' then None
      else
        var rest := ReadItems(t[1..]);
        if rest.None? then None else Some(([first.value.0] + rest.value.0, rest.value.1))
  }

  /** A name, a colon and a value. */
  function ReadMember(s: string): (r: Reading<Entry>)
    ensures r.Some? ==> |r.value.1| < |s|
    decreases |s|, 2
  {
    var t := SkipSpace(s);
    if t == "" || t[0] != '"' then None
    else
      var key := ReadChars(t[1..]);
      if key.None? then None
      else
        var u := SkipSpace(key.value.1);
        if u == "" || u[0] != ':' then None
        else
          var v := ReadValue(u[1..]);
          if v.None? then None else Some((Entry(key.value.0, v.value.0), v.value.1))
  }

  function ReadMembers(s: string): (r: Reading<seq<Entry>>)
    ensures r.Some? ==> |r.value.1| < |s|
    decreases |s|, 3
  {
    var first := ReadMember(s);
    if first.None? then None
    else
      var t := SkipSpace(first.value.1);
      if t == "" then None
      else if t[0] == '}' then Some(([first.value.0], t[1..]))
      else if t[0] != ',' then None
      else
        var rest := ReadMembers(t[1..]);
        if rest.None? then None else Some(([first.value.0] + rest.value.0, rest.value.1))
  }

  /** A whole text: one value, and white space around it. */
  function Read(s: string): Option<Json> {
    var r := ReadValue(s);
    if r.Some? && SkipSpace(r.value.1) == "" then Some(r.value.0) else None
  }

  // ----- strings read back -----

  lemma HexReads(n: nat)
    requires n < 16
    ensures HexValue(HexDigit(n)) == Some(n)
  {
  }

  /** What was written for one character is read as that character. */
  lemma CharReads(c: char, s: string)
    requires c != '"'
    ensures var e := EscapeChar(c) + s;
      e[0] >= ' ' && e[0] != '"'
      && (if e[0] == '\\' then ReadEscape(e[1..]) else Some((e[0], e[1..]))) == Some((c, s))
  {
    if c >= ' ' && c != '\\' {
      Cut([c], s);
    } else if |EscapeChar(c)| == 2 {
      ShortReads(c, s);
    } else {
      ControlReads(c, s);
    }
  }

  /** A backslash and a letter. */
  lemma ShortReads(c: char, s: string)
    requires c != '"' && |EscapeChar(c)| == 2
    ensures var e := EscapeChar(c) + s; e[0] == '\\' && ReadEscape(e[1..]) == Some((c, s))
  {
    var x := EscapeChar(c)[1];
    assert EscapeChar(c) == ['\\'] + [x];
    assert (EscapeChar(c) + s)[1..] == [x] + s;
    Cut([x], s);
  }

  lemma ControlReads(c: char, s: string)
    requires c < ' ' && |EscapeChar(c)| == 6
    ensures var e := EscapeChar(c) + s; e[0] == '\\' && ReadEscape(e[1..]) == Some((c, s))
  {
    var high, low := c as int / 16, c as int % 16;
    var digits := "00" + [HexDigit(high), HexDigit(low)];
    assert EscapeChar(c) == "\\" + ("u" + digits);
    hide EscapeChar, ReadEscape, ReadHex, HexDigit;
    Regroup("\\", "u" + digits, s);
    Regroup("u", digits, s);
    Cut("\\", "u" + (digits + s));
    ControlHex(high, low, s);
    UnicodeReads(digits, c as int, s);
  }

  lemma UnicodeReads(digits: string, n: nat, s: string)
    requires |digits| == 4 && n < 0xD800 && ReadHex(digits + s) == Some(n)
    ensures ReadEscape("u" + (digits + s)) == Some((n as char, s))
  {
    hide ReadHex;
    Cut("u", digits + s);
    Cut(digits, s);
    var t := "u" + (digits + s);
    assert t[5..] == t[1..][4..];
  }

  lemma ControlHex(high: nat, low: nat, s: string)
    requires high < 2 && low < 16
    ensures ReadHex("00" + [HexDigit(high), HexDigit(low)] + s) == Some(16 * high + low)
  {
    var t := "00" + [HexDigit(high), HexDigit(low)] + s;
    assert t[0] == '0' && t[1] == '0' && t[2] == HexDigit(high) && t[3] == HexDigit(low);
    HexReads(high);
    HexReads(low);
  }

  lemma {:induction false} CharsRead(a: string, s: string)
    ensures ReadChars(PrintChars(a, s)) == Some((a, s))
    decreases |a|
  {
    if a == "" {
      assert PrintChars(a, s)[1..] == s;
    } else {
      CharsRead(a[1..], s);
      NextChar(a[0], PrintChars(a[1..], s), a[1..], s);
      assert [a[0]] + a[1..] == a;
    }
  }

  lemma NextChar(c: char, p: string, a: string, s: string)
    requires ReadChars(p) == Some((a, s))
    ensures ReadChars(EscapeChar(c) + p) == Some(([c] + a, s))
  {
    hide EscapeChar, ReadEscape;
    if c == '"' {
      QuoteReads(p);
    } else {
      CharReads(c, p);
    }
  }

  lemma QuoteReads(p: string)
    requires ReadChars(p).Some?
    ensures ReadChars(EscapeChar('"') + p) == Some((['"'] + ReadChars(p).value.0, ReadChars(p).value.1))
  {
    var e := EscapeChar('"') + p;
    assert e[0] == '\\' && e[1] == '"' && e[1..][1..] == p;
    assert ReadEscape(e[1..]) == Some(('"', p));
  }

  // ----- numbers read back -----

  lemma {:induction false} RunOf(x: string, s: string)
    requires D.AllDigits(x) && (s == "" || !D.IsDigit(s[0]))
    ensures DigitRun(x + s) == |x|
  {
    if x == "" {
      assert x + s == s;
    } else {
      assert (x + s)[1..] == x[1..] + s;
      RunOf(x[1..], s);
    }
  }

  lemma {:induction false} NormalSkips(negative: bool, before: nat, d: string, after: nat, point: int)
    requires N.ProperDigits(d)
    ensures D.AllDigits(N.Zeros(before) + d + N.Zeros(after))
    ensures Normal(negative, N.Zeros(before) + d + N.Zeros(after), point + before) == N.Digits(negative, d, point)
    decreases before + after
  {
    hide D.AllDigits, N.Zeros, Normal;
    AllAreDigits(before, d, after);
    var x := N.Zeros(before) + d + N.Zeros(after);
    if before > 0 {
      ZerosAhead(before, d, after);
      NormalSkips(negative, before - 1, d, after, point);
      NormalCutsFirst(negative, x, point + before);
    } else if after > 0 {
      ZerosBehind(d, after);
      NormalSkips(negative, 0, d, after - 1, point);
      NormalCutsLast(negative, x, point);
    } else {
      NoZeros(d);
      NormalKeeps(negative, d, point);
    }
  }

  lemma NormalCutsFirst(negative: bool, x: string, point: int)
    requires D.AllDigits(x) && x != "" && x[0] == '0'
    ensures Normal(negative, x, point) == Normal(negative, x[1..], point - 1)
  {
  }

  lemma NormalCutsLast(negative: bool, x: string, point: int)
    requires D.AllDigits(x) && x != "" && x[0] != '0' && x[|x| - 1] == '0'
    ensures Normal(negative, x, point) == Normal(negative, x[..|x| - 1], point)
  {
  }

  lemma NormalKeeps(negative: bool, d: string, point: int)
    requires N.ProperDigits(d)
    ensures Normal(negative, d, point) == N.Digits(negative, d, point)
  {
  }

  lemma AllAreDigits(before: nat, d: string, after: nat)
    requires D.AllDigits(d)
    ensures D.AllDigits(N.Zeros(before) + d + N.Zeros(after))
  {
  }

  lemma ZerosBehind(d: string, after: nat)
    requires d != "" && after > 0
    ensures var x := N.Zeros(0) + d + N.Zeros(after);
      x[0] == d[0] && x[|x| - 1] == '0' && x[..|x| - 1] == N.Zeros(0) + d + N.Zeros(after - 1)
  {
    ZerosEnd(after);
    assert N.Zeros(0) + d == d;
    assert (d + N.Zeros(after))[..|d| + after - 1] == d + N.Zeros(after)[..after - 1];
  }

  lemma ZerosAhead(before: nat, d: string, after: nat)
    requires before > 0
    ensures var x := N.Zeros(before) + d + N.Zeros(after);
      x[0] == '0' && x[1..] == N.Zeros(before - 1) + d + N.Zeros(after)
  {
    hide D.AllDigits;
    var z, x := N.Zeros(before), N.Zeros(before) + d + N.Zeros(after);
    assert z == "0" + N.Zeros(before - 1);
    Regroup("0", N.Zeros(before - 1), d);
    Regroup("0", N.Zeros(before - 1) + d, N.Zeros(after));
    Cut("0", N.Zeros(before - 1) + d + N.Zeros(after));
  }

  lemma {:induction false} ZerosEnd(k: nat)
    requires k > 0
    ensures N.Zeros(k)[..k - 1] == N.Zeros(k - 1) && N.Zeros(k)[k - 1] == '0'
  {
  }

  /** A numeral in parts: whole digits, a fraction, an exponent. */
  lemma PartsRead(negative: bool, whole: string, fraction: string, exponent: string, e: int, s: string)
    requires D.AllDigits(whole) && whole != "" && (|whole| > 1 ==> whole[0] != '0')
    requires D.AllDigits(fraction) && (exponent == "" ==> e == 0)
    requires exponent != "" ==> exponent == ['e'] + N.Exponent(e)
    requires Stop(s)
    ensures var t := whole + ((if fraction == "" then "" else ['.'] + fraction) + (exponent + s));
      && D.IsDigit(t[0])
      && ReadNumber(if negative then "-" + t else t)
           == Some((Normal(negative, whole + fraction, |whole| + e), s))
  {
    hide Normal, N.Exponent, ReadFraction, ReadExponent, DigitRun;
    var tail := exponent + s;
    var middle := if fraction == "" then "" else ['.'] + fraction;
    ExponentReads(exponent, e, s);
    FractionReads(fraction, tail);
    var t := whole + (middle + tail);
    RunOf(whole, middle + tail);
    Cut(whole, middle + tail);
    assert t[0] == whole[0];
    if negative {
      Cut("-", t);
      assert ("-" + t)[0] == '-';
    }
  }

  lemma Cut(x: string, y: string)
    ensures (x + y)[..|x|] == x && (x + y)[|x|..] == y
  {
  }

  lemma FractionReads(fraction: string, tail: string)
    requires D.AllDigits(fraction) && (tail == "" || tail[0] == 'e' || Stop(tail))
    ensures var middle := if fraction == "" then "" else ['.'] + fraction;
      && ReadFraction(middle + tail) == Some((fraction, tail))
      && (middle + tail == "" || !D.IsDigit((middle + tail)[0]))
  {
    if fraction == "" {
      assert "" + tail == tail;
    } else {
      var p := ['.'] + fraction + tail;
      assert p[1..] == fraction + tail;
      RunOf(fraction, tail);
      assert (fraction + tail)[..|fraction|] == fraction && (fraction + tail)[|fraction|..] == tail;
    }
  }

  lemma ExponentReads(exponent: string, e: int, s: string)
    requires (exponent == "" ==> e == 0) && (exponent != "" ==> exponent == ['e'] + N.Exponent(e)) && Stop(s)
    ensures ReadExponent(exponent + s) == Some((e, s))
    ensures exponent + s == "" || (exponent + s)[0] == 'e' || Stop(exponent + s)
  {
    if exponent == "" {
      assert exponent + s == s;
    } else {
      SignedReads(e, s);
      assert exponent + s == "e" + (N.Exponent(e) + s);
    }
  }

  lemma SignedReads(e: int, s: string)
    requires Stop(s)
    ensures ReadExponent("e" + (N.Exponent(e) + s)) == Some((e, s))
  {
    hide D.Print, D.Value, DigitRun;
    var digits, sign := D.Print(if e < 0 then -e else e), if e < 0 then "-" else "+";
    RunOf(digits, s);
    Cut(digits, s);
    D.ValueOfPrint(if e < 0 then -e else e);
    Regroup(sign, digits, s);
    var p := "e" + (sign + (digits + s));
    assert p[0] == 'e' && p[1] == sign[0] && p[2..] == digits + s;
  }

  lemma Regroup(x: string, y: string, s: string)
    ensures (x + y) + s == x + (y + s)
  {
  }

  lemma NumberReads(n: N.Finite, s: string)
    requires Stop(s)
    ensures ReadNumber(N.Text(n) + s) == Some((n, s))
    ensures N.Text(n)[0] == '-' || D.IsDigit(N.Text(n)[0])
  {
    hide ReadNumber;
    if n.Zero? {
      PartsRead(false, "0", "", "", 0, s);
      assert "0" + ("" + ("" + s)) == "0" + s;
      assert Normal(false, "0" + "", 1) == N.Zero by { assert ("0" + "")[1..] == ""; }
    } else {
      MagnitudeReads(n.negative, n.digits, n.point, s);
      assert ("-" + N.Magnitude(n.digits, n.point)) + s == "-" + (N.Magnitude(n.digits, n.point) + s);
      MagnitudeHead(n.digits, n.point);
    }
  }

  lemma MagnitudeHead(d: string, point: int)
    requires N.ProperDigits(d)
    ensures N.Magnitude(d, point) != "" && D.IsDigit(N.Magnitude(d, point)[0])
  {
    N.LayoutShows(d, point);
  }

  lemma MagnitudeReads(negative: bool, d: string, point: int, s: string)
    requires N.ProperDigits(d) && Stop(s)
    ensures var t := N.Magnitude(d, point) + s;
      ReadNumber(if negative then "-" + t else t) == Some((N.Digits(negative, d, point), s))
  {
    hide ReadNumber, Normal;
    match N.LayoutOf(d, point)
    case Whole => WholeReads(negative, d, point, s);
    case Split => SplitReads(negative, d, point, s);
    case Small => SmallReads(negative, d, point, s);
    case Scientific => ScientificReads(negative, d, point, s);
  }

  lemma NoZeros(d: string)
    ensures N.Zeros(0) + d + N.Zeros(0) == d
  {
  }

  lemma InThree(x: string, y: string, z: string, s: string)
    ensures (x + y) + z + s == x + (y + (z + s))
  {
  }

  lemma WholeReads(negative: bool, d: string, point: int, s: string)
    requires N.ProperDigits(d) && Stop(s) && N.LayoutOf(d, point).Whole?
    ensures var t := N.Magnitude(d, point) + s;
      ReadNumber(if negative then "-" + t else t) == Some((N.Digits(negative, d, point), s))
  {
    hide ReadNumber, Normal;
    var whole := d + N.Zeros(point - |d|);
    NormalSkips(negative, 0, d, point - |d|, point);
    assert N.Zeros(0) + d + N.Zeros(point - |d|) == whole;
    PartsRead(negative, whole, "", "", 0, s);
    assert whole + "" == whole && whole + ("" + ("" + s)) == whole + s;
  }

  lemma SplitReads(negative: bool, d: string, point: int, s: string)
    requires N.ProperDigits(d) && Stop(s) && N.LayoutOf(d, point).Split?
    ensures var t := N.Magnitude(d, point) + s;
      ReadNumber(if negative then "-" + t else t) == Some((N.Digits(negative, d, point), s))
  {
    hide ReadNumber, Normal, N.Magnitude, N.Zeros, N.LayoutOf;
    NormalSkips(negative, 0, d, 0, point);
    NoZeros(d);
    SplitParts(d, point);
    var x, y := d[..point], d[point..];
    PartsRead(negative, x, y, "", 0, s);
    InThree(x, ['.'] + y, "", s);
    NothingAfter(x + (['.'] + y));
  }

  lemma SplitParts(d: string, point: int)
    requires N.ProperDigits(d) && N.LayoutOf(d, point).Split?
    ensures 0 < point < |d| && d[..point] + d[point..] == d && d[0] != '0'
    ensures D.AllDigits(d[..point]) && D.AllDigits(d[point..])
    ensures N.Magnitude(d, point) == d[..point] + (['.'] + d[point..])
  {
    Regroup(d[..point], ['.'], d[point..]);
  }

  lemma NothingAfter(x: string)
    ensures x + "" == x
  {
  }

  lemma SmallReads(negative: bool, d: string, point: int, s: string)
    requires N.ProperDigits(d) && Stop(s) && N.LayoutOf(d, point).Small?
    ensures var t := N.Magnitude(d, point) + s;
      ReadNumber(if negative then "-" + t else t) == Some((N.Digits(negative, d, point), s))
  {
    hide ReadNumber, Normal, N.Magnitude, N.Zeros, N.LayoutOf;
    SmallParts(d, point);
    NormalSkips(negative, 1 - point, d, 0, point);
    var fraction := N.Zeros(-point) + d;
    PartsRead(negative, "0", fraction, "", 0, s);
    InThree("0", ['.'] + fraction, "", s);
    NothingAfter("0" + (['.'] + fraction));
  }

  lemma SmallParts(d: string, point: int)
    requires N.ProperDigits(d) && N.LayoutOf(d, point).Small?
    ensures point <= 0 && var fraction := N.Zeros(-point) + d;
      && fraction != "" && D.AllDigits(fraction) && D.AllDigits("0")
      && N.Zeros(1 - point) + d + N.Zeros(0) == "0" + fraction
      && N.Magnitude(d, point) == "0" + (['.'] + fraction)
  {
    var z := N.Zeros(-point);
    assert N.Zeros(1 - point) == "0" + z;
    Regroup("0", z, d);
    NothingAfter(N.Zeros(1 - point) + d);
    assert "0." + z + d == "0" + (['.'] + (z + d));
  }

  lemma ScientificReads(negative: bool, d: string, point: int, s: string)
    requires N.ProperDigits(d) && Stop(s) && N.LayoutOf(d, point).Scientific?
    ensures var t := N.Magnitude(d, point) + s;
      ReadNumber(if negative then "-" + t else t) == Some((N.Digits(negative, d, point), s))
  {
    hide ReadNumber, Normal, N.Exponent, N.Zeros, N.Magnitude, N.LayoutOf;
    NormalSkips(negative, 0, d, 0, point);
    NoZeros(d);
    ScientificParts(d, point);
    var x, y, exponent := d[..1], d[1..], ['e'] + N.Exponent(point - 1);
    PartsRead(negative, x, y, exponent, point - 1, s);
    InThree(x, if y == "" then "" else ['.'] + y, exponent, s);
  }

  lemma ScientificParts(d: string, point: int)
    requires N.ProperDigits(d) && N.LayoutOf(d, point).Scientific?
    ensures d[..1] + d[1..] == d && D.AllDigits(d[..1]) && D.AllDigits(d[1..])
    ensures N.Magnitude(d, point) ==
      (d[..1] + if d[1..] == "" then "" else ['.'] + d[1..]) + (['e'] + N.Exponent(point - 1))
  {
    hide N.Exponent;
    Regroup(N.Mantissa(d), ['e'], N.Exponent(point - 1));
    if |d| == 1 {
      assert d[..1] == d && d[1..] == "";
      NothingAfter(d);
    } else {
      Regroup(d[..1], ['.'], d[1..]);
    }
  }

  // ----- values read back -----

  lemma {:induction false} SpacesSkip(n: nat, s: string)
    requires s != "" && s[0] > ' '
    ensures SkipSpace(Spaces(n, s)) == s
  {
    if n == 0 {
    } else {
      assert Spaces(n, s)[1..] == Spaces(n - 1, s);
      SpacesSkip(n - 1, s);
    }
  }

  lemma NewLineSkips(depth: nat, s: string)
    requires s != "" && s[0] > ' '
    ensures SkipSpace(NewLine(depth, s)) == s
  {
    assert NewLine(depth, s)[1..] == Spaces(2 * depth, s);
    SpacesSkip(2 * depth, s);
  }

  /** No value begins with white space. */
  lemma NoSpaceAhead(v: Json, depth: nat, rest: string)
    requires Expressible(v)
    ensures var p := Print(v, depth, rest); p != "" && p[0] > ' ' && p[0] != ']' && p[0] != '}'
  {
    hide Print;
    Head(v, depth, rest);
  }

  /** What was printed is read, whatever follows it. */
  lemma {:induction false} ValueReads(v: Json, depth: nat, rest: string)
    requires Expressible(v) && Stop(rest)
    ensures ReadValue(Print(v, depth, rest)) == Some((v, rest))
    decreases v, 1
  {
    var p := Print(v, depth, rest);
    NoSpaceAhead(v, depth, rest);
    assert SkipSpace(p) == p;
    match v
    case Null => assert "null" <= p && p[4..] == rest;
    case Bool(b) => assert (if b then "true" else "false") <= p && p[if b then 4 else 5..] == rest;
    case Num(n) => NumberValue(n, depth, rest);
    case Str(s) =>
      assert p[1..] == PrintChars(s, rest);
      CharsRead(s, rest);
    case Arr(items) => ArrayReads(items, depth, rest);
    case Obj(es) => ObjectReads(es, depth, rest);
  }

  lemma NumberValue(n: N.Finite, depth: nat, rest: string)
    requires Stop(rest)
    ensures ReadValue(Print(Num(n), depth, rest)) == Some((Num(n), rest))
  {
    hide ReadNumber, N.Text;
    NumberReads(n, rest);
    N.TextChars(n);
    var p := N.Text(n) + rest;
    assert p[0] == N.Text(n)[0] && SkipSpace(p) == p;
  }

  lemma {:induction false} ArrayReads(items: seq<Json>, depth: nat, rest: string)
    requires forall i :: 0 <= i < |items| ==> Expressible(items[i])
    ensures ReadValue(Print(Arr(items), depth, rest)) == Some((Arr(items), rest))
    decreases items, 3
  {
    hide NewLine, Items;
    var p := Print(Arr(items), depth, rest);
    if items == [] {
      assert p[1..] == "]" + rest && ("]" + rest)[1..] == rest && SkipSpace("]" + rest) == "]" + rest;
    } else {
      var close := NewLine(depth, "]" + rest);
      assert p[1..] == Items(items, depth, close);
      ItemsRead(items, depth, rest);
      ItemsAhead(items, depth, close);
    }
  }

  lemma ItemsAhead(items: seq<Json>, depth: nat, close: string)
    requires items != [] && forall i :: 0 <= i < |items| ==> Expressible(items[i])
    ensures var s := Items(items, depth, close); var t := SkipSpace(s);
      t != "" && t[0] != ']' && ReadItems(t) == ReadItems(s)
  {
    hide Print, NewLine, ReadValue, SkipSpace;
    var more := if |items| == 1 then close else "," + Items(items[1..], depth, close);
    NoSpaceAhead(items[0], depth + 1, more);
    NewLineSkips(depth + 1, Print(items[0], depth + 1, more));
    SkippedReads(NewLine(depth + 1, Print(items[0], depth + 1, more)));
  }

  /** White space in front of a value makes no difference. */
  lemma SkippedReads(s: string)
    ensures ReadValue(SkipSpace(s)) == ReadValue(s) && ReadMember(SkipSpace(s)) == ReadMember(s)
  {
    SkipTwice(s);
  }

  lemma {:induction false} SkipTwice(s: string)
    ensures SkipSpace(SkipSpace(s)) == SkipSpace(s)
    decreases |s|
  {
    if SkipSpace(s) == s {
    } else {
      SkipTwice(s[1..]);
    }
  }

  lemma {:induction false} ItemsRead(items: seq<Json>, depth: nat, rest: string)
    requires items != [] && forall i :: 0 <= i < |items| ==> Expressible(items[i])
    ensures ReadItems(Items(items, depth, NewLine(depth, "]" + rest))) == Some((items, rest))
    decreases items, 2
  {
    hide Print, NewLine, ReadValue, SkipSpace;
    var close := NewLine(depth, "]" + rest);
    var more := if |items| == 1 then close else "," + Items(items[1..], depth, close);
    CloseStops(depth, "]" + rest);
    ValueReads(items[0], depth + 1, more);
    ItemAhead(items[0], depth, more);
    NewLineSkips(depth, "]" + rest);
    Cut("]", rest);
    if |items| == 1 {
      assert [items[0]] == items;
    } else {
      ItemsRead(items[1..], depth, rest);
      CommaAhead(Items(items[1..], depth, close));
      assert [items[0]] + items[1..] == items;
    }
  }

  lemma ItemAhead(v: Json, depth: nat, more: string)
    requires Expressible(v)
    ensures ReadValue(NewLine(depth + 1, Print(v, depth + 1, more))) == ReadValue(Print(v, depth + 1, more))
  {
    hide Print, NewLine, ReadValue;
    NoSpaceAhead(v, depth + 1, more);
    NewLineSkips(depth + 1, Print(v, depth + 1, more));
    SkippedReads(NewLine(depth + 1, Print(v, depth + 1, more)));
  }

  lemma CommaAhead(s: string)
    ensures SkipSpace("," + s) == "," + s && ("," + s)[1..] == s
  {
  }

  lemma CloseStops(depth: nat, s: string)
    ensures Stop(NewLine(depth, s))
  {
  }

  lemma {:induction false} ObjectReads(es: seq<Entry>, depth: nat, rest: string)
    requires forall i :: 0 <= i < |es| ==> Expressible(es[i].value)
    ensures ReadValue(Print(Obj(es), depth, rest)) == Some((Obj(es), rest))
    decreases es, 3
  {
    hide NewLine, Members;
    var p := Print(Obj(es), depth, rest);
    if es == [] {
      assert p[1..] == "}" + rest && ("}" + rest)[1..] == rest && SkipSpace("}" + rest) == "}" + rest;
    } else {
      var close := NewLine(depth, "}" + rest);
      assert p[1..] == Members(es, depth, close);
      MembersRead(es, depth, rest);
      MembersAhead(es, depth, close);
    }
  }

  lemma MembersAhead(es: seq<Entry>, depth: nat, close: string)
    requires es != [] && forall i :: 0 <= i < |es| ==> Expressible(es[i].value)
    ensures var s := Members(es, depth, close); var t := SkipSpace(s);
      t != "" && t[0] != '}' && ReadMembers(t) == ReadMembers(s)
  {
    hide Print, NewLine, ReadMember;
    var q := Quote(es[0].key, ": " + Print(es[0].value, depth + 1,
      if |es| == 1 then close else "," + Members(es[1..], depth, close)));
    NewLineSkips(depth + 1, q);
    SkippedReads(NewLine(depth + 1, q));
  }

  lemma {:induction false} MembersRead(es: seq<Entry>, depth: nat, rest: string)
    requires es != [] && forall i :: 0 <= i < |es| ==> Expressible(es[i].value)
    ensures ReadMembers(Members(es, depth, NewLine(depth, "}" + rest))) == Some((es, rest))
    decreases es, 2
  {
    hide Print, NewLine, ReadMember, Quote, SkipSpace;
    var close := NewLine(depth, "}" + rest);
    var more := if |es| == 1 then close else "," + Members(es[1..], depth, close);
    CloseStops(depth, "}" + rest);
    MemberReads(es[0], depth, more);
    NewLineSkips(depth, "}" + rest);
    Cut("}", rest);
    if |es| == 1 {
      assert [es[0]] == es;
    } else {
      MembersRead(es[1..], depth, rest);
      CommaAhead(Members(es[1..], depth, close));
      assert [es[0]] + es[1..] == es;
    }
  }

  lemma {:induction false} MemberReads(e: Entry, depth: nat, more: string)
    requires Expressible(e.value) && Stop(more)
    ensures ReadMember(NewLine(depth + 1, Quote(e.key, ": " + Print(e.value, depth + 1, more)))) == Some((e, more))
    decreases e, 1
  {
    hide Print, NewLine, ReadValue, PrintChars, ReadChars;
    var p := Print(e.value, depth + 1, more);
    var q := Quote(e.key, ": " + p);
    NewLineSkips(depth + 1, q);
    assert q[1..] == PrintChars(e.key, ": " + p);
    CharsRead(e.key, ": " + p);
    assert SkipSpace(": " + p) == ": " + p && (": " + p)[1..] == " " + p;
    NoSpaceAhead(e.value, depth + 1, more);
    assert (" " + p)[1..] == p && SkipSpace(" " + p) == p;
    SkippedReads(" " + p);
    ValueReads(e.value, depth + 1, more);
  }

  /** The text of a value is a JSON text, and means that value as far as JSON can express it. */
  lemma TextReads(v: Json, le: Comparator)
    requires v != Undefined
    ensures Read(StableStringify(v, le)) == Some(Strip(SortJson(v, le)))
  {
    hide SortJson, Strip, Print, ReadValue;
    StripIsExpressible(SortJson(v, le));
    ValueReads(Strip(SortJson(v, le)), 0, "");
  }

  // ----- what the text means -----

  /** w is what JSON can say of v: null for what it cannot, no undefined property, names in any order. */
  ghost predicate Means(v: Json, w: Json)
    decreases v, 0
  {
    match v
    case Undefined => w == Null
    case NotFinite => w == Null
    case Arr(items) => w.Arr? && |w.items| == |items| && forall i :: 0 <= i < |items| ==> Means(items[i], w.items[i])
    case Obj(es) =>
      && w.Obj? && UniqueKeys(w.entries)
      && (forall i :: 0 <= i < |es| && es[i].value != Undefined ==> MeantBy(es[i].key, es[i].value, w.entries))
      && (forall j :: 0 <= j < |w.entries| ==> IsDefined(w.entries[j].key, es))
    case _ => w == v
  }

  /** A property of the name that means the value. */
  ghost predicate MeantBy(key: string, v: Json, entries: seq<Entry>)
    decreases v, 1
  {
    exists j :: 0 <= j < |entries| && entries[j].key == key && Means(v, entries[j].value)
  }

  predicate IsDefined(key: string, es: seq<Entry>) {
    exists i :: 0 <= i < |es| && es[i].value != Undefined && es[i].key == key
  }

  lemma {:induction false} StripDefined(es: seq<Entry>)
    requires forall i :: 0 <= i < |es| ==> es[i].value != Undefined
    ensures var s := StripEntries(es);
      |s| == |es| && forall i :: 0 <= i < |s| ==> s[i] == Entry(es[i].key, Strip(es[i].value))
  {
    hide Strip;
    if es == [] {
    } else {
      StripDefined(es[1..]);
    }
  }

  lemma {:induction false} FormMeans(v: Json, le: Comparator)
    requires Valid(v) && TotalPreorder(le)
    ensures Means(v, Strip(SortJson(v, le)))
    decreases v
  {
    match v
    case Arr(items) =>
      forall i | 0 <= i < |items|
        ensures Means(items[i], Strip(SortJson(v, le)).items[i])
      {
        FormMeans(items[i], le);
      }
    case Obj(es) =>
      hide SortJson, Strip, Means;
      forall i | 0 <= i < |es|
        ensures Means(es[i].value, Strip(SortJson(es[i].value, le)))
      {
        FormMeans(es[i].value, le);
      }
      ObjectMeans(es, le);
    case _ =>
  }

  lemma ObjectMeans(es: seq<Entry>, le: Comparator)
    requires Valid(Obj(es)) && TotalPreorder(le)
    requires forall i :: 0 <= i < |es| ==> Means(es[i].value, Strip(SortJson(es[i].value, le)))
    ensures Means(Obj(es), Strip(SortJson(Obj(es), le)))
  {
    hide SortJson, Means;
    ObjectForms(es, le);
    KeepsProperties(es, le);
    Idempotent(Obj(es), le);
    var r := Entries(es, le);
    forall k | 0 <= k < |r|
      ensures r[k].value != Undefined && Comes(r[k], es, le)
    {
      assert r[k] in r;
      var i :| 0 <= i < |es| && es[i].value != Undefined && r[k] == Entry(es[i].key, SortJson(es[i].value, le));
      DefinedStays(es[i].value, le);
    }
    StripDefined(r);
    PropertiesMean(es, r, StripEntries(r), le);
  }

  lemma PropertiesMean(es: seq<Entry>, r: seq<Entry>, s: seq<Entry>, le: Comparator)
    requires (forall x :: x in r <==> Comes(x, es, le)) && UniqueKeys(r)
    requires |s| == |r| && forall k :: 0 <= k < |s| ==> s[k] == Entry(r[k].key, Strip(r[k].value))
    requires forall i :: 0 <= i < |es| ==> Means(es[i].value, Strip(SortJson(es[i].value, le)))
    ensures Means(Obj(es), Obj(s))
  {
    hide SortJson, Strip;
    forall i | 0 <= i < |es| && es[i].value != Undefined
      ensures MeantBy(es[i].key, es[i].value, s)
    {
      var x := Entry(es[i].key, SortJson(es[i].value, le));
      assert x in r;
      var j :| 0 <= j < |r| && r[j] == x;
      assert s[j].key == es[i].key && s[j].value == Strip(SortJson(es[i].value, le));
    }
    forall j | 0 <= j < |s|
      ensures IsDefined(s[j].key, es)
    {
      assert r[j] in r;
    }
  }

  /** Any value but undefined: its text can be read, and means the value. */
  lemma TextMeans(v: Json, le: Comparator)
    requires Valid(v) && TotalPreorder(le) && v != Undefined
    ensures Read(StableStringify(v, le)).Some? && Means(v, Read(StableStringify(v, le)).value)
  {
    hide Read, StableStringify, Means, Strip, SortJson;
    TextReads(v, le);
    FormMeans(v, le);
  }

  // ----- the escapes are the short ones -----

  /** What stands for one character: itself, a backslash and a letter, or a backslash and four hexadecimal digits. */
  lemma EscapesAreShort(c: char)
    ensures var n := |EscapeChar(c)|;
      && (n == 2 <==> c == '"' || c == '\\' || c == '\U{8}' || c == '\t' || c == '\n' || c == '\U{C}' || c == '\r')
      && (n == 6 <==> c < ' ' && n != 2) && (n == 1 <==> c >= ' ' && n != 2)
  {
  }
}
