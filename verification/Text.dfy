/** The string operations of ECMA-262 that the cron parser calls. */
module Text {
  import opened Wrappers
  import D = Decimal

  /** WhiteSpace and LineTerminator of ECMA-262: what `\s` matches and `trim` removes. */
  predicate IsSpace(c: char) {
    || '\t' <= c <= '\r' || c == ' ' || c == '\U{A0}' || c == '\U{1680}'
    || '\U{2000}' <= c <= '\U{200A}' || c == '\U{2028}' || c == '\U{2029}'
    || c == '\U{202F}' || c == '\U{205F}' || c == '\U{3000}' || c == '\U{FEFF}'
  }

  /** The 25 characters one by one. */
  lemma SpacesAre(c: char)
    ensures IsSpace(c) <==> c in [
      '\U{9}', '\U{A}', '\U{B}', '\U{C}', '\U{D}', '\U{20}', '\U{A0}', '\U{1680}', '\U{2000}', '\U{2001}', '\U{2002}',
      '\U{2003}', '\U{2004}', '\U{2005}', '\U{2006}', '\U{2007}', '\U{2008}', '\U{2009}', '\U{200A}', '\U{2028}',
      '\U{2029}', '\U{202F}', '\U{205F}', '\U{3000}', '\U{FEFF}']
  {
  }

  predicate NoSpace(s: string) {
    forall i :: 0 <= i < |s| ==> !IsSpace(s[i])
  }

  function DropSpaces(s: string): (r: string)
    ensures |r| <= |s|
  {
    if s != "" && IsSpace(s[0]) then DropSpaces(s[1..]) else s
  }

  function DropSpacesAtEnd(s: string): string {
    if s != "" && IsSpace(s[|s| - 1]) then DropSpacesAtEnd(s[..|s| - 1]) else s
  }

  function Trim(s: string): string {
    DropSpacesAtEnd(DropSpaces(s))
  }

  predicate IsSpaces(s: string) {
    forall i :: 0 <= i < |s| ==> IsSpace(s[i])
  }

  lemma {:induction false} DropGap(gap: string, rest: string)
    requires IsSpaces(gap) && rest != "" && !IsSpace(rest[0])
    ensures DropSpaces(gap + rest) == rest
  {
    if gap == "" {
      assert gap + rest == rest;
    } else {
      assert (gap + rest)[1..] == gap[1..] + rest;
      DropGap(gap[1..], rest);
    }
  }

  lemma {:induction false} DropGapAtEnd(text: string, gap: string)
    requires IsSpaces(gap) && text != "" && !IsSpace(text[|text| - 1])
    ensures DropSpacesAtEnd(text + gap) == text
  {
    if gap == "" {
      assert text + gap == text;
    } else {
      var n := |gap| - 1;
      assert (text + gap)[..|text| + n] == text + gap[..n];
      assert (text + gap)[|text| + n] == gap[n];
      DropGapAtEnd(text, gap[..n]);
    }
  }

  /** split(/\s+/): the pieces between runs of white space, the current piece so far in `piece`. */
  function SplitRuns(s: string, piece: string): seq<string>
    decreases |s|
  {
    if s == "" then [piece]
    else if IsSpace(s[0]) then [piece] + SplitRuns(DropSpaces(s[1..]), "")
    else SplitRuns(s[1..], piece + [s[0]])
  }

  lemma {:induction false} SplitRunsWord(w: string, rest: string, piece: string)
    requires NoSpace(w) && rest != "" && !IsSpace(rest[0])
    ensures SplitRuns(w + " " + rest, piece) == [piece + w] + SplitRuns(rest, "")
    decreases |w|
  {
    var s := w + " " + rest;
    if w == "" {
      assert s[1..] == rest;
      assert piece + w == piece;
    } else {
      assert s[1..] == w[1..] + " " + rest;
      assert piece + [w[0]] + w[1..] == piece + w;
      SplitRunsWord(w[1..], rest, piece + [w[0]]);
    }
  }

  lemma {:induction false} SplitRunsLast(w: string, piece: string)
    requires NoSpace(w)
    ensures SplitRuns(w, piece) == [piece + w]
    decreases |w|
  {
    if w == "" {
      assert piece + w == piece;
    } else {
      assert piece + [w[0]] + w[1..] == piece + w;
      SplitRunsLast(w[1..], piece + [w[0]]);
    }
  }

  /** indexOf of one character, -1 when absent. */
  function IndexOf(s: string, c: char): (i: int)
    ensures -1 <= i < |s|
    ensures i == -1 <==> c !in s
    ensures i >= 0 ==> s[i] == c && c !in s[..i]
  {
    if s == "" then -1
    else if s[0] == c then 0
    else var k := IndexOf(s[1..], c);
      assert c in s <==> c in s[1..];
      assert k >= 0 ==> s[..k + 1] == [s[0]] + s[1..][..k];
      if k < 0 then -1 else k + 1
  }

  lemma FirstIndex(s: string, c: char, i: nat)
    requires i < |s| && s[i] == c && c !in s[..i]
    ensures IndexOf(s, c) == i
  {
    var j := IndexOf(s, c);
    assert forall k :: 0 <= k < j ==> s[..j][k] != c;
    assert forall k :: 0 <= k < i ==> s[..i][k] != c;
  }

  /** split on one character. */
  function Split(s: string, c: char): (parts: seq<string>)
    ensures parts != []
    decreases |s|
  {
    var i := IndexOf(s, c);
    if i < 0 then [s] else [s[..i]] + Split(s[i + 1..], c)
  }

  /** Splitting two texts joined by the separator splits each on its own. */
  lemma {:induction false} SplitJoined(a: string, b: string, c: char)
    ensures Split(a + [c] + b, c) == Split(a, c) + Split(b, c)
    decreases |a|
  {
    hide IndexOf;
    var s := a + [c] + b;
    var i := IndexOf(a, c);
    if i < 0 {
      assert s[|a|] == c;
      assert s[..|a|] == a;
      FirstIndex(s, c, |a|);
      assert s[|a| + 1..] == b;
    } else {
      assert s[i] == c;
      assert s[..i] == a[..i];
      FirstIndex(s, c, i);
      assert s[i + 1..] == a[i + 1..] + [c] + b;
      SplitJoined(a[i + 1..], b, c);
      assert Split(s, c) == [a[..i]] + Split(a[i + 1..] + [c] + b, c);
      assert [a[..i]] + (Split(a[i + 1..], c) + Split(b, c)) == ([a[..i]] + Split(a[i + 1..], c)) + Split(b, c);
    }
  }

  function DigitPrefix(s: string): (n: nat)
    ensures n <= |s| && D.AllDigits(s[..n])
  {
    if s == "" || !D.IsDigit(s[0]) then 0
    else
      var n := DigitPrefix(s[1..]);
      assert forall i :: 0 < i < n + 1 ==> s[i] == s[1..][..n][i - 1];
      n + 1
  }

  lemma {:induction false} DigitPrefixAll(s: string)
    requires D.AllDigits(s)
    ensures DigitPrefix(s) == |s|
  {
    if s == "" {
    } else {
      DigitPrefixAll(s[1..]);
    }
  }

  lemma {:induction false} PrefixOf(digits: string, rest: string)
    requires D.AllDigits(digits) && (rest == "" || !D.IsDigit(rest[0]))
    ensures DigitPrefix(digits + rest) == |digits|
  {
    if digits == "" {
      assert digits + rest == rest;
    } else {
      assert (digits + rest)[1..] == digits[1..] + rest;
      PrefixOf(digits[1..], rest);
    }
  }

  /** 2^1024 - 2^970: numerals from here on round to Infinity as a binary64 number. */
  const FINITE_LIMIT: int :=
    0xFFFFFFFFFFFFFC00000000000000000000000000000000000000000000000000_0000000000000000000000000000000000000000000000000000000000000000_0000000000000000000000000000000000000000000000000000000000000000_0000000000000000000000000000000000000000000000000000000000000000

  /**
   * parseInt(s, 10) followed by Number.isInteger: None when that test fails, that is for NaN and
   * for a numeral too large to be finite. Only comparisons are made with the result, and rounding
   * to binary64 changes none of those with the bounds below 60 used here.
   */
  function ParseInt(s: string): Option<int> {
    var t := DropSpaces(s);
    var signed := t != "" && (t[0] == '-' || t[0] == '+');
    var body := if signed then t[1..] else t;
    var digits := body[..DigitPrefix(body)];
    var magnitude: int := D.Value(digits);
    if digits == "" || magnitude >= FINITE_LIMIT then None
    else Some(if signed && t[0] == '-' then -magnitude else magnitude)
  }

  lemma ParseIntOfPrint(n: nat)
    requires n < FINITE_LIMIT
    ensures ParseInt(D.Print(n)) == Some(n)
  {
    var s := D.Print(n);
    assert D.IsDigit(s[0]);
    assert DropSpaces(s) == s;
    DigitPrefixAll(s);
    assert s[..|s|] == s;
    D.ValueOfPrint(n);
  }
}
