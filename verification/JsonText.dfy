/** stableStringify and hashStableJson: the text of a canonical form, and what two equal texts mean. */
module JsonText {
  import opened CanonicalJson
  import opened StableSort
  import D = Decimal
  import N = NumberText

  // ----- what JSON can express -----

  /** No undefined, no non-finite number, at any depth: JSON.stringify would lose these. */
  ghost predicate Expressible(v: Json)
    decreases v
  {
    match v
    case Undefined => false
    case NotFinite => false
    case Arr(items) => forall i :: 0 <= i < |items| ==> Expressible(items[i])
    case Obj(es) => forall i :: 0 <= i < |es| ==> Expressible(es[i].value)
    case _ => true
  }

  /** JSON.stringify skips undefined properties and writes null for undefined items and for NaN and infinities. */
  function Strip(v: Json): Json
    decreases v
  {
    match v
    case Undefined => Null
    case NotFinite => Null
    case Arr(items) => Arr(seq(|items|, i requires 0 <= i < |items| => Strip(items[i])))
    case Obj(es) => Obj(StripEntries(es))
    case _ => v
  }

  function StripEntries(es: seq<Entry>): seq<Entry>
    decreases es
  {
    if es == [] then []
    else if es[0].value == Undefined then StripEntries(es[1..])
    else [Entry(es[0].key, Strip(es[0].value))] + StripEntries(es[1..])
  }

  lemma {:induction false} StripIsExpressible(v: Json)
    ensures Expressible(Strip(v))
    decreases v
  {
    match v
    case Arr(items) =>
      forall i | 0 <= i < |items|
        ensures Expressible(Strip(items[i]))
      {
        StripIsExpressible(items[i]);
      }
    case Obj(es) => StrippedEntries(es);
    case _ =>
  }

  lemma {:induction false} StrippedEntries(es: seq<Entry>)
    ensures forall i :: 0 <= i < |StripEntries(es)| ==> Expressible(StripEntries(es)[i].value)
    decreases es
  {
    if es == [] {
    } else {
      StrippedEntries(es[1..]);
      StripIsExpressible(es[0].value);
    }
  }

  lemma {:induction false} ExpressibleStays(v: Json)
    requires Expressible(v)
    ensures Strip(v) == v
    decreases v
  {
    match v
    case Arr(items) =>
      forall i | 0 <= i < |items|
        ensures Strip(items[i]) == items[i]
      {
        ExpressibleStays(items[i]);
      }
      assert Strip(v).items == items;
    case Obj(es) => EntriesStay(es);
    case _ =>
  }

  lemma {:induction false} EntriesStay(es: seq<Entry>)
    requires forall i :: 0 <= i < |es| ==> Expressible(es[i].value)
    ensures StripEntries(es) == es
    decreases es
  {
    if es == [] {
    } else {
      ExpressibleStays(es[0].value);
      EntriesStay(es[1..]);
    }
  }

  // ----- the text, each printer given what follows it -----

  function Spaces(n: nat, rest: string): string {
    if n == 0 then rest else " " + Spaces(n - 1, rest)
  }

  function NewLine(depth: nat, rest: string): string {
    "\n" + Spaces(2 * depth, rest)
  }

  function HexDigit(n: int): char
    requires 0 <= n < 16
  {
    "0123456789abcdef"[n]
  }

  /** QuoteJSONString of one character. */
  function EscapeChar(c: char): (e: string)
    ensures e != ""
  {
    if c == '"' then "\\\"" else if c == '\\' then "\\\\"
    else if c == '\U{8}' then "\\b" else if c == '\U{C}' then "\\f"
    else if c == '\n' then "\\n" else if c == '\r' then "\\r" else if c == '\t' then "\\t"
    else if c < ' ' then "\\u00" + [HexDigit(c as int / 16), HexDigit(c as int % 16)]
    else [c]
  }

  function PrintChars(s: string, rest: string): string {
    if s == "" then "\"" + rest else EscapeChar(s[0]) + PrintChars(s[1..], rest)
  }

  function Quote(s: string, rest: string): string {
    "\"" + PrintChars(s, rest)
  }

  function Print(v: Json, depth: nat, rest: string): string
    requires Expressible(v)
    decreases v
  {
    match v
    case Null => "null" + rest
    case Bool(b) => (if b then "true" else "false") + rest
    case Num(n) => N.Text(n) + rest
    case Str(s) => Quote(s, rest)
    case Arr(items) => if items == [] then "[]" + rest else "[" + Items(items, depth, NewLine(depth, "]" + rest))
    case Obj(es) => if es == [] then "{}" + rest else "{" + Members(es, depth, NewLine(depth, "}" + rest))
  }

  function Items(items: seq<Json>, depth: nat, rest: string): string
    requires items != [] && forall i :: 0 <= i < |items| ==> Expressible(items[i])
    decreases items
  {
    NewLine(depth + 1, Print(items[0], depth + 1,
      if |items| == 1 then rest else "," + Items(items[1..], depth, rest)))
  }

  function Members(es: seq<Entry>, depth: nat, rest: string): string
    requires es != [] && forall i :: 0 <= i < |es| ==> Expressible(es[i].value)
    decreases es
  {
    NewLine(depth + 1, Quote(es[0].key, ": " + Print(es[0].value, depth + 1,
      if |es| == 1 then rest else "," + Members(es[1..], depth, rest))))
  }

  // ----- the text determines the value -----

  /** What can follow a value: the end, a comma or a line break. */
  predicate Stop(s: string) {
    s == "" || s[0] == ',' || s[0] == '\n'
  }

  lemma {:induction false} SpacesInjective(n: nat, s: string, t: string)
    requires Spaces(n, s) == Spaces(n, t)
    ensures s == t
  {
    if n == 0 {
    } else {
      assert Spaces(n, s)[1..] == Spaces(n - 1, s) && Spaces(n, t)[1..] == Spaces(n - 1, t);
      SpacesInjective(n - 1, s, t);
    }
  }

  lemma NewLineInjective(depth: nat, s: string, t: string)
    requires NewLine(depth, s) == NewLine(depth, t)
    ensures s == t
  {
    assert NewLine(depth, s)[1..] == Spaces(2 * depth, s) && NewLine(depth, t)[1..] == Spaces(2 * depth, t);
    SpacesInjective(2 * depth, s, t);
  }

  lemma NotShorter(x: string, y: string, s: string, t: string)
    requires x + s == y + t && Stop(s) && N.NumberChars(y)
    ensures |x| >= |y|
  {
    assert s != "" ==> (x + s)[|x|] == s[0];
    assert |x + s| == |x| + |s|;
  }

  lemma NumberInjective(m: N.Finite, n: N.Finite, s: string, t: string)
    requires N.Text(m) + s == N.Text(n) + t && Stop(s) && Stop(t)
    ensures m == n && s == t
  {
    hide N.Text;
    var x, y := N.Text(m), N.Text(n);
    N.TextChars(m);
    N.TextChars(n);
    NotShorter(x, y, s, t);
    NotShorter(y, x, t, s);
    assert (x + s)[..|x|] == x && (y + t)[..|y|] == y && (x + s)[|x|..] == s && (y + t)[|y|..] == t;
    N.TextInjective(m, n);
  }

  lemma HexInjective(a: int, b: int)
    requires 0 <= a < 16 && 0 <= b < 16 && HexDigit(a) == HexDigit(b)
    ensures a == b
  {
  }

  lemma CharInjective(c: char, d: char, s: string, t: string)
    requires EscapeChar(c) + s == EscapeChar(d) + t
    ensures c == d && s == t
  {
    var p, q := EscapeChar(c) + s, EscapeChar(d) + t;
    assert p[0] == EscapeChar(c)[0] && q[0] == EscapeChar(d)[0];
    if p[0] == '\\' {
      assert p[1] == EscapeChar(c)[1] && q[1] == EscapeChar(d)[1];
      if p[1] == 'u' {
        assert p[4] == EscapeChar(c)[4] && q[4] == EscapeChar(d)[4];
        assert p[5] == EscapeChar(c)[5] && q[5] == EscapeChar(d)[5];
        HexInjective(c as int / 16, d as int / 16);
        HexInjective(c as int % 16, d as int % 16);
        assert c as int == d as int;
      }
    }
    assert c == d;
    assert p[|EscapeChar(c)|..] == s && q[|EscapeChar(d)|..] == t;
  }

  lemma CharsHead(a: string, s: string)
    ensures var p := PrintChars(a, s); p != "" && (p[0] == '"' <==> a == "") && (a == "" ==> p[1..] == s)
  {
    if a != "" {
      assert EscapeChar(a[0])[0] != '"';
      assert PrintChars(a, s)[0] == EscapeChar(a[0])[0];
    }
  }

  lemma {:induction false} CharsInjective(a: string, b: string, s: string, t: string)
    requires PrintChars(a, s) == PrintChars(b, t)
    ensures a == b && s == t
    decreases |a|
  {
    CharsHead(a, s);
    CharsHead(b, t);
    if a == "" || b == "" {
    } else {
      CharInjective(a[0], b[0], PrintChars(a[1..], s), PrintChars(b[1..], t));
      CharsInjective(a[1..], b[1..], s, t);
      assert a == [a[0]] + a[1..] && b == [b[0]] + b[1..];
    }
  }

  lemma QuoteInjective(a: string, b: string, s: string, t: string)
    requires Quote(a, s) == Quote(b, t)
    ensures a == b && s == t
  {
    assert Quote(a, s)[1..] == PrintChars(a, s) && Quote(b, t)[1..] == PrintChars(b, t);
    CharsInjective(a, b, s, t);
  }

  /** The first character tells the kind of value, and the second whether a collection is empty. */
  predicate Begins(v: Json, p: string) {
    p != "" &&
    match v
    case Null => p[0] == 'n'
    case Bool(b) => p[0] == if b then 't' else 'f'
    case Num(n) => p[0] == '-' || D.IsDigit(p[0])
    case Str(_) => p[0] == '"'
    case Arr(items) => p[0] == '[' && p != "[" && (p[1] == ']' <==> items == [])
    case Obj(es) => p[0] == '{' && p != "{" && (p[1] == '}' <==> es == [])
    case _ => true
  }

  lemma Head(v: Json, depth: nat, rest: string)
    requires Expressible(v)
    ensures Begins(v, Print(v, depth, rest))
  {
    match v
    case Num(n) =>
      N.TextChars(n);
      assert Print(v, depth, rest)[0] == N.Text(n)[0];
    case Arr(items) =>
      if items == [] {
        assert Print(v, depth, rest)[1..] == "]" + rest;
      } else {
        assert Print(v, depth, rest)[1] == '\n';
      }
    case _ =>
  }

  lemma {:induction false} TextInjective(a: Json, b: Json, depth: nat, s: string, t: string)
    requires Expressible(a) && Expressible(b) && Stop(s) && Stop(t)
    requires Print(a, depth, s) == Print(b, depth, t)
    ensures a == b && s == t
    decreases a
  {
    Head(a, depth, s);
    Head(b, depth, t);
    match a
    case Null => CutHead(a, b, depth, s, t, 4);
    case Bool(x) => CutHead(a, b, depth, s, t, if x then 4 else 5);
    case Num(m) => NumberInjective(m, b.n, s, t);
    case Str(x) => QuoteInjective(x, b.s, s, t);
    case Arr(items) =>
      if items == [] {
        CutHead(a, b, depth, s, t, 2);
      } else {
        assert Print(a, depth, s)[1..] == Items(items, depth, NewLine(depth, "]" + s));
        assert Print(b, depth, t)[1..] == Items(b.items, depth, NewLine(depth, "]" + t));
        ItemsInjective(items, b.items, depth, NewLine(depth, "]" + s), NewLine(depth, "]" + t));
        NewLineInjective(depth, "]" + s, "]" + t);
        assert ("]" + s)[1..] == s && ("]" + t)[1..] == t;
      }
    case Obj(es) =>
      if es == [] {
        CutHead(a, b, depth, s, t, 2);
      } else {
        assert Print(a, depth, s)[1..] == Members(es, depth, NewLine(depth, "}" + s));
        assert Print(b, depth, t)[1..] == Members(b.entries, depth, NewLine(depth, "}" + t));
        MembersInjective(es, b.entries, depth, NewLine(depth, "}" + s), NewLine(depth, "}" + t));
        NewLineInjective(depth, "}" + s, "}" + t);
        assert ("}" + s)[1..] == s && ("}" + t)[1..] == t;
      }
  }

  /** Two equal texts that begin with the same fixed word. */
  lemma CutHead(a: Json, b: Json, depth: nat, s: string, t: string, n: nat)
    requires Expressible(a) && a == b && Print(a, depth, s) == Print(b, depth, t)
    requires a.Null? || a.Bool? || a == Arr([]) || a == Obj([])
    requires n == if a.Null? then 4 else if a.Bool? then (if a.b then 4 else 5) else 2
    ensures s == t
  {
    assert Print(a, depth, s)[n..] == s && Print(a, depth, t)[n..] == t;
  }

  /** The line break after the last item, as opposed to the comma after any other. */
  predicate Closes(s: string) {
    s != "" && s[0] == '\n'
  }

  lemma {:induction false} ItemsInjective(xs: seq<Json>, ys: seq<Json>, depth: nat, s: string, t: string)
    requires xs != [] && ys != [] && Closes(s) && Closes(t)
    requires forall i :: 0 <= i < |xs| ==> Expressible(xs[i])
    requires forall i :: 0 <= i < |ys| ==> Expressible(ys[i])
    requires Items(xs, depth, s) == Items(ys, depth, t)
    ensures xs == ys && s == t
    decreases xs
  {
    hide Print, NewLine;
    var s' := if |xs| == 1 then s else "," + Items(xs[1..], depth, s);
    var t' := if |ys| == 1 then t else "," + Items(ys[1..], depth, t);
    NewLineInjective(depth + 1, Print(xs[0], depth + 1, s'), Print(ys[0], depth + 1, t'));
    TextInjective(xs[0], ys[0], depth + 1, s', t');
    assert s'[0] == t'[0];
    assert xs == [xs[0]] + xs[1..] && ys == [ys[0]] + ys[1..];
    if |xs| == 1 {
    } else {
      assert s'[1..] == Items(xs[1..], depth, s) && t'[1..] == Items(ys[1..], depth, t);
      ItemsInjective(xs[1..], ys[1..], depth, s, t);
    }
  }

  lemma SameTail(p: string, q: string)
    requires ": " + p == ": " + q
    ensures p == q
  {
    assert (": " + p)[2..] == p && (": " + q)[2..] == q;
  }

  lemma {:induction false} MembersInjective(xs: seq<Entry>, ys: seq<Entry>, depth: nat, s: string, t: string)
    requires xs != [] && ys != [] && Closes(s) && Closes(t)
    requires forall i :: 0 <= i < |xs| ==> Expressible(xs[i].value)
    requires forall i :: 0 <= i < |ys| ==> Expressible(ys[i].value)
    requires Members(xs, depth, s) == Members(ys, depth, t)
    ensures xs == ys && s == t
    decreases xs
  {
    hide Print, NewLine, Quote;
    var s' := if |xs| == 1 then s else "," + Members(xs[1..], depth, s);
    var t' := if |ys| == 1 then t else "," + Members(ys[1..], depth, t);
    var p, q := Print(xs[0].value, depth + 1, s'), Print(ys[0].value, depth + 1, t');
    NewLineInjective(depth + 1, Quote(xs[0].key, ": " + p), Quote(ys[0].key, ": " + q));
    QuoteInjective(xs[0].key, ys[0].key, ": " + p, ": " + q);
    SameTail(p, q);
    TextInjective(xs[0].value, ys[0].value, depth + 1, s', t');
    assert s'[0] == t'[0];
    assert xs == [xs[0]] + xs[1..] && ys == [ys[0]] + ys[1..];
    if |xs| == 1 {
    } else {
      assert s'[1..] == Members(xs[1..], depth, s) && t'[1..] == Members(ys[1..], depth, t);
      MembersInjective(xs[1..], ys[1..], depth, s, t);
    }
  }

  // ----- stableStringify and hashStableJson -----

  /** The text; of undefined itself there is none, and the empty text stands for it. */
  function StableStringify(v: Json, le: Comparator): string {
    StripIsExpressible(SortJson(v, le));
    if v == Undefined then "" else Print(Strip(SortJson(v, le)), 0, "")
  }

  lemma {:induction false} SortedIsExpressible(v: Json, le: Comparator)
    requires Expressible(v)
    ensures Expressible(SortJson(v, le))
    decreases v
  {
    match v
    case Arr(items) =>
      forall i | 0 <= i < |items|
        ensures Expressible(SortJson(items[i], le))
      {
        SortedIsExpressible(items[i], le);
      }
    case Obj(es) =>
      KeepsProperties(es, le);
      ObjectForms(es, le);
      var r := Entries(es, le);
      forall k | 0 <= k < |r|
        ensures Expressible(r[k].value)
      {
        assert r[k] in r;
        var i :| 0 <= i < |es| && es[i].value != Undefined && r[k] == Entry(es[i].key, SortJson(es[i].value, le));
        SortedIsExpressible(es[i].value, le);
      }
    case _ =>
  }

  /**
   * For values JSON can express, and a comparator that separates names, the text is the same iff
   * the values are equal up to key order; so is a hash, where it does not collide on the two texts.
   */
  lemma SameTextIffEquiv(v: Json, w: Json, le: Comparator, hash: string -> string)
    requires Valid(v) && Valid(w) && Expressible(v) && Expressible(w)
    requires TotalPreorder(le) && SeparatesNames(le)
    requires var x, y := StableStringify(v, le), StableStringify(w, le); hash(x) == hash(y) ==> x == y
    ensures StableStringify(v, le) == StableStringify(w, le) <==> Equiv(v, w)
    ensures hash(StableStringify(v, le)) == hash(StableStringify(w, le)) <==> Equiv(v, w)
  {
    hide SortJson, Equiv, IsIndex, Print;
    SameFormIffEquiv(v, w, le);
    var a, b := SortJson(v, le), SortJson(w, le);
    SortedIsExpressible(v, le);
    SortedIsExpressible(w, le);
    ExpressibleStays(a);
    ExpressibleStays(b);
    if Print(a, 0, "") == Print(b, 0, "") {
      TextInjective(a, b, 0, "", "");
    }
  }

  /** Insertion order never shows in the text, also for values JSON cannot express. */
  lemma TextIgnoresOrder(v: Json, w: Json, le: Comparator)
    requires Valid(v) && Valid(w) && Equiv(v, w) && TotalPreorder(le) && SeparatesNames(le)
    ensures StableStringify(v, le) == StableStringify(w, le)
  {
    hide SortJson, IsIndex, Print;
    SameFormIffEquiv(v, w, le);
  }

  // ----- uniqueSorted -----

  /** [...new Set(values)]: the first occurrence of each. */
  function Distinct(values: seq<string>): seq<string> {
    if values == [] then []
    else
      var before := Distinct(values[..|values| - 1]);
      if values[|values| - 1] in before then before else before + [values[|values| - 1]]
  }

  function UniqueSorted(values: seq<string>, le: Comparator): seq<string> {
    Sort(Distinct(Filter(values, (v: string) => v != "")), le)
  }

  lemma {:induction false} DistinctMembers(values: seq<string>)
    ensures forall v :: v in Distinct(values) <==> v in values
    ensures Sorted(Distinct(values), (a: string, b: string) => a != b)
  {
    if values == [] {
    } else {
      var n := |values| - 1;
      DistinctMembers(values[..n]);
      assert values == values[..n] + [values[n]];
    }
  }

  /** The result is the set of non-empty values in strictly ascending order, so it depends on nothing else. */
  lemma UniqueSortedIsSet(values: seq<string>, others: seq<string>, le: Comparator)
    requires TotalPreorder(le) && forall a, b :: le(a, b) && le(b, a) ==> a == b
    ensures var r := UniqueSorted(values, le);
      && (forall v :: v in r <==> v in values && v != "")
      && Sorted(r, (a: string, b: string) => le(a, b) && a != b)
    ensures UniqueSorted(values, le) == UniqueSorted(others, le)
      <==> forall v :: v != "" ==> (v in values <==> v in others)
  {
    UniqueSortedMembers(values, le);
    UniqueSortedMembers(others, le);
    var lt := (a: string, b: string) => le(a, b) && a != b;
    if forall v :: v != "" ==> (v in values <==> v in others) {
      SortedUnique(UniqueSorted(values, le), UniqueSorted(others, le), lt);
    }
  }

  lemma UniqueSortedMembers(values: seq<string>, le: Comparator)
    requires TotalPreorder(le)
    ensures var r := UniqueSorted(values, le);
      && (forall v :: v in r <==> v in values && v != "")
      && Sorted(r, (a: string, b: string) => le(a, b) && a != b)
  {
    var keep := (v: string) => v != "";
    var f := Filter(values, keep);
    var d := Distinct(f);
    var differ := (a: string, b: string) => a != b;
    FilterMembers(values, keep);
    DistinctMembers(f);
    SortMembers(d, le);
    SortSorted(d, le);
    SortKeepsPairs(d, le, differ);
    var r := Sort(d, le);
    forall i, j | 0 <= i < j < |r|
      ensures le(r[i], r[j]) && r[i] != r[j]
    {
      assert differ(r[i], r[j]);
    }
  }
}
