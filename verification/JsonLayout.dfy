/** How stableStringify lays its text out: an item a line, two spaces for every bracket still open. */
module JsonLayout {
  import opened CanonicalJson
  import opened JsonText
  import D = Decimal
  import N = NumberText

  /** What stands before a character: a line's indentation, an opening bracket, anything else, or an open string. */
  datatype Place = LineHead | AfterOpen | Middle | Quoted

  function Indentation(s: string): (n: nat)
    ensures n <= |s| && (n == |s| || s[n] != ' ')
  {
    if s == "" || s[0] != ' ' then 0 else 1 + Indentation(s[1..])
  }

  predicate IsClose(c: char) {
    c == ']' || c == '}'
  }

  /** Two spaces for every bracket that is open, without the one this line begins by closing. */
  predicate Indented(line: string, open: nat) {
    var n := Indentation(line);
    n < |line| && n == 2 * (if IsClose(line[n]) then open - 1 else open)
  }

  /**
   * Read from left to right: line breaks stand after commas, around the items of a bracket that is
   * not empty, and nowhere else; a space stands after a colon, and nowhere else but in indentation.
   * At the end no bracket is open.
   */
  predicate LaidOut(s: string, open: nat, at: Place)
    decreases |s|
  {
    if s == "" then at == Middle && open == 0
    else
      var c, rest := s[0], s[1..];
      if at == Quoted then
        if c == '\\' then rest != "" && LaidOut(rest[1..], open, Quoted)
        else LaidOut(rest, open, if c == '"' then Middle else Quoted)
      else if c == '"' then LaidOut(rest, open, Quoted)
      else if c == '[' || c == '{' then
        rest != "" && (rest[0] == '\n' || IsClose(rest[0])) && LaidOut(rest, open + 1, AfterOpen)
      else if IsClose(c) then (at == LineHead || at == AfterOpen) && open > 0 && LaidOut(rest, open - 1, Middle)
      else if c == ',' then at == Middle && rest != "" && rest[0] == '\n' && LaidOut(rest, open, Middle)
      else if c == ':' then at == Middle && rest != "" && rest[0] == ' ' && LaidOut(rest[1..], open, Middle)
      else if c == '\n' then
        at != LineHead && Indented(rest, open) && LaidOut(rest[Indentation(rest)..], open, LineHead)
      else c > ' ' && LaidOut(rest, open, Middle)
  }

  /** Plain characters move on to the middle of a line. */
  predicate PlainText(s: string) {
    forall i :: 0 <= i < |s| ==>
      s[i] > ' ' && s[i] !in {'"', '[', '{', ']', '}', ',', ':'}
  }

  lemma {:induction false} PlainLaid(x: string, rest: string, open: nat, at: Place)
    requires PlainText(x) && x != "" && at != Quoted && LaidOut(rest, open, Middle)
    ensures LaidOut(x + rest, open, at)
    decreases |x|
  {
    assert (x + rest)[1..] == x[1..] + rest;
    if |x| == 1 {
      assert x[1..] + rest == rest;
    } else {
      PlainLaid(x[1..], rest, open, Middle);
    }
  }

  lemma {:induction false} SpacesIndent(n: nat, s: string)
    requires s != "" && s[0] != ' '
    ensures Indentation(Spaces(n, s)) == n && Spaces(n, s)[n..] == s && |Spaces(n, s)| == n + |s|
  {
    if n == 0 {
    } else {
      SpacesIndent(n - 1, s);
      assert Spaces(n, s)[1..] == Spaces(n - 1, s);
      assert Spaces(n, s)[n..] == Spaces(n - 1, s)[n - 1..];
    }
  }

  /** A line break, the indentation, and what begins the line. */
  lemma NewLineLaid(depth: nat, s: string, open: nat, at: Place)
    requires s != "" && s[0] != ' ' && depth == (if IsClose(s[0]) then open - 1 else open)
    requires at == AfterOpen || at == Middle
    requires LaidOut(s, open, LineHead)
    ensures LaidOut(NewLine(depth, s), open, at)
  {
    hide Spaces;
    SpacesIndent(2 * depth, s);
    assert NewLine(depth, s)[1..] == Spaces(2 * depth, s);
  }

  lemma {:induction false} CharsLaid(a: string, rest: string, open: nat)
    requires LaidOut(rest, open, Middle)
    ensures LaidOut(PrintChars(a, rest), open, Quoted)
    decreases |a|
  {
    if a == "" {
      assert PrintChars(a, rest)[1..] == rest;
    } else {
      CharsLaid(a[1..], rest, open);
      CharLaid(a[0], PrintChars(a[1..], rest), open);
    }
  }

  lemma CharLaid(c: char, rest: string, open: nat)
    requires LaidOut(rest, open, Quoted)
    ensures LaidOut(EscapeChar(c) + rest, open, Quoted)
  {
    var e := EscapeChar(c);
    if |e| == 1 {
      assert (e + rest)[1..] == rest;
    } else {
      assert e[0] == '\\' && (e + rest)[1..][1..] == e[2..] + rest;
      InnerLaid(e[2..], rest, open);
    }
  }

  lemma {:induction false} InnerLaid(x: string, rest: string, open: nat)
    requires LaidOut(rest, open, Quoted) && forall i :: 0 <= i < |x| ==> x[i] != '"' && x[i] != '\\'
    ensures LaidOut(x + rest, open, Quoted)
    decreases |x|
  {
    if x == "" {
      assert x + rest == rest;
    } else {
      assert (x + rest)[1..] == x[1..] + rest;
      InnerLaid(x[1..], rest, open);
    }
  }

  lemma QuoteLaid(a: string, rest: string, open: nat, at: Place)
    requires LaidOut(rest, open, Middle) && at != Quoted
    ensures LaidOut(Quote(a, rest), open, at)
  {
    assert Quote(a, rest)[1..] == PrintChars(a, rest);
    CharsLaid(a, rest, open);
  }

  lemma NumberLaid(n: N.Finite, rest: string, open: nat, at: Place)
    requires LaidOut(rest, open, Middle) && at != Quoted
    ensures LaidOut(N.Text(n) + rest, open, at)
  {
    hide N.Text;
    N.TextChars(n);
    var x := N.Text(n);
    assert forall i :: 0 <= i < |x| ==> N.IsNumberChar(x[i]);
    PlainLaid(x, rest, open, at);
  }

  lemma {:induction false} ValueLaid(v: Json, depth: nat, rest: string, at: Place)
    requires Expressible(v) && LaidOut(rest, depth, Middle) && (at == LineHead || at == Middle)
    ensures LaidOut(Print(v, depth, rest), depth, at)
    decreases v, 1
  {
    hide LaidOut;
    match v
    case Null => PlainLaid("null", rest, depth, at);
    case Bool(b) => PlainLaid(if b then "true" else "false", rest, depth, at);
    case Num(n) => NumberLaid(n, rest, depth, at);
    case Str(s) => QuoteLaid(s, rest, depth, at);
    case Arr(items) =>
      if items == [] {
        EmptyLaid("[", "]", rest, depth, at);
        assert "[" + "]" == "[]";
      } else {
        var close := NewLine(depth, "]" + rest);
        CloseLaid("]", rest, depth);
        ItemsLaid(items, depth, close, AfterOpen);
        OpenLaid("[", Items(items, depth, close), depth, at);
      }
    case Obj(es) =>
      if es == [] {
        EmptyLaid("{", "}", rest, depth, at);
        assert "{" + "}" == "{}";
      } else {
        var close := NewLine(depth, "}" + rest);
        CloseLaid("}", rest, depth);
        MembersLaid(es, depth, close, AfterOpen);
        OpenLaid("{", Members(es, depth, close), depth, at);
      }
  }

  lemma EmptyLaid(o: string, c: string, rest: string, depth: nat, at: Place)
    requires (o == "[" && c == "]") || (o == "{" && c == "}")
    requires LaidOut(rest, depth, Middle) && at != Quoted
    ensures LaidOut(o + c + rest, depth, at)
  {
    var s := o + c + rest;
    assert s[1..] == c + rest && s[1..][1..] == rest;
  }

  lemma OpenLaid(o: string, s: string, depth: nat, at: Place)
    requires (o == "[" || o == "{") && at != Quoted
    requires s != "" && s[0] == '\n' && LaidOut(s, depth + 1, AfterOpen)
    ensures LaidOut(o + s, depth, at)
  {
    assert (o + s)[1..] == s;
  }

  lemma CloseLaid(c: string, rest: string, depth: nat)
    requires (c == "]" || c == "}") && LaidOut(rest, depth, Middle)
    ensures LaidOut(NewLine(depth, c + rest), depth + 1, Middle)
  {
    assert (c + rest)[1..] == rest;
    NewLineLaid(depth, c + rest, depth + 1, Middle);
  }

  lemma CommaLaid(s: string, open: nat)
    requires s != "" && s[0] == '\n' && LaidOut(s, open, Middle)
    ensures LaidOut("," + s, open, Middle)
  {
    assert ("," + s)[1..] == s;
  }

  lemma ColonLaid(p: string, open: nat)
    requires LaidOut(p, open, Middle)
    ensures LaidOut(": " + p, open, Middle)
  {
    assert (": " + p)[1..][1..] == p;
  }

  lemma BeginsLine(v: Json, depth: nat, rest: string)
    requires Expressible(v)
    ensures var p := Print(v, depth, rest); p != "" && p[0] != ' ' && !IsClose(p[0])
  {
    hide Print;
    Head(v, depth, rest);
  }

  lemma {:induction false} ItemsLaid(items: seq<Json>, depth: nat, close: string, at: Place)
    requires items != [] && forall i :: 0 <= i < |items| ==> Expressible(items[i])
    requires LaidOut(close, depth + 1, Middle) && (at == AfterOpen || at == Middle)
    ensures var s := Items(items, depth, close);
      s != "" && s[0] == '\n' && LaidOut(s, depth + 1, at)
    decreases items, 2
  {
    hide LaidOut, Print;
    var more := if |items| == 1 then close else "," + Items(items[1..], depth, close);
    if |items| == 1 {
    } else {
      ItemsLaid(items[1..], depth, close, Middle);
      CommaLaid(Items(items[1..], depth, close), depth + 1);
    }
    ValueLaid(items[0], depth + 1, more, LineHead);
    BeginsLine(items[0], depth + 1, more);
    NewLineLaid(depth + 1, Print(items[0], depth + 1, more), depth + 1, at);
  }

  lemma {:induction false} MembersLaid(es: seq<Entry>, depth: nat, close: string, at: Place)
    requires es != [] && forall i :: 0 <= i < |es| ==> Expressible(es[i].value)
    requires LaidOut(close, depth + 1, Middle) && (at == AfterOpen || at == Middle)
    ensures var s := Members(es, depth, close);
      s != "" && s[0] == '\n' && LaidOut(s, depth + 1, at)
    decreases es, 2
  {
    hide LaidOut, Print;
    var more := if |es| == 1 then close else "," + Members(es[1..], depth, close);
    if |es| == 1 {
    } else {
      MembersLaid(es[1..], depth, close, Middle);
      CommaLaid(Members(es[1..], depth, close), depth + 1);
    }
    MemberLaid(es[0], depth, more, at);
  }

  lemma {:induction false} MemberLaid(e: Entry, depth: nat, more: string, at: Place)
    requires Expressible(e.value) && LaidOut(more, depth + 1, Middle) && (at == AfterOpen || at == Middle)
    ensures LaidOut(NewLine(depth + 1, Quote(e.key, ": " + Print(e.value, depth + 1, more))), depth + 1, at)
    decreases e, 1
  {
    hide LaidOut, Print;
    var p := Print(e.value, depth + 1, more);
    ValueLaid(e.value, depth + 1, more, Middle);
    ColonLaid(p, depth + 1);
    QuoteLaid(e.key, ": " + p, depth + 1, LineHead);
    NewLineLaid(depth + 1, Quote(e.key, ": " + p), depth + 1, at);
  }

  /** The text of every value is laid out so, and closes every bracket it opens. */
  lemma TextIsLaidOut(v: Json, le: Comparator)
    requires v != Undefined
    ensures LaidOut(StableStringify(v, le), 0, LineHead)
  {
    hide LaidOut, SortJson, Strip, Print;
    StripIsExpressible(SortJson(v, le));
    NothingLeft();
    ValueLaid(Strip(SortJson(v, le)), 0, "", LineHead);
  }

  lemma NothingLeft()
    ensures LaidOut("", 0, Middle)
  {
  }
}
