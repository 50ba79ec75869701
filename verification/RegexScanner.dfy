/**
 * countCapturingGroups: a character-by-character automaton over a regular expression's source.
 * The source is described by a syntax tree and its printer (section 22.2.1 of ECMA-262, with the
 * nested classes of the v flag), and the automaton is proved to count the tree's groups.
 */
module RegexScanner {
  // ----- the automaton -----

  /**
   * The count still to come when the rest of the source is s. An index past the end reads as
   * undefined, which differs from every character.
   */
  function Scan(s: string, escape: bool, charClass: bool): nat
    decreases |s|
  {
    if s == "" then 0
    else
      var ch, rest := s[0], s[1..];
      if escape then Scan(rest, false, charClass)
      else if ch == '\\' then Scan(rest, true, charClass)
      else if charClass then Scan(rest, false, ch != ']')
      else if ch == '[' then Scan(rest, false, true)
      else (if ch == '(' && Counts(s) then 1 else 0) + Scan(rest, false, false)
  }

  /** The decision at an opening parenthesis, from the characters after it. */
  predicate Counts(s: string) {
    if Is(s, 1, '?') then Is(s, 2, '<') && !Is(s, 3, '=') && !Is(s, 3, '!') else true
  }

  predicate Is(s: string, i: nat, c: char) {
    i < |s| && s[i] == c
  }

  method CountCapturingGroups(src: string) returns (count: nat)
    ensures count == Scan(src, false, false)
  {
    count := 0;
    var escape := false;
    var charClass := false;
    assert src[0..] == src;
    for i := 0 to |src|
      invariant count + Scan(src[i..], escape, charClass) == Scan(src, false, false)
    {
      var ch := src[i];
      assert src[i..][1..] == src[i + 1..] && src[i..][0] == ch;
      if escape {
        escape := false;
        continue;
      }
      if ch == '\\' {
        escape := true;
        continue;
      }
      if charClass {
        if ch == ']' {
          charClass := false;
        }
        continue;
      }
      if ch == '[' {
        charClass := true;
        continue;
      }
      if ch == '(' {
        assert forall k: nat, c :: Is(src[i..], k, c) == (i + k < |src| && src[i + k] == c);
        if i + 1 < |src| && src[i + 1] == '?' {
          if i + 2 < |src| && src[i + 2] == '<' && !(i + 3 < |src| && src[i + 3] == '=')
             && !(i + 3 < |src| && src[i + 3] == '!') {
            count := count + 1;
          }
        } else {
          count := count + 1;
        }
      }
    }
  }

  // ----- syntax trees -----

  /** A character, or a backslash escape such as \d, \x41, \u{61} or \k<name>: its tail is what follows \c. */
  datatype Part = Lit(c: char) | Esc(c: char, tail: string)

  datatype SetItem = Item(part: Part) | Nested(negated: bool, items: seq<SetItem>)

  datatype GroupKind =
    | Capturing
    | Named(name: seq<Part>)
    | NonCapturing
    | LookAhead(negated: bool)
    | LookBehind(negated: bool)
    | Modifiers(flags: string)

  datatype Re =
    | Empty
    | Single(part: Part)
    | Class(negated: bool, parts: seq<Part>)
    | SetClass(set_: SetItem)
    | Group(kind: GroupKind, body: Re)
    | Quantified(atom: Re, suffix: string)
    | Then(first: Re, second: Re)
    | Or(left: Re, right: Re)

  /** Text in which no character has a meaning to the automaton. */
  predicate Inert(s: string) {
    forall i :: 0 <= i < |s| ==> s[i] !in "()[]\\"
  }

  predicate PartOk(p: Part, reserved: string) {
    if p.Lit? then p.c !in reserved else Inert(p.tail)
  }

  predicate PartsOk(ps: seq<Part>, reserved: string) {
    forall i :: 0 <= i < |ps| ==> PartOk(ps[i], reserved)
  }

  /** In a class of the v flag, parentheses and brackets must be escaped. */
  predicate ItemOk(item: SetItem)
    decreases item
  {
    if item.Item? then PartOk(item.part, "()[]{}/|\\") else ItemsOk(item.items)
  }

  predicate ItemsOk(items: seq<SetItem>)
    decreases items
  {
    items == [] || (ItemOk(items[0]) && ItemsOk(items[1..]))
  }

  predicate KindOk(k: GroupKind) {
    match k
    case Named(name) => name != [] && PartsOk(name, "()[]\\<>=!?")
    case Modifiers(flags) => flags != "" && forall i :: 0 <= i < |flags| ==> 'a' <= flags[i] <= 'z' || flags[i] == '-'
    case _ => true
  }

  /** Syntactically valid patterns; a class without the v flag may hold bare parentheses and brackets. */
  predicate WellFormed(re: Re) {
    match re
    case Empty => true
    case Single(p) => PartOk(p, "()[\\?*+|")
    case Class(_, parts) => PartsOk(parts, "]\\")
    case SetClass(item) => item.Nested? && ItemOk(item)
    case Group(kind, body) => KindOk(kind) && WellFormed(body)
    case Quantified(atom, suffix) =>
      !atom.Empty? && !atom.Then? && !atom.Or? && !atom.Quantified? && WellFormed(atom) && Inert(suffix)
    case Then(a, b) => WellFormed(a) && WellFormed(b)
    case Or(a, b) => WellFormed(a) && WellFormed(b)
  }

  function PrintPart(p: Part): string {
    if p.Lit? then [p.c] else ['\\', p.c] + p.tail
  }

  function PrintParts(ps: seq<Part>): string {
    if ps == [] then "" else PrintPart(ps[0]) + PrintParts(ps[1..])
  }

  function Caret(negated: bool): string {
    if negated then "^" else ""
  }

  function PrintItem(item: SetItem): string
    decreases item
  {
    if item.Item? then PrintPart(item.part) else "[" + (Caret(item.negated) + PrintItems(item.items)) + "]"
  }

  function PrintItems(items: seq<SetItem>): string
    decreases items
  {
    if items == [] then "" else PrintItem(items[0]) + PrintItems(items[1..])
  }

  /** What follows a group's opening parenthesis. */
  function PrintKind(k: GroupKind): string {
    match k
    case Capturing => ""
    case Named(name) => "?<" + PrintParts(name) + ">"
    case NonCapturing => "?:"
    case LookAhead(negated) => if negated then "?!" else "?="
    case LookBehind(negated) => if negated then "?<!" else "?<="
    case Modifiers(flags) => "?" + flags + ":"
  }

  function Print(re: Re): string {
    match re
    case Empty => ""
    case Single(p) => PrintPart(p)
    case Class(negated, parts) => "[" + (Caret(negated) + PrintParts(parts)) + "]"
    case SetClass(item) => PrintItem(item)
    case Group(kind, body) => "(" + (PrintKind(kind) + Print(body)) + ")"
    case Quantified(atom, suffix) => Print(atom) + suffix
    case Then(a, b) => Print(a) + Print(b)
    case Or(a, b) => Print(a) + "|" + Print(b)
  }

  /** The capturing groups of a pattern, by its structure. */
  function Groups(re: Re): nat {
    match re
    case Empty => 0
    case Single(_) => 0
    case Class(_, _) => 0
    case SetClass(_) => 0
    case Group(kind, body) => (if kind.Capturing? || kind.Named? then 1 else 0) + Groups(body)
    case Quantified(atom, _) => Groups(atom)
    case Then(a, b) => Groups(a) + Groups(b)
    case Or(a, b) => Groups(a) + Groups(b)
  }

  // ----- the automaton crosses each fragment and returns to where it was -----

  lemma {:induction false} CrossInert(s: string, rest: string, cls: bool)
    requires Inert(s)
    ensures Scan(s + rest, false, cls) == Scan(rest, false, cls)
  {
    if s == "" {
      assert s + rest == rest;
    } else {
      assert (s + rest)[1..] == s[1..] + rest;
      CrossInert(s[1..], rest, cls);
    }
  }

  lemma CrossPart(p: Part, rest: string, cls: bool)
    requires PartOk(p, if cls then "]\\" else "([\\")
    ensures Scan(PrintPart(p) + rest, false, cls) == Scan(rest, false, cls)
  {
    var s := PrintPart(p) + rest;
    if p.Lit? {
      assert s[1..] == rest;
    } else {
      assert s[1..] == [p.c] + (p.tail + rest);
      assert s[1..][1..] == p.tail + rest;
      CrossInert(p.tail, rest, cls);
    }
  }

  lemma {:induction false} CrossParts(ps: seq<Part>, rest: string, cls: bool)
    requires PartsOk(ps, if cls then "]\\" else "([\\")
    ensures Scan(PrintParts(ps) + rest, false, cls) == Scan(rest, false, cls)
  {
    if ps == [] {
      assert PrintParts(ps) + rest == rest;
    } else {
      assert PrintParts(ps) + rest == PrintPart(ps[0]) + (PrintParts(ps[1..]) + rest);
      CrossPart(ps[0], PrintParts(ps[1..]) + rest, cls);
      CrossParts(ps[1..], rest, cls);
    }
  }

  lemma OpenClass(negated: bool, inside: string, rest: string, cls: bool)
    ensures Scan("[" + (Caret(negated) + inside) + "]" + rest, false, cls) == Scan(inside + ("]" + rest), false, true)
  {
    var tail := inside + ("]" + rest);
    var s := "[" + (Caret(negated) + inside) + "]" + rest;
    assert s[1..] == Caret(negated) + tail;
    if negated {
      assert (Caret(true) + tail)[1..] == tail;
    } else {
      assert Caret(false) + tail == tail;
    }
  }

  lemma CloseClass(rest: string, cls: bool)
    ensures Scan("]" + rest, false, cls) == Scan(rest, false, false)
  {
    assert ("]" + rest)[1..] == rest;
  }

  /**
   * A nested class of the v flag leaves the automaton outside, although it still is inside the
   * outer one: harmless, as no bare parenthesis can follow there, and the last bracket closes.
   */
  lemma {:induction false} CrossItem(item: SetItem, rest: string, cls: bool) returns (after: bool)
    requires ItemOk(item)
    ensures Scan(PrintItem(item) + rest, false, cls) == Scan(rest, false, after)
    ensures item.Nested? ==> !after
    decreases item
  {
    if item.Item? {
      assert PartOk(item.part, "]\\") && PartOk(item.part, "([\\");
      CrossPart(item.part, rest, cls);
      after := cls;
    } else {
      OpenClass(item.negated, PrintItems(item.items), rest, cls);
      after := CrossItems(item.items, "]" + rest, true);
      CloseClass(rest, after);
      after := false;
    }
  }

  lemma {:induction false} CrossItems(items: seq<SetItem>, rest: string, cls: bool) returns (after: bool)
    requires ItemsOk(items)
    ensures Scan(PrintItems(items) + rest, false, cls) == Scan(rest, false, after)
    decreases items
  {
    if items == [] {
      assert PrintItems(items) + rest == rest;
      after := cls;
    } else {
      assert PrintItems(items) + rest == PrintItem(items[0]) + (PrintItems(items[1..]) + rest);
      after := CrossItem(items[0], PrintItems(items[1..]) + rest, cls);
      after := CrossItems(items[1..], rest, after);
    }
  }

  /** A valid pattern never begins with a question mark, so "(" before it opens a plain group. */
  lemma {:induction false} NoLeadingQuestion(re: Re)
    requires WellFormed(re)
    ensures Print(re) == "" || Print(re)[0] != '?'
    ensures !re.Empty? && !re.Then? && !re.Or? && !re.Quantified? ==> Print(re) != ""
  {
    match re
    case Quantified(atom, _) => NoLeadingQuestion(atom);
    case Then(a, b) => NoLeadingQuestion(a); NoLeadingQuestion(b);
    case Or(a, b) => NoLeadingQuestion(a); NoLeadingQuestion(b);
    case _ =>
  }

  lemma OpenPlain(tail: string)
    requires tail != "" && tail[0] != '?'
    ensures Scan("(" + tail, false, false) == 1 + Scan(tail, false, false)
  {
    var s := "(" + tail;
    assert s[1..] == tail && s[1] == tail[0];
  }

  lemma OpenNamed(name: seq<Part>, tail: string)
    requires KindOk(Named(name))
    ensures Scan("(" + (PrintKind(Named(name)) + tail), false, false) == 1 + Scan(tail, false, false)
  {
    hide PartOk;
    var parts := PrintParts(name);
    var s := "(" + (PrintKind(Named(name)) + tail);
    var t := parts + (">" + tail);
    assert s[1..] == "?<" + t;
    FirstOfName(name);
    assert s[1] == '?' && s[2] == '<' && s[3] == parts[0];
    CrossInert("?<", t, false);
    NameParts(name);
    CrossParts(name, ">" + tail, false);
    CrossInert(">", tail, false);
  }

  lemma NameParts(name: seq<Part>)
    requires KindOk(Named(name))
    ensures PartsOk(name, "([\\")
  {
    forall i | 0 <= i < |name|
      ensures PartOk(name[i], "([\\")
    {
      assert PartOk(name[i], "()[]\\<>=!?");
    }
  }

  lemma OpenOther(kind: GroupKind, tail: string)
    requires KindOk(kind) && !kind.Capturing? && !kind.Named?
    ensures Scan("(" + (PrintKind(kind) + tail), false, false) == Scan(tail, false, false)
  {
    var s := "(" + (PrintKind(kind) + tail);
    assert s[1..] == PrintKind(kind) + tail;
    assert s[1] == PrintKind(kind)[0] == '?' && s[2] == PrintKind(kind)[1];
    if kind.LookBehind? {
      assert s[3] == PrintKind(kind)[2];
    }
    CrossInert(PrintKind(kind), tail, false);
  }

  lemma FirstOfName(name: seq<Part>)
    requires KindOk(Named(name))
    ensures var s := PrintParts(name); s != "" && s[0] != '=' && s[0] != '!'
  {
    assert PartOk(name[0], "()[]\\<>=!?");
  }

  lemma CrossGroup(kind: GroupKind, body: Re, rest: string)
    requires KindOk(kind) && (Print(body) == "" || Print(body)[0] != '?')
    requires Scan(Print(body) + (")" + rest), false, false) == Groups(body) + Scan(")" + rest, false, false)
    ensures var re := Group(kind, body);
      Scan(Print(re) + rest, false, false) == Groups(re) + Scan(rest, false, false)
  {
    hide KindOk, PrintKind, Counts;
    var re := Group(kind, body);
    var tail := Print(body) + (")" + rest);
    assert Print(re) + rest == "(" + (PrintKind(kind) + tail);
    CloseGroup(rest);
    match kind
    case Capturing =>
      CapturingPrintsNothing();
      assert PrintKind(kind) + tail == tail;
      OpenPlain(tail);
    case Named(name) => OpenNamed(name, tail);
    case _ => OpenOther(kind, tail);
  }

  lemma CapturingPrintsNothing()
    ensures PrintKind(Capturing) == ""
  {
  }

  lemma CloseGroup(rest: string)
    ensures Scan(")" + rest, false, false) == Scan(rest, false, false)
  {
    assert (")" + rest)[1..] == rest;
  }

  lemma CrossSingle(p: Part, rest: string)
    requires PartOk(p, "()[\\?*+|")
    ensures Scan(PrintPart(p) + rest, false, false) == Scan(rest, false, false)
  {
    CrossPart(p, rest, false);
  }

  lemma CrossClass(negated: bool, parts: seq<Part>, rest: string)
    requires PartsOk(parts, "]\\")
    ensures Scan(Print(Class(negated, parts)) + rest, false, false) == Scan(rest, false, false)
  {
    OpenClass(negated, PrintParts(parts), rest, false);
    CrossParts(parts, "]" + rest, true);
    CloseClass(rest, true);
  }

  lemma CrossBar(a: Re, b: Re, rest: string)
    ensures Print(Or(a, b)) + rest == Print(a) + ("|" + (Print(b) + rest))
    ensures Scan("|" + (Print(b) + rest), false, false) == Scan(Print(b) + rest, false, false)
  {
    hide Print;
    PrintOr(a, b);
    BarBetween(Print(a), Print(b), rest);
    ScanBar(Print(b) + rest);
  }

  lemma PrintOr(a: Re, b: Re)
    ensures Print(Or(a, b)) == Print(a) + "|" + Print(b)
  {
  }

  lemma BarBetween(x: string, y: string, rest: string)
    ensures x + "|" + y + rest == x + ("|" + (y + rest))
  {
  }

  lemma ScanBar(rest: string)
    ensures Scan("|" + rest, false, false) == Scan(rest, false, false)
  {
    assert ("|" + rest)[1..] == rest;
  }

  lemma {:induction false} Cross(re: Re, rest: string)
    requires WellFormed(re)
    ensures Scan(Print(re) + rest, false, false) == Groups(re) + Scan(rest, false, false)
    decreases re
  {
    hide Scan, Counts, Inert, PartOk, PartsOk, ItemOk, PrintPart, PrintParts, PrintItem, PrintKind, KindOk;
    match re
    case Empty =>
      assert Print(re) + rest == rest;
    case Single(p) =>
      CrossSingle(p, rest);
    case Class(negated, parts) =>
      CrossClass(negated, parts, rest);
    case SetClass(item) =>
      var after := CrossItem(item, rest, false);
    case Group(kind, body) =>
      NoLeadingQuestion(body);
      Cross(body, ")" + rest);
      CrossGroup(kind, body, rest);
    case Quantified(atom, suffix) =>
      assert Print(re) + rest == Print(atom) + (suffix + rest);
      Cross(atom, suffix + rest);
      CrossInert(suffix, rest, false);
    case Then(a, b) =>
      assert Print(re) + rest == Print(a) + (Print(b) + rest);
      Cross(a, Print(b) + rest);
      Cross(b, rest);
    case Or(a, b) =>
      Cross(a, "|" + (Print(b) + rest));
      Cross(b, rest);
      CrossBar(a, b, rest);
  }

  /** For every valid pattern the scan of its source counts its capturing groups. */
  lemma ScanCountsGroups(re: Re)
    requires WellFormed(re)
    ensures Scan(Print(re), false, false) == Groups(re)
  {
    Cross(re, "");
    assert Print(re) + "" == Print(re);
  }

  /** Which texts the kinds of group open with; any of them may be empty. */
  lemma KindsOfGroup(kind: GroupKind)
    requires !kind.Named? && !kind.Modifiers?
    ensures WellFormed(Group(kind, Empty))
    ensures PrintKind(kind) == match kind
      case NonCapturing => "?:"
      case LookAhead(negated) => "?" + (if negated then "!" else "=")
      case LookBehind(negated) => "?<" + (if negated then "!" else "=")
      case _ => ""
  {
  }

  lemma ModifiersAllowed(flag: char)
    requires 'a' <= flag <= 'z'
    ensures KindOk(Modifiers(['-', flag])) && KindOk(Modifiers([flag]))
  {
  }
}
