/** What the text of a cron expression means, told from its syntax tree. */
module CronSyntax {
  import opened Wrappers
  import opened Text
  import opened CronField
  import D = Decimal

  datatype Body = Star | Single(n: nat) | Span(a: nat, b: nat)

  /** One comma piece, with or without its step. */
  datatype Part = Part(body: Body, step: Option<nat>)

  function PrintBody(b: Body): string {
    match b
    case Star => "*"
    case Single(n) => D.Print(n)
    case Span(a, b) => D.Print(a) + "-" + D.Print(b)
  }

  function PrintPart(p: Part): string {
    if p.step.None? then PrintBody(p.body) else PrintBody(p.body) + "/" + D.Print(p.step.value)
  }

  function PrintParts(ps: seq<Part>): string
    requires ps != []
  {
    if |ps| == 1 then PrintPart(ps[0]) else PrintPart(ps[0]) + "," + PrintParts(ps[1..])
  }

  // ----- what a tree denotes -----

  function First(b: Body, min: int): int {
    match b case Star => min case Single(n) => n case Span(a, _) => a
  }

  function Last(b: Body, max: int): int {
    match b case Star => max case Single(n) => n case Span(_, b) => b
  }

  function StepOf(p: Part): nat {
    if p.step.None? then 1 else p.step.value
  }

  /** The step is positive, and finite as a binary64 number; the bounds are in order and in range. */
  predicate Allowed(p: Part, min: int, max: int) {
    0 < StepOf(p) < FINITE_LIMIT && min <= First(p.body, min) <= Last(p.body, max) <= max
  }

  /** v is start + k * step for some k, and not past the end. */
  ghost predicate Holds(p: Part, min: int, max: int, v: int) {
    v <= Last(p.body, max) && exists k: nat :: v == Term(First(p.body, min), StepOf(p), k)
  }

  ghost predicate AnyHolds(ps: seq<Part>, min: int, max: int, v: int) {
    exists i :: 0 <= i < |ps| && Holds(ps[i], min, max, v)
  }

  predicate AllAllowed(ps: seq<Part>, min: int, max: int) {
    forall i :: 0 <= i < |ps| ==> Allowed(ps[i], min, max)
  }

  /** The value set of a field that denotes its parts. */
  ghost predicate Denoted(s: set<int>, ps: seq<Part>, min: int, max: int) {
    forall v :: v in s <==> AnyHolds(ps, min, max, v)
  }

  // ----- one part -----

  predicate Plain(s: string) {
    s != "" && '/' !in s && ',' !in s && NoSpace(s)
  }

  lemma DecimalIsPlain(n: nat)
    ensures Plain(D.Print(n)) && '-' !in D.Print(n) && D.Print(n)[0] != '*'
  {
    var s := D.Print(n);
    assert forall i :: 0 <= i < |s| ==> D.IsDigit(s[i]);
  }

  lemma BodyIsPlain(b: Body)
    ensures Plain(PrintBody(b))
  {
    hide D.Print;
    match b
    case Star =>
    case Single(n) => DecimalIsPlain(n);
    case Span(a, b) =>
      DecimalIsPlain(a);
      DecimalIsPlain(b);
  }

  /** parseInt of a numeral: its number, as long as that is finite. */
  lemma NumeralReads(n: nat)
    ensures ParseInt(D.Print(n)) == if n < FINITE_LIMIT then Some(n) else None
  {
    var s := D.Print(n);
    assert D.IsDigit(s[0]);
    assert DropSpaces(s) == s;
    DigitPrefixAll(s);
    assert s[..|s|] == s;
    D.ValueOfPrint(n);
  }

  /** A body that is not finite or not in order is refused; any other gives its bounds. */
  lemma BodyReads(b: Body, min: int, max: int)
    requires max < FINITE_LIMIT
    ensures var r := ReadRange(PrintBody(b), min, max);
      && (r.Ok? ==> r.value == (First(b, min), Last(b, max)))
      && (r.Bad? ==> !(min <= First(b, min) <= Last(b, max) <= max))
  {
    hide D.Print, ParseInt;
    match b
    case Star =>
    case Single(n) =>
      DecimalIsPlain(n);
      NumeralReads(n);
    case Span(x, y) =>
      DecimalIsPlain(x);
      DecimalIsPlain(y);
      NumeralReads(x);
      NumeralReads(y);
      SplitSpan(D.Print(x), D.Print(y));
  }

  lemma SplitSpan(x: string, y: string)
    requires '-' !in x && '-' !in y && x != "" && x[0] != '*'
    ensures var s := x + "-" + y; '-' in s && s != "*" && s != "" && Split(s, '-') == [x, y]
  {
    var s := x + "-" + y;
    assert s[|x|] == '-' && s[0] == x[0];
    SplitJoined(x, y, '-');
    assert x + ['-'] + y == s;
  }

  /** The piece a step and a range make. */
  function Assembled(step: Option<int>, range: Parsed<(int, int)>, min: int, max: int): Piece {
    if step.None? || step.value <= 0 then Bad(InvalidStep)
    else if range.Bad? then Bad(range.error)
    else if range.value.0 < min || range.value.1 > max || range.value.0 > range.value.1 then Bad(OutOfRange)
    else Ok(Progression(range.value.0, range.value.1, step.value))
  }

  lemma PieceWithStep(body: string, n: string, min: int, max: int)
    requires '/' !in body
    ensures ReadPiece(body + "/" + n, min, max) == Assembled(ParseInt(n), ReadRange(body, min, max), min, max)
  {
    hide ParseInt, ReadRange, IndexOf;
    var s := body + "/" + n;
    assert s[|body|] == '/' && s[..|body|] == body && s[|body| + 1..] == n;
    FirstIndex(s, '/', |body|);
  }

  lemma PieceWithoutStep(body: string, min: int, max: int)
    requires '/' !in body
    ensures ReadPiece(body, min, max) == Assembled(Some(1), ReadRange(body, min, max), min, max)
  {
    hide ParseInt, ReadRange, IndexOf;
  }

  lemma PartReads(p: Part, min: int, max: int)
    requires max < FINITE_LIMIT
    ensures var r := ReadPiece(PrintPart(p), min, max);
      && (r.Ok? <==> Allowed(p, min, max))
      && (r.Ok? ==> r.value == Progression(First(p.body, min), Last(p.body, max), StepOf(p)))
  {
    hide D.Print, ParseInt, ReadRange, PrintBody, ReadPiece, First, Last;
    BodyIsPlain(p.body);
    BodyReads(p.body, min, max);
    if p.step.Some? {
      NumeralReads(p.step.value);
      PieceWithStep(PrintBody(p.body), D.Print(p.step.value), min, max);
    } else {
      PieceWithoutStep(PrintBody(p.body), min, max);
    }
  }

  lemma PartHolds(p: Part, min: int, max: int, v: int)
    requires Allowed(p, min, max)
    ensures v in Denotes(First(p.body, min), Last(p.body, max), StepOf(p)) <==> Holds(p, min, max, v)
  {
    hide First, Last, StepOf;
    var start, end, step := First(p.body, min), Last(p.body, max), StepOf(p);
    ProgressionValues(start, end, step, v);
    if v in Denotes(start, end, step) {
      var k: nat :| v == Term(start, step, k);
    }
    if Holds(p, min, max, v) {
      var k: nat :| v == Term(start, step, k);
      TermGrows(start, step, k);
    }
  }

  // ----- fields -----

  lemma PartIsPlain(p: Part)
    ensures PrintPart(p) != "" && ',' !in PrintPart(p) && NoSpace(PrintPart(p))
  {
    hide D.Print, PrintBody;
    BodyIsPlain(p.body);
    if p.step.Some? {
      DecimalIsPlain(p.step.value);
    }
  }

  lemma OnePart(p: Part, min: int, max: int)
    requires max < FINITE_LIMIT
    ensures var r := FieldMeaning(PrintPart(p), min, max);
      && (r.Ok? <==> Allowed(p, min, max))
      && (r.Ok? ==> r.value == Denotes(First(p.body, min), Last(p.body, max), StepOf(p)))
  {
    hide PrintPart, ReadPiece, First, Last, StepOf;
    PartIsPlain(p);
    PartReads(p, min, max);
    var s := PrintPart(p);
    assert Split(s, ',') == [s];
    var piece := ReadPiece(s, min, max);
    assert FieldPieces(s, min, max) == [piece];
    assert Union([piece][1..]) == Ok({});
    assert PieceValues(piece) + {} == PieceValues(piece);
  }

  /**
   * A field parses iff each of its parts is allowed; then it holds exactly the values of the form
   * start + k * step, up to the end, of its parts.
   */
  lemma {:induction false} FieldMeansTree(ps: seq<Part>, min: int, max: int)
    requires ps != [] && max < FINITE_LIMIT
    ensures var r := FieldMeaning(PrintParts(ps), min, max);
      && (r.Ok? <==> AllAllowed(ps, min, max))
      && (r.Ok? ==> Denoted(r.value, ps, min, max))
  {
    hide FieldMeaning, PrintPart, Holds, Denotes, First, Last, StepOf;
    OnePart(ps[0], min, max);
    if Allowed(ps[0], min, max) {
      forall v
        ensures v in Denotes(First(ps[0].body, min), Last(ps[0].body, max), StepOf(ps[0]))
          <==> Holds(ps[0], min, max, v)
      {
        PartHolds(ps[0], min, max, v);
      }
    }
    if |ps| == 1 {
      assert forall v :: AnyHolds(ps, min, max, v) <==> Holds(ps[0], min, max, v);
    } else {
      var rest := ps[1..];
      FieldMeansTree(rest, min, max);
      CommaIsUnion(PrintPart(ps[0]), PrintParts(rest), min, max);
      assert forall i :: 0 <= i < |rest| ==> rest[i] == ps[i + 1];
      assert AllAllowed(ps, min, max) <==> Allowed(ps[0], min, max) && AllAllowed(rest, min, max) by {
        assert forall i :: 1 <= i < |ps| ==> ps[i] == rest[i - 1];
      }
      forall v
        ensures AnyHolds(ps, min, max, v) <==> Holds(ps[0], min, max, v) || AnyHolds(rest, min, max, v)
      {
        AnyOfRest(ps, min, max, v);
      }
    }
  }

  lemma AnyOfRest(ps: seq<Part>, min: int, max: int, v: int)
    requires ps != []
    ensures AnyHolds(ps, min, max, v) <==> Holds(ps[0], min, max, v) || AnyHolds(ps[1..], min, max, v)
  {
    hide Holds;
    var rest := ps[1..];
    if AnyHolds(ps, min, max, v) {
      var i :| 0 <= i < |ps| && Holds(ps[i], min, max, v);
      if i > 0 {
        assert Holds(rest[i - 1], min, max, v);
      }
    }
    if AnyHolds(rest, min, max, v) {
      var i :| 0 <= i < |rest| && Holds(rest[i], min, max, v);
      assert Holds(ps[i + 1], min, max, v);
    }
  }

  // ----- whole expressions -----

  datatype Tree = Tree(
    minute: seq<Part>, hour: seq<Part>, dayOfMonth: seq<Part>, month: seq<Part>, dayOfWeek: seq<Part>)

  predicate NoneEmpty(t: Tree) {
    t.minute != [] && t.hour != [] && t.dayOfMonth != [] && t.month != [] && t.dayOfWeek != []
  }

  predicate Gap(s: string) {
    s != "" && IsSpaces(s)
  }

  /** One word, a gap, and the rest. */
  lemma {:induction false} WordThenGap(w: string, gap: string, rest: string, piece: string)
    requires NoSpace(w) && Gap(gap) && rest != "" && !IsSpace(rest[0])
    ensures SplitRuns(w + (gap + rest), piece) == [piece + w] + SplitRuns(rest, "")
    decreases |w|
  {
    var s := w + (gap + rest);
    if w == "" {
      assert s == gap + rest && s[0] == gap[0];
      assert s[1..] == gap[1..] + rest;
      DropGap(gap[1..], rest);
      assert piece + w == piece;
    } else {
      assert s[0] == w[0] && s[1..] == w[1..] + (gap + rest);
      assert piece + [w[0]] + w[1..] == piece + w;
      WordThenGap(w[1..], gap, rest, piece + [w[0]]);
    }
  }

  lemma {:induction false} PartsAreWord(ps: seq<Part>)
    requires ps != []
    ensures Word(PrintParts(ps))
  {
    hide PrintPart;
    PartIsPlain(ps[0]);
    if |ps| == 1 {
    } else {
      PartsAreWord(ps[1..]);
    }
  }

  /** Words with gaps between them, first to last. */
  function Joined(words: seq<string>, gaps: seq<string>): string
    requires words != [] && |gaps| == |words| - 1
    decreases |words|
  {
    if |words| == 1 then words[0] else words[0] + (gaps[0] + Joined(words[1..], gaps[1..]))
  }

  lemma {:induction false} SplitWords(words: seq<string>, gaps: seq<string>)
    requires words != [] && |gaps| == |words| - 1
    requires (forall i :: 0 <= i < |words| ==> Word(words[i])) && forall i :: 0 <= i < |gaps| ==> Gap(gaps[i])
    ensures var s := Joined(words, gaps);
      s != "" && !IsSpace(s[0]) && !IsSpace(s[|s| - 1]) && SplitRuns(s, "") == words
    decreases |words|
  {
    var w := words[0];
    assert Word(w) && "" + w == w;
    if |words| == 1 {
      SplitRunsLast(w, "");
    } else {
      var rest := Joined(words[1..], gaps[1..]);
      SplitWords(words[1..], gaps[1..]);
      WordThenGap(w, gaps[0], rest, "");
      assert [w] + words[1..] == words;
      var s := w + (gaps[0] + rest);
      assert s[|s| - 1] == rest[|rest| - 1] && s[0] == w[0];
    }
  }

  function Words(t: Tree): seq<string>
    requires NoneEmpty(t)
  {
    [PrintParts(t.minute), PrintParts(t.hour), PrintParts(t.dayOfMonth), PrintParts(t.month), PrintParts(t.dayOfWeek)]
  }

  lemma TreeSplits(t: Tree, before: string, gaps: seq<string>, after: string)
    requires NoneEmpty(t) && |gaps| == 4 && forall i :: 0 <= i < 4 ==> Gap(gaps[i])
    requires IsSpaces(before) && IsSpaces(after)
    ensures SplitRuns(Trim(before + (Joined(Words(t), gaps) + after)), "") == Words(t)
  {
    hide PrintParts, Joined, SplitRuns;
    PartsAreWord(t.minute);
    PartsAreWord(t.hour);
    PartsAreWord(t.dayOfMonth);
    PartsAreWord(t.month);
    PartsAreWord(t.dayOfWeek);
    SplitWords(Words(t), gaps);
    var s := Joined(Words(t), gaps);
    assert (s + after)[0] == s[0];
    DropGap(before, s + after);
    DropGapAtEnd(s, after);
  }

  /** All five fields are allowed within the ranges of a cron expression. */
  predicate TreeAllowed(t: Tree) {
    AllAllowed(t.minute, 0, 59) && AllAllowed(t.hour, 0, 23) && AllAllowed(t.dayOfMonth, 1, 31)
    && AllAllowed(t.month, 1, 12) && AllAllowed(t.dayOfWeek, 0, 6)
  }

  /**
   * An expression of five fields, with any white space between and around them, parses iff all of
   * them are allowed; then each set holds exactly the values of its field.
   */
  lemma CronMeansTree(t: Tree, before: string, gaps: seq<string>, after: string)
    requires NoneEmpty(t) && |gaps| == 4 && forall i :: 0 <= i < 4 ==> Gap(gaps[i])
    requires IsSpaces(before) && IsSpaces(after)
    ensures var r := CronMeaning(before + (Joined(Words(t), gaps) + after));
      && (r.Ok? <==> TreeAllowed(t))
      && (r.Ok? ==>
        && Denoted(r.value.minute, t.minute, 0, 59) && Denoted(r.value.hour, t.hour, 0, 23)
        && Denoted(r.value.dayOfMonth, t.dayOfMonth, 1, 31) && Denoted(r.value.month, t.month, 1, 12)
        && Denoted(r.value.dayOfWeek, t.dayOfWeek, 0, 6))
  {
    hide PrintParts, Joined, SplitRuns, Trim, FieldMeaning, AllAllowed, Denoted, IsSpaces, Gap;
    TreeSplits(t, before, gaps, after);
    FieldMeansTree(t.minute, 0, 59);
    FieldMeansTree(t.hour, 0, 23);
    FieldMeansTree(t.dayOfMonth, 1, 31);
    FieldMeansTree(t.month, 1, 12);
    FieldMeansTree(t.dayOfWeek, 0, 6);
    var fs := ReadFields(Words(t), RANGES);
    assert forall i :: 0 <= i < 5 ==> fs[i] == FieldMeaning(Words(t)[i], RANGES[i].min, RANGES[i].max);
    AllFive(fs);
  }

  lemma AllFive(fs: seq<Field>)
    requires |fs| == 5
    ensures All(fs).Ok? <==> fs[0].Ok? && fs[1].Ok? && fs[2].Ok? && fs[3].Ok? && fs[4].Ok?
    ensures All(fs).Ok? ==> |All(fs).value| == 5 && forall i :: 0 <= i < 5 ==> fs[i] == Ok(All(fs).value[i])
  {
  }

  /** An expression of another number of words is refused. */
  lemma OtherCountsRefused(words: seq<string>, before: string, gaps: seq<string>, after: string)
    requires words != [] && |words| != 5 && |gaps| == |words| - 1
    requires (forall i :: 0 <= i < |words| ==> Word(words[i])) && forall i :: 0 <= i < |gaps| ==> Gap(gaps[i])
    requires IsSpaces(before) && IsSpaces(after)
    ensures CronMeaning(before + (Joined(words, gaps) + after)) == Bad(FieldCount)
  {
    hide Joined, SplitRuns;
    SplitWords(words, gaps);
    var s := Joined(words, gaps);
    assert (s + after)[0] == s[0];
    DropGap(before, s + after);
    DropGapAtEnd(s, after);
  }

  // ----- what is not a numeral -----

  /** parseInt reads an optional sign and the digits, and leaves the rest. */
  lemma ParseIntReads(gap: string, sign: string, digits: string, rest: string)
    requires IsSpaces(gap) && sign in {"", "+", "-"} && D.AllDigits(digits)
    requires rest == "" || !D.IsDigit(rest[0])
    requires digits == "" && sign == "" ==> rest == "" || (!IsSpace(rest[0]) && rest[0] != '-' && rest[0] != '+')
    ensures ParseInt(gap + (sign + (digits + rest))) ==
      var value: int := D.Value(digits);
      if digits == "" || value >= FINITE_LIMIT then None else Some(if sign == "-" then -value else value)
  {
    hide D.Value, DigitPrefix;
    var body := digits + rest;
    var t := sign + body;
    PrefixOf(digits, rest);
    assert body[..|digits|] == digits;
    assert digits != "" ==> body[0] == digits[0] && D.IsDigit(body[0]);
    if t == "" {
      AllGap(gap);
      assert gap + t == gap;
    } else {
      assert sign == "" ==> t == body;
      assert sign != "" ==> t[0] == sign[0] && t[1..] == body;
      DropGap(gap, t);
    }
  }

  lemma {:induction false} AllGap(gap: string)
    requires IsSpaces(gap)
    ensures DropSpaces(gap) == ""
  {
    if gap == "" {
    } else {
      AllGap(gap[1..]);
    }
  }

  /** Of a range with more than one hyphen only the first two numbers count. */
  lemma ThirdNumberIgnored(x: string, y: string, z: string, min: int, max: int)
    requires '-' !in x && '-' !in y
    ensures ReadRange(x + "-" + y + "-" + z, min, max) == ReadRange(x + "-" + y, min, max)
  {
    hide ParseInt, Split;
    HyphenSplits(x, y + "-" + z);
    HyphenSplits(x, y);
    HyphenSplits(y, z);
    NoHyphen(y);
    assert x + "-" + y + "-" + z == x + "-" + (y + "-" + z);
  }

  lemma NoHyphen(x: string)
    requires '-' !in x
    ensures Split(x, '-') == [x]
  {
  }

  lemma HyphenSplits(x: string, y: string)
    requires '-' !in x
    ensures var s := x + "-" + y;
      '-' in s && s != "" && s != "*" && Split(s, '-') == [x] + Split(y, '-')
  {
    hide Split;
    var s := x + "-" + y;
    assert s == x + ['-'] + y && s[|x|] == '-';
    SplitJoined(x, y, '-');
    NoHyphen(x);
  }

  /** The first thing that is wrong decides the error: the step, then the numbers, then their bounds. */
  lemma ErrorIs(body: string, n: string, min: int, max: int)
    requires '/' !in body
    ensures var r, step := ReadPiece(body + "/" + n, min, max), ParseInt(n);
      && (step.None? || step.value <= 0 ==> r == Bad(InvalidStep))
      && (step.Some? && step.value > 0 ==> (
        && (body != "" && body != "*" && '-' !in body && ParseInt(body).None? ==> r == Bad(InvalidValue))
        && (body != "" && body != "*" && '-' !in body && ParseInt(body).Some? ==>
              (r == Bad(OutOfRange) <==> !(min <= ParseInt(body).value <= max)))))
  {
    hide ParseInt, ReadPiece;
    PieceWithStep(body, n, min, max);
  }
}
