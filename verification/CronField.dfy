/** The five-field cron parser: text in, five sets of integers out. */
module CronField {
  import opened Wrappers
  import opened Text
  import D = Decimal

  datatype CronError = FieldCount | InvalidStep | InvalidRange | InvalidValue | OutOfRange
  datatype Parsed<+T> = Ok(value: T) | Bad(error: CronError)

  /** start, start + step, ... up to end. */
  datatype Progression = Progression(start: int, end: int, step: int)
  type Piece = Parsed<Progression>

  predicate Sound(p: Piece, min: int, max: int) {
    p.Ok? ==> min <= p.value.start <= p.value.end <= max && p.value.step > 0
  }

  function Denotes(start: int, end: int, step: int): set<int>
    requires step > 0
    decreases end - start
  {
    if start > end then {} else {start} + Denotes(start + step, end, step)
  }

  function PieceValues(p: Piece): set<int> {
    if p.Ok? && p.value.step > 0 then Denotes(p.value.start, p.value.end, p.value.step) else {}
  }

  /** One comma piece. An empty body counts as a star, so "1," and "/5" are accepted. */
  function ReadPiece(piece: string, min: int, max: int): (r: Piece)
    ensures Sound(r, min, max)
  {
    var slash := IndexOf(piece, '/');
    var step := if slash >= 0 then ParseInt(piece[slash + 1..]) else Some(1);
    if step.None? || step.value <= 0 then Bad(InvalidStep)
    else
      var range := ReadRange(if slash >= 0 then piece[..slash] else piece, min, max);
      if range.Bad? then Bad(range.error)
      else
        var (first, last) := range.value;
        if first < min || last > max || first > last then Bad(OutOfRange)
        else Ok(Progression(first, last, step.value))
  }

  function ReadRange(body: string, min: int, max: int): Parsed<(int, int)> {
    if body == "*" || body == "" then Ok((min, max))
    else if '-' in body then
      var parts := Split(body, '-');
      var a, b := ParseInt(parts[0]), ParseInt(parts[1]);
      if a.None? || b.None? then Bad(InvalidRange) else Ok((a.value, b.value))
    else
      var v := ParseInt(body);
      if v.None? then Bad(InvalidValue) else Ok((v.value, v.value))
  }

  function ReadPieces(parts: seq<string>, min: int, max: int): (ps: seq<Piece>)
    ensures |ps| == |parts|
    ensures forall i :: 0 <= i < |ps| ==> ps[i] == ReadPiece(parts[i], min, max) && Sound(ps[i], min, max)
  {
    seq(|parts|, i requires 0 <= i < |parts| => ReadPiece(parts[i], min, max))
  }

  /** The union of the pieces, or the first error. */
  function Union(ps: seq<Piece>): Parsed<set<int>> {
    if ps == [] then Ok({})
    else if ps[0].Bad? then Bad(ps[0].error)
    else Merge(PieceValues(ps[0]), Union(ps[1..]))
  }

  function Merge(s: set<int>, r: Parsed<set<int>>): Parsed<set<int>> {
    if r.Bad? then r else Ok(s + r.value)
  }

  function FieldPieces(token: string, min: int, max: int): seq<Piece> {
    ReadPieces(Split(token, ','), min, max)
  }

  function FieldMeaning(token: string, min: int, max: int): Parsed<set<int>> {
    Union(FieldPieces(token, min, max))
  }

  lemma MergeTwice(s: set<int>, t: set<int>, r: Parsed<set<int>>)
    ensures Merge(s, Merge(t, r)) == Merge(s + t, r)
    ensures Merge({}, r) == r
  {
    if r.Ok? {
      assert s + (t + r.value) == s + t + r.value;
      assert {} + r.value == r.value;
    }
  }

  /** parseField: grows a set, piece by piece and value by value. */
  method ParseField(token: string, min: int, max: int) returns (r: Parsed<set<int>>)
    ensures r == FieldMeaning(token, min, max)
  {
    var out: set<int> := {};
    var parts := Split(token, ',');
    ghost var ps := ReadPieces(parts, min, max);
    MergeTwice({}, {}, Union(ps));
    assert ps[0..] == ps;
    for i := 0 to |parts|
      invariant Union(ps) == Merge(out, Union(ps[i..]))
    {
      var piece := ReadPiece(parts[i], min, max);
      assert piece == ps[i..][0];
      if piece.Bad? {
        return Bad(piece.error);
      }
      assert ps[i..][1..] == ps[i + 1..];
      MergeTwice(out, PieceValues(piece), Union(ps[i + 1..]));
      out := AddProgression(out, piece.value);
    }
    r := Ok(out);
    assert out + {} == out;
  }

  method AddProgression(before: set<int>, p: Progression) returns (out: set<int>)
    requires p.step > 0
    ensures out == before + Denotes(p.start, p.end, p.step)
  {
    out := before;
    var v := p.start;
    while v <= p.end
      invariant before + Denotes(p.start, p.end, p.step) == out + Denotes(v, p.end, p.step)
      decreases p.end - v
    {
      out := out + {v};
      v := v + p.step;
    }
  }

  // ----- what a field denotes -----

  /** A progression denotes exactly start + k * step within its bounds. */
  lemma {:induction false} ProgressionValues(start: int, end: int, step: int, v: int)
    requires step > 0
    ensures v in Denotes(start, end, step) <==> start <= v <= end && exists k: nat :: v == Term(start, step, k)
    decreases end - start
  {
    if start > end {
    } else {
      ProgressionValues(start + step, end, step, v);
      if v in Denotes(start + step, end, step) {
        var k: nat :| v == Term(start + step, step, k);
        TermNext(start, step, k);
        assert v == Term(start, step, k + 1);
        TermGrows(start, step, k + 1);
      }
      assert start == Term(start, step, 0);
      if start <= v <= end && exists k: nat :: v == Term(start, step, k) {
        var k: nat :| v == Term(start, step, k);
        if k > 0 {
          TermNext(start, step, k - 1);
          assert v == Term(start + step, step, k - 1);
          TermGrows(start + step, step, k - 1);
        }
      }
    }
  }

  function Term(start: int, step: int, k: nat): int {
    start + k * step
  }

  lemma TermNext(start: int, step: int, k: nat)
    ensures Term(start + step, step, k) == Term(start, step, k + 1)
  {
    assert (k + 1) * step == k * step + step;
  }

  lemma TermGrows(start: int, step: int, k: nat)
    requires step > 0
    ensures Term(start, step, k) >= start
  {
  }

  predicate From(ps: seq<Piece>, v: int) {
    exists i :: 0 <= i < |ps| && v in PieceValues(ps[i])
  }

  lemma {:induction false} UnionValues(ps: seq<Piece>)
    ensures Union(ps).Ok? <==> forall i :: 0 <= i < |ps| ==> ps[i].Ok?
    ensures Union(ps).Ok? ==> forall v :: v in Union(ps).value <==> From(ps, v)
  {
    if ps == [] {
    } else {
      var rest := ps[1..];
      UnionValues(rest);
      assert forall i :: 0 <= i < |rest| ==> rest[i] == ps[i + 1];
      assert (forall i :: 0 <= i < |ps| ==> ps[i].Ok?) <==> ps[0].Ok? && forall i :: 0 <= i < |rest| ==> rest[i].Ok?
      by {
        assert forall i :: 1 <= i < |ps| ==> ps[i] == rest[i - 1];
      }
      forall v
        ensures From(ps, v) <==> v in PieceValues(ps[0]) || From(rest, v)
      {
        if From(rest, v) {
          var i :| 0 <= i < |rest| && v in PieceValues(rest[i]);
          assert v in PieceValues(ps[i + 1]);
        }
        if From(ps, v) {
          var i :| 0 <= i < |ps| && v in PieceValues(ps[i]);
          if i > 0 {
            assert v in PieceValues(rest[i - 1]);
          }
        }
      }
    }
  }

  /**
   * A field parses iff each of its comma pieces does, and is then a non-empty subset of
   * [min, max]: the union of the pieces' arithmetic progressions.
   */
  lemma FieldIsUnion(token: string, min: int, max: int)
    ensures var r := FieldMeaning(token, min, max); var ps := FieldPieces(token, min, max);
      && (r.Ok? <==> forall i :: 0 <= i < |ps| ==> ps[i].Ok?)
      && (r.Ok? ==> r.value != {} && InBounds(r.value, min, max) && forall v :: v in r.value <==> From(ps, v))
  {
    var ps := FieldPieces(token, min, max);
    UnionValues(ps);
    var r := Union(ps);
    if r.Ok? {
      var p := ps[0].value;
      assert p.start in PieceValues(ps[0]);
      assert From(ps, p.start);
      forall v | v in r.value
        ensures min <= v <= max
      {
        var i :| 0 <= i < |ps| && v in PieceValues(ps[i]);
        ProgressionValues(ps[i].value.start, ps[i].value.end, ps[i].value.step, v);
      }
    }
  }

  predicate InBounds(s: set<int>, min: int, max: int) {
    forall v :: v in s ==> min <= v <= max
  }

  lemma {:induction false} UnionOfConcat(a: seq<Piece>, b: seq<Piece>)
    ensures Union(a + b) == if Union(a).Bad? then Union(a) else Merge(Union(a).value, Union(b))
  {
    if a == [] {
      assert a + b == b;
      MergeTwice({}, {}, Union(b));
    } else {
      assert (a + b)[1..] == a[1..] + b;
      UnionOfConcat(a[1..], b);
      if a[0].Ok? && Union(a[1..]).Ok? {
        MergeTwice(PieceValues(a[0]), Union(a[1..]).value, Union(b));
      }
    }
  }

  lemma ReadPiecesOfConcat(x: seq<string>, y: seq<string>, min: int, max: int)
    ensures ReadPieces(x + y, min, max) == ReadPieces(x, min, max) + ReadPieces(y, min, max)
  {
  }

  /** "a,b" denotes the union of what a and b denote, and fails iff either fails. */
  lemma CommaIsUnion(a: string, b: string, min: int, max: int)
    ensures var x, y := FieldMeaning(a, min, max), FieldMeaning(b, min, max);
      var r := FieldMeaning(a + "," + b, min, max);
      && (r.Ok? <==> x.Ok? && y.Ok?)
      && (r.Ok? ==> r.value == x.value + y.value)
  {
    SplitJoined(a, b, ',');
    assert a + "," + b == a + [','] + b;
    ReadPiecesOfConcat(Split(a, ','), Split(b, ','), min, max);
    UnionOfConcat(FieldPieces(a, min, max), FieldPieces(b, min, max));
  }

  lemma EveryStep(min: int, max: int, v: int)
    ensures v in Denotes(min, max, 1) <==> min <= v <= max
  {
    hide Denotes;
    ProgressionValues(min, max, 1, v);
    if min <= v <= max {
      assert v == Term(min, 1, v - min);
    }
  }

  lemma EmptyPiece(token: string, min: int, max: int)
    requires token == "" && min <= max
    ensures FieldMeaning(token, min, max) == Ok(Denotes(min, max, 1))
  {
    hide Denotes, ParseInt;
    assert Split(token, ',') == [token];
    var piece := ReadPiece(token, min, max);
    assert piece == Ok(Progression(min, max, 1));
    assert FieldPieces(token, min, max) == [piece];
    assert Union([piece][1..]) == Ok({});
    assert PieceValues(piece) + {} == PieceValues(piece);
  }

  /** An empty piece means the whole range, so a field that ends in a comma does too. */
  lemma EmptyPieceIsWholeRange(a: string, min: int, max: int)
    requires min <= max
    ensures var whole := FieldMeaning("", min, max);
      whole.Ok? && forall v :: v in whole.value <==> min <= v <= max
    ensures var x, r := FieldMeaning(a, min, max), FieldMeaning(a + ",", min, max);
      && (r.Ok? <==> x.Ok?)
      && (r.Ok? ==> forall v :: v in r.value <==> min <= v <= max)
  {
    hide FieldMeaning, FieldPieces, Denotes, From;
    EmptyPiece("", min, max);
    forall v
      ensures v in Denotes(min, max, 1) <==> min <= v <= max
    {
      EveryStep(min, max, v);
    }
    CommaIsUnion(a, "", min, max);
    FieldIsUnion(a, min, max);
    assert a + "," + "" == a + ",";
  }

  // ----- printing -----

  /** A comma list of decimals. */
  function PrintList(vs: seq<nat>): (s: string)
    requires vs != []
    ensures s != ""
    ensures forall i :: 0 <= i < |s| ==> D.IsDigit(s[i]) || s[i] == ','
  {
    if |vs| == 1 then D.Print(vs[0]) else D.Print(vs[0]) + "," + PrintList(vs[1..])
  }

  lemma PieceOfDecimal(v: nat, min: int, max: int)
    requires min <= v <= max && v < FINITE_LIMIT
    ensures FieldMeaning(D.Print(v), min, max) == Ok({v})
  {
    var s := D.Print(v);
    assert forall c :: c in s ==> D.IsDigit(c);
    assert '/' !in s && ',' !in s && '-' !in s;
    assert s[0] != '*';
    ParseIntOfPrint(v);
    var piece := ReadPiece(s, min, max);
    assert piece == Ok(Progression(v, v, 1));
    assert PieceValues(piece) == {v as int} by {
      assert Denotes(v + 1, v, 1) == {};
    }
    assert Split(s, ',') == [s];
    assert FieldPieces(s, min, max) == [piece];
    assert Union([piece][1..]) == Ok({});
    assert {v as int} + {} == {v as int};
  }

  /** Printing values and parsing the text gives the set of values back, in any order, repeats or not. */
  lemma {:induction false} PrintThenParse(vs: seq<nat>, min: int, max: int)
    requires vs != [] && forall i :: 0 <= i < |vs| ==> min <= vs[i] <= max && vs[i] < FINITE_LIMIT
    ensures FieldMeaning(PrintList(vs), min, max) == Ok(Values(vs))
  {
    PieceOfDecimal(vs[0], min, max);
    if |vs| == 1 {
      assert Values(vs) == {vs[0] as int};
    } else {
      PrintThenParse(vs[1..], min, max);
      CommaIsUnion(D.Print(vs[0]), PrintList(vs[1..]), min, max);
    }
  }

  function Values(vs: seq<nat>): set<int> {
    if vs == [] then {} else {vs[0] as int} + Values(vs[1..])
  }

  lemma {:induction false} ValuesContains(vs: seq<nat>, i: nat)
    requires i < |vs|
    ensures vs[i] in Values(vs)
  {
    if i == 0 {
    } else {
      ValuesContains(vs[1..], i - 1);
    }
  }

  // ----- whole expressions -----

  datatype ParsedCron = ParsedCron(minute: set<int>, hour: set<int>, dayOfMonth: set<int>,
                                   month: set<int>, dayOfWeek: set<int>)

  datatype Range = Range(min: nat, max: nat)

  const RANGES: seq<Range> := [Range(0, 59), Range(0, 23), Range(1, 31), Range(1, 12), Range(0, 6)]

  predicate NonEmptyWithin(s: set<int>, r: Range) {
    s != {} && InBounds(s, r.min, r.max)
  }

  /** What parseCron can return: five non-empty sets within their ranges. */
  predicate Valid(p: ParsedCron) {
    NonEmptyWithin(p.minute, Range(0, 59)) && NonEmptyWithin(p.hour, Range(0, 23))
    && NonEmptyWithin(p.dayOfMonth, Range(1, 31)) && NonEmptyWithin(p.month, Range(1, 12))
    && NonEmptyWithin(p.dayOfWeek, Range(0, 6))
  }

  type Field = Parsed<set<int>>

  function ReadFields(parts: seq<string>, ranges: seq<Range>): (fs: seq<Field>)
    requires |parts| == |ranges|
    ensures |fs| == |parts|
    ensures forall i :: 0 <= i < |fs| ==> fs[i] == FieldMeaning(parts[i], ranges[i].min, ranges[i].max)
  {
    seq(|parts|, i requires 0 <= i < |parts| => FieldMeaning(parts[i], ranges[i].min, ranges[i].max))
  }

  /** All fields, or the first error. */
  function All(fs: seq<Field>): (r: Parsed<seq<set<int>>>)
    ensures r.Ok? ==> |r.value| == |fs| && forall i :: 0 <= i < |fs| ==> fs[i] == Ok(r.value[i])
    ensures (forall i :: 0 <= i < |fs| ==> fs[i].Ok?) ==> r.Ok?
  {
    if fs == [] then Ok([])
    else if fs[0].Bad? then Bad(fs[0].error)
    else var rest := All(fs[1..]); if rest.Bad? then rest else Ok([fs[0].value] + rest.value)
  }

  function CronMeaning(expr: string): Parsed<ParsedCron> {
    var parts := SplitRuns(Trim(expr), "");
    if |parts| != 5 then Bad(FieldCount) else Assemble(All(ReadFields(parts, RANGES)))
  }

  function Assemble(r: Parsed<seq<set<int>>>): Parsed<ParsedCron>
    requires r.Ok? ==> |r.value| == 5
  {
    if r.Bad? then Bad(r.error)
    else Ok(ParsedCron(r.value[0], r.value[1], r.value[2], r.value[3], r.value[4]))
  }

  function Prepend(done: seq<set<int>>, r: Parsed<seq<set<int>>>): Parsed<seq<set<int>>> {
    if r.Bad? then r else Ok(done + r.value)
  }

  method ParseCron(expr: string) returns (r: Parsed<ParsedCron>)
    ensures r == CronMeaning(expr)
    ensures r.Ok? ==> Valid(r.value)
  {
    CronIsValid(expr);
    var parts := SplitRuns(Trim(expr), "");
    if |parts| != 5 {
      return Bad(FieldCount);
    }
    var fields := ParseFields(parts, RANGES);
    r := Assemble(fields);
  }

  method ParseFields(parts: seq<string>, ranges: seq<Range>) returns (r: Parsed<seq<set<int>>>)
    requires |parts| == |ranges|
    ensures r == All(ReadFields(parts, ranges))
  {
    ghost var fs := ReadFields(parts, ranges);
    var fields: seq<set<int>> := [];
    assert fs[0..] == fs;
    PrependTwice([], {}, All(fs));
    for i := 0 to |parts|
      invariant |fields| == i
      invariant All(fs) == Prepend(fields, All(fs[i..]))
    {
      var f := ParseField(parts[i], ranges[i].min, ranges[i].max);
      assert f == fs[i..][0] && fs[i..][1..] == fs[i + 1..];
      if f.Bad? {
        return Bad(f.error);
      }
      PrependTwice(fields, f.value, All(fs[i + 1..]));
      fields := fields + [f.value];
    }
    assert fields + [] == fields;
    r := Ok(fields);
  }

  lemma PrependTwice(done: seq<set<int>>, s: set<int>, r: Parsed<seq<set<int>>>)
    ensures Prepend(done, Prepend([s], r)) == Prepend(done + [s], r)
    ensures Prepend([], r) == r
  {
    if r.Ok? {
      assert done + ([s] + r.value) == done + [s] + r.value;
      assert [] + r.value == r.value;
    }
  }

  lemma CronIsValid(expr: string)
    ensures CronMeaning(expr).Ok? ==> Valid(CronMeaning(expr).value)
  {
    var parts := SplitRuns(Trim(expr), "");
    if |parts| == 5 {
      var fs := ReadFields(parts, RANGES);
      forall i | 0 <= i < 5
        ensures fs[i].Ok? ==> NonEmptyWithin(fs[i].value, RANGES[i])
      {
        FieldIsUnion(parts[i], RANGES[i].min, RANGES[i].max);
      }
      if All(fs).Ok? {
        var sets := All(fs).value;
        assert forall i :: 0 <= i < 5 ==> fs[i] == Ok(sets[i]) && NonEmptyWithin(fs[i].value, RANGES[i]);
        assert forall i :: 0 <= i < 5 ==> NonEmptyWithin(sets[i], RANGES[i]);
      }
    }
  }

  // ----- printing whole expressions -----

  function PrintFields(fields: seq<seq<nat>>): (parts: seq<string>)
    requires forall i :: 0 <= i < |fields| ==> fields[i] != []
    ensures |parts| == |fields| && forall i :: 0 <= i < |parts| ==> parts[i] == PrintList(fields[i])
  {
    seq(|fields|, i requires 0 <= i < |fields| => PrintList(fields[i]))
  }

  function JoinSpaces(parts: seq<string>): string
    requires parts != []
  {
    if |parts| == 1 then parts[0] else parts[0] + " " + JoinSpaces(parts[1..])
  }

  predicate Word(w: string) {
    w != "" && NoSpace(w)
  }

  lemma {:induction false} JoinThenSplit(parts: seq<string>)
    requires parts != [] && forall i :: 0 <= i < |parts| ==> Word(parts[i])
    ensures var s := JoinSpaces(parts); s != "" && !IsSpace(s[0]) && !IsSpace(s[|s| - 1]) && SplitRuns(s, "") == parts
  {
    assert Word(parts[0]);
    var w := parts[0];
    assert "" + w == w;
    if |parts| == 1 {
      SplitRunsLast(w, "");
    } else {
      var rest := parts[1..];
      assert forall i :: 0 <= i < |rest| ==> rest[i] in parts && Word(rest[i]);
      JoinThenSplit(rest);
      SplitRunsWord(w, JoinSpaces(parts[1..]), "");
      assert [w] + parts[1..] == parts;
    }
  }

  /** Every valid schedule is the meaning of a text: printing its five sets and parsing gives it back. */
  lemma PrintCronThenParse(p: ParsedCron, fields: seq<seq<nat>>)
    requires Valid(p) && |fields| == 5 && forall i :: 0 <= i < 5 ==> fields[i] != []
    requires Values(fields[0]) == p.minute && Values(fields[1]) == p.hour && Values(fields[2]) == p.dayOfMonth
    requires Values(fields[3]) == p.month && Values(fields[4]) == p.dayOfWeek
    ensures CronMeaning(JoinSpaces(PrintFields(fields))) == Ok(p)
  {
    PrintedText(fields);
    var sets := [p.minute, p.hour, p.dayOfMonth, p.month, p.dayOfWeek];
    forall i | 0 <= i < 5
      ensures FieldMeaning(PrintList(fields[i]), RANGES[i].min, RANGES[i].max) == Ok(sets[i])
    {
      FieldReadsBack(fields[i], sets[i], RANGES[i]);
    }
    FieldsReadBack(fields, sets, RANGES);
  }

  lemma PrintedText(fields: seq<seq<nat>>)
    requires fields != [] && forall i :: 0 <= i < |fields| ==> fields[i] != []
    ensures SplitRuns(Trim(JoinSpaces(PrintFields(fields))), "") == PrintFields(fields)
  {
    var parts := PrintFields(fields);
    forall i | 0 <= i < |parts|
      ensures Word(parts[i])
    {
      assert parts[i] == PrintList(fields[i]);
    }
    JoinThenSplit(parts);
    var s := JoinSpaces(parts);
    assert DropSpaces(s) == s && Trim(s) == s;
  }

  lemma FieldsReadBack(fields: seq<seq<nat>>, sets: seq<set<int>>, ranges: seq<Range>)
    requires |fields| == |sets| == |ranges| && forall i :: 0 <= i < |fields| ==> fields[i] != []
    requires forall i :: 0 <= i < |fields| ==>
        FieldMeaning(PrintList(fields[i]), ranges[i].min, ranges[i].max) == Ok(sets[i])
    ensures All(ReadFields(PrintFields(fields), ranges)) == Ok(sets)
  {
    var parts := PrintFields(fields);
    var fs := ReadFields(parts, ranges);
    assert forall i :: 0 <= i < |fs| ==> parts[i] == PrintList(fields[i]) && fs[i] == Ok(sets[i]);
    assert All(fs).Ok?;
    assert All(fs).value == sets;
  }

  lemma FieldReadsBack(vs: seq<nat>, s: set<int>, r: Range)
    requires vs != [] && Values(vs) == s && NonEmptyWithin(s, r) && r.max < FINITE_LIMIT
    ensures FieldMeaning(PrintList(vs), r.min, r.max) == Ok(s)
  {
    forall i | 0 <= i < |vs|
      ensures r.min <= vs[i] <= r.max
    {
      ValuesContains(vs, i);
    }
    PrintThenParse(vs, r.min, r.max);
  }

  /** The members of s from lo on, up to hi, in order. */
  function Ascending(s: set<int>, lo: nat, hi: nat): (vs: seq<nat>)
    ensures Values(vs) == set v: int | lo <= v <= hi && v in s
    decreases hi + 1 - lo
  {
    if lo > hi then []
    else
      var rest := Ascending(s, lo + 1, hi);
      assert ([lo] + rest)[1..] == rest;
      if lo in s then [lo] + rest else rest
  }

  lemma EnumerateField(s: set<int>, r: Range) returns (vs: seq<nat>)
    requires NonEmptyWithin(s, r)
    ensures vs != [] && Values(vs) == s
  {
    vs := Ascending(s, r.min, r.max);
    assert Values(vs) == s;
  }

  lemma ValidFields(p: ParsedCron)
    requires Valid(p)
    ensures NonEmptyWithin(p.minute, Range(0, 59)) && NonEmptyWithin(p.hour, Range(0, 23))
    ensures NonEmptyWithin(p.dayOfMonth, Range(1, 31)) && NonEmptyWithin(p.month, Range(1, 12))
    ensures NonEmptyWithin(p.dayOfWeek, Range(0, 6))
  {
  }

  /** The parser reaches exactly the valid schedules: this is the other half of CronIsValid. */
  lemma EveryScheduleHasText(p: ParsedCron) returns (expr: string)
    requires Valid(p)
    ensures CronMeaning(expr) == Ok(p)
  {
    hide *;
    ValidFields(p);
    var a := EnumerateField(p.minute, Range(0, 59));
    var b := EnumerateField(p.hour, Range(0, 23));
    var c := EnumerateField(p.dayOfMonth, Range(1, 31));
    var d := EnumerateField(p.month, Range(1, 12));
    var e := EnumerateField(p.dayOfWeek, Range(0, 6));
    var fields := [a, b, c, d, e];
    PrintCronThenParse(p, fields);
    expr := JoinSpaces(PrintFields(fields));
  }
}
