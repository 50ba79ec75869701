/** Which form values validateAndNormalise accepts, and which error each of the others gets. */
module VarsRules {
  import opened Wrappers
  import opened VarsSchema
  import opened Text
  import D = Decimal

  predicate Missing(v: Value) {
    v == Undefined || v == Null || v == Str("")
  }

  /** The value is a number, or is converted to one. */
  predicate Converts(v: Value, js: Language, r: real) {
    if v.Num? then v.n == r else js.toNumber(v) == Finite(r)
  }

  ghost predicate IsNumber(v: Value, js: Language) {
    exists r: real :: Converts(v, js, r)
  }

  /** The value converts to a whole number. */
  ghost predicate IsWhole(v: Value, js: Language, n: int) {
    Converts(v, js, n as real)
  }

  predicate TextMatches(v: Value, pattern: string, js: Language) {
    v.Str? && (pattern == "" || js.matches(pattern, v.s))
  }

  predicate Within(r: real, min: Option<real>, max: Option<real>) {
    (min.Some? ==> min.value <= r) && (max.Some? ==> r <= max.value)
  }

  ghost predicate Acceptable(f: Field, v: Value, js: Language) {
    if Missing(v) then !f.required
    else match f.kind
      case StringKind(pattern) => TextMatches(v, pattern, js)
      case PasswordKind(pattern) => TextMatches(v, pattern, js)
      case NumberKind(min, max) => exists r: real :: Converts(v, js, r) && Within(r, min, max)
      case PortKind => exists n: int :: IsWhole(v, js, n) && 1 <= n <= 65535
      case BooleanKind => v == Bool(true) || v == Bool(false)
      case ChoiceKind(options) => exists i :: 0 <= i < |options| && v == Str(options[i])
  }

  /** When a value that is not missing gets an error of its own kind. */
  ghost predicate Gets(f: Field, v: Value, js: Language, e: VarError) {
    match e
    case Required => Missing(v) && f.required
    case NotText => !Missing(v) && (f.kind.StringKind? || f.kind.PasswordKind?) && !v.Str?
    case WrongFormat =>
      !Missing(v) && (f.kind.StringKind? || f.kind.PasswordKind?) && v.Str? && !TextMatches(v, f.kind.validate, js)
    case NotANumber => !Missing(v) && f.kind.NumberKind? && !IsNumber(v, js)
    case BelowMin =>
      !Missing(v) && f.kind.NumberKind? && f.kind.min.Some?
      && exists r: real :: Converts(v, js, r) && r < f.kind.min.value
    case AboveMax =>
      !Missing(v) && f.kind.NumberKind? && f.kind.max.Some?
      && exists r: real :: Converts(v, js, r) && Within(r, f.kind.min, None) && r > f.kind.max.value
    case PortNotInteger => !Missing(v) && f.kind.PortKind? && forall n: int :: !IsWhole(v, js, n)
    case PortOutOfRange => !Missing(v) && f.kind.PortKind? && exists n: int :: IsWhole(v, js, n) && !(1 <= n <= 65535)
    case NotBoolean => !Missing(v) && f.kind.BooleanKind? && !v.Bool?
    case NotAnOption => !Missing(v) && f.kind.ChoiceKind? && !(v.Str? && v.s in f.kind.options)
  }

  lemma OneNumber(v: Value, js: Language, r: real, s: real)
    requires Converts(v, js, r) && Converts(v, js, s)
    ensures r == s
  {
  }

  lemma PortRule(v: Value, js: Language)
    ensures (exists n: int :: IsWhole(v, js, n)) <==>
      var n := if v.Num? then Finite(v.n) else js.toNumber(v);
      n.Finite? && n.r.Floor as real == n.r
    ensures forall n: int :: IsWhole(v, js, n) ==>
      var m := if v.Num? then Finite(v.n) else js.toNumber(v);
      m == Finite(n as real) && (n as real).Floor == n
  {
    var n := if v.Num? then Finite(v.n) else js.toNumber(v);
    if n.Finite? && n.r.Floor as real == n.r {
      assert IsWhole(v, js, n.r.Floor);
    }
  }

  /** A value has no error iff it is acceptable. */
  lemma NoErrorIffAcceptable(f: Field, v: Value, js: Language)
    ensures ValidateValue(f, v, js).None? <==> Acceptable(f, v, js)
  {
    if !Missing(v) {
      var n := if v.Num? then Finite(v.n) else js.toNumber(v);
      if f.kind.NumberKind? {
        assert n.Finite? ==> Converts(v, js, n.r);
      }
      if f.kind.PortKind? {
        PortRule(v, js);
      }
    }
  }

  /** The error is the one whose rule the value breaks. */
  lemma ErrorIffGets(f: Field, v: Value, js: Language, e: VarError)
    ensures ValidateValue(f, v, js) == Some(e) <==> Gets(f, v, js, e)
  {
    if !Missing(v) {
      var n := if v.Num? then Finite(v.n) else js.toNumber(v);
      if f.kind.NumberKind? {
        assert n.Finite? ==> Converts(v, js, n.r);
      }
      if f.kind.PortKind? {
        PortRule(v, js);
      }
    }
  }

  /**
   * A result is ok iff the value of every visible field is acceptable; and a visible field whose
   * value is not gets the error whose rule it breaks.
   */
  lemma OkIffAcceptable(schema: seq<Field>, submitted: Values, js: Language, generate: Generator,
                        ok: bool, errors: map<string, VarError>, values: Values)
    requires Normalised(values, schema, submitted, js, generate) && Explained(errors, schema, submitted, js, generate)
    requires ok <==> errors == map[]
    ensures ok <==> forall i :: 0 <= i < |schema| && schema[i].name in values ==>
      Acceptable(schema[i], values[schema[i].name], js)
    ensures forall i :: 0 <= i < |schema| ==>
      (schema[i].name in errors <==>
        schema[i].name in values && !Acceptable(schema[i], values[schema[i].name], js))
    ensures forall i :: 0 <= i < |schema| && schema[i].name in errors ==>
      schema[i].name in values && Gets(schema[i], values[schema[i].name], js, errors[schema[i].name])
  {
    hide Visible, Initial, ValidateValue, Acceptable, Gets;
    forall i | 0 <= i < |schema|
      ensures schema[i].name in errors <==>
        schema[i].name in values && !Acceptable(schema[i], values[schema[i].name], js)
      ensures schema[i].name in errors ==>
        schema[i].name in values && Gets(schema[i], values[schema[i].name], js, errors[schema[i].name])
    {
      if schema[i].name in values {
        NoErrorIffAcceptable(schema[i], values[schema[i].name], js);
        if schema[i].name in errors {
          ErrorIffGets(schema[i], values[schema[i].name], js, errors[schema[i].name]);
        }
      }
    }
    if forall i :: 0 <= i < |schema| ==> schema[i].name !in errors {
      NoneMeansEmpty(errors, schema);
    }
  }

  lemma NoneMeansEmpty(errors: map<string, VarError>, schema: seq<Field>)
    requires forall n :: n in errors ==> Position(schema, n) >= 0
    requires forall i :: 0 <= i < |schema| ==> schema[i].name !in errors
    ensures errors == map[]
  {
    assert forall n :: n !in errors;
  }

  // ----- conditions -----

  /**
   * A comparison is read as written: a name, == or !=, and a text on one line, with any white space
   * around them.
   */
  lemma ConditionReads(before: string, name: string, gap: string, equal: bool, gap2: string, raw: string, after: string)
    requires IsSpaces(before) && IsSpaces(gap) && IsSpaces(gap2) && IsSpaces(after) && IsName(name)
    requires raw != "" && !IsSpace(raw[0]) && !IsSpace(raw[|raw| - 1]) && OneLine(raw)
    ensures ParseShowWhen(before + (name + (gap + ((if equal then "==" else "!=") + (gap2 + (raw + after))))))
         == Some(Condition(name, equal, ReadOperand(raw)))
  {
    hide ReadOperand, RightHandSide, OneLine, DropSpacesAtEnd, DropSpaces;
    var op := if equal then "==" else "!=";
    var side := gap2 + (raw + after);
    var tail := gap + (op + side);
    NameAhead(name, tail);
    assert (gap + (op + side))[0] == (if gap == "" then op[0] else gap[0]);
    WordPrefixOf(name, tail);
    DropGap(before, name + tail);
    assert (name + tail)[|name|..] == tail && (name + tail)[..|name|] == name;
    assert op[0] == '=' || op[0] == '!';
    assert (op + side)[0] == op[0];
    DropGap(gap, op + side);
    assert (op + side)[..2] == op && (op + side)[2..] == side;
    SideReads(gap2, raw, after);
  }

  lemma NameAhead(name: string, tail: string)
    requires IsName(name)
    ensures (name + tail)[0] == name[0] && !IsSpace(name[0])
  {
  }

  lemma SideReads(gap: string, raw: string, after: string)
    requires IsSpaces(gap) && IsSpaces(after)
    requires raw != "" && !IsSpace(raw[0]) && !IsSpace(raw[|raw| - 1]) && OneLine(raw)
    ensures RightHandSide(gap + (raw + after)) == Some(raw)
  {
    assert (raw + after)[0] == raw[0];
    DropGap(gap, raw + after);
    DropGapAtEnd(raw, after);
  }

  /** -?\d+(\.\d+)? */
  ghost predicate Numeral(raw: string) {
    exists sign, whole, fraction :: IsNumeralOf(raw, sign, whole, fraction)
  }

  predicate IsNumeralOf(raw: string, sign: string, whole: string, fraction: string) {
    && (sign == "" || sign == "-") && whole != "" && D.AllDigits(whole) && D.AllDigits(fraction)
    && raw == sign + (if fraction == "" then whole else whole + ("." + fraction))
  }

  predicate QuotedBy(raw: string, quote: char) {
    raw != "" && raw[0] == quote && raw[|raw| - 1] == quote
  }

  predicate Quoted(raw: string) {
    QuotedBy(raw, '"') || QuotedBy(raw, '\'')
  }

  /** What stands on the right: true, false, a numeral, a text between equal quotes, or the text itself. */
  lemma OperandReads(raw: string)
    requires raw != ""
    ensures raw == "true" ==> ReadOperand(raw) == BoolOperand(true)
    ensures raw == "false" ==> ReadOperand(raw) == BoolOperand(false)
    ensures Numeral(raw) ==> ReadOperand(raw) == NumeralOperand(raw)
    ensures raw !in {"true", "false"} && !Numeral(raw) && |raw| > 1 && Quoted(raw) ==>
      ReadOperand(raw) == TextOperand(raw[1..|raw| - 1])
    ensures raw !in {"true", "false"} && !Numeral(raw) && !Quoted(raw) ==> ReadOperand(raw) == TextOperand(raw)
  {
    hide IsNumeral, IsNumeralOf;
    NumeralIff(raw);
    if Numeral(raw) {
      NumeralHead(raw);
    }
  }

  lemma NumeralHead(raw: string)
    requires Numeral(raw)
    ensures raw != "true" && raw != "false"
  {
    var sign, whole, fraction :| IsNumeralOf(raw, sign, whole, fraction);
    assert whole[0] == (if sign == "" then raw[0] else raw[1]);
  }

  lemma NumeralIff(raw: string)
    requires raw != ""
    ensures IsNumeral(raw) <==> Numeral(raw)
  {
    if IsNumeral(raw) {
      NumeralHasParts(raw);
    }
    if sign, whole, fraction :| IsNumeralOf(raw, sign, whole, fraction) {
      PartsMakeNumeral(raw, sign, whole, fraction);
    }
  }

  lemma NumeralHasParts(raw: string)
    requires raw != "" && IsNumeral(raw)
    ensures Numeral(raw)
  {
    hide DigitPrefix, D.AllDigits;
    var sign, digits := if raw[0] == '-' then "-" else "", if raw[0] == '-' then raw[1..] else raw;
    var n := DigitPrefix(digits);
    assert raw == sign + digits;
    NoDigits();
    if n == |digits| {
      WholeSlice(digits);
      assert IsNumeralOf(raw, sign, digits, "");
    } else {
      var fraction := digits[n + 1..];
      WholeSlice(fraction);
      assert digits == digits[..n] + ("." + fraction);
      assert IsNumeralOf(raw, sign, digits[..n], fraction);
    }
  }

  lemma NoDigits()
    ensures D.AllDigits("")
  {
  }

  lemma WholeSlice(s: string)
    ensures DigitPrefix(s) == |s| ==> D.AllDigits(s)
  {
    assert s[..|s|] == s;
  }

  lemma PartsMakeNumeral(raw: string, sign: string, whole: string, fraction: string)
    requires IsNumeralOf(raw, sign, whole, fraction)
    ensures IsNumeral(raw)
  {
    hide DigitPrefix, D.AllDigits;
    FirstDigit(whole);
    var digits := if fraction == "" then whole else whole + ("." + fraction);
    assert raw == sign + digits && digits[0] == whole[0] && D.IsDigit(digits[0]);
    assert sign == "-" ==> raw[0] == '-' && raw[1..] == digits;
    assert (if raw != "" && raw[0] == '-' then raw[1..] else raw) == digits;
    if fraction == "" {
      DigitPrefixAll(whole);
    } else {
      FractionAhead(whole, fraction);
    }
  }

  lemma FirstDigit(whole: string)
    requires whole != "" && D.AllDigits(whole)
    ensures D.IsDigit(whole[0])
  {
  }

  lemma FractionAhead(whole: string, fraction: string)
    requires D.AllDigits(whole) && D.AllDigits(fraction)
    ensures var s := whole + ("." + fraction);
      && DigitPrefix(s) == |whole| && |s| == |whole| + 1 + |fraction| && s[|whole|] == '.'
      && s[|whole| + 1..] == fraction && DigitPrefix(fraction) == |fraction|
  {
    hide DigitPrefix;
    PrefixOf(whole, "." + fraction);
    DigitPrefixAll(fraction);
  }

  /** A condition that is read has that form: only white space, a name and an operator stand before its text. */
  lemma ConditionHasForm(expr: string) returns (before: string, gap: string, side: string)
    requires ParseShowWhen(expr).Some?
    ensures var c := ParseShowWhen(expr).value;
      && IsSpaces(before) && IsName(c.name) && IsSpaces(gap)
      && expr == before + (c.name + (gap + ((if c.equal then "==" else "!=") + side)))
      && RightHandSide(side).Some? && RightHandSide(side).value != ""
      && c.operand == ReadOperand(RightHandSide(side).value)
  {
    hide ReadOperand, RightHandSide;
    var c := ParseShowWhen(expr).value;
    var s := DropSpaces(expr);
    before := SpacesDropped(expr);
    var n := WordPrefix(s);
    WordOf(s);
    gap := SpacesDropped(s[n..]);
    var t := DropSpaces(s[n..]);
    side := t[2..];
    assert t == t[..2] + side && s == s[..n] + s[n..];
  }

  lemma {:induction false} SpacesDropped(s: string) returns (gap: string)
    ensures IsSpaces(gap) && s == gap + DropSpaces(s)
    decreases |s|
  {
    if s != "" && IsSpace(s[0]) {
      var rest := SpacesDropped(s[1..]);
      gap := [s[0]] + rest;
      assert s == [s[0]] + s[1..];
    } else {
      gap := "";
      assert gap + s == s;
    }
  }

  lemma {:induction false} WordOf(s: string)
    ensures forall i :: 0 <= i < WordPrefix(s) ==> IsWordChar(s[i])
  {
    if s == "" || !IsWordChar(s[0]) {
    } else {
      WordOf(s[1..]);
    }
  }

  /** The characters of a name, and those that end a line, by their codes. */
  lemma CharactersOfAName(c: char)
    ensures IsWordChar(c) <==> (48 <= c as int <= 57 || 65 <= c as int <= 90 || c as int == 95 || 97 <= c as int <= 122)
    ensures IsLetter(c) <==> IsWordChar(c) && c as int > 57
    ensures IsLineBreak(c) <==> (c as int == 10 || c as int == 13 || c as int == 0x2028 || c as int == 0x2029)
  {
  }

  /** Of white space alone, the text is the last character that is not a line break. */
  lemma {:induction false} BlankSide(gap: string, c: char, breaks: string)
    requires IsSpaces(gap) && IsSpace(c) && !IsLineBreak(c)
    requires IsSpaces(breaks) && forall i :: 0 <= i < |breaks| ==> IsLineBreak(breaks[i])
    ensures RightHandSide(gap + [c] + breaks) == Some([c])
  {
    var s := gap + [c] + breaks;
    var dropped := SpacesDropped(s);
    assert DropSpaces(s) != "" ==> DropSpaces(s)[0] == s[|dropped|];
    FirstIsPlain(s);
    LastOf(gap + [c], breaks);
  }

  lemma {:induction false} FirstIsPlain(s: string)
    ensures DropSpaces(s) == "" || !IsSpace(DropSpaces(s)[0])
  {
    if s != "" && IsSpace(s[0]) {
      FirstIsPlain(s[1..]);
    }
  }

  lemma {:induction false} LastOf(text: string, breaks: string)
    requires text != "" && !IsLineBreak(text[|text| - 1])
    requires forall i :: 0 <= i < |breaks| ==> IsLineBreak(breaks[i])
    ensures LastPlain(text + breaks) == [text[|text| - 1]]
  {
    if breaks == "" {
      assert text + breaks == text;
    } else {
      var n := |breaks| - 1;
      assert (text + breaks)[..|text| + n] == text + breaks[..n];
      LastOf(text, breaks[..n]);
    }
  }
}
