/**
 * validateAndNormalise: form values against a schema of fields, some of them shown only when an
 * expression over the other values holds. Hidden fields are deleted while later ones are examined.
 */
module VarsSchema {
  import opened Wrappers
  import opened Text
  import D = Decimal

  datatype Value = Undefined | Null | Str(s: string) | Num(n: real) | Bool(b: bool) | Other(id: int)

  datatype Number = NotFinite | Finite(r: real)

  // ----- show_when expressions -----

  datatype Operand = BoolOperand(b: bool) | NumeralOperand(text: string) | TextOperand(s: string)

  datatype Condition = Condition(name: string, equal: bool, operand: Operand)

  predicate IsLetter(c: char) {
    'a' <= c <= 'z' || 'A' <= c <= 'Z' || c == '_'
  }

  predicate IsWordChar(c: char) {
    IsLetter(c) || D.IsDigit(c)
  }

  function WordPrefix(s: string): (n: nat)
    ensures n <= |s|
  {
    if s == "" || !IsWordChar(s[0]) then 0 else 1 + WordPrefix(s[1..])
  }

  predicate IsLineBreak(c: char) {
    c == '\n' || c == '\r' || c == '\U{2028}' || c == '\U{2029}'
  }

  predicate OneLine(s: string) {
    forall i :: 0 <= i < |s| ==> !IsLineBreak(s[i])
  }

  /** The last character that is not a line break, as a text. */
  function LastPlain(s: string): string {
    if s == "" then ""
    else if !IsLineBreak(s[|s| - 1]) then [s[|s| - 1]]
    else LastPlain(s[..|s| - 1])
  }

  /**
   * What `\s*(.+?)\s*$` captures after the operator: the trimmed text, if it is on one line; of
   * white space alone, its last character that is not a line break.
   */
  function RightHandSide(s: string): Option<string> {
    var core := Trim(s);
    if core == "" then (if LastPlain(s) == "" then None else Some(LastPlain(s)))
    else if OneLine(core) then Some(core) else None
  }

  /** -?\d+(\.\d+)? */
  predicate IsNumeral(s: string) {
    var digits := if s != "" && s[0] == '-' then s[1..] else s;
    var n := DigitPrefix(digits);
    n > 0 && (n == |digits|
      || (digits[n] == '.' && n + 1 < |digits| && DigitPrefix(digits[n + 1..]) == |digits| - n - 1))
  }

  function ReadOperand(raw: string): Operand
    requires raw != ""
  {
    if raw == "true" then BoolOperand(true)
    else if raw == "false" then BoolOperand(false)
    else if IsNumeral(raw) then NumeralOperand(raw)
    else if (raw[0] == '"' && raw[|raw| - 1] == '"') || (raw[0] == '\'' && raw[|raw| - 1] == '\'') then
      TextOperand(if |raw| == 1 then "" else raw[1..|raw| - 1])
    else TextOperand(raw)
  }

  /** None when the expression has another form; the field is shown then. */
  function ParseShowWhen(expr: string): Option<Condition> {
    var s := DropSpaces(expr);
    var n := WordPrefix(s);
    if n == 0 || !IsLetter(s[0]) then None
    else
      var t := DropSpaces(s[n..]);
      if |t| < 2 || (t[..2] != "==" && t[..2] != "!=") then None
      else
        var rhs := RightHandSide(t[2..]);
        if rhs.None? || rhs.value == "" then None
        else Some(Condition(s[..n], t[..2] == "==", ReadOperand(rhs.value)))
  }

  predicate IsName(s: string) {
    s != "" && IsLetter(s[0]) && forall i :: 0 <= i < |s| ==> IsWordChar(s[i])
  }

  lemma {:induction false} WordPrefixOf(w: string, rest: string)
    requires (forall i :: 0 <= i < |w| ==> IsWordChar(w[i])) && rest != "" && !IsWordChar(rest[0])
    ensures WordPrefix(w + rest) == |w|
  {
    if w == "" {
      assert w + rest == rest;
    } else {
      assert (w + rest)[1..] == w[1..] + rest;
      WordPrefixOf(w[1..], rest);
    }
  }

  /** A comparison with a quoted text on one line is read as written, whatever the text holds. */
  lemma QuotedConditionReadsBack(name: string, equal: bool, text: string)
    requires IsName(name) && OneLine(text)
    ensures var op := if equal then "==" else "!=";
      ParseShowWhen(name + (" " + (op + (" '" + text + "'")))) == Some(Condition(name, equal, TextOperand(text)))
  {
    hide IsNumeral, RightHandSide, ReadOperand, DropSpacesAtEnd;
    var op := if equal then "==" else "!=";
    var quoted := "'" + text + "'";
    var tail := " " + (op + (" '" + text + "'"));
    var s := name + tail;
    assert s[0] == name[0] && !IsSpace(s[0]);
    assert DropSpaces(s) == s;
    WordPrefixOf(name, tail);
    assert s[|name|..] == tail && s[..|name|] == name;
    var t := op + (" '" + text + "'");
    assert tail[1..] == t && !IsSpace(t[0]);
    assert DropSpaces(tail) == t;
    assert t[..2] == op;
    assert t[2..] == " " + quoted;
    QuotedSide(text);
    QuotedOperand(text);
  }

  lemma QuotedSide(text: string)
    requires OneLine(text)
    ensures var quoted := "'" + text + "'"; RightHandSide(" " + quoted) == Some(quoted)
  {
    var quoted := "'" + text + "'";
    var rest := " " + quoted;
    assert rest[1..] == quoted && quoted[0] == '\'' && quoted[|quoted| - 1] == '\'';
    assert DropSpaces(rest) == quoted;
    assert Trim(rest) == quoted;
  }

  lemma QuotedOperand(text: string)
    requires OneLine(text)
    ensures var quoted := "'" + text + "'"; OneLine(quoted) && ReadOperand(quoted) == TextOperand(text)
  {
    var quoted := "'" + text + "'";
    assert quoted[0] == '\'';
    assert DigitPrefix(quoted) == 0;
    assert quoted[1..|quoted| - 1] == text;
  }

  // ----- fields -----

  datatype Kind =
    | StringKind(validate: string)
    | PasswordKind(validate: string)
    | NumberKind(min: Option<real>, max: Option<real>)
    | PortKind
    | BooleanKind
    | ChoiceKind(options: seq<string>)

  datatype Field = Field(name: string, kind: Kind, showWhen: string, required: bool, default: Option<Value>)

  /** Loose equality, number conversion and regular expressions of the language: any functions here. */
  datatype Language = Language(
    looseEq: (Value, Operand) -> bool,
    toNumber: Value -> Number,
    matches: (string, string) -> bool)

  datatype VarError =
    | Required | NotText | WrongFormat | NotANumber | BelowMin | AboveMax
    | PortNotInteger | PortOutOfRange | NotBoolean | NotAnOption

  function ValidateValue(f: Field, v: Value, js: Language): Option<VarError> {
    if v.Undefined? || v.Null? || v == Str("") then (if f.required then Some(Required) else None)
    else match f.kind
    case StringKind(re) => TextError(v, re, js)
    case PasswordKind(re) => TextError(v, re, js)
    case NumberKind(min, max) =>
      var n := if v.Num? then Finite(v.n) else js.toNumber(v);
      if n.NotFinite? then Some(NotANumber)
      else if min.Some? && n.r < min.value then Some(BelowMin)
      else if max.Some? && n.r > max.value then Some(AboveMax)
      else None
    case PortKind =>
      var n := if v.Num? then Finite(v.n) else js.toNumber(v);
      if n.NotFinite? || n.r.Floor as real != n.r then Some(PortNotInteger)
      else if n.r < 1.0 || n.r > 65535.0 then Some(PortOutOfRange)
      else None
    case BooleanKind => if v.Bool? then None else Some(NotBoolean)
    case ChoiceKind(options) => if v.Str? && v.s in options then None else Some(NotAnOption)
  }

  function TextError(v: Value, re: string, js: Language): Option<VarError> {
    if !v.Str? then Some(NotText)
    else if re != "" && !js.matches(re, v.s) then Some(WrongFormat)
    else None
  }

  type Values = map<string, Value>

  /** The passwords that will be generated, by field name. */
  type Generator = string -> string

  function Lookup(values: Values, name: string): Value {
    if name in values then values[name] else Undefined
  }

  predicate Holds(expr: string, values: Values, js: Language) {
    var c := ParseShowWhen(expr);
    if c.None? then true
    else
      var equal := js.looseEq(Lookup(values, c.value.name), c.value.operand);
      if c.value.equal then equal else !equal
  }

  predicate DistinctNames(schema: seq<Field>) {
    forall i, j :: 0 <= i < j < |schema| ==> schema[i].name != schema[j].name
  }

  // ----- the reference: each field on its own -----

  /** The value of a field before visibility is looked at; generate gives the random passwords. */
  function Initial(f: Field, submitted: Values, generate: Generator): Value {
    if f.name in submitted then submitted[f.name]
    else if f.default.Some? then f.default.value
    else if f.kind.PasswordKind? then Str(generate(f.name))
    else Undefined
  }

  /** The position of a field, -1 when there is none of that name. */
  function Position(schema: seq<Field>, name: string): (k: int)
    ensures -1 <= k < |schema|
    ensures k >= 0 ==> schema[k].name == name
    ensures k == -1 ==> forall i :: 0 <= i < |schema| ==> schema[i].name != name
  {
    if schema == [] then -1
    else if schema[|schema| - 1].name == name then |schema| - 1
    else Position(schema[..|schema| - 1], name)
  }

  /** What a condition of field i sees under a name: a hidden earlier field counts as undefined. */
  function Seen(schema: seq<Field>, submitted: Values, js: Language, generate: Generator, i: nat, name: string): Value
    requires i < |schema|
    decreases i, 0
  {
    var j := Position(schema, name);
    if j < 0 || (j < i && !Visible(schema, submitted, js, generate, j)) then Undefined
    else Initial(schema[j], submitted, generate)
  }

  predicate Visible(schema: seq<Field>, submitted: Values, js: Language, generate: Generator, i: nat)
    requires i < |schema|
    decreases i, 1
  {
    if schema[i].showWhen == "" || ParseShowWhen(schema[i].showWhen).None? then true
    else
      var c := ParseShowWhen(schema[i].showWhen).value;
      js.looseEq(Seen(schema, submitted, js, generate, i, c.name), c.operand) == c.equal
  }

  /** The values are the visible fields' initial values, under those fields' names and no other. */
  predicate Normalised(values: Values, schema: seq<Field>, submitted: Values, js: Language, generate: Generator) {
    (forall i :: 0 <= i < |schema| ==>
      (schema[i].name in values <==> Visible(schema, submitted, js, generate, i)))
    && (forall i :: 0 <= i < |schema| && schema[i].name in values ==>
      values[schema[i].name] == Initial(schema[i], submitted, generate))
    && (forall n :: n in values ==> Position(schema, n) >= 0)
  }

  /** The errors are those of the visible fields. */
  predicate Explained(errors: map<string, VarError>, schema: seq<Field>, submitted: Values, js: Language,
                      generate: Generator) {
    (forall i :: 0 <= i < |schema| ==>
      var e := ValidateValue(schema[i], Initial(schema[i], submitted, generate), js);
      && (schema[i].name in errors <==> Visible(schema, submitted, js, generate, i) && e.Some?)
      && (schema[i].name in errors ==> Some(errors[schema[i].name]) == e))
    && (forall n :: n in errors ==> Position(schema, n) >= 0)
  }

  // ----- the method -----

  method ValidateAndNormalise(schema: seq<Field>, submitted: Values, js: Language, generate: Generator)
    returns (ok: bool, errors: map<string, VarError>, values: Values)
    requires DistinctNames(schema)
    ensures Normalised(values, schema, submitted, js, generate)
    ensures Explained(errors, schema, submitted, js, generate)
    ensures ok <==> errors == map[]
  {
    hide Visible, Initial, ValidateValue, Holds, Failing, Deleted, Checked, Normalised, Explained;
    values := Collect(schema, submitted, generate);
    errors := map[];
    Begin(schema, submitted, js, generate, values);
    for i := 0 to |schema|
      invariant Deleted(values, schema, submitted, js, generate, i)
      invariant Checked(errors, schema, submitted, js, generate, i)
    {
      var f := schema[i];
      SeesValues(schema, submitted, js, generate, i, values);
      Examine(schema, submitted, js, generate, i, values, errors);
      if f.showWhen != "" && !Holds(f.showWhen, values, js) {
        values := values - {f.name};
        continue;
      }
      var error := ValidateValue(f, Lookup(values, f.name), js);
      if error.Some? {
        errors := errors[f.name := error.value];
      }
    }
    Finish(schema, submitted, js, generate, values, errors);
    ok := errors == map[];
  }

  lemma Begin(schema: seq<Field>, submitted: Values, js: Language, generate: Generator, values: Values)
    requires forall n :: n in values <==> Position(schema, n) >= 0
    requires forall j :: 0 <= j < |schema| ==>
      schema[j].name in values && values[schema[j].name] == Initial(schema[j], submitted, generate)
    ensures Deleted(values, schema, submitted, js, generate, 0)
    ensures Checked(map[], schema, submitted, js, generate, 0)
  {
    hide Visible, Initial;
  }

  /** One round of the second pass: a hidden field is deleted, a shown one checked. */
  lemma Examine(schema: seq<Field>, submitted: Values, js: Language, generate: Generator, i: nat,
                values: Values, errors: map<string, VarError>)
    requires i < |schema| && DistinctNames(schema)
    requires Deleted(values, schema, submitted, js, generate, i)
    requires Checked(errors, schema, submitted, js, generate, i)
    ensures var f := schema[i]; var error := ValidateValue(f, Lookup(values, f.name), js);
      if !Visible(schema, submitted, js, generate, i) then
        Deleted(values - {f.name}, schema, submitted, js, generate, i + 1)
        && Checked(errors, schema, submitted, js, generate, i + 1)
      else
        Deleted(values, schema, submitted, js, generate, i + 1)
        && (error.None? ==> Checked(errors, schema, submitted, js, generate, i + 1))
        && (error.Some? ==> Checked(errors[f.name := error.value], schema, submitted, js, generate, i + 1))
  {
    hide Visible, Initial, ValidateValue, Deleted, Checked;
    ExamineValues(schema, submitted, js, generate, i, values);
    ExamineErrors(schema, submitted, js, generate, i, errors);
  }

  lemma ExamineValues(schema: seq<Field>, submitted: Values, js: Language, generate: Generator, i: nat, values: Values)
    requires i < |schema| && DistinctNames(schema) && Deleted(values, schema, submitted, js, generate, i)
    ensures Lookup(values, schema[i].name) == Initial(schema[i], submitted, generate)
    ensures Deleted(if Visible(schema, submitted, js, generate, i) then values else values - {schema[i].name},
                    schema, submitted, js, generate, i + 1)
  {
    hide Visible, Initial;
    assert schema[i].name in values;
    assert forall j :: 0 <= j < |schema| && j != i ==> schema[j].name != schema[i].name;
  }

  lemma ExamineErrors(schema: seq<Field>, submitted: Values, js: Language, generate: Generator, i: nat,
                      errors: map<string, VarError>)
    requires i < |schema| && DistinctNames(schema) && Checked(errors, schema, submitted, js, generate, i)
    ensures var e := ValidateValue(schema[i], Initial(schema[i], submitted, generate), js);
      Checked(if Visible(schema, submitted, js, generate, i) && e.Some? then errors[schema[i].name := e.value]
              else errors,
              schema, submitted, js, generate, i + 1)
  {
    hide Visible, Initial, ValidateValue;
    assert schema[i].name !in errors;
    assert forall j :: 0 <= j < |schema| && j != i ==> schema[j].name != schema[i].name;
  }

  lemma Finish(schema: seq<Field>, submitted: Values, js: Language, generate: Generator,
               values: Values, errors: map<string, VarError>)
    requires Deleted(values, schema, submitted, js, generate, |schema|)
    requires Checked(errors, schema, submitted, js, generate, |schema|)
    ensures Normalised(values, schema, submitted, js, generate)
    ensures Explained(errors, schema, submitted, js, generate)
  {
    hide Visible, Initial, ValidateValue;
  }

  /** The values when the fields before i have been examined. */
  predicate Deleted(values: Values, schema: seq<Field>, submitted: Values, js: Language, generate: Generator, i: nat) {
    (forall n :: n in values ==> Position(schema, n) >= 0)
    && (forall j :: 0 <= j < |schema| ==>
      (schema[j].name in values <==> j >= i || Visible(schema, submitted, js, generate, j)))
    && (forall j :: 0 <= j < |schema| && schema[j].name in values ==>
      values[schema[j].name] == Initial(schema[j], submitted, generate))
  }

  /** The errors when the fields before i have been examined. */
  predicate Checked(errors: map<string, VarError>, schema: seq<Field>, submitted: Values, js: Language,
                    generate: Generator, i: nat)
  {
    (forall n :: n in errors ==> Position(schema, n) >= 0)
    && (forall j :: 0 <= j < |schema| ==>
      (schema[j].name in errors <==> j < i && Failing(schema, submitted, js, generate, j).Some?))
    && (forall j :: 0 <= j < |schema| && schema[j].name in errors ==>
      Some(errors[schema[j].name]) == Failing(schema, submitted, js, generate, j))
  }

  function Failing(schema: seq<Field>, submitted: Values, js: Language, generate: Generator, j: nat): Option<VarError>
    requires j < |schema|
  {
    if Visible(schema, submitted, js, generate, j)
    then ValidateValue(schema[j], Initial(schema[j], submitted, generate), js) else None
  }

  method Collect(schema: seq<Field>, submitted: Values, generate: Generator) returns (values: Values)
    requires DistinctNames(schema)
    ensures forall n :: n in values <==> Position(schema, n) >= 0
    ensures forall j :: 0 <= j < |schema| ==>
      schema[j].name in values && values[schema[j].name] == Initial(schema[j], submitted, generate)
  {
    values := map[];
    for i := 0 to |schema|
      invariant forall n :: n in values ==> Position(schema, n) >= 0
      invariant forall j :: 0 <= j < i ==>
        schema[j].name in values && values[schema[j].name] == Initial(schema[j], submitted, generate)
    {
      var f := schema[i];
      if f.name in submitted {
        values := values[f.name := submitted[f.name]];
      } else if f.default.Some? {
        values := values[f.name := f.default.value];
      } else if f.kind.PasswordKind? {
        values := values[f.name := Str(generate(f.name))];
      } else {
        values := values[f.name := Undefined];
      }
    }
  }

  /** The half-deleted map shows a condition exactly what the reference says it sees. */
  lemma SeesValues(schema: seq<Field>, submitted: Values, js: Language, generate: Generator, i: nat, values: Values)
    requires i < |schema|
    requires Deleted(values, schema, submitted, js, generate, i)
    ensures Visible(schema, submitted, js, generate, i)
      <==> schema[i].showWhen == "" || Holds(schema[i].showWhen, values, js)
  {
    hide ParseShowWhen, Initial;
    var c := ParseShowWhen(schema[i].showWhen);
    if schema[i].showWhen != "" && c.Some? {
      var j := Position(schema, c.value.name);
      assert Lookup(values, c.value.name) == Seen(schema, submitted, js, generate, i, c.value.name);
    }
  }

  // ----- consequences -----

  /** Conditions look only at fields before their own, or at names that are no fields. */
  predicate EarlierOnly(schema: seq<Field>) {
    forall i :: 0 <= i < |schema| && schema[i].showWhen != "" && ParseShowWhen(schema[i].showWhen).Some? ==>
      Position(schema, ParseShowWhen(schema[i].showWhen).value.name) < i
  }

  /** What a field gets when nothing is submitted for it. */
  function Fallback(f: Field, generate: Generator): Value {
    Initial(f, map[], generate)
  }

  /**
   * The condition of field i saw a field that was hidden only later, so that its submitted value is
   * gone from the result; and what that field falls back to compares differently.
   */
  predicate Stale(schema: seq<Field>, submitted: Values, values: Values, js: Language,
                  generate: Generator, again: Generator, i: nat)
    requires i < |schema|
  {
    var c := ParseShowWhen(schema[i].showWhen);
    schema[i].showWhen != "" && c.Some? &&
    var j := Position(schema, c.value.name);
    j >= i && schema[j].name !in values
    && js.looseEq(Initial(schema[j], submitted, generate), c.value.operand)
       != js.looseEq(Fallback(schema[j], again), c.value.operand)
  }

  /** A stale field is shown in one of the two runs only. */
  lemma StaleChanges(schema: seq<Field>, submitted: Values, values: Values, js: Language,
                     generate: Generator, again: Generator, i: nat)
    requires i < |schema| && Stale(schema, submitted, values, js, generate, again, i)
    ensures Visible(schema, values, js, again, i) != Visible(schema, submitted, js, generate, i)
  {
    hide ParseShowWhen;
  }

  /** Without stale fields, the values submitted again show the same fields; new passwords do not matter. */
  lemma {:induction false} SameWhenResubmitted(
    schema: seq<Field>, submitted: Values, values: Values, js: Language,
    generate: Generator, again: Generator, i: nat)
    requires forall k :: 0 <= k < |schema| ==> !Stale(schema, submitted, values, js, generate, again, k)
    requires Normalised(values, schema, submitted, js, generate) && i < |schema|
    ensures Visible(schema, values, js, again, i) == Visible(schema, submitted, js, generate, i)
    ensures Visible(schema, values, js, again, i) ==>
      Initial(schema[i], values, again) == Initial(schema[i], submitted, generate)
    decreases i
  {
    hide ParseShowWhen;
    var c := ParseShowWhen(schema[i].showWhen);
    assert !Stale(schema, submitted, values, js, generate, again, i);
    if schema[i].showWhen != "" && c.Some? {
      var j := Position(schema, c.value.name);
      if 0 <= j < i {
        SameWhenResubmitted(schema, submitted, values, js, generate, again, j);
      }
    }
  }

  /** The values submitted again give the same values iff no field is stale, and then the same errors. */
  lemma SameIffNoneStale(schema: seq<Field>, submitted: Values, js: Language, generate: Generator, again: Generator,
                         values: Values, errors: map<string, VarError>, values2: Values, errors2: map<string, VarError>)
    requires Normalised(values, schema, submitted, js, generate) && Explained(errors, schema, submitted, js, generate)
    requires Normalised(values2, schema, values, js, again) && Explained(errors2, schema, values, js, again)
    ensures values2 == values
      <==> forall i :: 0 <= i < |schema| ==> !Stale(schema, submitted, values, js, generate, again, i)
    ensures values2 == values ==> errors2 == errors
  {
    hide ParseShowWhen, Visible, Initial, ValidateValue, Stale;
    if i :| 0 <= i < |schema| && Stale(schema, submitted, values, js, generate, again, i) {
      StaleChanges(schema, submitted, values, js, generate, again, i);
      assert schema[i].name in values2 <==> schema[i].name !in values;
    } else {
      forall i | 0 <= i < |schema|
        ensures Visible(schema, values, js, again, i) == Visible(schema, submitted, js, generate, i)
        ensures Visible(schema, values, js, again, i) ==>
          Initial(schema[i], values, again) == Initial(schema[i], submitted, generate)
      {
        SameWhenResubmitted(schema, submitted, values, js, generate, again, i);
      }
      SameResults(schema, submitted, js, generate, again, values, errors, values2, errors2);
    }
  }

  lemma SameResults(schema: seq<Field>, submitted: Values, js: Language, generate: Generator, again: Generator,
                    values: Values, errors: map<string, VarError>, values2: Values, errors2: map<string, VarError>)
    requires Normalised(values, schema, submitted, js, generate) && Explained(errors, schema, submitted, js, generate)
    requires Normalised(values2, schema, values, js, again) && Explained(errors2, schema, values, js, again)
    requires forall i :: 0 <= i < |schema| ==>
      Visible(schema, values, js, again, i) == Visible(schema, submitted, js, generate, i)
    requires forall i :: 0 <= i < |schema| && Visible(schema, values, js, again, i) ==>
      Initial(schema[i], values, again) == Initial(schema[i], submitted, generate)
    ensures values2 == values && errors2 == errors
  {
    hide ParseShowWhen, Visible, Initial, ValidateValue;
    forall n
      ensures n in values <==> n in values2
      ensures n in errors <==> n in errors2
      ensures n in values ==> values[n] == values2[n]
      ensures n in errors ==> errors[n] == errors2[n]
    {
      var i := Position(schema, n);
      if i >= 0 {
        assert schema[i].name == n;
      }
    }
  }

  /** When conditions name only earlier fields no field is ever stale, and normalising is idempotent. */
  lemma Idempotent(schema: seq<Field>, submitted: Values, js: Language, generate: Generator, again: Generator,
                   values: Values, errors: map<string, VarError>, values2: Values, errors2: map<string, VarError>)
    requires EarlierOnly(schema)
    requires Normalised(values, schema, submitted, js, generate) && Explained(errors, schema, submitted, js, generate)
    requires Normalised(values2, schema, values, js, again) && Explained(errors2, schema, values, js, again)
    ensures values2 == values && errors2 == errors
  {
    hide ParseShowWhen, Normalised, Explained, Initial;
    SameIffNoneStale(schema, submitted, js, generate, again, values, errors, values2, errors2);
  }

  /** Stale fields are real: one shown because of a later field that is itself hidden does not come back. */
  lemma ForwardReferenceLost(a: Field, b: Field, v: Value, w: Value, js: Language, generate: Generator,
                             values: Values, values2: Values)
    requires a.name != b.name && b.default.None? && !b.kind.PasswordKind? && a.showWhen != "" && b.showWhen != ""
    requires var c := ParseShowWhen(a.showWhen);
      c.Some? && c.value.name == b.name && c.value.equal
      && js.looseEq(w, c.value.operand) && !js.looseEq(Undefined, c.value.operand)
    requires var c := ParseShowWhen(b.showWhen);
      c.Some? && c.value.name != a.name && c.value.name != b.name
      && c.value.equal && !js.looseEq(Undefined, c.value.operand)
    requires Normalised(values, [a, b], map[a.name := v, b.name := w], js, generate)
    requires Normalised(values2, [a, b], values, js, generate)
    ensures a.name in values && a.name !in values2
  {
    hide ParseShowWhen;
    var schema := [a, b];
    var submitted := map[a.name := v, b.name := w];
    assert schema[..1] == [a];
    assert Position(schema, b.name) == 1;
    assert Position(schema, ParseShowWhen(b.showWhen).value.name) == -1;
    assert Visible(schema, submitted, js, generate, 0);
    assert schema[0].name in values;
    assert !Visible(schema, submitted, js, generate, 1);
    assert schema[1].name !in values;
    assert !Visible(schema, values, js, generate, 0);
  }
}
