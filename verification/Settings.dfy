/** The settings registry: typed values, scopes, stored overrides and their edits. */
module Settings {
  import opened Options
  import opened Texts

  // ------------------------------------------------------------- decimal numbers

  function Digit(n: nat): char
    requires n < 10
  {
    ['0', '1', '2', '3', '4', '5', '6', '7', '8', '9'][n]
  }

  function DigitValue(c: char): Option<nat> {
    if '0' <= c <= '9' then Some((c - '0') as int) else None
  }

  /** `str(n)` */
  function PrintNat(n: nat): (s: string)
    ensures s != [] && forall i :: 0 <= i < |s| ==> DigitValue(s[i]).Some?
  {
    if n < 10 then [Digit(n)] else PrintNat(n / 10) + [Digit(n % 10)]
  }

  function PrintInt(i: int): string {
    if i < 0 then "-" + PrintNat(-i) else PrintNat(i)
  }

  function ParseDigits(s: string): Option<nat> {
    if s == "" then None
    else
      var last := DigitValue(s[|s| - 1]);
      if last.None? then None
      else if |s| == 1 then last
      else
        var rest := ParseDigits(s[..|s| - 1]);
        if rest.None? then None else Some(rest.value * 10 + last.value)
  }

  /** `int(text)`: surrounding space, one optional sign, decimal digits. */
  function ParseInt(text: string): Option<int> {
    var s := Strip(IsSpace, text);
    if s != "" && s[0] == '-' then
      var n := ParseDigits(s[1..]);
      if n.None? then None else var k: int := n.value; Some(-k)
    else
      var n := ParseDigits(if s != "" && s[0] == '+' then s[1..] else s);
      if n.None? then None else Some(n.value)
  }

  lemma {:induction false} PrintedDigitsParse(n: nat)
    ensures ParseDigits(PrintNat(n)) == Some(n)
  {
    if n >= 10 {
      PrintedDigitsParse(n / 10);
      var s := PrintNat(n);
      assert s[..|s| - 1] == PrintNat(n / 10);
      assert s[|s| - 1] == Digit(n % 10);
    }
  }

  lemma SignedDigitsParse(before: string, sign: string, n: nat, after: string)
    requires AllOf(IsSpace, before) && AllOf(IsSpace, after) && sign in {"", "+", "-"}
    ensures ParseInt(before + (sign + PrintNat(n)) + after) == Some(if sign == "-" then -(n as int) else n as int)
  {
    hide Strip, PrintNat, ParseDigits;
    var digits := PrintNat(n);
    var s := sign + digits;
    PrintedDigitsParse(n);
    assert DigitValue(digits[0]).Some? && DigitValue(digits[|digits| - 1]).Some?;
    assert s[|s| - 1] == digits[|digits| - 1];
    StripSurrounded(IsSpace, before, s, after);
    assert sign == "" ==> s == digits;
    assert sign != "" ==> s[1..] == digits;
  }

  /** Surrounding space and a plus sign are accepted and mean nothing. */
  lemma SpacedIntParses(before: string, i: int, after: string)
    requires AllOf(IsSpace, before) && AllOf(IsSpace, after)
    ensures ParseInt(before + PrintInt(i) + after) == Some(i)
    ensures i >= 0 ==> ParseInt(before + ("+" + PrintInt(i)) + after) == Some(i)
  {
    hide ParseInt, PrintNat;
    if i < 0 {
      SignedDigitsParse(before, "-", -i, after);
    } else {
      SignedDigitsParse(before, "", i, after);
      SignedDigitsParse(before, "+", i, after);
      assert "" + PrintNat(i) == PrintNat(i);
    }
  }

  // --------------------------------------------------- which texts are integers

  function Pow10(n: nat): nat {
    if n == 0 then 1 else 10 * Pow10(n - 1)
  }

  predicate AllDigits(s: string) {
    forall i :: 0 <= i < |s| ==> '0' <= s[i] <= '9'
  }

  /** The value of a digit sequence by places. */
  function Positional(digits: string): nat
    requires AllDigits(digits)
  {
    if digits == "" then 0
    else
      assert AllDigits(digits[1..]);
      ((digits[0] - '0') as nat) * Pow10(|digits| - 1) + Positional(digits[1..])
  }

  lemma {:induction false} PositionalMore(digits: string, last: char)
    requires AllDigits(digits) && '0' <= last <= '9'
    ensures AllDigits(digits + [last])
    ensures Positional(digits + [last]) == Positional(digits) * 10 + (last - '0') as nat
  {
    var more := digits + [last];
    if digits == "" {
      assert more[1..] == "";
      assert Positional(more[1..]) == 0 && Pow10(0) == 1;
    } else {
      PositionalMore(digits[1..], last);
      assert more[1..] == digits[1..] + [last];
      Shifted((digits[0] - '0') as nat, Pow10(|digits| - 1));
      assert Pow10(|more| - 1) == 10 * Pow10(|digits| - 1);
    }
  }

  lemma Shifted(d: nat, p: nat)
    ensures d * (10 * p) == d * p * 10
  {
  }

  lemma {:induction false} DigitsParseExactly(s: string)
    ensures ParseDigits(s).Some? <==> s != "" && AllDigits(s)
    ensures s != "" && AllDigits(s) ==> ParseDigits(s) == Some(Positional(s))
  {
    if s != "" {
      var front, last := s[..|s| - 1], s[|s| - 1];
      assert s == front + [last];
      DigitsParseExactly(front);
      if '0' <= last <= '9' && AllDigits(front) {
        PositionalMore(front, last);
        assert front == "" ==> Positional(front) == 0;
      }
      if AllDigits(s) {
        assert forall i :: 0 <= i < |front| ==> front[i] == s[i];
      }
    }
  }

  /** Space, a sign or none, digits, space. */
  ghost predicate SpelledAs(text: string, before: string, sign: string, digits: string, after: string) {
    && text == before + (sign + digits) + after && AllOf(IsSpace, before) && AllOf(IsSpace, after)
    && sign in {"", "+", "-"} && digits != "" && AllDigits(digits)
  }

  ghost predicate IsIntegerText(text: string) {
    exists before, sign, digits, after :: SpelledAs(text, before, sign, digits, after)
  }

  lemma SignedParse(s: string, sign: string, digits: string)
    requires s == sign + digits && sign in {"", "+", "-"} && digits != "" && AllDigits(digits)
    ensures !IsSpace(s[0]) && !IsSpace(s[|s| - 1])
    ensures (if s[0] == '-' then s[1..] else if s[0] == '+' then s[1..] else s) == digits
    ensures s[0] == '-' <==> sign == "-"
  {
    assert s[|s| - 1] == digits[|digits| - 1];
    assert sign == "" ==> s == digits;
  }

  /** What a spelled number parses to. */
  lemma SpelledParses(text: string, before: string, sign: string, digits: string, after: string)
    requires SpelledAs(text, before, sign, digits, after)
    ensures ParseInt(text) == Some(if sign == "-" then -(Positional(digits) as int) else Positional(digits) as int)
  {
    hide ParseDigits, Positional, IsSpace, Strip;
    var s := sign + digits;
    SignedParse(s, sign, digits);
    StripSurrounded(IsSpace, before, s, after);
    DigitsParseExactly(digits);
  }

  /** A text parses as an integer exactly when it is spelled so; nothing else does. */
  lemma ParseIntExactly(text: string)
    ensures ParseInt(text).Some? <==> IsIntegerText(text)
  {
    hide ParseDigits, Positional, IsSpace, Strip;
    if ParseInt(text).Some? {
      var s := Strip(IsSpace, text);
      var before, after := StripExact(IsSpace, text);
      var sign := if s != "" && s[0] == '-' then "-" else if s != "" && s[0] == '+' then "+" else "";
      var digits := s[|sign|..];
      assert s == sign + digits;
      DigitsParseExactly(digits);
      assert SpelledAs(text, before, sign, digits, after);
    }
    if before, sign, digits, after :| SpelledAs(text, before, sign, digits, after) {
      SpelledParses(text, before, sign, digits, after);
    }
  }

  lemma SpelledCharacter(text: string, before: string, sign: string, digits: string, after: string, i: nat)
    requires SpelledAs(text, before, sign, digits, after) && i < |text|
    ensures IsSpace(text[i]) || '0' <= text[i] <= '9' || text[i] == '+' || text[i] == '-'
  {
    hide IsSpace;
    var n := |before|;
    if i < n {
      assert text[i] == before[i];
    } else if i < n + |sign| {
      assert text[i] == sign[i - n];
    } else if i < n + |sign| + |digits| {
      assert text[i] == digits[i - n - |sign|];
    } else {
      assert text[i] == after[i - n - |sign| - |digits|];
    }
  }

  /** A number with a unit is no integer, whatever the unit. */
  lemma OtherCharacterIsRefused(text: string, i: nat)
    requires i < |text| && !IsSpace(text[i]) && !('0' <= text[i] <= '9') && text[i] != '+' && text[i] != '-'
    ensures ParseInt(text).None?
  {
    hide IsSpace, ParseInt, SpelledAs;
    ParseIntExactly(text);
    if before, sign, digits, after :| SpelledAs(text, before, sign, digits, after) {
      SpelledCharacter(text, before, sign, digits, after, i);
    }
  }

  /** Printing writes no leading zero and no sign but a minus. */
  lemma {:induction false} PrintedPlainly(n: nat)
    ensures AllDigits(PrintNat(n)) && (n > 0 ==> PrintNat(n)[0] != '0') && (n == 0 ==> PrintNat(n) == "0")
  {
    if n >= 10 {
      PrintedPlainly(n / 10);
    }
  }

  // -------------------------------------------------------------- typed values

  datatype SettingType = StringType | IntegerType | BooleanType | ChoicesType

  datatype Value = Text(text: string) | Integer(number: int) | Boolean(flag: bool)

  /** `choices` is `None` when the stored mapping is not a dict; `sensitive` tells of the key. */
  datatype Definition = Definition(
    scope: string,
    settingType: SettingType,
    defaultValue: string,
    choices: Option<set<string>>,
    sensitive: bool)

  function LowerChar(c: char): char {
    if 'A' <= c <= 'Z' then c + 32 as char else c
  }

  function Lower(s: string): string {
    seq(|s|, i requires 0 <= i < |s| => LowerChar(s[i]))
  }

  const TRUE_WORDS: set<string> := {"true", "1", "yes", "on"}
  const FALSE_WORDS: set<string> := {"false", "0", "no", "off"}

  /** `parse_value`; `None` for the exceptions that its callers catch. */
  function ParseValue(d: Definition, raw: string): Option<Value> {
    match d.settingType
    case StringType => Some(Text(raw))
    case IntegerType => (match ParseInt(raw) case Some(i) => Some(Integer(i)) case None => None)
    case BooleanType =>
      var normalized := Lower(raw);
      if normalized in TRUE_WORDS then Some(Boolean(true))
      else if normalized in FALSE_WORDS then Some(Boolean(false))
      else None
    case ChoicesType => if d.choices.Some? && raw in d.choices.value then Some(Text(raw)) else None
  }

  function Truthy(v: Value): bool {
    match v
    case Text(text) => text != ""
    case Integer(number) => number != 0
    case Boolean(flag) => flag
  }

  /** `str(value)` */
  function Print(v: Value): string {
    match v
    case Text(text) => text
    case Integer(number) => PrintInt(number)
    case Boolean(flag) => if flag then "True" else "False"
  }

  /** `serialize_value` */
  function SerializeValue(d: Definition, v: Value): string {
    if d.settingType.BooleanType? then (if Truthy(v) then "true" else "false") else Print(v)
  }

  /** The values a definition can take. */
  predicate Admits(d: Definition, v: Value) {
    match d.settingType
    case StringType => v.Text?
    case IntegerType => v.Integer?
    case BooleanType => v.Boolean?
    case ChoicesType => v.Text? && d.choices.Some? && v.text in d.choices.value
  }

  lemma LowerIsLower(s: string)
    requires forall i :: 0 <= i < |s| ==> !('A' <= s[i] <= 'Z')
    ensures Lower(s) == s
  {
  }

  /** Storing a value and reading it back gives the value exactly when it is of the definition's type. */
  lemma ValueRoundTrip(d: Definition, v: Value)
    ensures ParseValue(d, SerializeValue(d, v)) == Some(v) <==> Admits(d, v)
  {
    match d.settingType
    case StringType =>
    case ChoicesType =>
    case IntegerType =>
      if v.Integer? {
        SpacedIntParses("", v.number, "");
        assert "" + PrintInt(v.number) + "" == PrintInt(v.number);
      }
    case BooleanType =>
      LowerIsLower("true");
      LowerIsLower("false");
  }

  /** Reading a raw text yields an admitted value, so storing that value again loses nothing. */
  lemma ParsedValueIsStable(d: Definition, raw: string, v: Value)
    requires ParseValue(d, raw) == Some(v)
    ensures Admits(d, v) && ParseValue(d, SerializeValue(d, v)) == Some(v)
  {
    ValueRoundTrip(d, v);
  }

  /** `c` is the lower-case letter or digit `w`, or its upper-case letter. */
  predicate SameLetter(c: char, w: char) {
    c == w || ('a' <= w <= 'z' && c as int == w as int - 32)
  }

  predicate SameWord(text: string, word: string) {
    |text| == |word| && forall i :: 0 <= i < |text| ==> SameLetter(text[i], word[i])
  }

  predicate IsBooleanText(text: string, value: bool) {
    exists word :: word in (if value then {"true", "1", "yes", "on"} else {"false", "0", "no", "off"})
                   && SameWord(text, word)
  }

  lemma LowerIsWord(text: string, word: string)
    requires forall i :: 0 <= i < |word| ==> 'a' <= word[i] <= 'z' || '0' <= word[i] <= '9'
    ensures Lower(text) == word <==> SameWord(text, word)
  {
    if SameWord(text, word) {
      assert forall i :: 0 <= i < |text| ==> Lower(text)[i] == word[i];
    } else if Lower(text) == word {
      forall i | 0 <= i < |text| ensures SameLetter(text[i], word[i]) {
        assert Lower(text)[i] == LowerChar(text[i]);
      }
    }
  }

  /** The texts that each type accepts. */
  ghost predicate Readable(d: Definition, raw: string) {
    match d.settingType
    case StringType => true
    case IntegerType => IsIntegerText(raw)
    case BooleanType => IsBooleanText(raw, true) || IsBooleanText(raw, false)
    case ChoicesType => d.choices.Some? && raw in d.choices.value
  }

  lemma BooleanParsesExactly(d: Definition, raw: string, value: bool)
    requires d.settingType.BooleanType?
    ensures ParseValue(d, raw) == Some(Boolean(value)) <==> IsBooleanText(raw, value)
  {
    forall word | word in TRUE_WORDS || word in FALSE_WORDS ensures Lower(raw) == word <==> SameWord(raw, word) {
      LowerIsWord(raw, word);
    }
    hide Lower, SameWord;
    assert Lower(raw) in TRUE_WORDS || Lower(raw) in FALSE_WORDS ==> SameWord(raw, Lower(raw));
    assert TRUE_WORDS !! FALSE_WORDS;
  }

  /** A stored or default text is refused exactly when its type does not accept it. */
  lemma ParseValueExactly(d: Definition, raw: string)
    ensures ParseValue(d, raw).Some? <==> Readable(d, raw)
  {
    ParseIntExactly(raw);
    if d.settingType.BooleanType? {
      BooleanParsesExactly(d, raw, true);
      BooleanParsesExactly(d, raw, false);
    }
    hide ParseInt, IsIntegerText, IsBooleanText, Lower;
  }

  /** Whatever is stored for a boolean setting reads back as its truth: empty text, zero and false are false. */
  lemma StoredTruth(d: Definition, v: Value)
    requires d.settingType.BooleanType?
    ensures ParseValue(d, SerializeValue(d, v))
         == Some(Boolean(v != Text("") && v != Integer(0) && v != Boolean(false)))
  {
    LowerIsLower("true");
    LowerIsLower("false");
  }

  // ---------------------------------------------------------------------- scopes

  datatype Target = Target(organization: Option<int>, site: Option<int>, manufacturer: Option<int>)

  datatype Override = Override(definition: int, target: Target, value: string)

  function ResolveScope(t: Target): Option<string> {
    var populated := (if t.organization.Some? then ["organization"] else [])
                   + (if t.site.Some? then ["site"] else [])
                   + (if t.manufacturer.Some? then ["manufacturer"] else []);
    if populated == [] then Some("global")
    else if |populated| == 1 then Some(populated[0])
    else None
  }

  predicate MatchesScope(scope: string, t: Target) {
    Some(scope) == ResolveScope(t)
  }

  /** Each scope's name stands for the one target that is set, and no other text is a scope. */
  lemma ScopeNamesTarget(scope: string, t: Target)
    ensures MatchesScope(scope, t) <==>
              || (scope == "global" && t == Target(None, None, None))
              || (scope == "organization" && t.organization.Some? && t == Target(t.organization, None, None))
              || (scope == "site" && t.site.Some? && t == Target(None, t.site, None))
              || (scope == "manufacturer" && t.manufacturer.Some? && t == Target(None, None, t.manufacturer))
  {
  }

  /** The check constraint `setting_exactly_one_scope`. */
  predicate CheckHolds(t: Target) {
    || (t.organization.None? && t.site.None? && t.manufacturer.None?)
    || (t.organization.Some? && t.site.None? && t.manufacturer.None?)
    || (t.organization.None? && t.site.Some? && t.manufacturer.None?)
    || (t.organization.None? && t.site.None? && t.manufacturer.Some?)
  }

  lemma CheckAgreesWithScope(t: Target)
    ensures CheckHolds(t) <==> ResolveScope(t).Some?
  {
  }

  /** A conditional unique constraint: both rows meet the condition and agree on the listed, non-null columns. */
  predicate PartialClash(a: Override, b: Override) {
    var s, t := a.target, b.target;
    && a.definition == b.definition
    && ((s.organization.None? && s.site.None? && s.manufacturer.None?
         && t.organization.None? && t.site.None? && t.manufacturer.None?)
        || (s.organization.Some? && s.site.None? && s.manufacturer.None?
            && t.organization == s.organization && t.site.None? && t.manufacturer.None?)
        || (s.organization.None? && s.site.Some? && s.manufacturer.None?
            && t.organization.None? && t.site == s.site && t.manufacturer.None?)
        || (s.organization.None? && s.site.None? && s.manufacturer.Some?
            && t.organization.None? && t.site.None? && t.manufacturer == s.manufacturer))
  }

  /** `unique_together` under SQL's rule that NULL differs from NULL. */
  predicate TogetherClash(a: Override, b: Override) {
    && a.definition == b.definition
    && a.target.organization.Some? && a.target.organization == b.target.organization
    && a.target.site.Some? && a.target.site == b.target.site
    && a.target.manufacturer.Some? && a.target.manufacturer == b.target.manufacturer
  }

  /** On rows that pass the check the four partial constraints are uniqueness of (definition, target)... */
  lemma PartialConstraintsExact(a: Override, b: Override)
    requires CheckHolds(a.target) && CheckHolds(b.target)
    ensures PartialClash(a, b) <==> a.definition == b.definition && a.target == b.target
  {
  }

  /** ... while the plain constraint rejects no pair of such rows at all, not even equal ones. */
  lemma TogetherNeverRejects(a: Override, b: Override)
    requires CheckHolds(a.target)
    ensures !TogetherClash(a, b)
  {
  }

  // -------------------------------------------------------------------- registry

  datatype Registry = Registry(definitions: map<int, Definition>, overrides: map<int, Override>)

  /** An override that fits its definition. */
  predicate Fits(d: Definition, o: Override) {
    MatchesScope(d.scope, o.target) && ParseValue(d, o.value).Some?
  }

  predicate SoundDefinition(d: Definition) {
    && ParseValue(d, d.defaultValue).Some?
    && (d.settingType.ChoicesType? ==> d.choices.Some? && d.choices.value != {})
  }

  ghost predicate Consistent(r: Registry) {
    && (forall pk :: pk in r.definitions ==> SoundDefinition(r.definitions[pk]))
    && (forall k :: k in r.overrides ==> r.overrides[k].definition in r.definitions
                                         && Fits(r.definitions[r.overrides[k].definition], r.overrides[k]))
    && (forall j, k :: j in r.overrides && k in r.overrides && j != k
                       ==> r.overrides[j].definition != r.overrides[k].definition
                           || r.overrides[j].target != r.overrides[k].target)
  }

  datatype Field = ChoicesField | DefaultField | ScopeField | TypeField

  /** The errors that `clean` collects, field by field. */
  ghost predicate CleanErrors(r: Registry, pk: Option<int>, d: Definition, errors: set<Field>) {
    && (ChoicesField in errors <==> d.settingType.ChoicesType? && (d.choices.None? || d.choices.value == {}))
    && (DefaultField in errors <==> ParseValue(d, d.defaultValue).None?)
    && (ScopeField in errors <==> pk.Some? && exists k :: k in r.overrides && r.overrides[k].definition == pk.value
                                                          && !MatchesScope(d.scope, r.overrides[k].target))
    && (TypeField in errors <==> pk.Some? && exists k :: k in r.overrides && r.overrides[k].definition == pk.value
                                                         && ParseValue(d, r.overrides[k].value).None?)
  }

  /** `rows` is the result of querying the overrides of one definition, in whatever order. */
  ghost predicate QueriedFor(r: Registry, pk: int, rows: seq<Override>) {
    forall o :: o in rows <==> exists k :: k in r.overrides && r.overrides[k] == o && o.definition == pk
  }

  /** `SettingDefinition.clean` with its pass over the stored overrides. */
  method Clean(ghost r: Registry, pk: Option<int>, d: Definition, rows: seq<Override>) returns (errors: set<Field>)
    requires pk.Some? ==> QueriedFor(r, pk.value, rows)
    ensures CleanErrors(r, pk, d, errors)
    ensures DefaultField in errors <==> !Readable(d, d.defaultValue)
  {
    ParseValueExactly(d, d.defaultValue);
    hide ParseValue, Readable;
    errors := {};
    if d.settingType.ChoicesType? && (d.choices.None? || d.choices.value == {}) {
      errors := errors + {ChoicesField};
    }
    if ParseValue(d, d.defaultValue).None? {
      errors := errors + {DefaultField};
    }
    if pk.Some? {
      errors := ValidateExistingOverrides(d, rows, errors);
      assert forall k :: k in r.overrides && r.overrides[k].definition == pk.value ==> r.overrides[k] in rows;
    }
  }

  method ValidateExistingOverrides(d: Definition, rows: seq<Override>, before: set<Field>) returns (errors: set<Field>)
    requires ScopeField !in before && TypeField !in before
    ensures forall f :: f != ScopeField && f != TypeField ==> (f in errors <==> f in before)
    ensures ScopeField in errors <==> exists o :: o in rows && !MatchesScope(d.scope, o.target)
    ensures TypeField in errors <==> exists o :: o in rows && ParseValue(d, o.value).None?
  {
    var scopeMismatch, invalidValue := false, false;
    for i := 0 to |rows|
      invariant scopeMismatch <==> exists o :: o in rows[..i] && !MatchesScope(d.scope, o.target)
      invariant invalidValue <==> exists o :: o in rows[..i] && ParseValue(d, o.value).None?
    {
      assert rows[..i + 1] == rows[..i] + [rows[i]];
      if !MatchesScope(d.scope, rows[i].target) {
        scopeMismatch := true;
      }
      if ParseValue(d, rows[i].value).None? {
        invalidValue := true;
      }
    }
    assert rows[..|rows|] == rows;
    errors := before;
    if scopeMismatch {
      errors := errors + {ScopeField};
    }
    if invalidValue {
      errors := errors + {TypeField};
    }
  }

  // ------------------------------------------------------------------------ edits

  datatype Edit =
    | SaveDefinition(pk: int, definition: Definition)
    | DeleteDefinition(pk: int)
    | SaveOverride(key: int, row: Override)
    | DeleteOverride(key: int)

  function PutDefinition(r: Registry, pk: int, d: Definition): Registry {
    r.(definitions := r.definitions[pk := d])
  }

  function PutOverride(r: Registry, key: int, o: Override): Registry {
    r.(overrides := r.overrides[key := o])
  }

  // ------------------------------------------------------------- the override form

  datatype OverrideError = DefinitionMissing | ValueMissing | ValueInvalid | ScopeMismatch | TargetInvalid | Duplicate

  /** The value may be left out when a stored secret is edited. */
  predicate MayOmitValue(r: Registry, key: int, o: Override) {
    key in r.overrides && (o.definition in r.definitions ==> r.definitions[o.definition].sensitive)
  }

  /** The row that the form saves: the value without surrounding space, or the stored one where that is left out. */
  function Completed(r: Registry, key: int, o: Override): Override {
    var value := Strip(IsSpace, o.value);
    o.(value := if value == "" && o.definition in r.definitions && MayOmitValue(r, key, o) then r.overrides[key].value
                else value)
  }

  /** The errors of a submitted override, cause by cause. */
  ghost predicate OverrideErrors(r: Registry, key: int, o: Override, errors: set<OverrideError>) {
    var known, row := o.definition in r.definitions, Completed(r, key, o);
    && (DefinitionMissing in errors <==> !known)
    && (ValueMissing in errors <==> Strip(IsSpace, o.value) == "" && !MayOmitValue(r, key, o))
    && (ValueInvalid in errors <==>
          known && row.value != "" && ParseValue(r.definitions[o.definition], row.value).None?)
    && (ScopeMismatch in errors <==> known && !MatchesScope(r.definitions[o.definition].scope, o.target))
    && (TargetInvalid in errors <==> !CheckHolds(o.target))
    && (Duplicate in errors <==> exists k :: k in r.overrides && k != key && PartialClash(r.overrides[k], o))
  }

  /** `SettingValueForm`: field checks, `clean`, the model's own `clean` and the table constraints. */
  method CleanOverride(r: Registry, key: int, o: Override) returns (errors: set<OverrideError>, row: Override)
    ensures OverrideErrors(r, key, o, errors)
    ensures row == Completed(r, key, o)
    ensures ValueInvalid in errors <==>
              o.definition in r.definitions && row.value != "" && !Readable(r.definitions[o.definition], row.value)
  {
    hide ParseValue, Readable;
    errors := {};
    var value := Strip(IsSpace, o.value);
    var sensitive := o.definition !in r.definitions || r.definitions[o.definition].sensitive;
    var required := if sensitive then key !in r.overrides else true;
    if value == "" && required {
      errors := errors + {ValueMissing};
    }
    if o.definition !in r.definitions {
      errors := errors + {DefinitionMissing};
    } else {
      var definition := r.definitions[o.definition];
      if definition.sensitive && key in r.overrides && value == "" {
        value := r.overrides[key].value;
      }
      if value != "" && ParseValue(definition, value).None? {
        errors := errors + {ValueInvalid};
      }
      if !MatchesScope(definition.scope, o.target) {
        errors := errors + {ScopeMismatch};
      }
    }
    row := o.(value := value);
    if !CheckHolds(row.target) {
      errors := errors + {TargetInvalid};
    }
    if exists k :: k in r.overrides && k != key && PartialClash(r.overrides[k], row) {
      errors := errors + {Duplicate};
    }
    if o.definition in r.definitions {
      ParseValueExactly(r.definitions[o.definition], row.value);
    }
    assert forall k :: k in r.overrides ==> (PartialClash(r.overrides[k], row) <==> PartialClash(r.overrides[k], o));
  }

  // ------------------------------------------------------------------------ runs

  /** Whether an edit is let through: without errors from `SettingDefinition.clean` or the override form. */
  ghost predicate Accepted(r: Registry, edit: Edit) {
    match edit
    case SaveDefinition(pk, d) =>
      CleanErrors(r, if pk in r.definitions then Some(pk) else None, d, {})
    case DeleteDefinition(pk) => true
    case SaveOverride(key, o) => OverrideErrors(r, key, o, {})
    case DeleteOverride(key) => true
  }

  /** The registry with the edit carried out, deletions of definitions cascading to their overrides. */
  function Edited(r: Registry, edit: Edit): Registry {
    match edit
    case SaveDefinition(pk, d) => PutDefinition(r, pk, d)
    case DeleteDefinition(pk) =>
      Registry(r.definitions - {pk}, map k | k in r.overrides && r.overrides[k].definition != pk :: r.overrides[k])
    case SaveOverride(key, o) => PutOverride(r, key, Completed(r, key, o))
    case DeleteOverride(key) => r.(overrides := r.overrides - {key})
  }

  ghost function Run(edits: seq<Edit>): Registry {
    if edits == [] then Registry(map[], map[])
    else
      var n := |edits| - 1;
      var before := Run(edits[..n]);
      if Accepted(before, edits[n]) then Edited(before, edits[n]) else before
  }

  /** A definition edit passes `clean` exactly when the registry with it is still consistent. */
  lemma DefinitionEditExact(r: Registry, pk: int, d: Definition)
    requires Consistent(r)
    ensures Accepted(r, SaveDefinition(pk, d)) <==> Consistent(PutDefinition(r, pk, d))
  {
    hide ParseValue, MatchesScope;
    var after := PutDefinition(r, pk, d);
    if Accepted(r, SaveDefinition(pk, d)) {
      forall k | k in r.overrides
        ensures Fits(after.definitions[r.overrides[k].definition], r.overrides[k])
      {
        if r.overrides[k].definition == pk {
          assert pk in r.definitions;
        }
      }
    }
    if Consistent(after) {
      assert after.definitions[pk] == d;
      forall k | k in r.overrides && r.overrides[k].definition == pk ensures Fits(d, r.overrides[k]) {
        assert after.overrides[k] == r.overrides[k];
      }
    }
  }

  /**
   * An override with a value is accepted exactly when the registry with it is still consistent. An empty value is
   * refused unless a stored secret is edited; then it is the stored value, which the form parses only if not empty.
   */
  lemma OverrideEditExact(r: Registry, key: int, o: Override)
    requires Consistent(r)
    ensures Completed(r, key, o).value != "" ==>
              (Accepted(r, SaveOverride(key, o)) <==> Consistent(Edited(r, SaveOverride(key, o))))
    ensures Completed(r, key, o).value == "" ==>
              (Accepted(r, SaveOverride(key, o))
               <==> MayOmitValue(r, key, o) && o.definition in r.definitions
                    && MatchesScope(r.definitions[o.definition].scope, o.target) && Alone(r, key, o))
    ensures Completed(r, key, o).value == "" && Accepted(r, SaveOverride(key, o)) ==>
              (Consistent(Edited(r, SaveOverride(key, o))) <==> ParseValue(r.definitions[o.definition], "").Some?)
  {
    ConsistentWith(r, key, Completed(r, key, o));
    NoClash(r, key, o);
    hide ParseValue, ResolveScope, PartialClash, CheckHolds, Consistent, Strip, Alone;
    CheckAgreesWithScope(o.target);
  }

  /** No other override has this definition and target. */
  ghost predicate Alone(r: Registry, key: int, o: Override) {
    forall k :: k in r.overrides && k != key
                ==> r.overrides[k].definition != o.definition || r.overrides[k].target != o.target
  }

  lemma ConsistentWith(r: Registry, key: int, row: Override)
    requires Consistent(r)
    ensures Consistent(PutOverride(r, key, row)) <==>
              row.definition in r.definitions && Fits(r.definitions[row.definition], row) && Alone(r, key, row)
  {
    hide Fits, SoundDefinition;
    var after := PutOverride(r, key, row);
    assert after.overrides[key] == row;
    forall k | k in r.overrides && k != key ensures after.overrides[k] == r.overrides[k] {
    }
  }

  lemma NoClash(r: Registry, key: int, o: Override)
    requires Consistent(r)
    ensures CheckHolds(o.target) ==>
              ((exists k :: k in r.overrides && k != key && PartialClash(r.overrides[k], o)) <==> !Alone(r, key, o))
  {
    hide ParseValue, ResolveScope, PartialClash, CheckHolds;
    forall k | k in r.overrides
      ensures CheckHolds(o.target) ==>
                (PartialClash(r.overrides[k], o)
                 <==> r.overrides[k].definition == o.definition && r.overrides[k].target == o.target)
    {
      CheckAgreesWithScope(r.overrides[k].target);
      if CheckHolds(o.target) {
        PartialConstraintsExact(r.overrides[k], o);
      }
    }
  }

  /** An empty secret moved, with the value left out, from a text setting to an integer one is not parsed again. */
  lemma EmptySecretIsNotParsed() returns (r: Registry, key: int, o: Override)
    ensures Consistent(r) && Accepted(r, SaveOverride(key, o)) && !Consistent(Edited(r, SaveOverride(key, o)))
  {
    var text := Definition("global", StringType, "", None, true);
    var number := Definition("global", IntegerType, "0", None, true);
    var target := Target(None, None, None);
    key, o := 1, Override(2, target, "");
    r := Registry(map[1 := text, 2 := number], map[1 := Override(1, target, "")]);
    assert ParseDigits("0") == Some(0);
    OverrideEditExact(r, key, o);
  }

  /** Edits alone never store an empty value. */
  ghost predicate ValuesPresent(r: Registry) {
    forall k :: k in r.overrides ==> r.overrides[k].value != ""
  }

  /** Every registry that edits can produce is consistent. */
  lemma {:induction false} EveryRunConsistent(edits: seq<Edit>)
    ensures Consistent(Run(edits)) && ValuesPresent(Run(edits))
  {
    hide Fits, SoundDefinition, CleanErrors, CheckHolds, PartialClash, Strip;
    if edits != [] {
      var n := |edits| - 1;
      EveryRunConsistent(edits[..n]);
      var before := Run(edits[..n]);
      match edits[n]
      case SaveDefinition(pk, d) => DefinitionEditExact(before, pk, d);
      case SaveOverride(key, o) => OverrideEditExact(before, key, o);
      case DeleteDefinition(_) =>
      case DeleteOverride(_) =>
    }
  }

  /** So for a definition and an exact target there is one stored value at most, and it can be read. */
  lemma StoredValueIsUnique(edits: seq<Edit>, j: int, k: int)
    requires var r := Run(edits);
             && j in r.overrides && k in r.overrides
             && r.overrides[j].definition == r.overrides[k].definition && r.overrides[j].target == r.overrides[k].target
    ensures j == k
    ensures var o := Run(edits).overrides[j];
            && o.definition in Run(edits).definitions
            && ParseValue(Run(edits).definitions[o.definition], o.value).Some?
  {
    EveryRunConsistent(edits);
  }
}
