/**
 * `EditCatalogueItemViewModel`: the editor of one catalogue item. It holds
 * the edited name and one text per field, validates them (per-field rules
 * chosen by the lower-cased key, name rules, case-insensitive duplicate keys)
 * and rebuilds an item from the texts, keeping each field's original type
 * when its text still reads as that type.
 */
module EditCatalogue {
  import opened Wrappers
  import opened Text
  import opened Numbers
  import opened CatalogueValues
  import opened CatalogueRepository

  /** `ValidationResult` */
  datatype ValidationResult = Valid | Invalid(errors: seq<string>) {
    predicate IsValid() {
      Valid?
    }

    function ErrorMessages(): seq<string> {
      if Valid? then [] else errors
    }
  }

  /** `errors.isEmpty ? .valid : .invalid(errors)` */
  function ResultOf(errors: seq<string>): (r: ValidationResult)
    ensures r.ErrorMessages() == errors
    ensures r.IsValid() <==> errors == []
  {
    if errors == [] then Valid else Invalid(errors)
  }

  const PriceNotNumber := "Price must be a valid number"
  const PriceNegative := "Price cannot be negative"
  const CapacityFormat := "Capacity must be a valid format (e.g., '64 GB', '128GB', '1TB')"
  const YearNotNumber := "Year must be a valid number"
  const YearOutOfRange := "Year must be between 1900 and 2030"
  const ScreenSizeNotNumber := "Screen size must be a valid number"
  const NameEmpty := "Name cannot be empty"
  const NameTooLong := "Name cannot exceed 50 characters"
  const DuplicateFieldNames := "Duplicate field names are not allowed"

  function TooLong(key: string): string {
    Capitalized(key) + " cannot exceed 100 characters"
  }

  // ---------------------------------------------------------------------
  // The capacity pattern `^\d+\s*(GB|TB|MB|gb|tb|mb)$`

  predicate IsCapacityUnit(u: string) {
    u == "GB" || u == "TB" || u == "MB" || u == "gb" || u == "tb" || u == "mb"
  }

  /** The regular-expression class `\s`: tab, line feed, form feed, return and the Unicode separators. */
  predicate IsPatternSpace(c: char) {
    IsWhitespace(c) && c != '\U{000B}' && c != '\U{0085}'
  }

  predicate AllPatternSpace(s: string) {
    forall i :: 0 <= i < |s| ==> IsPatternSpace(s[i])
  }

  /** The length of the longest prefix of `s` matched by `\s*`. */
  function SpanPatternSpace(s: string): (n: nat)
    ensures n <= |s| && AllPatternSpace(s[..n])
    ensures n < |s| ==> !IsPatternSpace(s[n])
  {
    if s != [] && IsPatternSpace(s[0]) then
      var n := SpanPatternSpace(s[1..]);
      assert s[..n + 1] == [s[0]] + s[1..][..n];
      n + 1
    else 0
  }

  /**
   * `\d+\s*(GB|TB|MB|gb|tb|mb)` matching the whole of `s`. A greedy split is
   * the only one: no digit is a space or a unit letter, and no space is a
   * unit letter.
   */
  predicate CapacityBody(s: string) {
    var n := SpanDigits(s);
    n > 0 && IsCapacityUnit(s[n + SpanPatternSpace(s[n..])..])
  }

  /** The characters `$` may stand before at the end of the text. */
  predicate IsLineTerminator(c: char) {
    c == '\n' || c == '\U{000B}' || c == '\U{000C}' || c == '\r'
    || c == '\U{0085}' || c == '\U{2028}' || c == '\U{2029}'
  }

  /**
   * `isValidCapacity`: the text is a capacity, optionally followed by one
   * final line terminator (or `\r\n`), where `$` also matches.
   */
  predicate IsValidCapacity(s: string) {
    || CapacityBody(s)
    || (|s| >= 1 && IsLineTerminator(s[|s| - 1]) && CapacityBody(s[..|s| - 1]))
    || (|s| >= 2 && s[|s| - 2..] == "\r\n" && CapacityBody(s[..|s| - 2]))
  }

  lemma {:induction false} SpanSpacesOfConcat(spaces: string, rest: string)
    requires AllPatternSpace(spaces)
    requires rest == [] || !IsPatternSpace(rest[0])
    ensures SpanPatternSpace(spaces + rest) == |spaces|
  {
    if spaces != [] {
      assert (spaces + rest)[1..] == spaces[1..] + rest;
      SpanSpacesOfConcat(spaces[1..], rest);
    }
  }

  /** In digits, spaces and a rest that starts with neither, the greedy split finds the rest. */
  lemma CapacitySplit(digits: string, spaces: string, rest: string)
    requires digits != [] && AllDigits(digits)
    requires AllPatternSpace(spaces)
    requires rest != [] && !IsDigitChar(rest[0]) && !IsPatternSpace(rest[0])
    ensures var s := digits + spaces + rest;
      SpanDigits(s) == |digits| && s[|digits| + SpanPatternSpace(s[|digits|..])..] == rest
  {
    var s := digits + spaces + rest;
    var tail := spaces + rest;
    assert s == digits + tail;
    assert tail[0] == (if spaces == [] then rest[0] else spaces[0]);
    SpanDigitsOfConcat(digits, tail);
    assert s[|digits|..] == tail;
    SpanSpacesOfConcat(spaces, rest);
  }

  /** Digits, optional spaces and a unit in one case are accepted: "64 GB", "128GB", "1tb". */
  lemma CapacityFormAccepted(digits: string, spaces: string, unit: string)
    requires digits != [] && AllDigits(digits)
    requires AllPatternSpace(spaces)
    requires IsCapacityUnit(unit)
    ensures IsValidCapacity(digits + spaces + unit)
  {
    assert unit != [] && !IsDigitChar(unit[0]) && !IsPatternSpace(unit[0]);
    CapacitySplit(digits, spaces, unit);
    assert CapacityBody(digits + spaces + unit);
  }

  /** Everything accepted without a final terminator is digits, then spaces, then a unit. */
  lemma CapacityBodyForm(s: string) returns (n: nat, m: nat)
    requires CapacityBody(s)
    ensures 0 < n && n + m <= |s|
    ensures AllDigits(s[..n]) && AllPatternSpace(s[n..n + m]) && IsCapacityUnit(s[n + m..])
  {
    n := SpanDigits(s);
    m := SpanPatternSpace(s[n..]);
    assert s[n..][..m] == s[n..n + m];
  }

  /** A unit in mixed case is refused: "64 Gb" is not a capacity. */
  lemma CapacityRejectsMixedCase(digits: string, spaces: string)
    requires digits != [] && AllDigits(digits) && AllPatternSpace(spaces)
    ensures !IsValidCapacity(digits + spaces + "Gb")
  {
    var s := digits + spaces + "Gb";
    CapacitySplit(digits, spaces, "Gb");
    assert !CapacityBody(s);
    assert s[|s| - 1] == 'b';
    assert s[|s| - 2..] == "Gb";
  }

  // ---------------------------------------------------------------------
  // Field rules

  /**
   * The messages `validateField` collects for one field, the rule chosen by
   * the lower-cased key. An empty text is never an error, and no rule
   * reports more than one message.
   */
  function FieldErrors(key: string, value: string): (errors: seq<string>)
    ensures value == [] ==> errors == []
    ensures |errors| <= 1
  {
    var k := Lowercased(key);
    if k == "price" then
      (if value != [] && ParseDouble(value).None? then [PriceNotNumber] else [])
      + (if ParseDouble(value).Some? && IsNegative(ParseDouble(value).value) then [PriceNegative] else [])
    else if k == "capacity" || k == "storage" then
      if value != [] && !IsValidCapacity(value) then [CapacityFormat] else []
    else if k == "year" then
      (if value != [] && ParseInt(value).None? then [YearNotNumber] else [])
      + (if ParseInt(value).Some? && (ParseInt(value).value < 1900 || ParseInt(value).value > 2030)
         then [YearOutOfRange] else [])
    else if k == "screen size" || k == "screensize" then
      if value != [] && ParseDouble(value).None? then [ScreenSizeNotNumber] else []
    else if |value| > 100 then [TooLong(key)]
    else []
  }

  /** The rules do not see the case of the key: "Price", "PRICE" and "price" are checked alike. */
  lemma FieldErrorsIgnoreKeyCase(a: string, b: string, value: string)
    requires Lowercased(a) == Lowercased(b)
    ensures FieldErrors(a, value) == FieldErrors(b, value)
  {
    CapitalizedIgnoresCase(a, b);
  }

  lemma PriceRule(key: string, value: string)
    requires Lowercased(key) == "price"
    ensures FieldErrors(key, value) == [PriceNotNumber] <==> value != [] && ParseDouble(value).None?
    ensures FieldErrors(key, value) == [PriceNegative]
            <==> ParseDouble(value).Some? && IsNegative(ParseDouble(value).value)
    ensures FieldErrors(key, value) == []
            <==> value == [] || (ParseDouble(value).Some? && !IsNegative(ParseDouble(value).value))
  {
    assert |PriceNotNumber| != |PriceNegative|;
    var price := ParseDouble(value);
    if value != [] && price.None? {
      assert FieldErrors(key, value) == [PriceNotNumber];
    } else if price.Some? && IsNegative(price.value) {
      assert FieldErrors(key, value) == [PriceNegative];
    } else {
      assert FieldErrors(key, value) == [];
    }
  }

  lemma YearRule(key: string, value: string)
    requires Lowercased(key) == "year"
    ensures FieldErrors(key, value) == [YearNotNumber] <==> value != [] && ParseInt(value).None?
    ensures FieldErrors(key, value) == [YearOutOfRange]
            <==> ParseInt(value).Some? && !(1900 <= ParseInt(value).value <= 2030)
    ensures FieldErrors(key, value) == []
            <==> value == [] || (ParseInt(value).Some? && 1900 <= ParseInt(value).value <= 2030)
  {
    assert |YearNotNumber| != |YearOutOfRange|;
    var year := ParseInt(value);
    if value != [] && year.None? {
      assert FieldErrors(key, value) == [YearNotNumber];
    } else if year.Some? && !(1900 <= year.value <= 2030) {
      assert FieldErrors(key, value) == [YearOutOfRange];
    } else {
      assert FieldErrors(key, value) == [];
    }
  }

  /** Capacity and storage accept digits, optional spaces and a unit in one case: "64 GB", "1tb". */
  lemma CapacityRuleAccepts(key: string, digits: string, spaces: string, unit: string)
    requires Lowercased(key) == "capacity" || Lowercased(key) == "storage"
    requires digits != [] && AllDigits(digits)
    requires AllPatternSpace(spaces)
    requires IsCapacityUnit(unit)
    ensures FieldErrors(key, digits + spaces + unit) == []
  {
    CapacityFormAccepted(digits, spaces, unit);
  }

  /**
   * A non-empty capacity or storage text without a final line break that is
   * accepted is digits, then spaces, then a unit; one that is refused gets
   * the one format message.
   */
  lemma CapacityRuleForm(key: string, value: string) returns (n: nat, m: nat)
    requires Lowercased(key) == "capacity" || Lowercased(key) == "storage"
    requires value != [] && !IsLineTerminator(value[|value| - 1])
    ensures FieldErrors(key, value) == [] ==>
      && 0 < n && n + m <= |value|
      && AllDigits(value[..n]) && AllPatternSpace(value[n..n + m]) && IsCapacityUnit(value[n + m..])
    ensures FieldErrors(key, value) != [] ==> FieldErrors(key, value) == [CapacityFormat]
  {
    n, m := 0, 0;
    if FieldErrors(key, value) == [] {
      if |value| >= 2 {
        assert value[|value| - 2..][1] == value[|value| - 1];
      }
      n, m := CapacityBodyForm(value);
    }
  }

  // ---------------------------------------------------------------------
  // Whole-item rules

  /** The name messages of `validateCompleteItem`. */
  function NameErrors(name: string): (errors: seq<string>)
    ensures errors == [] <==> Trim(name) != [] && |name| <= 50
  {
    (if Trim(name) == [] then [NameEmpty] else []) + (if |name| > 50 then [NameTooLong] else [])
  }

  /** The messages of every field, by key. */
  function ErrorsByKey(fields: map<string, string>): (byKey: map<string, seq<string>>)
    ensures byKey.Keys == fields.Keys
  {
    map k | k in fields :: FieldErrors(k, fields[k])
  }

  /** The messages of `byKey` concatenated in the order of `order`. */
  function Flatten(byKey: map<string, seq<string>>, order: seq<string>): (errors: seq<string>)
    requires forall i :: 0 <= i < |order| ==> order[i] in byKey
    ensures errors == [] <==> forall i :: 0 <= i < |order| ==> byKey[order[i]] == []
  {
    if order == [] then []
    else
      var last := order[|order| - 1];
      Flatten(byKey, order[..|order| - 1]) + byKey[last]
  }

  /** Visiting one more key appends its messages. */
  lemma FlattenAppend(byKey: map<string, seq<string>>, order: seq<string>, key: string)
    requires forall i :: 0 <= i < |order| ==> order[i] in byKey
    requires key in byKey
    ensures Flatten(byKey, order + [key]) == Flatten(byKey, order) + byKey[key]
  {
    assert (order + [key])[..|order|] == order;
  }

  function LowercasedKeys(keys: set<string>): set<string> {
    set k | k in keys :: Lowercased(k)
  }

  /** `lowercaseKeys.count != Set(lowercaseKeys).count` */
  predicate HasCaseDuplicates(keys: set<string>) {
    |LowercasedKeys(keys)| != |keys|
  }

  /** Two different keys that are the same once lower-cased. */
  ghost predicate CaseCollision(keys: set<string>) {
    exists a, b :: a in keys && b in keys && a != b && Lowercased(a) == Lowercased(b)
  }

  /** The count comparison detects exactly the keys that collide once lower-cased. */
  lemma {:induction false} CaseDuplicatesIffCollision(keys: set<string>)
    ensures |LowercasedKeys(keys)| <= |keys|
    ensures HasCaseDuplicates(keys) <==> CaseCollision(keys)
    decreases keys
  {
    if keys == {} {
      assert LowercasedKeys(keys) == {};
    } else {
      var x :| x in keys;
      var rest := keys - {x};
      CaseDuplicatesIffCollision(rest);
      assert LowercasedKeys(keys) == LowercasedKeys(rest) + {Lowercased(x)};
      if Lowercased(x) in LowercasedKeys(rest) {
        var y :| y in rest && Lowercased(y) == Lowercased(x);
        assert x != y;
        assert CaseCollision(keys);
      } else {
        assert |LowercasedKeys(keys)| == |LowercasedKeys(rest)| + 1;
        if CaseCollision(keys) {
          var a, b :| a in keys && b in keys && a != b && Lowercased(a) == Lowercased(b);
          assert a != x && b != x;
          assert CaseCollision(rest);
        }
        if CaseCollision(rest) {
          var a, b :| a in rest && b in rest && a != b && Lowercased(a) == Lowercased(b);
          assert CaseCollision(keys);
        }
      }
    }
  }

  /** `order` lists every key of `keys` once. */
  predicate Enumerates(order: seq<string>, keys: set<string>) {
    && (forall i :: 0 <= i < |order| ==> order[i] in keys)
    && (forall k :: k in keys ==> k in order)
    && (forall i, j :: 0 <= i < j < |order| ==> order[i] != order[j])
  }

  /** The messages `validateCompleteItem` collects for an item named `name`, the fields visited in `order`. */
  function CompleteErrors(name: string, fields: map<string, string>, order: seq<string>): seq<string>
    requires forall i :: 0 <= i < |order| ==> order[i] in fields
  {
    NameErrors(name) + Flatten(ErrorsByKey(fields), order)
    + (if HasCaseDuplicates(fields.Keys) then [DuplicateFieldNames] else [])
  }

  /** What the editor accepts: a name that trims to 1..50 characters, no field message, no case collision. */
  ghost predicate EditIsValid(editedName: string, fields: map<string, string>) {
    && Trim(editedName) != []
    && |Trim(editedName)| <= 50
    && FieldsPass(fields)
    && !CaseCollision(fields.Keys)
  }

  /** No field has a message. */
  predicate FieldsPass(fields: map<string, string>) {
    forall k :: k in fields ==> FieldErrors(k, fields[k]) == []
  }

  /** Visiting one more key enumerates one more key. */
  lemma EnumeratesAppend(order: seq<string>, keys: set<string>, key: string)
    requires Enumerates(order, keys) && key !in keys
    ensures Enumerates(order + [key], keys + {key})
  {
  }

  /** Whatever the visiting order, no field message is collected exactly when no field has one. */
  lemma NoFieldErrorsIff(fields: map<string, string>, order: seq<string>)
    requires Enumerates(order, fields.Keys)
    ensures Flatten(ErrorsByKey(fields), order) == [] <==> FieldsPass(fields)
  {
    if Flatten(ErrorsByKey(fields), order) == [] {
      forall k | k in fields ensures FieldErrors(k, fields[k]) == [] {
        var i :| 0 <= i < |order| && order[i] == k;
      }
    }
  }

  /** Whatever the visiting order, the item is valid exactly when the editor accepts it. */
  lemma CompleteErrorsEmptyIff(editedName: string, fields: map<string, string>, order: seq<string>)
    requires Enumerates(order, fields.Keys)
    ensures CompleteErrors(Trim(editedName), fields, order) == [] <==> EditIsValid(editedName, fields)
  {
    TrimIdempotent(editedName);
    CaseDuplicatesIffCollision(fields.Keys);
    NoFieldErrorsIff(fields, order);
  }

  /** `errors` is what one validation of the name and fields reports, in some visiting order. */
  ghost predicate Reports(errors: seq<string>, editedName: string, fields: map<string, string>) {
    exists order :: Enumerates(order, fields.Keys) && errors == CompleteErrors(Trim(editedName), fields, order)
  }

  /**
   * Validating the rebuilt item (whose name is the trimmed edited name) in
   * any order of the fields gives the editor's verdict, and its messages
   * are empty exactly when it is valid.
   */
  lemma ValidationVerdict(editedName: string, fields: map<string, string>, order: seq<string>, r: ValidationResult)
    requires Enumerates(order, fields.Keys)
    requires r == ResultOf(CompleteErrors(Trim(editedName), fields, order))
    ensures r.IsValid() <==> EditIsValid(editedName, fields)
    ensures r.IsValid() <==> r.ErrorMessages() == []
    ensures Reports(r.ErrorMessages(), editedName, fields)
  {
    CompleteErrorsEmptyIff(editedName, fields, order);
  }

  // ---------------------------------------------------------------------
  // Rebuilding an item from edited texts

  datatype Kind = StringKind | IntKind | DoubleKind | BoolKind

  function KindOf(v: JsonValue): Kind {
    match v
    case StringVal(_) => StringKind
    case IntVal(_) => IntKind
    case DoubleVal(_) => DoubleKind
    case BoolVal(_) => BoolKind
  }

  predicate IsBoolText(text: string) {
    Lowercased(text) == "true" || Lowercased(text) == "false"
  }

  /** The text reads as a value of `original`'s type. */
  predicate ParsesAs(text: string, original: JsonValue) {
    match original
    case BoolVal(_) => IsBoolText(text)
    case IntVal(_) => ParseInt(text).Some?
    case DoubleVal(_) => ParseDouble(text).Some?
    case StringVal(_) => true
  }

  /**
   * `convertToOriginalType`: the text read as the original's type, or the
   * text itself as a string when it does not read as that type.
   */
  function ConvertToOriginalType(text: string, original: JsonValue): (r: JsonValue)
    ensures ParsesAs(text, original) ==> KindOf(r) == KindOf(original)
    ensures !ParsesAs(text, original) ==> r == StringVal(text)
    ensures r.StringVal? ==> r.s == text
    ensures r.BoolVal? ==> (r.b <==> Lowercased(text) == "true")
    ensures r.IntVal? ==> ParseInt(text) == Some(r.i)
    ensures r.DoubleVal? ==> ParseDouble(text) == Some(r.d)
  {
    match original
    case BoolVal(_) => if IsBoolText(text) then BoolVal(Lowercased(text) == "true") else StringVal(text)
    case IntVal(_) => if ParseInt(text).Some? then IntVal(ParseInt(text).value) else StringVal(text)
    case DoubleVal(_) => if ParseDouble(text).Some? then DoubleVal(ParseDouble(text).value) else StringVal(text)
    case StringVal(_) => StringVal(text)
  }

  /** A field's own text converts back to the field's value. */
  lemma ConvertStringValue(v: JsonValue)
    ensures ConvertToOriginalType(StringValue(v), v) == v
  {
    StringValueReadsBack(v);
  }

  /**
   * `inferJSONValueType`: "true"/"false" in any case, then `Int`, then
   * `Double`, then the text as a string. Text that reads as an `Int` also
   * reads as a `Double`, so a string is inferred exactly when neither a
   * boolean nor a `Double` reading exists.
   */
  function InferJsonValueType(text: string): (r: JsonValue)
    ensures r.BoolVal? <==> IsBoolText(text)
    ensures r.BoolVal? ==> (r.b <==> Lowercased(text) == "true")
    ensures r.IntVal? <==> !IsBoolText(text) && ParseInt(text).Some?
    ensures r.IntVal? ==> ParseInt(text) == Some(r.i)
    ensures r.DoubleVal? ==> ParseInt(text).None? && ParseDouble(text) == Some(r.d)
    ensures r.StringVal? <==> !IsBoolText(text) && ParseDouble(text).None?
    ensures r.StringVal? ==> r.s == text
  {
    if IsBoolText(text) then BoolVal(Lowercased(text) == "true")
    else if ParseInt(text).Some? then
      ParseIntThenParseDouble(text);
      IntVal(ParseInt(text).value)
    else if ParseDouble(text).Some? then DoubleVal(ParseDouble(text).value)
    else StringVal(text)
  }

  /** A number's text starts with a sign or a digit, so it is never "true" or "false". */
  lemma NumberTextNotBool(s: string)
    requires s != [] && (s[0] == '-' || IsDigitChar(s[0]))
    ensures !IsBoolText(s)
  {
    assert Lowercased(s)[0] == s[0];
  }

  lemma IntTextShape(i: Int64)
    ensures var s := IntText(i); s != [] && (s[0] == '-' || IsDigitChar(s[0])) && IsDigitChar(s[|s| - 1])
  {
    var n: nat := if i < 0 then -(i as int) else i;
    var digits := NatText(n);
    assert IsDigitChar(digits[0]) && IsDigitChar(digits[|digits| - 1]);
    if i < 0 {
      assert IntText(i) == "-" + digits;
    }
  }

  lemma DoubleTextShape(d: Double)
    ensures var s := DoubleText(d); s != [] && (s[0] == '-' || IsDigitChar(s[0])) && IsDigitChar(s[|s| - 1])
    ensures ParseInt(DoubleText(d)).None?
  {
    var body := DoubleTextBody(d);
    SplitSignedBody(d.negative, body);
    ParseIntRejectsNonDigits(d.negative, body);
    var s := DoubleText(d);
    assert s[|s| - 1] == body[|body| - 1];
  }

  /** The text of a double after its sign: digits at both ends and a point between. */
  lemma DoubleTextBody(d: Double) returns (body: string)
    ensures DoubleText(d) == SignText(d.negative) + body
    ensures body != [] && IsDigitChar(body[0]) && IsDigitChar(body[|body| - 1]) && !AllDigits(body)
  {
    var digits := NatText(d.whole);
    var tail := if d.frac == [] then "0" else CharsOf(d.frac);
    body := digits + "." + tail;
    assert body[0] == digits[0];
    assert body[|digits|] == '.';
    assert body[|body| - 1] == tail[|tail| - 1];
  }

  /** A number or boolean's own text is inferred as that same value. */
  lemma InferStringValue(v: JsonValue)
    requires !v.StringVal?
    ensures InferJsonValueType(StringValue(v)) == v
  {
    match v
    case IntVal(i) => InferIntText(i);
    case DoubleVal(d) => InferDoubleText(d);
    case BoolVal(b) =>
      assert Lowercased("true") == "true" && Lowercased("false") == "false";
  }

  /** An `Int`'s own text is inferred as that `Int`. */
  lemma InferIntText(i: Int64)
    ensures InferJsonValueType(IntText(i)) == IntVal(i)
  {
    IntTextShape(i);
    NumberTextNotBool(IntText(i));
    ParseIntText(i);
  }

  /** A double's own text is inferred as that double: `Int(_)` refuses it. */
  lemma InferDoubleText(d: Double)
    ensures InferJsonValueType(DoubleText(d)) == DoubleVal(d)
  {
    DoubleTextShape(d);
    NumberTextNotBool(DoubleText(d));
    ParseDoubleText(d);
  }

  /** The value a trimmed, non-blank text takes: converted when the key was in the item, inferred otherwise. */
  function Reinterpret(original: CatalogueItem, key: string, text: string): JsonValue {
    if key in FieldsOf(original) then ConvertToOriginalType(text, FieldsOf(original)[key])
    else InferJsonValueType(text)
  }

  /** The fields of the rebuilt item: every field whose trimmed text is not empty, reinterpreted. */
  function UpdatedData(original: CatalogueItem, fields: map<string, string>): map<string, JsonValue> {
    map k | k in fields && Trim(fields[k]) != [] :: Reinterpret(original, k, Trim(fields[k]))
  }

  /** `createUpdatedItem`: the original id, the trimmed name and the rebuilt fields, or no data when none is left. */
  function UpdatedItem(original: CatalogueItem, editedName: string, fields: map<string, string>): CatalogueItem {
    var data := UpdatedData(original, fields);
    CatalogueItem(original.id, Trim(editedName), if data == map[] then None else Some(data))
  }

  /**
   * The rebuilt item keeps the id, trims the name, keeps exactly the fields
   * whose text is not blank (no data when there are none), and gives each
   * field that was in the item either its original type or its text as a
   * string.
   */
  lemma UpdatedItemShape(original: CatalogueItem, editedName: string, fields: map<string, string>)
    ensures var item := UpdatedItem(original, editedName, fields);
      && item.id == original.id
      && item.name == Trim(editedName)
      && (item.data.None? <==> forall k :: k in fields ==> AllWhitespace(fields[k]))
      && (forall k :: k in FieldsOf(item) <==> k in fields && !AllWhitespace(fields[k]))
      && (forall k :: k in FieldsOf(item) && k in FieldsOf(original) ==>
            KindOf(FieldsOf(item)[k]) == KindOf(FieldsOf(original)[k])
            || FieldsOf(item)[k] == StringVal(Trim(fields[k])))
      && (forall k :: k in FieldsOf(item) && k !in FieldsOf(original) ==>
            FieldsOf(item)[k] == InferJsonValueType(Trim(fields[k])))
  {
    var data := UpdatedData(original, fields);
    if data == map[] {
      forall k | k in fields ensures AllWhitespace(fields[k]) {
        assert k !in data;
      }
    }
  }

  /** The texts the editor starts with: `stringValue` of every field. */
  function InitialFields(item: CatalogueItem): (fields: map<string, string>)
    ensures fields.Keys == FieldsOf(item).Keys
  {
    map k | k in FieldsOf(item) :: StringValue(FieldsOf(item)[k])
  }

  /** `areItemsEqual`: same id, same name, as many keys, and every key of the first with the same text in the second. */
  predicate AreItemsEqual(a: CatalogueItem, b: CatalogueItem) {
    && a.id == b.id
    && a.name == b.name
    && |FieldsOf(a).Keys| == |FieldsOf(b).Keys|
    && forall k :: k in FieldsOf(a) ==> k in FieldsOf(b) && StringValue(FieldsOf(a)[k]) == StringValue(FieldsOf(b)[k])
  }

  /** The key-count check makes the comparison exact: the same key sets with the same texts. */
  lemma AreItemsEqualIff(a: CatalogueItem, b: CatalogueItem)
    ensures AreItemsEqual(a, b) <==>
      && a.id == b.id
      && a.name == b.name
      && FieldsOf(a).Keys == FieldsOf(b).Keys
      && forall k :: k in FieldsOf(a) ==> StringValue(FieldsOf(a)[k]) == StringValue(FieldsOf(b)[k])
  {
    var ka, kb := FieldsOf(a).Keys, FieldsOf(b).Keys;
    if ka <= kb && |ka| == |kb| {
      assert kb == ka + (kb - ka);
      assert |kb - ka| == 0;
    }
  }

  /**
   * An editor left untouched rebuilds the item it was opened with, provided
   * the name and string fields carry no surrounding white space, no string
   * field is empty, and a present dictionary is not empty.
   */
  lemma UneditedItemRebuilt(item: CatalogueItem)
    requires Trim(item.name) == item.name
    requires forall k :: k in FieldsOf(item) && FieldsOf(item)[k].StringVal? ==>
      FieldsOf(item)[k].s != [] && Trim(FieldsOf(item)[k].s) == FieldsOf(item)[k].s
    requires item.data != Some(map[])
    ensures UpdatedItem(item, item.name, InitialFields(item)) == item
  {
    UneditedFieldsUnchanged(item);
  }

  /**
   * An editor left untouched reports no changes, provided the name and
   * string fields carry no surrounding white space and no string field is
   * empty; an empty dictionary and no dictionary compare alike.
   */
  lemma UneditedItemUnchanged(item: CatalogueItem)
    requires Trim(item.name) == item.name
    requires forall k :: k in FieldsOf(item) && FieldsOf(item)[k].StringVal? ==>
      FieldsOf(item)[k].s != [] && Trim(FieldsOf(item)[k].s) == FieldsOf(item)[k].s
    ensures AreItemsEqual(item, UpdatedItem(item, item.name, InitialFields(item)))
  {
    UneditedFieldsUnchanged(item);
    var updated := UpdatedItem(item, item.name, InitialFields(item));
    assert FieldsOf(updated) == FieldsOf(item);
    AreItemsEqualIff(item, updated);
  }

  /** Every field's own text, trimmed and reinterpreted, gives the field back. */
  lemma UneditedFieldsUnchanged(item: CatalogueItem)
    requires forall k :: k in FieldsOf(item) && FieldsOf(item)[k].StringVal? ==>
      FieldsOf(item)[k].s != [] && Trim(FieldsOf(item)[k].s) == FieldsOf(item)[k].s
    ensures UpdatedData(item, InitialFields(item)) == FieldsOf(item)
  {
    var m := FieldsOf(item);
    var fields := InitialFields(item);
    forall k | k in m ensures Trim(fields[k]) == fields[k] && fields[k] != [] && Reinterpret(item, k, fields[k]) == m[k] {
      OwnTextTrimmed(m[k]);
      ConvertStringValue(m[k]);
    }
    assert UpdatedData(item, fields) == m;
  }

  /** A value's own text is trimmed and not blank, a string's provided it was so. */
  lemma OwnTextTrimmed(v: JsonValue)
    requires v.StringVal? ==> v.s != [] && Trim(v.s) == v.s
    ensures StringValue(v) != [] && Trim(StringValue(v)) == StringValue(v)
  {
    match v
    case StringVal(_) =>
    case IntVal(i) => IntTextTrimmed(i);
    case DoubleVal(d) => DoubleTextTrimmed(d);
    case BoolVal(b) => TrimmedTextUnchanged(if b then "true" else "false");
  }

  lemma IntTextTrimmed(i: Int64)
    ensures IntText(i) != [] && Trim(IntText(i)) == IntText(i)
  {
    IntTextShape(i);
    TrimmedTextUnchanged(IntText(i));
  }

  lemma DoubleTextTrimmed(d: Double)
    ensures DoubleText(d) != [] && Trim(DoubleText(d)) == DoubleText(d)
  {
    DoubleTextShape(d);
    TrimmedTextUnchanged(DoubleText(d));
  }

  // ---------------------------------------------------------------------
  // The view model

  class EditCatalogueItemViewModel {
    var editedName: string
    var editableFields: map<string, string>
    var validationErrors: seq<string>
    var isValid: bool
    var isLoading: bool
    /** The error of the last failed save, whose `localizedDescription` is shown. */
    var errorMessage: Option<CatalogueError>
    const originalItem: CatalogueItem
    const repository: MobileCatalogueRepository

    /** The editor opens on the item's name and the text of each of its fields, with nothing reported. */
    constructor (item: CatalogueItem, repository: MobileCatalogueRepository)
      ensures originalItem == item && this.repository == repository
      ensures editedName == item.name && editableFields == InitialFields(item)
      ensures validationErrors == [] && isValid && !isLoading && errorMessage == None
    {
      var fields: map<string, string> := map[];
      var pending := FieldsOf(item).Keys;
      while pending != {}
        invariant pending <= FieldsOf(item).Keys
        invariant fields == map k | k in FieldsOf(item) && k !in pending :: StringValue(FieldsOf(item)[k])
        decreases pending
      {
        var key :| key in pending;
        fields := fields[key := StringValue(FieldsOf(item)[key])];
        pending := pending - {key};
      }
      originalItem := item;
      this.repository := repository;
      editedName := item.name;
      editableFields := fields;
      validationErrors := [];
      isValid := true;
      isLoading := false;
      errorMessage := None;
    }

    /** `validateField`: the messages of the rule the lower-cased key selects. */
    method ValidateField(key: string, value: string) returns (errors: seq<string>)
      ensures errors == FieldErrors(key, value)
    {
      errors := [];
      var k := Lowercased(key);
      if k == "price" {
        var price := ParseDouble(value);
        if value != [] && price.None? {
          errors := errors + [PriceNotNumber];
        }
        if price.Some? && IsNegative(price.value) {
          errors := errors + [PriceNegative];
        }
      } else if k == "capacity" || k == "storage" {
        if value != [] && !IsValidCapacity(value) {
          errors := errors + [CapacityFormat];
        }
      } else if k == "year" {
        var year := ParseInt(value);
        if value != [] && year.None? {
          errors := errors + [YearNotNumber];
        }
        if year.Some? && (year.value < 1900 || year.value > 2030) {
          errors := errors + [YearOutOfRange];
        }
      } else if k == "screen size" || k == "screensize" {
        if value != [] && ParseDouble(value).None? {
          errors := errors + [ScreenSizeNotNumber];
        }
      } else if |value| > 100 {
        errors := errors + [TooLong(key)];
      }
    }

    /** The field loop of `validateCompleteItem`: the messages of every field, in dictionary order. */
    method CollectFieldErrors() returns (errors: seq<string>, ghost order: seq<string>)
      ensures Enumerates(order, editableFields.Keys)
      ensures errors == Flatten(ErrorsByKey(editableFields), order)
      ensures errors == [] <==> FieldsPass(editableFields)
    {
      var fields := editableFields;
      ghost var byKey := ErrorsByKey(fields);
      errors := [];
      var pending := fields.Keys;
      order := [];
      while pending != {}
        invariant pending <= fields.Keys
        invariant Enumerates(order, fields.Keys - pending)
        invariant errors == Flatten(byKey, order)
        decreases pending
      {
        var key :| key in pending;
        var fieldErrors := ValidateField(key, fields[key]);
        FlattenAppend(byKey, order, key);
        EnumeratesAppend(order, fields.Keys - pending, key);
        assert (fields.Keys - pending) + {key} == fields.Keys - (pending - {key});
        errors := errors + fieldErrors;
        order := order + [key];
        pending := pending - {key};
      }
      assert fields.Keys - pending == fields.Keys;
      NoFieldErrorsIff(fields, order);
    }

    /**
     * `validateCompleteItem`: name messages, then the messages of every
     * field in dictionary order, then one duplicate-key message.
     */
    method ValidateCompleteItem(item: CatalogueItem) returns (result: ValidationResult, ghost order: seq<string>)
      ensures Enumerates(order, editableFields.Keys)
      ensures result == ResultOf(CompleteErrors(item.name, editableFields, order))
      ensures result.IsValid() <==>
        && NameErrors(item.name) == []
        && FieldsPass(editableFields)
        && !HasCaseDuplicates(editableFields.Keys)
    {
      var errors := NameErrors(item.name);
      var fieldErrors;
      fieldErrors, order := CollectFieldErrors();
      errors := errors + fieldErrors;
      if |LowercasedKeys(editableFields.Keys)| != |editableFields.Keys| {
        errors := errors + [DuplicateFieldNames];
      }
      result := if errors == [] then Valid else Invalid(errors);
    }

    /**
     * The published `isValid` and `validationErrors` are those of validating
     * `name` and `fields`: the verdict the editor gives them, and messages
     * that are empty exactly when that verdict is valid.
     */
    ghost predicate Publishes(name: string, fields: map<string, string>)
      reads this
    {
      && (isValid <==> EditIsValid(name, fields))
      && (isValid <==> validationErrors == [])
      && Reports(validationErrors, name, fields)
    }

    /**
     * `validateCurrentState`: validate the item the editor would save and
     * publish the outcome. `name` and `fields` name the current name and
     * fields, so that callers can state the verdict in their own terms.
     */
    method ValidateCurrentState(ghost name: string, ghost fields: map<string, string>)
      requires name == editedName && fields == editableFields
      modifies this`validationErrors, this`isValid
      ensures Publishes(name, fields)
    {
      var name, fields := editedName, editableFields;
      var item := CreateUpdatedItem();
      var result, order := ValidateCompleteItem(item);
      ValidationVerdict(name, fields, order, result);
      validationErrors := result.ErrorMessages();
      isValid := result.IsValid();
    }

    /** `createUpdatedItem` */
    method CreateUpdatedItem() returns (item: CatalogueItem)
      ensures item == UpdatedItem(originalItem, editedName, editableFields)
    {
      var updated: map<string, JsonValue> := map[];
      var pending := editableFields.Keys;
      while pending != {}
        invariant pending <= editableFields.Keys
        invariant forall k :: k in updated <==> k in editableFields && k !in pending && Trim(editableFields[k]) != []
        invariant forall k :: k in updated ==> updated[k] == Reinterpret(originalItem, k, Trim(editableFields[k]))
        decreases pending
      {
        var key :| key in pending;
        var trimmed := Trim(editableFields[key]);
        if trimmed != [] {
          if originalItem.data.Some? && key in originalItem.data.value {
            updated := updated[key := ConvertToOriginalType(trimmed, originalItem.data.value[key])];
          } else {
            updated := updated[key := InferJsonValueType(trimmed)];
          }
        }
        pending := pending - {key};
      }
      assert updated == UpdatedData(originalItem, editableFields);
      assert |updated| == 0 <==> updated == map[] by {
        if |updated| == 0 {
          assert updated.Keys == {};
        }
      }
      item := CatalogueItem(originalItem.id, Trim(editedName), if |updated| == 0 then None else Some(updated));
    }

    /**
     * `updateField` with validation of the state after the edit: the field
     * takes the text and the published verdict is that of the new fields.
     */
    method UpdateField(key: string, value: string)
      modifies this`editableFields, this`validationErrors, this`isValid
      ensures editableFields == old(editableFields)[key := value]
      ensures Publishes(old(editedName), old(editableFields)[key := value])
    {
      editableFields := editableFields[key := value];
      ValidateCurrentState(old(editedName), old(editableFields)[key := value]);
    }

    /**
     * `updateField` as it behaves: the `$editableFields` subscriber runs
     * while the property still holds its previous value, so the published
     * verdict is that of the fields before the edit.
     */
    method UpdateFieldAsWritten(key: string, value: string)
      modifies this`editableFields, this`validationErrors, this`isValid
      ensures editableFields == old(editableFields)[key := value]
      ensures Publishes(old(editedName), old(editableFields))
    {
      ValidateCurrentState(editedName, editableFields);
      editableFields := editableFields[key := value];
    }

    /** Editing the name, validated after the edit. */
    method EditName(name: string)
      modifies this`editedName, this`validationErrors, this`isValid
      ensures editedName == name
      ensures Publishes(name, old(editableFields))
    {
      editedName := name;
      ValidateCurrentState(name, editableFields);
    }

    /**
     * Editing the name as it behaves: the `$editedName` subscriber runs while
     * the property still holds its previous value, so the published verdict
     * is that of the name before the edit.
     */
    method EditNameAsWritten(name: string)
      modifies this`editedName, this`validationErrors, this`isValid
      ensures editedName == name
      ensures Publishes(old(editedName), old(editableFields))
    {
      ValidateCurrentState(editedName, editableFields);
      editedName := name;
    }

    /** `hasChanges`: the item the editor would save differs from the original. */
    method HasChanges() returns (changed: bool)
      ensures changed <==> !AreItemsEqual(originalItem, UpdatedItem(originalItem, editedName, editableFields))
    {
      var current := CreateUpdatedItem();
      changed := !AreItemsEqual(originalItem, current);
    }

    /**
     * `saveItem`: the rebuilt item is handed to the repository; its error,
     * if any, is kept for display.
     */
    method SaveItem(fetchOk: bool, saveOk: bool)
      modifies this`isLoading, this`errorMessage, repository
      ensures !isLoading
      ensures editedName == old(editedName) && editableFields == old(editableFields)
      ensures validationErrors == old(validationErrors) && isValid == old(isValid)
      ensures var item := UpdatedItem(originalItem, old(editedName), old(editableFields));
        var stored := item.id in RecordIds(old(repository.records));
        && repository.serviceCalls == old(repository.serviceCalls)
        && (!fetchOk ==>
              errorMessage == Some(Persistence)
              && repository.records == old(repository.records)
              && repository.catalogueItems == old(repository.catalogueItems))
        && (fetchOk && !stored ==>
              errorMessage == Some(UnableToUpdate)
              && repository.records == old(repository.records)
              && repository.catalogueItems == old(repository.catalogueItems))
        && (fetchOk && stored ==>
              repository.records
              == old(repository.records)[FirstIndex(RecordIds(old(repository.records)), item.id).value := RecordOf(item)])
        && (fetchOk && stored && !saveOk ==>
              errorMessage == Some(Persistence) && repository.catalogueItems == old(repository.catalogueItems))
        && (fetchOk && stored && saveOk ==>
              errorMessage == old(errorMessage)
              && repository.catalogueItems == ReplaceFirst(old(repository.catalogueItems), item))
    {
      isLoading := true;
      var item := CreateUpdatedItem();
      assert item == UpdatedItem(originalItem, old(editedName), old(editableFields));
      var result := repository.UpdateCatalogueItem(item, fetchOk, saveOk);
      isLoading := false;
      if result.Failure? {
        errorMessage := Some(result.error);
      }
    }
  }

  /** The item "Phone" with year 2020 opens on the text "2020"; typing "abc" over it leaves "abc" alone. */
  lemma YearItemOpens()
    ensures var initial := InitialFields(CatalogueItem("1", "Phone", Some(map["year" := IntVal(2020)])));
      && initial == map["year" := IntText(2020)]
      && initial["year" := "abc"] == map["year" := "abc"]
  {
    var item := CatalogueItem("1", "Phone", Some(map["year" := IntVal(2020)]));
    assert FieldsOf(item) == map["year" := IntVal(2020)];
  }

  /** A name that needs no trimming and a year in 1900...2030 make a state the editor accepts. */
  lemma YearInRangeAccepted(year: int)
    requires 1900 <= year <= 2030
    ensures EditIsValid("Phone", map["year" := IntText(year)])
  {
    TrimmedTextUnchanged("Phone");
    ParseIntText(year);
    assert Lowercased("year") == "year";
    YearRule("year", IntText(year));
    var fields := map["year" := IntText(year)];
    assert fields.Keys == {"year"};
    assert FieldsPass(fields);
  }

  /** A year that is not a number makes the edit invalid. */
  lemma YearTextRejected()
    ensures !EditIsValid("Phone", map["year" := "abc"])
  {
    var fields := map["year" := "abc"];
    assert FieldErrors("year", "abc") == [YearNotNumber] by {
      assert Lowercased("year") == "year";
      assert !IsDigitChar("abc"[0]);
    }
    assert "year" in fields && FieldErrors("year", fields["year"]) != [];
  }

  /**
   * An item named "Phone" whose year is 2020: changing the year to "abc"
   * leaves the as-written editor reporting a valid state although the year is
   * not a number; the corrected editor reports it invalid.
   */
  method StaleValidationExample(repository: MobileCatalogueRepository) {
    var item := CatalogueItem("1", "Phone", Some(map["year" := IntVal(2020)]));
    YearItemOpens();
    YearInRangeAccepted(2020);
    YearTextRejected();

    var stale := new EditCatalogueItemViewModel(item, repository);
    stale.UpdateFieldAsWritten("year", "abc");
    assert stale.isValid && !EditIsValid(stale.editedName, stale.editableFields);

    var corrected := new EditCatalogueItemViewModel(item, repository);
    corrected.UpdateField("year", "abc");
    assert !corrected.isValid;
  }

  /**
   * An item named "Phone" without fields, its name cleared: the as-written editor still
   * reports a valid state, the corrected one an empty name.
   */
  method StaleNameExample(repository: MobileCatalogueRepository) {
    var item := CatalogueItem("1", "Phone", None);
    TrimmedTextUnchanged("Phone");

    var stale := new EditCatalogueItemViewModel(item, repository);
    stale.EditNameAsWritten("");
    assert stale.isValid && !EditIsValid(stale.editedName, stale.editableFields);

    var corrected := new EditCatalogueItemViewModel(item, repository);
    corrected.EditName("");
    assert !corrected.isValid;
  }
}
