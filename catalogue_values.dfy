/**
 * A catalogue item (`MobileCatalogueItem`) and its dynamically typed field
 * values (`JSONValue`): how a value is decoded from and encoded to a JSON
 * token, its text (`stringValue`), the sorted key/value list shown for an
 * item (`keyValueList`), and the JSON blob an item's fields are stored as.
 *
 * The decoder works on typed JSON tokens: a JSON string stays a string even
 * when its text looks like a number or a boolean.
 */
module CatalogueValues {
  import opened Wrappers
  import opened Numbers
  import opened Text

  /** A JSON value as a decoder's single-value container sees it. */
  datatype JsonToken =
    | JNull
    | JBool(b: bool)
    | JNumber(n: Double)
    | JString(s: string)
    | JArray(elements: seq<JsonToken>)
    | JObject(members: map<string, JsonToken>)

  /** `JSONValue` */
  datatype JsonValue =
    | StringVal(s: string)
    | IntVal(i: Int64)
    | DoubleVal(d: Double)
    | BoolVal(b: bool)

  /**
   * Why a token does not decode: it is not a scalar (`DecodingError.typeMismatch`),
   * or `Int(doubleVal)` was asked to convert a whole number beyond `Int`'s
   * range, which stops the program.
   */
  datatype DecodeError = TypeMismatch | IntConversionTrap

  predicate IsScalar(t: JsonToken) {
    t.JBool? || t.JNumber? || t.JString?
  }

  /** A number that `decode(Int.self)` accepts: whole and within `Int`'s range. */
  predicate FitsInt(n: Double) {
    IsWhole(n) && INT_MIN <= Truncate(n) <= INT_MAX
  }

  const NegativeZero: Double := Decimal(true, 0, [])

  /**
   * `JSONValue.init(from:)` as the source writes it: bool, then Int, then
   * Double, where a whole Double becomes `.int(Int(doubleVal))`, which traps
   * when the number lies outside `Int`'s range; then String.
   */
  function DecodeAsWritten(t: JsonToken): Result<JsonValue, DecodeError> {
    match t
    case JBool(b) => Success(BoolVal(b))
    case JNumber(n) =>
      if FitsInt(n) then Success(IntVal(Truncate(n)))
      else if IsWhole(n) then Failure(IntConversionTrap)
      else Success(DoubleVal(n))
    case JString(s) => Success(StringVal(s))
    case _ => Failure(TypeMismatch)
  }

  /**
   * The decoder with the intended collapse: a whole number becomes `.int`
   * only when it fits `Int`, and stays `.double` otherwise.
   */
  function Decode(t: JsonToken): (r: Result<JsonValue, DecodeError>)
    ensures r.Success? <==> IsScalar(t)
    ensures r.Failure? ==> r.error == TypeMismatch
    ensures r.Success? && r.value.DoubleVal? ==> !FitsInt(r.value.d)
    ensures r.Success? ==> Encode(r.value) == t || t == JNumber(NegativeZero)
  {
    match t
    case JBool(b) => Success(BoolVal(b))
    case JNumber(n) =>
      if FitsInt(n) then Success(IntVal(Truncate(n))) else Success(DoubleVal(n))
    case JString(s) => Success(StringVal(s))
    case _ => Failure(TypeMismatch)
  }

  /** The two decoders differ only on whole numbers beyond `Int`'s range. */
  lemma DecodersAgree(t: JsonToken)
    requires !(t.JNumber? && IsWhole(t.n) && !FitsInt(t.n))
    ensures DecodeAsWritten(t) == Decode(t)
  {
  }

  /** 10^19 is a whole JSON number above `Int.max`: as written, decoding it traps. */
  lemma DecodeAsWrittenTrapsAboveIntMax()
    ensures DecodeAsWritten(JNumber(Decimal(false, 10_000_000_000_000_000_000, [])))
            == Failure(IntConversionTrap)
    ensures Decode(JNumber(Decimal(false, 10_000_000_000_000_000_000, [])))
            == Success(DoubleVal(Decimal(false, 10_000_000_000_000_000_000, [])))
  {
  }

  /** `JSONValue.encode(to:)`: every variant as its own scalar. */
  function Encode(v: JsonValue): JsonToken {
    match v
    case StringVal(s) => JString(s)
    case IntVal(i) => JNumber(FromInt(i))
    case DoubleVal(d) => JNumber(d)
    case BoolVal(b) => JBool(b)
  }

  /** What decoding a value's encoding gives back: a whole double that fits `Int` turns into an int. */
  function Normalize(v: JsonValue): JsonValue {
    if v.DoubleVal? && FitsInt(v.d) then IntVal(Truncate(v.d)) else v
  }

  /** decode(encode(v)) == v, except that a whole double in `Int`'s range comes back as `.int`. */
  lemma DecodeEncode(v: JsonValue)
    ensures Decode(Encode(v)) == Success(Normalize(v))
    ensures !v.DoubleVal? ==> Decode(Encode(v)) == Success(v)
    ensures v.DoubleVal? && IsWhole(v.d) && FitsInt(v.d) ==> Decode(Encode(v)).value.IntVal?
  {
  }

  /** `stringValue` */
  function StringValue(v: JsonValue): string {
    match v
    case StringVal(s) => s
    case IntVal(i) => IntText(i)
    case DoubleVal(d) => DoubleText(d)
    case BoolVal(b) => if b then "true" else "false"
  }

  /** The text of a number or a boolean reads back as the same number or boolean. */
  lemma StringValueReadsBack(v: JsonValue)
    ensures v.StringVal? ==> StringValue(v) == v.s
    ensures v.IntVal? ==> ParseInt(StringValue(v)) == Some(v.i)
    ensures v.DoubleVal? ==> ParseDouble(StringValue(v)) == Some(v.d)
    ensures v.BoolVal? ==> (StringValue(v) == "true" <==> v.b)
    ensures v.BoolVal? ==> StringValue(v) == "true" || StringValue(v) == "false"
  {
    match v
    case IntVal(i) => ParseIntText(i);
    case DoubleVal(d) => ParseDoubleText(d);
    case _ =>
  }

  /** `MobileCatalogueItem` */
  datatype CatalogueItem = CatalogueItem(id: string, name: string, data: Option<map<string, JsonValue>>)

  /** The stored fields of an item, or no fields when `data` is nil. */
  function FieldsOf(item: CatalogueItem): map<string, JsonValue> {
    if item.data.Some? then item.data.value else map[]
  }

  predicate IsLeast(m: string, keys: set<string>) {
    m in keys && forall k :: k in keys && k != m ==> Precedes(m, k)
  }

  lemma {:induction false} LeastExists(keys: set<string>)
    requires keys != {}
    ensures exists m :: IsLeast(m, keys)
    decreases keys
  {
    var x :| x in keys;
    var rest := keys - {x};
    if rest == {} {
      assert keys == {x};
      assert IsLeast(x, keys);
    } else {
      LeastExists(rest);
      var m :| IsLeast(m, rest);
      PrecedesTotal(x, m);
      if Precedes(x, m) {
        forall k | k in keys && k != x ensures Precedes(x, k) {
          if k != m {
            PrecedesTransitive(x, m, k);
          }
        }
        assert IsLeast(x, keys);
      } else {
        assert IsLeast(m, keys);
      }
    }
  }

  lemma LeastUnique(keys: set<string>)
    ensures forall a, b :: IsLeast(a, keys) && IsLeast(b, keys) ==> a == b
  {
    forall a, b | IsLeast(a, keys) && IsLeast(b, keys) ensures a == b {
      if a != b {
        PrecedesAsymmetric(a, b);
      }
    }
  }

  /** The smallest key of a non-empty key set. */
  function LeastKey(keys: set<string>): (m: string)
    requires keys != {}
    ensures IsLeast(m, keys)
  {
    LeastExists(keys);
    LeastUnique(keys);
    var m :| IsLeast(m, keys);
    m
  }

  predicate StrictlyAscending(ks: seq<string>) {
    forall i, j :: 0 <= i < j < |ks| ==> Precedes(ks[i], ks[j])
  }

  /** The keys of a dictionary in ascending order, each once. */
  function SortedKeys(keys: set<string>): (ks: seq<string>)
    ensures |ks| == |keys|
    ensures forall i :: 0 <= i < |ks| ==> ks[i] in keys
    ensures forall k :: k in keys ==> k in ks
    ensures StrictlyAscending(ks)
    decreases keys
  {
    if keys == {} then []
    else
      var m := LeastKey(keys);
      var ks := [m] + SortedKeys(keys - {m});
      assert forall k :: k in keys ==> k == m || k in keys - {m};
      ks
  }

  /** The (key, text) pairs of `m` for the keys `ks`, in the order of `ks`. */
  function PairsFor(m: map<string, JsonValue>, ks: seq<string>): (r: seq<(string, string)>)
    requires forall i :: 0 <= i < |ks| ==> ks[i] in m
    ensures |r| == |ks|
    ensures forall i :: 0 <= i < |r| ==> r[i] == (ks[i], StringValue(m[ks[i]]))
  {
    seq(|ks|, i requires 0 <= i < |ks| => (ks[i], StringValue(m[ks[i]])))
  }

  /**
   * `keyValueList`: one (key, text) pair per data key, strictly ascending by
   * key; empty when `data` is nil.
   */
  function KeyValueList(item: CatalogueItem): (r: seq<(string, string)>)
    ensures item.data.None? ==> r == []
    ensures |r| == |FieldsOf(item)|
    ensures forall i :: 0 <= i < |r| ==>
      r[i].0 in FieldsOf(item) && r[i].1 == StringValue(FieldsOf(item)[r[i].0])
    ensures forall k :: k in FieldsOf(item) ==> exists i :: 0 <= i < |r| && r[i].0 == k
    ensures forall i, j :: 0 <= i < j < |r| ==> Precedes(r[i].0, r[j].0)
  {
    var m := FieldsOf(item);
    var ks := SortedKeys(m.Keys);
    PairsForCoverKeys(m, ks);
    assert |m.Keys| == |m|;
    PairsFor(m, ks)
  }

  /** When `ks` lists every key of `m`, every key has a pair. */
  lemma PairsForCoverKeys(m: map<string, JsonValue>, ks: seq<string>)
    requires forall i :: 0 <= i < |ks| ==> ks[i] in m
    requires forall k :: k in m ==> k in ks
    ensures var r := PairsFor(m, ks); forall k :: k in m ==> exists i :: 0 <= i < |r| && r[i].0 == k
  {
    var r := PairsFor(m, ks);
    forall k | k in m ensures exists i :: 0 <= i < |r| && r[i].0 == k {
      var i :| 0 <= i < |ks| && ks[i] == k;
      assert r[i].0 == k;
    }
  }

  /**
   * The bytes an item's fields are stored as: the JSON document they spell,
   * or bytes that are not JSON at all.
   */
  datatype Blob = JsonDocument(doc: JsonToken) | Unparseable

  /** `JSONEncoder().encode(data)`: a JSON object with every value encoded as its own scalar. */
  function EncodeFields(m: map<string, JsonValue>): Blob {
    JsonDocument(JObject(map k | k in m :: Encode(m[k])))
  }

  /**
   * `JSONDecoder().decode([String: JSONValue].self, from: blob)`: a JSON
   * object all of whose members decode; anything else fails.
   */
  function DecodeFields(b: Blob): Option<map<string, JsonValue>> {
    if b.JsonDocument? && b.doc.JObject? && forall k :: k in b.doc.members ==> IsScalar(b.doc.members[k]) then
      Some(map k | k in b.doc.members :: Decode(b.doc.members[k]).value)
    else None
  }

  /** Storing fields and reading them back gives them again, up to `Normalize`. */
  lemma DecodeEncodeFields(m: map<string, JsonValue>)
    ensures DecodeFields(EncodeFields(m)) == Some(map k | k in m :: Normalize(m[k]))
  {
    var members := EncodeFields(m).doc.members;
    forall k | k in members ensures IsScalar(members[k]) && Decode(members[k]).value == Normalize(m[k]) {
      DecodeEncode(m[k]);
    }
    var decoded := map k | k in members :: Decode(members[k]).value;
    assert decoded == map k | k in m :: Normalize(m[k]);
  }
}
