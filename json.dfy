/** The parsed manifest and ledger as Jackson's `JsonNode` trees, with the
    accessors the repository calls. `Missing` is Jackson's MissingNode:
    what `path(key)` returns for an absent key, never part of parsed text
    (Jackson returns it from `readTree` only for empty input). */
module Json {
  import opened Wrappers
  import opened Text
  import opened Long64

  datatype Json =
    | Missing
    | Null
    | Bool(b: bool)
    | Num(n: int)
    | Str(s: string)
    | Arr(items: seq<Json>)
    | Obj(fields: map<string, Json>)

  /** `node.path(key)`: the child of an object, MissingNode otherwise. */
  function Field(j: Json, key: string): Json
  {
    if j.Obj? && key in j.fields then j.fields[key] else Missing
  }

  /** `node.get(key)`: the child of an object, Kotlin null otherwise. */
  function Get(j: Json, key: string): Option<Json>
  {
    if j.Obj? && key in j.fields then Some(j.fields[key]) else None
  }

  /** `node.isArray`. */
  predicate IsArray(j: Json) { j.Arr? }

  /** `node.isMissingNode`. */
  predicate IsMissing(j: Json) { j.Missing? }

  /** `node.size()`: elements of an array, fields of an object, 0 otherwise. */
  function Size(j: Json): nat
  {
    match j
    case Arr(items) => |items|
    case Obj(fields) => |fields|
    case _ => 0
  }

  /** The elements `forEach` visits on an array node. */
  function Items(j: Json): seq<Json>
  {
    if j.Arr? then j.items else []
  }

  /** `node.asText()`: text as is, numbers and booleans rendered, "null" for
      NullNode, "" for MissingNode and for containers. */
  function AsText(j: Json): string
  {
    match j
    case Missing => ""
    case Null => "null"
    case Bool(b) => if b then "true" else "false"
    case Num(n) => IntToDecimal(n)
    case Str(s) => s
    case Arr(_) => ""
    case Obj(_) => ""
  }

  /** `node.asText(default)`: the default for MissingNode and NullNode only. */
  function AsTextOr(j: Json, default: string): string
  {
    if j.Missing? || j.Null? then default else AsText(j)
  }

  /** `node.asLong(default)` (and `asLong()` with default 0): the low 64 bits
      of a number, 1 or 0 for a boolean, the value of a long numeral held as
      text, the default for everything else. */
  function AsLong(j: Json, default: Long): Long
  {
    match j
    case Num(n) => Wrap(n)
    case Bool(b) => if b then 1 else 0
    case Str(s) => ParseLongText(s, default)
    case _ => default
  }

  /** Jackson's coercion of text to a long: an optional sign and at least one
      digit, within the range of a long; otherwise the default. */
  function ParseLongText(s: string, default: Long): Long
  {
    var signed := |s| > 0 && (s[0] == '+' || s[0] == '-');
    var digits := if signed then s[1..] else s;
    if |digits| > 0 && AllDigits(digits) then
      var v: int := if signed && s[0] == '-' then 0 - (DecimalValue(digits) as int) else DecimalValue(digits);
      if InRange(v) then v else default
    else
      default
  }

  /** `node.map { it.asText() }.toSet()`: the texts of the elements of an array
      or of the field values of an object; a value node has no elements. */
  function ElementTexts(j: Json): set<string>
  {
    match j
    case Arr(items) => set i | 0 <= i < |items| :: AsText(items[i])
    case Obj(fields) => set k | k in fields :: AsText(fields[k])
    case _ => {}
  }

  /** A JSON text node array holding the given strings, in order. */
  function StringArray(ss: seq<string>): (j: Json)
    ensures j.Arr? && |j.items| == |ss|
    ensures forall i :: 0 <= i < |ss| ==> j.items[i] == Str(ss[i])
  {
    Arr(seq(|ss|, i requires 0 <= i < |ss| => Str(ss[i])))
  }

  /** Reading back the texts of a string array gives its set of strings. */
  lemma StringArrayTexts(ss: seq<string>)
    ensures ElementTexts(StringArray(ss)) == Elements(ss)
    ensures Size(StringArray(ss)) == |ss|
  {
    var j := StringArray(ss);
    forall x | x in Elements(ss) ensures x in ElementTexts(j) {
      var i :| 0 <= i < |ss| && ss[i] == x;
      assert AsText(j.items[i]) == x;
    }
  }
}
