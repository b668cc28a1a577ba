/** AMF0 values and their wire form, as `protocol/amf` reads and writes them. */
module Amf0 {
  import opened Bytes

  type Double = s: seq<byte> | |s| == 8 witness [0, 0, 0, 0, 0, 0, 0, 0]

  /** What the decoder returns; a number is its eight bytes. */
  datatype Value =
    | Null
    | Bool(b: bool)
    | Number(bits: Double)
    | Str(s: seq<byte>)
    | Arr(items: seq<Value>)
    | Obj(props: map<seq<byte>, Value>)
    | Typed(name: seq<byte>, members: map<seq<byte>, Value>)

  const NUMBER := 0
  const BOOLEAN := 1
  const STRING := 2
  const OBJECT := 3
  const NULL := 5
  const UNDEFINED := 6
  const ECMA_ARRAY := 8
  const OBJECT_END := 9
  const STRICT_ARRAY := 10
  const DATE := 11
  const LONG_STRING := 12
  const UNSUPPORTED := 13
  const XML_DOCUMENT := 15
  const TYPED_OBJECT := 16
  const STRING_MAX := 65535

  // ---- decoding ----

  /** `rest` is what is left of `s` after something was read. */
  predicate Left(s: seq<byte>, rest: seq<byte>)
  { |rest| < |s| && rest == s[|s| - |rest|..] }

  /**
   One read of `n` bytes. A `bytes.Buffer` that is empty still gives zero bytes; a `bytes.Reader`
   (`strict`) reports the end of its input instead.
   */
  function ReadBytes(strict: bool, n: nat, s: seq<byte>): (r: Result<Parsed<seq<byte>>>)
    ensures r.Ok? ==> s == r.value.val + r.value.rest && |r.value.val| == n
  { if n > |s| || (strict && s == []) then Err(Eof) else Ok(Parsed(s[..n], s[n..])) }

  function DecodeString(strict: bool, s: seq<byte>): (r: Result<Parsed<seq<byte>>>)
    ensures r.Ok? ==> Left(s, r.value.rest) && |r.value.val| <= STRING_MAX
  {
    var n :- TakeBE(2, s);
    Pow256Values();
    var b :- ReadBytes(strict, n.val, n.rest);
    Ok(b)
  }

  function DecodeLongString(strict: bool, s: seq<byte>): (r: Result<Parsed<seq<byte>>>)
    ensures r.Ok? ==> Left(s, r.value.rest) && |r.value.val| < 0x1_0000_0000
  {
    var n :- TakeBE(4, s);
    Pow256Values();
    var b :- ReadBytes(strict, n.val, n.rest);
    Ok(b)
  }

  function DecodeNumber(s: seq<byte>): (r: Result<Parsed<Double>>)
    ensures r.Ok? ==> Left(s, r.value.rest)
  { if |s| < 8 then Err(Eof) else Ok(Parsed(s[..8], s[8..])) }

  function DecodeDate(strict: bool, s: seq<byte>): (r: Result<Parsed<Double>>)
    ensures r.Ok? ==> Left(s, r.value.rest)
  {
    var d :- DecodeNumber(s);
    var z :- ReadBytes(strict, 2, d.rest);
    Ok(Parsed(d.val, z.rest))
  }

  function DecodeBoolean(s: seq<byte>): (r: Result<Parsed<bool>>)
    ensures r.Ok? ==> Left(s, r.value.rest)
  { if s == [] then Err(Eof) else if s[0] > 1 then Err(Invalid) else Ok(Parsed(s[0] == 1, s[1..])) }

  lemma LeftTrans(s: seq<byte>, mid: seq<byte>, rest: seq<byte>)
    requires Left(s, mid) && (Left(mid, rest) || rest == mid)
    ensures Left(s, rest)
  {}

  lemma LeftDrop(s: seq<byte>, k: nat)
    requires 0 < k <= |s|
    ensures Left(s, s[k..])
  {}

  /** The values without parts. */
  function DecodeScalar(strict: bool, m: byte, t: seq<byte>): (r: Result<Parsed<Value>>)
    ensures r.Ok? ==> r.value.rest == t || Left(t, r.value.rest)
  {
    if m == NUMBER then var d :- DecodeNumber(t); Ok(Parsed(Number(d.val), d.rest))
    else if m == BOOLEAN then var b :- DecodeBoolean(t); Ok(Parsed(Bool(b.val), b.rest))
    else if m == STRING then var b :- DecodeString(strict, t); Ok(Parsed(Str(b.val), b.rest))
    else if m == NULL || m == UNDEFINED || m == UNSUPPORTED then Ok(Parsed(Null, t))
    else if m == DATE then var d :- DecodeDate(strict, t); Ok(Parsed(Number(d.val), d.rest))
    else if m == LONG_STRING || m == XML_DOCUMENT then
      var b :- DecodeLongString(strict, t);
      Ok(Parsed(Str(b.val), b.rest))
    else Err(Unsupported)
  }

  /** One value, led by its marker; AMF3 values (marker 0x11) are outside this module. */
  function Decode(strict: bool, s: seq<byte>): (r: Result<Parsed<Value>>)
    ensures r.Ok? ==> Left(s, r.value.rest)
    decreases |s|, 2
  {
    if s == [] then Err(Eof) else
      var r := if IsComposite(s[0]) then DecodeComposite(strict, s[0], s[1..]) else DecodeScalar(strict, s[0], s[1..]);
      assert r.Ok? ==> Left(s, r.value.rest) by { LeftDrop(s, 1); if r.Ok? { LeftTrans(s, s[1..], r.value.rest); } }
      r
  }

  predicate IsComposite(m: byte)
  { m == OBJECT || m == ECMA_ARRAY || m == STRICT_ARRAY || m == TYPED_OBJECT }

  function DecodeComposite(strict: bool, m: byte, t: seq<byte>): (r: Result<Parsed<Value>>)
    requires IsComposite(m)
    ensures r.Ok? ==> Left(t, r.value.rest)
    decreases |t|, 4
  {
    if m == OBJECT then
      var o :- DecodeObject(strict, t, map[]);
      Ok(Parsed(Obj(o.val), o.rest))
    else if m == ECMA_ARRAY then
      var n :- TakeBE(4, t);
      var o :- DecodeObject(strict, n.rest, map[]);
      LeftTrans(t, n.rest, o.rest);
      Ok(Parsed(Obj(o.val), o.rest))
    else if m == STRICT_ARRAY then
      var n :- TakeBE(4, t);
      var a :- DecodeItems(strict, n.val, n.rest, []);
      LeftTrans(t, n.rest, a.rest);
      Ok(Parsed(Arr(a.val), a.rest))
    else
      var name :- DecodeString(strict, t);
      var o :- DecodeObject(strict, name.rest, map[]);
      LeftTrans(t, name.rest, o.rest);
      Ok(Parsed(Typed(name.val, o.val), o.rest))
  }

  function DecodeEnd(s: seq<byte>): (r: Result<seq<byte>>)
    ensures r.Ok? ==> Left(s, r.value)
  { if s == [] then Err(Eof) else if s[0] != OBJECT_END then Err(Invalid) else Ok(s[1..]) }

  /** Keys and values up to the empty key and the end marker; a later value replaces an earlier one. */
  function DecodeObject(strict: bool, s: seq<byte>, acc: map<seq<byte>, Value>)
    : (r: Result<Parsed<map<seq<byte>, Value>>>)
    ensures r.Ok? ==> Left(s, r.value.rest)
    decreases |s|, 3
  {
    var key :- DecodeString(strict, s);
    if key.val == [] then
      var end :- DecodeEnd(key.rest);
      LeftTrans(s, key.rest, end);
      Ok(Parsed(acc, end))
    else
      var v :- Decode(strict, key.rest);
      LeftTrans(s, key.rest, v.rest);
      var o :- DecodeObject(strict, v.rest, acc[key.val := v.val]);
      LeftTrans(s, v.rest, o.rest);
      Ok(o)
  }

  function DecodeItems(strict: bool, n: nat, s: seq<byte>, acc: seq<Value>): (r: Result<Parsed<seq<Value>>>)
    ensures r.Ok? ==> r.value.rest == s || Left(s, r.value.rest)
    ensures r.Ok? ==> |r.value.val| == |acc| + n
    decreases |s|, 3
  {
    if n == 0 then Ok(Parsed(acc, s)) else
      var v :- Decode(strict, s);
      var a :- DecodeItems(strict, n - 1, v.rest, acc + [v.val]);
      LeftTrans(s, v.rest, a.rest);
      Ok(a)
  }

  lemma ObjectStep(strict: bool, s: seq<byte>, acc: map<seq<byte>, Value>)
    ensures match DecodeString(strict, s)
            case Err(e) => DecodeObject(strict, s, acc) == Err(e)
            case Ok(key) =>
              if key.val == [] then
                match DecodeEnd(key.rest)
                case Ok(end) => DecodeObject(strict, s, acc) == Ok(Parsed(acc, end))
                case Err(e) => DecodeObject(strict, s, acc) == Err(e)
              else
                match Decode(strict, key.rest)
                case Ok(v) => DecodeObject(strict, s, acc) == DecodeObject(strict, v.rest, acc[key.val := v.val])
                case Err(e) => DecodeObject(strict, s, acc) == Err(e)
  {}

  lemma ItemsStep(strict: bool, n: nat, s: seq<byte>, acc: seq<Value>)
    ensures n == 0 ==> DecodeItems(strict, n, s, acc) == Ok(Parsed(acc, s))
    ensures n > 0 ==>
              match Decode(strict, s)
              case Ok(v) => DecodeItems(strict, n, s, acc) == DecodeItems(strict, n - 1, v.rest, acc + [v.val])
              case Err(e) => DecodeItems(strict, n, s, acc) == Err(e)
  {}

  /** All values up to the error that ends the input. */
  function DecodeBatch(strict: bool, s: seq<byte>): (seq<Value>, Error)
    decreases |s|
  {
    match Decode(strict, s)
    case Err(e) => ([], e)
    case Ok(p) => var (vs, e) := DecodeBatch(strict, p.rest); ([p.val] + vs, e)
  }

  // ---- encoding ----

  datatype Field = Field(key: seq<byte>, value: Tree)

  /** A value to encode, with the order in which the map iteration delivers its properties. */
  datatype Tree =
    | TNull
    | TUndefined
    | TUnsupported
    | TBool(b: bool)
    | TNumber(bits: Double)
    | TStr(s: seq<byte>)
    | TArr(items: seq<Tree>)
    | TObj(ecma: bool, fields: seq<Field>)

  function EncodeString(s: seq<byte>): seq<byte>
  { BE(2, |s|) + s }

  function Encode(t: Tree): (s: seq<byte>)
    ensures s != []
  {
    match t
    case TNull => [NULL]
    case TUndefined => [UNDEFINED]
    case TUnsupported => [UNSUPPORTED]
    case TBool(b) => [BOOLEAN, if b then 1 else 0]
    case TNumber(bits) => [NUMBER] + bits
    case TStr(s) => if |s| <= STRING_MAX then [STRING] + EncodeString(s) else [LONG_STRING] + (BE(4, |s|) + s)
    case TArr(items) => [STRICT_ARRAY] + (BE(4, |items|) + EncodeItems(items))
    case TObj(ecma, fields) =>
      if ecma then [ECMA_ARRAY] + (BE(4, |fields|) + EncodeFields(fields)) else [OBJECT] + EncodeFields(fields)
  }

  function EncodeFields(fs: seq<Field>): seq<byte>
  { if fs == [] then [0, 0, OBJECT_END] else EncodeString(fs[0].key) + (Encode(fs[0].value) + EncodeFields(fs[1..])) }

  function EncodeItems(ts: seq<Tree>): seq<byte>
  { if ts == [] then [] else Encode(ts[0]) + EncodeItems(ts[1..]) }

  /** The value without the iteration order. */
  function Meaning(t: Tree): Value
  {
    match t
    case TNull => Null
    case TUndefined => Null
    case TUnsupported => Null
    case TBool(b) => Bool(b)
    case TNumber(bits) => Number(bits)
    case TStr(s) => Str(s)
    case TArr(items) => Arr(Meanings(items))
    case TObj(_, fields) => Obj(Properties(fields, map[]))
  }

  function Meanings(ts: seq<Tree>): (vs: seq<Value>)
    ensures |vs| == |ts|
  { if ts == [] then [] else [Meaning(ts[0])] + Meanings(ts[1..]) }

  function Properties(fs: seq<Field>, acc: map<seq<byte>, Value>): map<seq<byte>, Value>
  { if fs == [] then acc else Properties(fs[1..], acc[fs[0].key := Meaning(fs[0].value)]) }

  /** The order lists each property once, at every level. */
  predicate Iterates(t: Tree)
  {
    match t
    case TArr(items) => forall i | 0 <= i < |items| :: Iterates(items[i])
    case TObj(_, fields) =>
      && (forall i | 0 <= i < |fields| :: Iterates(fields[i].value))
      && (forall i, j | 0 <= i < j < |fields| :: fields[i].key != fields[j].key)
    case _ => true
  }

  /** What the length fields can carry: keys of 1 to 65535 bytes, strings and arrays below 2^32. */
  predicate Fits(t: Tree)
  {
    match t
    case TStr(s) => |s| < 0x1_0000_0000
    case TArr(items) => |items| < 0x1_0000_0000 && forall i | 0 <= i < |items| :: Fits(items[i])
    case TObj(_, fields) => forall i | 0 <= i < |fields| :: 0 < |fields[i].key| <= STRING_MAX && Fits(fields[i].value)
    case _ => true
  }

  /** On the wire the value ends with the zero bytes of an empty string. */
  predicate EndsEmpty(v: Value)
  {
    match v
    case Str(s) => s == []
    case Arr(items) => items != [] && EndsEmpty(items[|items| - 1])
    case _ => false
  }
}
