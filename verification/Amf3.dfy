/** AMF3 values, their wire form, and the string table of the decoder. */
module Amf3 {
  import opened Bytes
  import Amf0

  type Text = seq<byte>
  type Refs = seq<Text>

  datatype Value =
    | Null
    | Bool(b: bool)
    | Int(n: int)
    | Double(bits: Amf0.Double)
    | Str(s: Text)
    | Arr(items: seq<Value>)
    | Obj(cls: Text, props: map<Text, Value>)
    | Bytes(bytes: seq<byte>)

  const UNDEFINED := 0
  const NULL := 1
  const FALSE := 2
  const TRUE := 3
  const INTEGER := 4
  const DOUBLE := 5
  const STRING := 6
  const XML_DOC := 7
  const ARRAY := 9
  const OBJECT := 10
  const XML_STRING := 11
  const BYTE_ARRAY := 12

  // ---- variable-length integers ----

  const U29_LIMIT := 0x2000_0000

  /** One to four bytes; fails above 29 bits. */
  function EncodeU29(v: nat): (r: Result<seq<byte>>)
    ensures r.Ok? <==> v < U29_LIMIT
    ensures r.Ok? ==> 1 <= |r.value| <= 4
  {
    if v < 0x80 then Ok([v])
    else if v < 0x4000 then Ok([v / 0x80 + 0x80, v % 0x80])
    else if v < 0x20_0000 then Ok([v / 0x4000 + 0x80, v / 0x80 % 0x80 + 0x80, v % 0x80])
    else if v < U29_LIMIT then Ok([v / 0x40_0000 + 0x80, v / 0x8000 % 0x80 + 0x80, v / 0x100 % 0x80 + 0x80, v % 0x100])
    else Err(Invalid)
  }

  /** Three bytes give seven bits each and say whether more follow; a fourth gives eight. */
  function DecodeU29From(i: nat, acc: nat, s: seq<byte>): (r: Result<Parsed<nat>>)
    requires i <= 3
    ensures r.Ok? ==> |r.value.rest| < |s|
    decreases 3 - i
  {
    if s == [] then Err(Eof)
    else if i == 3 then Ok(Parsed(acc * 256 + s[0], s[1..]))
    else if s[0] < 0x80 then Ok(Parsed(acc * 128 + s[0], s[1..]))
    else DecodeU29From(i + 1, acc * 128 + s[0] - 0x80, s[1..])
  }

  function DecodeU29(s: seq<byte>): (r: Result<Parsed<nat>>)
    ensures r.Ok? ==> |r.value.rest| < |s|
  { DecodeU29From(0, 0, s) }

  /** One more byte of a variable-length integer. */
  lemma U29Step(i: nat, acc: nat, s: seq<byte>)
    requires i <= 3
    ensures s == [] ==> DecodeU29From(i, acc, s) == Err(Eof)
    ensures s != [] && i == 3 ==> DecodeU29From(i, acc, s) == Ok(Parsed(acc * 256 + s[0], s[1..]))
    ensures s != [] && i < 3 ==>
              var acc' := acc * 128 + s[0] % 128;
              DecodeU29From(i, acc, s)
              == if s[0] < 128 then Ok(Parsed(acc', s[1..])) else DecodeU29From(i + 1, acc', s[1..])
  {}

  /** The integers of the decoder are signed: the upper half comes out negative. */
  function Signed(u: nat): int
  { if u > 0xfff_ffff then u - U29_LIMIT else u }

  // ---- decoding ----

  /** A decoded value, the string table after it, and the input that is left. */
  datatype Step<+T> = Step(val: T, refs: Refs, rest: seq<byte>)

  function Zeros(n: nat): (z: seq<byte>)
    ensures |z| == n
  { seq(n, _ => 0) }

  /** One read whose count is ignored: missing bytes are zero, unless there are none at all. */
  function ReadPadded(strict: bool, n: nat, s: seq<byte>): (r: Result<Parsed<seq<byte>>>)
    ensures r.Ok? ==> |r.value.val| == n && |r.value.rest| <= |s|
  {
    if s == [] then (if n == 0 && !strict then Ok(Parsed([], [])) else Err(Eof))
    else if n <= |s| then Ok(Parsed(s[..n], s[n..]))
    else Ok(Parsed(s + Zeros(n - |s|), []))
  }

  /** A string: its length and bytes, or the index of an earlier one. */
  function DecodeText(strict: bool, refs: Refs, s: seq<byte>): (r: Result<Step<Text>>)
    ensures r.Ok? ==> |r.value.rest| < |s|
  {
    var u :- DecodeU29(s);
    if u.val % 2 == 0 then
      if u.val / 2 < |refs| then Ok(Step(refs[u.val / 2], refs, u.rest)) else Err(Panic)
    else
      var b :- ReadPadded(strict, u.val / 2, u.rest);
      Ok(Step(b.val, if b.val != [] then refs + [b.val] else refs, b.rest))
  }

  /** XML and byte arrays: bytes given in place that do not enter the string table. */
  function DecodeBytes(strict: bool, s: seq<byte>): (r: Result<Parsed<seq<byte>>>)
    ensures r.Ok? ==> |r.value.rest| < |s|
  {
    var u :- DecodeU29(s);
    if u.val % 2 == 0 then Err(Unsupported) else
      var b :- ReadPadded(strict, u.val / 2, u.rest);
      Ok(b)
  }

  function DecodeScalar(strict: bool, refs: Refs, m: byte, t: seq<byte>): (r: Result<Step<Value>>)
    ensures r.Ok? ==> |r.value.rest| <= |t|
  {
    if m == UNDEFINED || m == NULL then Ok(Step(Null, refs, t))
    else if m == FALSE || m == TRUE then Ok(Step(Bool(m == TRUE), refs, t))
    else if m == INTEGER then var u :- DecodeU29(t); Ok(Step(Int(Signed(u.val)), refs, u.rest))
    else if m == DOUBLE then var d :- Amf0.DecodeNumber(t); Ok(Step(Double(d.val), refs, d.rest))
    else if m == STRING then var x :- DecodeText(strict, refs, t); Ok(Step(Str(x.val), x.refs, x.rest))
    else if m == XML_DOC || m == XML_STRING then var b :- DecodeBytes(strict, t); Ok(Step(Str(b.val), refs, b.rest))
    else if m == BYTE_ARRAY then var b :- DecodeBytes(strict, t); Ok(Step(Bytes(b.val), refs, b.rest))
    else Err(Unsupported)
  }

  /** One value; dates, externalizable objects and references to objects and traits are outside this module. */
  function Decode(strict: bool, refs: Refs, s: seq<byte>): (r: Result<Step<Value>>)
    ensures r.Ok? ==> |r.value.rest| < |s|
    decreases |s|, 2
  {
    if s == [] then Err(Eof)
    else if s[0] == ARRAY then DecodeArray(strict, refs, s[1..])
    else if s[0] == OBJECT then DecodeObject(strict, refs, s[1..])
    else DecodeScalar(strict, refs, s[0], s[1..])
  }

  /** A count, an empty key, and that many values. */
  function DecodeArray(strict: bool, refs: Refs, s: seq<byte>): (r: Result<Step<Value>>)
    ensures r.Ok? ==> |r.value.rest| < |s|
    decreases |s|, 4
  {
    var u :- DecodeU29(s);
    if u.val % 2 == 0 then Err(Unsupported) else
      var key :- DecodeText(strict, refs, u.rest);
      if key.val != [] then Err(Invalid) else
        var a :- DecodeItems(strict, key.refs, u.val / 2, key.rest, []);
        Ok(Step(Arr(a.val), a.refs, a.rest))
  }

  function DecodeItems(strict: bool, refs: Refs, n: nat, s: seq<byte>, acc: seq<Value>): (r: Result<Step<seq<Value>>>)
    ensures r.Ok? ==> |r.value.rest| <= |s|
    decreases |s|, 3
  {
    if n == 0 then Ok(Step(acc, refs, s)) else
      var v :- Decode(strict, refs, s);
      DecodeItems(strict, v.refs, n - 1, v.rest, acc + [v.val])
  }

  /** A trait given in place: class name, then the sealed property names; then values; then dynamic properties. */
  function DecodeObject(strict: bool, refs: Refs, s: seq<byte>): (r: Result<Step<Value>>)
    ensures r.Ok? ==> |r.value.rest| < |s|
    decreases |s|, 4
  {
    var u :- DecodeU29(s);
    if u.val % 4 != 3 || u.val / 4 % 2 == 1 then Err(Unsupported) else
      var cls :- DecodeText(strict, refs, u.rest);
      var names :- DecodeNames(strict, cls.refs, u.val / 16, cls.rest, []);
      var sealed :- DecodeSealed(strict, names.refs, names.val, names.rest, map[]);
      var all :- if u.val / 8 % 2 == 1 then DecodeDynamic(strict, sealed.refs, sealed.rest, sealed.val) else Ok(sealed);
      Ok(Step(Obj([], all.val), all.refs, all.rest))
  }

  function DecodeNames(strict: bool, refs: Refs, n: nat, s: seq<byte>, acc: seq<Text>): (r: Result<Step<seq<Text>>>)
    ensures r.Ok? ==> |r.value.rest| <= |s|
    decreases n
  {
    if n == 0 then Ok(Step(acc, refs, s)) else
      var x :- DecodeText(strict, refs, s);
      DecodeNames(strict, x.refs, n - 1, x.rest, acc + [x.val])
  }

  function DecodeSealed(strict: bool, refs: Refs, names: seq<Text>, s: seq<byte>, acc: map<Text, Value>)
    : (r: Result<Step<map<Text, Value>>>)
    ensures r.Ok? ==> |r.value.rest| <= |s|
    decreases |s|, 3
  {
    if names == [] then Ok(Step(acc, refs, s)) else
      var v :- Decode(strict, refs, s);
      DecodeSealed(strict, v.refs, names[1..], v.rest, acc[names[0] := v.val])
  }

  function DecodeDynamic(strict: bool, refs: Refs, s: seq<byte>, acc: map<Text, Value>)
    : (r: Result<Step<map<Text, Value>>>)
    ensures r.Ok? ==> |r.value.rest| < |s|
    decreases |s|, 3
  {
    var key :- DecodeText(strict, refs, s);
    if key.val == [] then Ok(Step(acc, key.refs, key.rest)) else
      var v :- Decode(strict, key.refs, key.rest);
      DecodeDynamic(strict, v.refs, v.rest, acc[key.val := v.val])
  }

  // ---- the wire form ----

  /** A string on the wire. */
  datatype Wire = Inline(s: Text) | Ref(i: nat)

  /** A value on the wire, with the choice made for each of its strings. */
  datatype Tree =
    | TNull
    | TUndefined
    | TBool(b: bool)
    | TInt(n: nat)
    | TDouble(bits: Amf0.Double)
    | TStr(x: Wire)
    | TArr(items: seq<Tree>)
    | TObj(cls: Wire, names: seq<Wire>, values: seq<Tree>, dynamic: bool, keys: seq<Wire>, extra: seq<Tree>)
    | TBytes(bytes: seq<byte>)

  /** The header of `n` bytes or items in place, in 32-bit arithmetic. */
  function InPlace(n: nat): nat
  { n * 2 % 0x1_0000_0000 + 1 }

  function TraitHeader(n: nat, dynamic: bool): nat
  { n * 16 % 0x1_0000_0000 + (if dynamic then 8 else 0) + 3 }

  function EncodeWire(x: Wire): Result<seq<byte>>
  {
    match x
    case Inline(s) => var h :- EncodeU29(InPlace(|s|)); Ok(h + s)
    case Ref(i) => EncodeU29(2 * i)
  }

  function Encode(t: Tree): (r: Result<seq<byte>>)
    ensures r.Ok? ==> r.value != []
  {
    match t
    case TNull => Ok([NULL])
    case TUndefined => Ok([UNDEFINED])
    case TBool(b) => Ok([if b then TRUE else FALSE])
    case TInt(n) => var u :- EncodeU29(n); Ok([INTEGER] + u)
    case TDouble(bits) => Ok([DOUBLE] + bits)
    case TStr(x) => var w :- EncodeWire(x); Ok([STRING] + w)
    case TArr(items) =>
      var h :- EncodeU29(InPlace(|items|));
      var k :- EncodeWire(Inline([]));
      var body :- EncodeItems(items);
      Ok([ARRAY] + (h + (k + body)))
    case TObj(cls, names, values, dynamic, keys, extra) =>
      var h :- EncodeU29(TraitHeader(|names|, dynamic));
      var c :- EncodeWire(cls);
      var ns :- EncodeWires(names);
      var vs :- EncodeItems(values);
      var ds :- if dynamic then EncodeExtra(keys, extra) else Ok([]);
      Ok([OBJECT] + (h + (c + (ns + (vs + ds)))))
    case TBytes(bytes) =>
      var h :- EncodeU29(InPlace(|bytes|));
      Ok([BYTE_ARRAY] + (h + bytes))
  }

  function EncodeItems(ts: seq<Tree>): Result<seq<byte>>
  {
    if ts == [] then Ok([]) else
      var a :- Encode(ts[0]);
      var b :- EncodeItems(ts[1..]);
      Ok(a + b)
  }

  function EncodeWires(xs: seq<Wire>): Result<seq<byte>>
  {
    if xs == [] then Ok([]) else
      var a :- EncodeWire(xs[0]);
      var b :- EncodeWires(xs[1..]);
      Ok(a + b)
  }

  function EncodeExtra(ks: seq<Wire>, ts: seq<Tree>): Result<seq<byte>>
    decreases ts
  {
    if ks == [] || ts == [] then EncodeWire(Inline([])) else
      var k :- EncodeWire(ks[0]);
      var v :- Encode(ts[0]);
      var b :- EncodeExtra(ks[1..], ts[1..]);
      Ok(k + (v + b))
  }

  // ---- what a tree means, given the strings before it ----

  /** The string that a non-empty in-place string adds to the table. */
  function Adds(x: Wire): Refs
  { if x.Inline? && x.s != [] then [x.s] else [] }

  /** The non-empty in-place strings of a tree in wire order. */
  function Inlined(t: Tree): Refs
  {
    match t
    case TStr(x) => Adds(x)
    case TArr(items) => InlinedAll(items)
    case TObj(cls, names, values, dynamic, keys, extra) =>
      Adds(cls) + (AddsAll(names) + (InlinedAll(values) + (if dynamic then InlinedExtra(keys, extra) else [])))
    case _ => []
  }

  function AddsAll(xs: seq<Wire>): Refs
  { if xs == [] then [] else Adds(xs[0]) + AddsAll(xs[1..]) }

  function InlinedAll(ts: seq<Tree>): Refs
  { if ts == [] then [] else Inlined(ts[0]) + InlinedAll(ts[1..]) }

  function InlinedExtra(ks: seq<Wire>, ts: seq<Tree>): Refs
    decreases ts
  { if ks == [] || ts == [] then [] else Adds(ks[0]) + (Inlined(ts[0]) + InlinedExtra(ks[1..], ts[1..])) }

  predicate Resolves(x: Wire, refs: Refs)
  { match x case Inline(s) => |s| < 0x1000_0000 case Ref(i) => i < |refs| && i < 0x1000_0000 }

  function TextOf(x: Wire, refs: Refs): Text
    requires Resolves(x, refs)
  { match x case Inline(s) => s case Ref(i) => refs[i] }

  /** Every reference names an earlier string, and all sizes have a 29-bit header. */
  predicate Fits(t: Tree, refs: Refs)
    decreases t, 0
  {
    match t
    case TInt(n) => n < U29_LIMIT
    case TStr(x) => Resolves(x, refs)
    case TArr(items) => |items| < 0x1000_0000 && FitsAll(items, refs)
    case TObj(cls, names, values, dynamic, keys, extra) =>
      var r1 := refs + Adds(cls);
      var r2 := r1 + AddsAll(names);
      && |names| == |values| < 0x200_0000
      && Resolves(cls, refs) && ResolvesAll(names, r1) && FitsAll(values, r2)
      && (dynamic ==> FitsExtra(keys, extra, r2 + InlinedAll(values)))
    case TBytes(bytes) => |bytes| < 0x1000_0000
    case _ => true
  }

  predicate ResolvesAll(xs: seq<Wire>, refs: Refs)
  { xs == [] || (Resolves(xs[0], refs) && ResolvesAll(xs[1..], refs + Adds(xs[0]))) }

  predicate FitsAll(ts: seq<Tree>, refs: Refs)
  { ts == [] || (Fits(ts[0], refs) && FitsAll(ts[1..], refs + Inlined(ts[0]))) }

  predicate FitsExtra(ks: seq<Wire>, ts: seq<Tree>, refs: Refs)
    decreases ts, 1
  {
    |ks| == |ts| &&
    (ks == [] ||
     (var r1 := refs + Adds(ks[0]);
      && Resolves(ks[0], refs) && TextOf(ks[0], refs) != [] && Fits(ts[0], r1)
      && FitsExtra(ks[1..], ts[1..], r1 + Inlined(ts[0]))))
  }

  function Meaning(t: Tree, refs: Refs): Value
    requires Fits(t, refs)
    decreases t, 0
  {
    match t
    case TNull => Null
    case TUndefined => Null
    case TBool(b) => Bool(b)
    case TInt(n) => Int(Signed(n))
    case TDouble(bits) => Double(bits)
    case TStr(x) => Str(TextOf(x, refs))
    case TArr(items) => Arr(Meanings(items, refs))
    case TObj(cls, names, values, dynamic, keys, extra) =>
      var r2 := refs + Adds(cls) + AddsAll(names);
      var sealed := Sealed(Texts(names, refs + Adds(cls)), values, r2, map[]);
      Obj([], if dynamic then Extended(keys, extra, r2 + InlinedAll(values), sealed) else sealed)
    case TBytes(bytes) => Bytes(bytes)
  }

  function Texts(xs: seq<Wire>, refs: Refs): (r: seq<Text>)
    requires ResolvesAll(xs, refs)
    ensures |r| == |xs|
  { if xs == [] then [] else [TextOf(xs[0], refs)] + Texts(xs[1..], refs + Adds(xs[0])) }

  function Meanings(ts: seq<Tree>, refs: Refs): (r: seq<Value>)
    requires FitsAll(ts, refs)
    ensures |r| == |ts|
  { if ts == [] then [] else [Meaning(ts[0], refs)] + Meanings(ts[1..], refs + Inlined(ts[0])) }

  function Sealed(names: seq<Text>, ts: seq<Tree>, refs: Refs, acc: map<Text, Value>): map<Text, Value>
    requires |names| == |ts| && FitsAll(ts, refs)
    decreases ts
  {
    if ts == [] then acc else
      Sealed(names[1..], ts[1..], refs + Inlined(ts[0]), acc[names[0] := Meaning(ts[0], refs)])
  }

  function Extended(ks: seq<Wire>, ts: seq<Tree>, refs: Refs, acc: map<Text, Value>): map<Text, Value>
    requires FitsExtra(ks, ts, refs)
    decreases ts
  {
    if ks == [] then acc else
      var r1 := refs + Adds(ks[0]);
      Extended(ks[1..], ts[1..], r1 + Inlined(ts[0]), acc[TextOf(ks[0], refs) := Meaning(ts[0], r1)])
  }
}
