/** The AMF3 decoder and encoder over streams. */
module Amf3Codec {
  import opened Bytes
  import opened Amf3
  import opened Amf3Values
  import Amf3Proofs
  import opened AmfStreams
  import Amf0
  import Amf0Codec

  class Decoder {
    var stringRefs: Refs

    constructor ()
      ensures stringRefs == []
    { stringRefs := []; }

    method DecodeU29(r: Input) returns (res: Result<nat>)
      modifies r
      ensures |r.data| <= |old(r.data)|
      ensures match Amf3.DecodeU29(old(r.data))
              case Ok(p) => res == Ok(p.val) && r.data == p.rest
              case Err(e) => res == Err(e)
    {
      var result: nat := 0;
      for i := 0 to 3
        invariant |r.data| <= |old(r.data)|
        invariant Amf3.DecodeU29(old(r.data)) == DecodeU29From(i, result, r.data)
      {
        U29Step(i, result, r.data);
        hide Amf3.DecodeU29, DecodeU29From;
        var b := r.ReadByte();
        if b.Err? { return Err(b.error); }
        result := result * 128 + b.value % 128;
        if b.value < 128 { return Ok(result); }
      }
      U29Step(3, result, r.data);
      hide Amf3.DecodeU29, DecodeU29From;
      var b := r.ReadByte();
      if b.Err? { return Err(b.error); }
      res := Ok(result * 256 + b.value);
    }

    /** One read; the count is ignored, so missing bytes stay zero. */
    method ReadPadded(r: Input, n: nat) returns (res: Result<seq<byte>>)
      modifies r
      ensures |r.data| <= |old(r.data)|
      ensures match Amf3.ReadPadded(r.strict, n, old(r.data))
              case Ok(p) => res == Ok(p.val) && r.data == p.rest
              case Err(e) => res == Err(e)
    {
      ghost var s := r.data;
      res := r.Read(n);
      if res.Ok? {
        assert s == res.value + r.data && s[..|res.value|] == res.value && s[|res.value|..] == r.data;
        EmptyUnit(res.value);
        assert Zeros(0) == [];
        res := Ok(res.value + Zeros(n - |res.value|));
      }
    }

    method DecodeAmf3String(r: Input) returns (res: Result<Text>)
      modifies r, this
      ensures |r.data| <= |old(r.data)|
      ensures match DecodeText(r.strict, old(stringRefs), old(r.data))
              case Ok(x) => res == Ok(x.val) && stringRefs == x.refs && r.data == x.rest
              case Err(e) => res == Err(e)
    {
      var u := DecodeU29(r);
      if u.Err? { return Err(u.error); }
      if u.value % 2 == 0 {
        return if u.value / 2 < |stringRefs| then Ok(stringRefs[u.value / 2]) else Err(Panic);
      }
      res := ReadPadded(r, u.value / 2);
      if res.Ok? && res.value != [] { stringRefs := stringRefs + [res.value]; }
    }

    /** The bytes of an XML document or a byte array in place. */
    method DecodeInPlace(r: Input) returns (res: Result<seq<byte>>)
      modifies r
      ensures |r.data| <= |old(r.data)|
      ensures match DecodeBytes(r.strict, old(r.data))
              case Ok(p) => res == Ok(p.val) && r.data == p.rest
              case Err(e) => res == Err(e)
    {
      var u := DecodeU29(r);
      if u.Err? { return Err(u.error); }
      if u.value % 2 == 0 { return Err(Unsupported); }
      res := ReadPadded(r, u.value / 2);
    }

    method DecodeAmf3(r: Input) returns (res: Result<Value>)
      modifies r, this
      ensures |r.data| <= |old(r.data)|
      ensures match Decode(r.strict, old(stringRefs), old(r.data))
              case Ok(v) => res == Ok(v.val) && stringRefs == v.refs && r.data == v.rest
              case Err(e) => res == Err(e)
      decreases |r.data|, 2
    {
      var marker := r.ReadByte();
      if marker.Err? { return Err(marker.error); }
      if marker.value == ARRAY {
        res := DecodeAmf3Array(r);
      } else if marker.value == OBJECT {
        res := DecodeAmf3Object(r);
      } else {
        res := DecodeAmf3Scalar(r, marker.value);
      }
    }

    method DecodeAmf3Scalar(r: Input, m: byte) returns (res: Result<Value>)
      modifies r, this
      ensures |r.data| <= |old(r.data)|
      ensures match DecodeScalar(r.strict, old(stringRefs), m, old(r.data))
              case Ok(v) => res == Ok(v.val) && stringRefs == v.refs && r.data == v.rest
              case Err(e) => res == Err(e)
    {
      if m == UNDEFINED || m == NULL {
        return Ok(Null);
      } else if m == FALSE {
        return Ok(Bool(false));
      } else if m == TRUE {
        return Ok(Bool(true));
      } else if m == INTEGER {
        var u := DecodeU29(r);
        if u.Err? { return Err(u.error); }
        var result: int := u.value;
        if result > 0xfff_ffff { result := u.value as int - 0x2000_0000; }
        return Ok(Int(result));
      } else if m == DOUBLE {
        var decoder := new Amf0Codec.Decoder();
        var d := decoder.DecodeAmf0Number(r);
        return if d.Ok? then Ok(Double(d.value)) else Err(d.error);
      } else if m == STRING {
        var s := DecodeAmf3String(r);
        return if s.Ok? then Ok(Str(s.value)) else Err(s.error);
      } else if m == XML_DOC || m == XML_STRING || m == BYTE_ARRAY {
        var b := DecodeInPlace(r);
        if b.Err? { return Err(b.error); }
        return Ok(if m == BYTE_ARRAY then Value.Bytes(b.value) else Str(b.value));
      }
      res := Err(Unsupported);
    }

    method DecodeAmf3Array(r: Input) returns (res: Result<Value>)
      modifies r, this
      ensures |r.data| <= |old(r.data)|
      ensures match DecodeArray(r.strict, old(stringRefs), old(r.data))
              case Ok(v) => res == Ok(v.val) && stringRefs == v.refs && r.data == v.rest
              case Err(e) => res == Err(e)
      decreases |r.data|, 4
    {
      hide Amf3.DecodeU29, DecodeText, DecodeItems;
      var u := DecodeU29(r);
      if u.Err? { return Err(u.error); }
      if u.value % 2 == 0 { return Err(Unsupported); }
      var key := DecodeAmf3String(r);
      if key.Err? { return Err(key.error); }
      if key.value != [] { return Err(Invalid); }
      var items := DecodeElements(r, u.value / 2);
      if items.Err? { return Err(items.error); }
      res := Ok(Arr(items.value));
    }

    method DecodeElements(r: Input, n: nat) returns (res: Result<seq<Value>>)
      modifies r, this
      ensures |r.data| <= |old(r.data)|
      ensures match DecodeItems(r.strict, old(stringRefs), n, old(r.data), [])
              case Ok(a) => res == Ok(a.val) && stringRefs == a.refs && r.data == a.rest
              case Err(e) => res == Err(e)
      decreases |r.data|, 3
    {
      hide DecodeItems, Decode;
      var result: seq<Value> := [];
      for i := 0 to n
        invariant |r.data| <= |old(r.data)|
        invariant DecodeItems(r.strict, old(stringRefs), n, old(r.data), [])
                  == DecodeItems(r.strict, stringRefs, n - i, r.data, result)
      {
        ItemsStep(r.strict, stringRefs, n - i, r.data, result);
        var tmp := DecodeAmf3(r);
        if tmp.Err? { return Err(tmp.error); }
        result := result + [tmp.value];
      }
      ItemsEnd(r.strict, stringRefs, r.data, result);
      res := Ok(result);
    }

    lemma ItemsEnd(strict: bool, refs: Refs, s: seq<byte>, acc: seq<Value>)
      ensures DecodeItems(strict, refs, 0, s, acc) == Ok(Step(acc, refs, s))
    {}

    lemma ItemsStep(strict: bool, refs: Refs, n: nat, s: seq<byte>, acc: seq<Value>)
      requires n > 0
      ensures match Decode(strict, refs, s)
              case Ok(v) =>
                DecodeItems(strict, refs, n, s, acc) == DecodeItems(strict, v.refs, n - 1, v.rest, acc + [v.val])
              case Err(e) => DecodeItems(strict, refs, n, s, acc) == Err(e)
    {}

    /** The names of a trait given in place. */
    method DecodeProperties(r: Input, n: nat) returns (res: Result<seq<Text>>)
      modifies r, this
      ensures |r.data| <= |old(r.data)|
      ensures match DecodeNames(r.strict, old(stringRefs), n, old(r.data), [])
              case Ok(x) => res == Ok(x.val) && stringRefs == x.refs && r.data == x.rest
              case Err(e) => res == Err(e)
    {
      var properties: seq<Text> := [];
      for i := 0 to n
        invariant |r.data| <= |old(r.data)|
        invariant DecodeNames(r.strict, old(stringRefs), n, old(r.data), [])
                  == DecodeNames(r.strict, stringRefs, n - i, r.data, properties)
      {
        hide DecodeText;
        var tmp := DecodeAmf3String(r);
        if tmp.Err? { return Err(tmp.error); }
        properties := properties + [tmp.value];
      }
      res := Ok(properties);
    }

    method DecodeSealedValues(r: Input, properties: seq<Text>) returns (res: Result<map<Text, Value>>)
      modifies r, this
      ensures |r.data| <= |old(r.data)|
      ensures match DecodeSealed(r.strict, old(stringRefs), properties, old(r.data), map[])
              case Ok(o) => res == Ok(o.val) && stringRefs == o.refs && r.data == o.rest
              case Err(e) => res == Err(e)
      decreases |r.data|, 3
    {
      var obj: map<Text, Value> := map[];
      assert properties[0..] == properties;
      for i := 0 to |properties|
        invariant |r.data| <= |old(r.data)|
        invariant DecodeSealed(r.strict, old(stringRefs), properties, old(r.data), map[])
                  == DecodeSealed(r.strict, stringRefs, properties[i..], r.data, obj)
      {
        SealedStep(r.strict, stringRefs, properties[i..], r.data, obj);
        assert properties[i..][1..] == properties[i + 1..];
        hide DecodeSealed, Decode;
        var val := DecodeAmf3(r);
        if val.Err? { return Err(val.error); }
        obj := obj[properties[i] := val.value];
      }
      res := Ok(obj);
    }

    lemma SealedStep(strict: bool, refs: Refs, names: seq<Text>, s: seq<byte>, acc: map<Text, Value>)
      requires names != []
      ensures match Decode(strict, refs, s)
              case Ok(v) =>
                DecodeSealed(strict, refs, names, s, acc)
                == DecodeSealed(strict, v.refs, names[1..], v.rest, acc[names[0] := v.val])
              case Err(e) => DecodeSealed(strict, refs, names, s, acc) == Err(e)
    {}

    method DecodeDynamicValues(r: Input, sealed: map<Text, Value>) returns (res: Result<map<Text, Value>>)
      modifies r, this
      ensures |r.data| <= |old(r.data)|
      ensures match DecodeDynamic(r.strict, old(stringRefs), old(r.data), sealed)
              case Ok(o) => res == Ok(o.val) && stringRefs == o.refs && r.data == o.rest
              case Err(e) => res == Err(e)
      decreases |r.data|, 3
    {
      var obj := sealed;
      while true
        invariant |r.data| <= |old(r.data)|
        invariant DecodeDynamic(r.strict, old(stringRefs), old(r.data), sealed)
                  == DecodeDynamic(r.strict, stringRefs, r.data, obj)
        decreases |r.data|
      {
        DynamicStep(r.strict, stringRefs, r.data, obj);
        hide DecodeDynamic, Decode, DecodeText;
        var key := DecodeAmf3String(r);
        if key.Err? { return Err(key.error); }
        if key.value == [] { return Ok(obj); }
        var val := DecodeAmf3(r);
        if val.Err? { return Err(val.error); }
        obj := obj[key.value := val.value];
      }
    }

    lemma DynamicStep(strict: bool, refs: Refs, s: seq<byte>, acc: map<Text, Value>)
      ensures match DecodeText(strict, refs, s)
              case Err(e) => DecodeDynamic(strict, refs, s, acc) == Err(e)
              case Ok(key) =>
                if key.val == [] then DecodeDynamic(strict, refs, s, acc) == Ok(Step(acc, key.refs, key.rest))
                else
                  match Decode(strict, key.refs, key.rest)
                  case Ok(v) =>
                    DecodeDynamic(strict, refs, s, acc)
                    == DecodeDynamic(strict, v.refs, v.rest, acc[key.val := v.val])
                  case Err(e) => DecodeDynamic(strict, refs, s, acc) == Err(e)
    {}

    method DecodeAmf3Object(r: Input) returns (res: Result<Value>)
      modifies r, this
      ensures |r.data| <= |old(r.data)|
      ensures match DecodeObject(r.strict, old(stringRefs), old(r.data))
              case Ok(v) => res == Ok(v.val) && stringRefs == v.refs && r.data == v.rest
              case Err(e) => res == Err(e)
      decreases |r.data|, 4
    {
      hide Amf3.DecodeU29, DecodeText, DecodeNames, DecodeSealed, DecodeDynamic;
      var u := DecodeU29(r);
      if u.Err? { return Err(u.error); }
      if u.value % 4 != 3 || u.value / 4 % 2 == 1 { return Err(Unsupported); }
      var dynamic := u.value / 8 % 2 == 1;
      var cls := DecodeAmf3String(r);
      if cls.Err? { return Err(cls.error); }
      var properties := DecodeProperties(r, u.value / 16);
      if properties.Err? { return Err(properties.error); }
      var obj := DecodeSealedValues(r, properties.value);
      if obj.Err? { return Err(obj.error); }
      if dynamic {
        obj := DecodeDynamicValues(r, obj.value);
        if obj.Err? { return Err(obj.error); }
      }
      res := Ok(Obj([], obj.value));
    }
  }

  // ---- encoding ----

  /** `sort.Strings`, by insertion. */
  method SortStrings(xs: seq<Text>) returns (ys: seq<Text>)
    requires forall i, j | 0 <= i < j < |xs| :: xs[i] != xs[j]
    ensures Sorted(ys) && Elements(ys) == Elements(xs)
  {
    ys := [];
    assert Elements(xs[..0]) == {};
    for i := 0 to |xs|
      invariant Sorted(ys) && Elements(ys) == Elements(xs[..i])
    {
      assert xs[i] !in Elements(xs[..i]);
      ElementsSnoc(xs[..i], xs[i]);
      assert xs[..i] + [xs[i]] == xs[..i + 1];
      ys := Insert(ys, xs[i]);
    }
    assert xs[..|xs|] == xs;
  }

  lemma ElementsSnoc(xs: seq<Text>, x: Text)
    ensures Elements(xs + [x]) == Elements(xs) + {x}
  {
    assert (xs + [x])[|xs|] == x;
    assert forall i | 0 <= i < |xs| :: (xs + [x])[i] == xs[i];
  }

  method Insert(ys: seq<Text>, x: Text) returns (zs: seq<Text>)
    requires Sorted(ys) && x !in Elements(ys)
    ensures Sorted(zs) && Elements(zs) == Elements(ys) + {x}
  {
    var i := 0;
    while i < |ys| && Less(ys[i], x)
      invariant 0 <= i <= |ys| && forall j | 0 <= j < i :: Less(ys[j], x)
    { i := i + 1; }
    if i < |ys| { LessTotal(ys[i], x); assert ys[i] in Elements(ys); }
    zs := ys[..i] + [x] + ys[i..];
    InsertSorted(ys, x, i);
    InsertElements(ys, x, i);
  }

  function Inserted(ys: seq<Text>, x: Text, i: nat): seq<Text>
    requires i <= |ys|
  { ys[..i] + [x] + ys[i..] }

  lemma InsertedAt(ys: seq<Text>, x: Text, i: nat)
    requires i <= |ys|
    ensures |Inserted(ys, x, i)| == |ys| + 1
    ensures forall j | 0 <= j <= |ys| ::
              Inserted(ys, x, i)[j] == if j < i then ys[j] else if j == i then x else ys[j - 1]
  {}

  lemma InsertSorted(ys: seq<Text>, x: Text, i: nat)
    requires Sorted(ys) && i <= |ys| && (forall j | 0 <= j < i :: Less(ys[j], x)) && (i < |ys| ==> Less(x, ys[i]))
    ensures Sorted(Inserted(ys, x, i))
  {
    forall j | i <= j < |ys| ensures Less(x, ys[j]) { if j > i { LessTrans(x, ys[i], ys[j]); } }
    InsertedAt(ys, x, i);
    hide Inserted, Less;
  }

  lemma InsertElements(ys: seq<Text>, x: Text, i: nat)
    requires i <= |ys|
    ensures Elements(Inserted(ys, x, i)) == Elements(ys) + {x}
  {
    var zs := Inserted(ys, x, i);
    InsertedAt(ys, x, i);
    hide Inserted;
    forall y | y in Elements(ys) + {x} ensures y in Elements(zs) {
      if y == x { assert zs[i] == x; } else {
        var j :| 0 <= j < |ys| && ys[j] == y;
        assert zs[if j < i then j else j + 1] == y;
      }
    }
  }

  class Encoder {
    const float64: int -> Amf0.Double

    constructor (float64: int -> Amf0.Double)
      ensures this.float64 == float64
    { this.float64 := float64; }

    method EncodeAmf3Uint29(w: Output, val: nat) returns (r: Result<nat>)
      modifies w
      ensures r.Ok? <==> EncodeU29(val).Ok?
      ensures r.Ok? ==> w.data == old(w.data) + EncodeU29(val).value && r.value == |EncodeU29(val).value|
    {
      var n;
      if val <= 0x7f {
        n := w.WriteBytes([val]);
      } else if val <= 0x3fff {
        n := w.WriteBytes([val / 0x80 + 0x80, val % 0x80]);
      } else if val <= 0x1f_ffff {
        n := w.WriteBytes([val / 0x4000 + 0x80, val / 0x80 % 0x80 + 0x80, val % 0x80]);
      } else if val <= 0x1fff_ffff {
        n := w.WriteBytes([val / 0x40_0000 + 0x80, val / 0x8000 % 0x80 + 0x80, val / 0x100 % 0x80 + 0x80, val % 0x100]);
      } else {
        return Err(Invalid);
      }
      r := Ok(n);
    }

    method EncodeAmf3Utf8(w: Output, val: Text) returns (r: Result<nat>)
      modifies w
      ensures r.Ok? <==> Counted(|val|)
      ensures r.Ok? <==> EncodeWire(Inline(val)).Ok?
      ensures r.Ok? ==> w.data == old(w.data) + EncodeWire(Inline(val)).value
      ensures r.Ok? ==> r.value == |EncodeWire(Inline(val)).value|
    {
      Headers(|val|);
      hide EncodeU29;
      r := EncodeAmf3Uint29(w, InPlace(|val|));
      if r.Err? { return; }
      var m := w.WriteBytes(val);
      Assoc(old(w.data), EncodeU29(InPlace(|val|)).value, val);
      r := Ok(r.value + m);
    }

    static lemma Headers(n: nat)
      ensures EncodeU29(InPlace(n)).Ok? <==> Counted(n)
    { hide EncodeU29; }

    static lemma TraitFits(n: nat)
      ensures EncodeU29(TraitHeader(n, false)).Ok? <==> n % 0x1000_0000 < 0x200_0000
    { hide EncodeU29; }

    /** `t` is what was written for `v`. */
    ghost predicate Sent(t: Tree, v: Value, before: seq<byte>, after: seq<byte>, n: nat)
    { Denotes(float64, t, v) && Encode(t).Ok? && after == before + Encode(t).value && n == |Encode(t).value| }

    method EncodeAmf3(w: Output, v: Value) returns (r: Result<nat>, ghost t: Tree)
      modifies w
      ensures r.Ok? ==> Sent(t, v, old(w.data), w.data, r.value)
      ensures r.Ok? <==> Encodes(v)
      decreases v, 2
    {
      t := TNull;
      match v
      case Null =>
        w.WriteMarker(NULL);
        r := Ok(1);
      case Bool(b) =>
        w.WriteMarker(if b then TRUE else FALSE);
        r, t := Ok(1), TBool(b);
      case Int(n) => r, t := EncodeAmf3Int(w, n);
      case Double(bits) => r, t := EncodeAmf3Double(w, bits);
      case Str(s) =>
        w.WriteMarker(STRING);
        r := EncodeAmf3Utf8(w, s);
        if r.Ok? {
          Assoc(old(w.data), [STRING as byte], EncodeWire(Inline(s)).value);
          r, t := Ok(1 + r.value), TStr(Inline(s));
        }
      case Arr(_) => r, t := EncodeAmf3Array(w, v);
      case Bytes(bytes) => r, t := EncodeByteSlice(w, bytes);
      case Obj(_, _) => r, t := EncodeAmf3Object(w, v);
    }

    method EncodeAmf3Double(w: Output, bits: Amf0.Double) returns (r: Result<nat>, ghost t: Tree)
      modifies w
      ensures t == TDouble(bits) && r == Ok(|Encode(t).value|) && w.data == old(w.data) + Encode(t).value
    {
      w.WriteMarker(DOUBLE);
      var _ := w.WriteBytes(bits);
      Assoc(old(w.data), [DOUBLE as byte], bits);
      r, t := Ok(9), TDouble(bits);
    }

    /** Integers of at most 32 bits; outside the 29-bit range they become doubles. */
    method EncodeAmf3Int(w: Output, n: int) returns (r: Result<nat>, ghost t: Tree)
      modifies w
      ensures r.Ok? && Sent(t, Int(n), old(w.data), w.data, r.value)
    {
      if 0 <= n <= 536870911 {
        w.WriteMarker(INTEGER);
        r := EncodeAmf3Uint29(w, n);
        Assoc(old(w.data), [INTEGER as byte], EncodeU29(n).value);
        r, t := Ok(1 + r.value), TInt(n);
      } else {
        r, t := EncodeAmf3Double(w, float64(n));
      }
    }

    /** The header of an array: its length and the empty key. */
    method EncodeArrayHead(w: Output, n: nat) returns (r: Result<nat>)
      modifies w
      ensures r.Ok? <==> Counted(n)
      ensures r.Ok? ==> EncodeU29(InPlace(n)).Ok? && w.data == old(w.data) + ArrayHead(n) && r.value == |ArrayHead(n)|
    {
      Headers(n);
      w.WriteMarker(ARRAY);
      r := EncodeAmf3Uint29(w, InPlace(n));
      if r.Err? { return; }
      var k := EncodeAmf3Utf8(w, []);
      Assoc(old(w.data), [ARRAY as byte], EncodeU29(InPlace(n)).value);
      Assoc(old(w.data), [ARRAY as byte] + EncodeU29(InPlace(n)).value, EncodeWire(Inline([])).value);
      r := Ok(1 + r.value + k.value);
    }

    ghost function ArrayHead(n: nat): seq<byte>
      requires EncodeU29(InPlace(n)).Ok?
    { [ARRAY as byte] + EncodeU29(InPlace(n)).value + EncodeWire(Inline([])).value }

    lemma EmptyKey()
      ensures EncodeWire(Inline([])).Ok?
    {}

    lemma ArrayWhole(ts: seq<Tree>)
      requires EncodeU29(InPlace(|ts|)).Ok? && EncodeItems(ts).Ok?
      ensures Encode(TArr(ts)).Ok? && Encode(TArr(ts)).value == ArrayHead(|ts|) + EncodeItems(ts).value
    {
      hide EncodeU29, EncodeWire, EncodeItems, InPlace;
      EmptyKey();
      var h, k, b := EncodeU29(InPlace(|ts|)), EncodeWire(Inline([])), EncodeItems(ts);
      assert Encode(TArr(ts)) == Ok([ARRAY as byte] + (h.value + (k.value + b.value)));
      assert ArrayHead(|ts|) == [ARRAY as byte] + h.value + k.value;
      hide *;
      Assoc([ARRAY as byte] + h.value, k.value, b.value);
      Assoc([ARRAY as byte], h.value, k.value + b.value);
    }

    lemma {:induction false} ItemsSnoc(ts: seq<Tree>, t: Tree)
      requires EncodeItems(ts).Ok? && Encode(t).Ok?
      ensures EncodeItems(ts + [t]) == Ok(EncodeItems(ts).value + Encode(t).value)
    {
      if ts == [] { EmptyUnit(Encode(t).value); assert [t][1..] == []; } else {
        TailOfAppend(ts, [t]);
        ItemsSnoc(ts[1..], t);
        Assoc(Encode(ts[0]).value, EncodeItems(ts[1..]).value, Encode(t).value);
      }
    }

    method EncodeAmf3Array(w: Output, v: Value) returns (r: Result<nat>, ghost t: Tree)
      requires v.Arr?
      modifies w
      ensures r.Ok? ==> Sent(t, v, old(w.data), w.data, r.value)
      ensures r.Ok? <==> Encodes(v)
      decreases v, 0
    {
      t := TNull;
      var items := v.items;
      r := EncodeArrayHead(w, |items|);
      if r.Err? { return; }
      ghost var start, ts: seq<Tree> := w.data, [];
      var n := r.value;
      EmptyUnit(start);
      for i := 0 to |items|
        invariant |ts| == i && EncodeItems(ts).Ok? && w.data == start + EncodeItems(ts).value
        invariant n == |ArrayHead(|items|)| + |EncodeItems(ts).value|
        invariant forall j | 0 <= j < i :: Denotes(float64, ts[j], items[j]) && Encodes(items[j])
      {
        ghost var one;
        r, one := EncodeAmf3(w, items[i]);
        if r.Err? { return; }
        ItemsSnoc(ts, one);
        Assoc(start, EncodeItems(ts).value, Encode(one).value);
        ts, n := ts + [one], n + r.value;
      }
      t := TArr(ts);
      ArrayWhole(ts);
      Assoc(old(w.data), ArrayHead(|items|), EncodeItems(ts).value);
      r := Ok(n);
    }

    /** A byte slice is taken for an array of integers. */
    method EncodeByteSlice(w: Output, bytes: seq<byte>) returns (r: Result<nat>, ghost t: Tree)
      modifies w
      ensures r.Ok? ==> Sent(t, Value.Bytes(bytes), old(w.data), w.data, r.value)
      ensures r.Ok? <==> Counted(|bytes|)
    {
      t := TNull;
      r := EncodeArrayHead(w, |bytes|);
      if r.Err? { return; }
      ghost var start, ts: seq<Tree> := w.data, [];
      var n := r.value;
      EmptyUnit(start);
      for i := 0 to |bytes|
        invariant |ts| == i && EncodeItems(ts).Ok? && w.data == start + EncodeItems(ts).value
        invariant n == |ArrayHead(|bytes|)| + |EncodeItems(ts).value|
        invariant forall j | 0 <= j < i :: ts[j] == TInt(bytes[j])
      {
        ghost var one;
        r, one := EncodeAmf3Int(w, bytes[i]);
        ItemsSnoc(ts, one);
        Assoc(start, EncodeItems(ts).value, Encode(one).value);
        ts, n := ts + [one], n + r.value;
      }
      t := TArr(ts);
      ArrayWhole(ts);
      Assoc(old(w.data), ArrayHead(|bytes|), EncodeItems(ts).value);
      r := Ok(n);
    }

    /** The keys of a map, in whatever order it delivers them. */
    method KeysOf(props: map<Text, Value>) returns (ks: seq<Text>)
      ensures Elements(ks) == props.Keys && forall i, j | 0 <= i < j < |ks| :: ks[i] != ks[j]
    {
      ks := [];
      var left := props.Keys;
      assert Elements(ks) == {};
      while left != {}
        invariant left <= props.Keys && Elements(ks) == props.Keys - left
        invariant forall i, j | 0 <= i < j < |ks| :: ks[i] != ks[j]
        decreases left
      {
        var k :| k in left;
        ElementsSnoc(ks, k);
        assert forall i | 0 <= i < |ks| :: ks[i] in Elements(ks);
        ks, left := ks + [k], left - {k};
      }
    }

    function InlineAll(xs: seq<Text>): (r: seq<Wire>)
      ensures |r| == |xs| && forall i | 0 <= i < |xs| :: r[i] == Inline(xs[i])
    { seq(|xs|, i requires 0 <= i < |xs| => Inline(xs[i])) }

    lemma {:induction false} WiresSnoc(xs: seq<Wire>, x: Wire)
      requires EncodeWires(xs).Ok? && EncodeWire(x).Ok?
      ensures EncodeWires(xs + [x]) == Ok(EncodeWires(xs).value + EncodeWire(x).value)
    {
      if xs == [] { EmptyUnit(EncodeWire(x).value); assert [x][1..] == []; } else {
        TailOfAppend(xs, [x]);
        WiresSnoc(xs[1..], x);
        Assoc(EncodeWire(xs[0]).value, EncodeWires(xs[1..]).value, EncodeWire(x).value);
      }
    }

    method EncodeNames(w: Output, names: seq<Text>) returns (r: Result<nat>)
      modifies w
      ensures r.Ok? ==> EncodeWires(InlineAll(names)).Ok? && w.data == old(w.data) + EncodeWires(InlineAll(names)).value
      ensures r.Ok? ==> r.value == |EncodeWires(InlineAll(names)).value|
      ensures r.Ok? <==> forall i | 0 <= i < |names| :: Counted(|names[i]|)
    {
      var n := 0;
      EmptyUnit(w.data);
      WiresStart(names);
      hide EncodeWires, EncodeWire, InlineAll, EncodeU29;
      for i := 0 to |names|
        invariant EncodeWires(InlineAll(names[..i])).Ok?
        invariant w.data == old(w.data) + EncodeWires(InlineAll(names[..i])).value
        invariant n == |EncodeWires(InlineAll(names[..i])).value|
        invariant forall j | 0 <= j < i :: Counted(|names[j]|)
      {
        WiresNext(names, i);
        r := EncodeAmf3Utf8(w, names[i]);
        if r.Err? { return; }
        Assoc(old(w.data), EncodeWires(InlineAll(names[..i])).value, EncodeWire(Inline(names[i])).value);
        n := n + r.value;
      }
      assert names[..|names|] == names;
      r := Ok(n);
    }

    lemma WiresStart(names: seq<Text>)
      ensures EncodeWires(InlineAll(names[..0])) == Ok([])
    {}

    lemma WiresNext(names: seq<Text>, i: nat)
      requires i < |names| && EncodeWires(InlineAll(names[..i])).Ok?
      ensures EncodeWire(Inline(names[i])).Ok? ==>
                EncodeWires(InlineAll(names[..i + 1]))
                == Ok(EncodeWires(InlineAll(names[..i])).value + EncodeWire(Inline(names[i])).value)
    {
      hide EncodeU29, InPlace;
      if EncodeWire(Inline(names[i])).Ok? {
        WiresSnoc(InlineAll(names[..i]), Inline(names[i]));
        assert InlineAll(names[..i]) + [Inline(names[i])] == InlineAll(names[..i + 1]);
      }
    }

    /** Everything before the property values: marker, trait header, class name and property names. */
    ghost function ObjectHead(cls: Text, names: seq<Text>): seq<byte>
      requires HeadFits(cls, names)
    {
      [OBJECT as byte] + EncodeU29(TraitHeader(|names|, false)).value + EncodeWire(Inline(cls)).value
        + EncodeWires(InlineAll(names)).value
    }

    ghost predicate HeadFits(cls: Text, names: seq<Text>)
    { EncodeU29(TraitHeader(|names|, false)).Ok? && EncodeWire(Inline(cls)).Ok? && EncodeWires(InlineAll(names)).Ok? }

    method EncodeObjectHead(w: Output, cls: Text, names: seq<Text>) returns (r: Result<nat>)
      modifies w
      ensures r.Ok? ==> HeadFits(cls, names)
      ensures r.Ok? ==> w.data == old(w.data) + ObjectHead(cls, names) && r.value == |ObjectHead(cls, names)|
      ensures r.Ok? <==>
                Counted(|cls|) && |names| % 0x1000_0000 < 0x200_0000 &&
                forall i | 0 <= i < |names| :: Counted(|names[i]|)
    {
      w.WriteMarker(OBJECT);
      var u29 := 3 + |names| * 16 % 0x1_0000_0000;
      assert u29 == TraitHeader(|names|, false);
      TraitFits(|names|);
      hide EncodeU29;
      var h := EncodeAmf3Uint29(w, u29);
      if h.Err? { return h; }
      var c := EncodeAmf3Utf8(w, cls);
      if c.Err? { return c; }
      var ns := EncodeNames(w, names);
      if ns.Err? { return ns; }
      ghost var a, b, d := EncodeU29(u29).value, EncodeWire(Inline(cls)).value, EncodeWires(InlineAll(names)).value;
      Assoc(old(w.data), [OBJECT as byte], a);
      Assoc(old(w.data), [OBJECT as byte] + a, b);
      Assoc(old(w.data), [OBJECT as byte] + a + b, d);
      r := Ok(1 + h.value + c.value + ns.value);
    }

    /** The property values, in the order of the names. */
    method EncodeValues(w: Output, v: Value, names: seq<Text>) returns (r: Result<nat>, ghost ts: seq<Tree>)
      requires v.Obj? && forall i | 0 <= i < |names| :: names[i] in v.props
      modifies w
      ensures r.Ok? ==> |ts| == |names| && EncodeItems(ts).Ok? && w.data == old(w.data) + EncodeItems(ts).value
      ensures r.Ok? ==> r.value == |EncodeItems(ts).value|
      ensures r.Ok? ==> forall i | 0 <= i < |ts| :: Denotes(float64, ts[i], v.props[names[i]])
      ensures r.Ok? <==> forall i | 0 <= i < |names| :: Encodes(v.props[names[i]])
      decreases v, 0
    {
      ts := [];
      var n := 0;
      EmptyUnit(w.data);
      for i := 0 to |names|
        invariant |ts| == i && EncodeItems(ts).Ok? && n == |EncodeItems(ts).value|
        invariant w.data == old(w.data) + EncodeItems(ts).value
        invariant forall j | 0 <= j < i :: Denotes(float64, ts[j], v.props[names[j]]) && Encodes(v.props[names[j]])
      {
        ghost var one;
        r, one := EncodeAmf3(w, v.props[names[i]]);
        if r.Err? { return; }
        ItemsSnoc(ts, one);
        Assoc(old(w.data), EncodeItems(ts).value, Encode(one).value);
        ts, n := ts + [one], n + r.value;
      }
      r := Ok(n);
    }

    lemma ObjectDenotes(v: Value, names: seq<Text>, ts: seq<Tree>, t: Tree)
      requires v.Obj? && |ts| == |names| && Sorted(names) && Elements(names) == v.props.Keys
      requires forall i | 0 <= i < |ts| :: names[i] in v.props && Denotes(float64, ts[i], v.props[names[i]])
      requires t == TObj(Inline(v.cls), InlineAll(names), ts, false, [], [])
      ensures Denotes(float64, t, v)
    {
      assert Names(t.names) == names;
      hide Elements, Sorted;
    }

    lemma ObjectWhole(cls: Text, names: seq<Text>, ts: seq<Tree>, t: Tree)
      requires HeadFits(cls, names) && EncodeItems(ts).Ok?
      requires t == TObj(Inline(cls), InlineAll(names), ts, false, [], [])
      ensures Encode(t).Ok? && Encode(t).value == ObjectHead(cls, names) + EncodeItems(ts).value
    {
      hide EncodeU29, EncodeWire, EncodeWires, EncodeItems;
      Amf3Proofs.ObjectEncodes(t);
      var a, b := EncodeU29(TraitHeader(|names|, false)).value, EncodeWire(Inline(cls)).value;
      var c, d := EncodeWires(InlineAll(names)).value, EncodeItems(ts).value;
      assert Amf3Proofs.Wires(t) == [a, b, c, d, []];
      assert ObjectHead(cls, names) == [OBJECT as byte] + a + b + c;
      hide *;
      EmptyUnit(d);
      Assoc([OBJECT as byte] + a + b, c, d);
      Assoc([OBJECT as byte] + a, b, c + d);
      Assoc([OBJECT as byte], a, b + (c + d));
    }

    method EncodeAmf3Object(w: Output, v: Value) returns (r: Result<nat>, ghost t: Tree)
      requires v.Obj?
      modifies w
      ensures r.Ok? ==> Sent(t, v, old(w.data), w.data, r.value)
      ensures r.Ok? <==> Encodes(v)
      decreases v, 1
    {
      t := TNull;
      var keys := KeysOf(v.props);
      var names := SortStrings(keys);
      SortedCount(names);
      assert forall i | 0 <= i < |names| :: names[i] in v.props by {
        assert forall i | 0 <= i < |names| :: names[i] in Elements(names);
      }
      hide HeadFits, ObjectHead, Sorted, Elements, Denotes;
      var head := EncodeObjectHead(w, v.cls, names);
      if head.Err? { return head, t; }
      ghost var ts;
      r, ts := EncodeValues(w, v, names);
      if r.Err? { return; }
      t := TObj(Inline(v.cls), InlineAll(names), ts, false, [], []);
      ObjectDenotes(v, names, ts, t);
      ObjectWhole(v.cls, names, ts, t);
      Assoc(old(w.data), ObjectHead(v.cls, names), EncodeItems(ts).value);
      r := Ok(head.value + r.value);
    }
  }
}
