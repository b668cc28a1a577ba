/** The AMF0 decoder and encoder over streams. */
module Amf0Codec {
  import opened Bytes
  import opened Amf0
  import opened AmfStreams

  class Decoder {
    constructor () {}

    method DecodeAmf0(r: Input) returns (res: Result<Value>)
      modifies r
      ensures |r.data| <= |old(r.data)|
      ensures match Decode(r.strict, old(r.data))
              case Ok(p) => res == Ok(p.val) && r.data == p.rest
              case Err(e) => res == Err(e)
      decreases |r.data|, 2
    {
      hide DecodeComposite, DecodeScalar;
      var marker := r.ReadByte();
      if marker.Err? { return Err(marker.error); }
      if IsComposite(marker.value) {
        res := DecodeAmf0Composite(r, marker.value);
      } else {
        res := DecodeAmf0Scalar(r, marker.value);
      }
    }

    method DecodeAmf0Composite(r: Input, m: byte) returns (res: Result<Value>)
      requires IsComposite(m)
      modifies r
      ensures |r.data| <= |old(r.data)|
      ensures match DecodeComposite(r.strict, m, old(r.data))
              case Ok(p) => res == Ok(p.val) && r.data == p.rest
              case Err(e) => res == Err(e)
      decreases |r.data|, 5
    {
      if m == OBJECT {
        hide DecodeObject;
        var o := DecodeAmf0Object(r);
        if o.Err? { return Err(o.error); }
        return Ok(Obj(o.value));
      }
      hide DecodeComposite;
      if m == ECMA_ARRAY {
        var o := DecodeAmf0EcmaArray(r);
        if o.Err? { return Err(o.error); }
        res := Ok(Obj(o.value));
      } else if m == STRICT_ARRAY {
        var a := DecodeAmf0StrictArray(r);
        if a.Err? { return Err(a.error); }
        res := Ok(Arr(a.value));
      } else {
        res := DecodeAmf0TypedObject(r);
      }
    }

    method DecodeAmf0Scalar(r: Input, m: byte) returns (res: Result<Value>)
      modifies r
      ensures |r.data| <= |old(r.data)|
      ensures match DecodeScalar(r.strict, m, old(r.data))
              case Ok(p) => res == Ok(p.val) && r.data == p.rest
              case Err(e) => res == Err(e)
    {
      if m == NUMBER || m == DATE {
        var d := DecodeAmf0Number(r);
        if d.Err? { return Err(d.error); }
        if m == DATE {
          var z := r.ReadBytes(2);
          if z.Err? { return Err(z.error); }
        }
        return Ok(Number(d.value));
      } else if m == BOOLEAN {
        var b := r.ReadByte();
        if b.Err? { return Err(b.error); }
        return if b.value == 0 then Ok(Bool(false)) else if b.value == 1 then Ok(Bool(true)) else Err(Invalid);
      } else if m == STRING {
        var s := DecodeAmf0String(r);
        return if s.Ok? then Ok(Str(s.value)) else Err(s.error);
      } else if m == LONG_STRING || m == XML_DOCUMENT {
        var s := DecodeAmf0LongString(r);
        return if s.Ok? then Ok(Str(s.value)) else Err(s.error);
      }
      res := if m == NULL || m == UNDEFINED || m == UNSUPPORTED then Ok(Null) else Err(Unsupported);
    }

    method DecodeAmf0Number(r: Input) returns (res: Result<Double>)
      modifies r
      ensures |r.data| <= |old(r.data)|
      ensures match DecodeNumber(old(r.data))
              case Ok(p) => res == Ok(p.val) && r.data == p.rest
              case Err(e) => res == Err(e)
    {
      if |r.data| < 8 {
        r.data := [];
        return Err(Eof);
      }
      res := Ok(r.data[..8]);
      r.data := r.data[8..];
    }

    method DecodeAmf0String(r: Input) returns (res: Result<seq<byte>>)
      modifies r
      ensures |r.data| <= |old(r.data)|
      ensures match DecodeString(r.strict, old(r.data))
              case Ok(p) => res == Ok(p.val) && r.data == p.rest
              case Err(e) => res == Err(e)
    {
      var length := r.ReadBE(2);
      if length.Err? { return Err(length.error); }
      res := r.ReadBytes(length.value);
    }

    method DecodeAmf0LongString(r: Input) returns (res: Result<seq<byte>>)
      modifies r
      ensures |r.data| <= |old(r.data)|
      ensures match DecodeLongString(r.strict, old(r.data))
              case Ok(p) => res == Ok(p.val) && r.data == p.rest
              case Err(e) => res == Err(e)
    {
      var length := r.ReadBE(4);
      if length.Err? { return Err(length.error); }
      res := r.ReadBytes(length.value);
    }

    method DecodeAmf0Object(r: Input) returns (res: Result<map<seq<byte>, Value>>)
      modifies r
      ensures |r.data| <= |old(r.data)|
      ensures match DecodeObject(r.strict, old(r.data), map[])
              case Ok(p) => res == Ok(p.val) && r.data == p.rest
              case Err(e) => res == Err(e)
      decreases |r.data|, 3
    {
      var result: map<seq<byte>, Value> := map[];
      while true
        invariant |r.data| <= |old(r.data)|
        invariant DecodeObject(r.strict, old(r.data), map[]) == DecodeObject(r.strict, r.data, result)
        decreases |r.data|
      {
        ObjectStep(r.strict, r.data, result);
        hide DecodeObject, Decode, DecodeString;
        var key := DecodeAmf0String(r);
        if key.Err? { return Err(key.error); }
        if key.value == [] {
          var end := r.AssertMarker(true, OBJECT_END);
          if end.Err? { return Err(end.error); }
          break;
        }
        var value := DecodeAmf0(r);
        if value.Err? { return Err(value.error); }
        result := result[key.value := value.value];
      }
      res := Ok(result);
    }

    method DecodeAmf0EcmaArray(r: Input) returns (res: Result<map<seq<byte>, Value>>)
      modifies r
      ensures |r.data| <= |old(r.data)|
      ensures match DecodeComposite(r.strict, ECMA_ARRAY, old(r.data))
              case Ok(p) => res.Ok? && Obj(res.value) == p.val && r.data == p.rest
              case Err(e) => res == Err(e)
      decreases |r.data|, 4
    {
      hide TakeBE, DecodeObject;
      var length := r.ReadBE(4);
      if length.Err? { return Err(length.error); }
      res := DecodeAmf0Object(r);
    }

    method DecodeAmf0StrictArray(r: Input) returns (res: Result<seq<Value>>)
      modifies r
      ensures |r.data| <= |old(r.data)|
      ensures match DecodeComposite(r.strict, STRICT_ARRAY, old(r.data))
              case Ok(p) => res.Ok? && Arr(res.value) == p.val && r.data == p.rest
              case Err(e) => res == Err(e)
      decreases |r.data|, 4
    {
      hide TakeBE, DecodeItems, Decode;
      var length := r.ReadBE(4);
      if length.Err? { return Err(length.error); }
      ghost var s := r.data;
      var result: seq<Value> := [];
      for i := 0 to length.value
        invariant |r.data| <= |s|
        invariant DecodeItems(r.strict, length.value, s, []) == DecodeItems(r.strict, length.value - i, r.data, result)
      {
        ItemsStep(r.strict, length.value - i, r.data, result);
        var tmp := DecodeAmf0(r);
        if tmp.Err? { return Err(tmp.error); }
        result := result + [tmp.value];
      }
      ItemsStep(r.strict, 0, r.data, result);
      res := Ok(result);
    }

    method DecodeAmf0TypedObject(r: Input) returns (res: Result<Value>)
      modifies r
      ensures |r.data| <= |old(r.data)|
      ensures match DecodeComposite(r.strict, TYPED_OBJECT, old(r.data))
              case Ok(p) => res == Ok(p.val) && r.data == p.rest
              case Err(e) => res == Err(e)
      decreases |r.data|, 4
    {
      hide DecodeString, DecodeObject;
      var name := DecodeAmf0String(r);
      if name.Err? { return Err(name.error); }
      var o := DecodeAmf0Object(r);
      if o.Err? { return Err(o.error); }
      res := Ok(Typed(name.value, o.value));
    }

    /** Values up to the first error, which the end of the input also is. */
    method DecodeBatch(r: Input) returns (ret: seq<Value>, err: Error)
      modifies r
      ensures (ret, err) == Amf0.DecodeBatch(r.strict, old(r.data))
    {
      ret := [];
      ghost var s := r.data;
      while true
        invariant Amf0.DecodeBatch(r.strict, s).0 == ret + Amf0.DecodeBatch(r.strict, r.data).0
        invariant Amf0.DecodeBatch(r.strict, s).1 == Amf0.DecodeBatch(r.strict, r.data).1
        decreases |r.data|
      {
        EmptyUnit(ret);
        var v := DecodeAmf0(r);
        if v.Err? { return ret, v.error; }
        Assoc(ret, [v.value], Amf0.DecodeBatch(r.strict, r.data).0);
        ret := ret + [v.value];
      }
    }
  }

  // ---- encoding ----

  /** Typed objects have no AMF0 encoder. */
  predicate Encodable(v: Value)
  {
    match v
    case Arr(items) => forall i | 0 <= i < |items| :: Encodable(items[i])
    case Obj(props) => forall k | k in props :: Encodable(props[k])
    case Typed(_, _) => false
    case _ => true
  }

  /** The fields without the end of the object. */
  function OpenFields(fs: seq<Field>): seq<byte>
  { if fs == [] then [] else OpenFields(fs[..|fs| - 1]) + EncodeString(fs[|fs| - 1].key) + Encode(fs[|fs| - 1].value) }

  lemma {:induction false} OpenCons(f: Field, fs: seq<Field>)
    ensures OpenFields([f] + fs) == EncodeString(f.key) + Encode(f.value) + OpenFields(fs)
  {
    var all := [f] + fs;
    if fs == [] {
      assert all[..0] == [];
      EmptyUnit(EncodeString(f.key) + Encode(f.value));
      EmptyUnit(EncodeString(f.key));
    } else {
      var init, last := fs[..|fs| - 1], fs[|fs| - 1];
      assert all[..|all| - 1] == [f] + init;
      OpenCons(f, init);
      var a, b := EncodeString(f.key) + Encode(f.value), OpenFields(init);
      var c, d := EncodeString(last.key), Encode(last.value);
      Assoc(a, b, c);
      Assoc(a, b + c, d);
    }
  }

  lemma {:induction false} Closed(fs: seq<Field>)
    ensures EncodeFields(fs) == OpenFields(fs) + [0, 0, OBJECT_END]
  {
    if fs != [] {
      Closed(fs[1..]);
      assert fs == [fs[0]] + fs[1..];
      OpenCons(fs[0], fs[1..]);
      var a, b, c := EncodeString(fs[0].key), Encode(fs[0].value), OpenFields(fs[1..]);
      Assoc(b, c, [0, 0, OBJECT_END]);
      Assoc(a, b, c + [0, 0, OBJECT_END]);
      Assoc(a + b, c, [0, 0, OBJECT_END]);
    }
  }

  lemma {:induction false} PropertiesSnoc(fs: seq<Field>, f: Field, acc: map<seq<byte>, Value>)
    ensures Properties(fs + [f], acc) == Properties(fs, acc)[f.key := Meaning(f.value)]
  {
    if fs == [] { assert [f][1..] == []; } else {
      TailOfAppend(fs, [f]);
      PropertiesSnoc(fs[1..], f, acc[fs[0].key := Meaning(fs[0].value)]);
    }
  }

  lemma {:induction false} ItemsSnoc(ts: seq<Tree>, t: Tree)
    ensures EncodeItems(ts + [t]) == EncodeItems(ts) + Encode(t)
    ensures Meanings(ts + [t]) == Meanings(ts) + [Meaning(t)]
  {
    if ts == [] { EmptyUnit(Encode(t)); EmptyUnit([Meaning(t)]); } else {
      TailOfAppend(ts, [t]);
      ItemsSnoc(ts[1..], t);
      Assoc(Encode(ts[0]), EncodeItems(ts[1..]), Encode(t));
      Assoc([Meaning(ts[0])], Meanings(ts[1..]), [Meaning(t)]);
    }
  }

  /** `t` delivers the properties of `v`, each once, in some order. */
  predicate Orders(t: Tree, v: Value)
  { Iterates(t) && Meaning(t) == v }

  /** The fields delivered so far are those of `props` whose keys are no longer in `keys`. */
  predicate Delivered(fs: seq<Field>, props: map<seq<byte>, Value>, keys: set<seq<byte>>)
  {
    && keys <= props.Keys
    && (forall i | 0 <= i < |fs| :: Iterates(fs[i].value) && fs[i].key in props && fs[i].key !in keys)
    && (forall i, j | 0 <= i < j < |fs| :: fs[i].key != fs[j].key)
    && Properties(fs, map[]) == props - keys
  }

  lemma DeliverOne(fs: seq<Field>, props: map<seq<byte>, Value>, keys: set<seq<byte>>, k: seq<byte>, t: Tree)
    requires Delivered(fs, props, keys) && k in keys && Orders(t, props[k])
    ensures Delivered(fs + [Field(k, t)], props, keys - {k})
    ensures OpenFields(fs + [Field(k, t)]) == OpenFields(fs) + EncodeString(k) + Encode(t)
  {
    PropertiesSnoc(fs, Field(k, t), map[]);
    assert (props - keys)[k := props[k]] == props - (keys - {k});
    assert (fs + [Field(k, t)])[..|fs|] == fs;
  }

  class Encoder {
    constructor () {}

    /**
       Writes a value and returns the number of bytes. A map delivers its properties in an order that
       the source leaves open; `t` is the order that was taken.
     */
    method EncodeAmf0(w: Output, v: Value) returns (r: Result<nat>, ghost t: Tree)
      modifies w
      ensures r.Ok? <==> Encodable(v)
      ensures r.Ok? ==> Orders(t, v) && w.data == old(w.data) + Encode(t) && r.value == |Encode(t)|
      decreases v, 1
    {
      t := TNull;
      match v
      case Null =>
        w.WriteMarker(NULL);
        r := Ok(1);
      case Bool(b) =>
        w.WriteMarker(BOOLEAN);
        var m := w.WriteBytes([if b then 1 else 0]);
        Assoc(old(w.data), [BOOLEAN as byte], [if b then 1 else 0]);
        r, t := Ok(1 + m), TBool(b);
      case Number(bits) =>
        w.WriteMarker(NUMBER);
        var m := w.WriteBytes(bits);
        Assoc(old(w.data), [NUMBER as byte], bits);
        r, t := Ok(1 + m), TNumber(bits);
      case Str(s) =>
        var n := EncodeAmf0Str(w, s);
        r, t := Ok(n), TStr(s);
      case Arr(items) =>
        r, t := EncodeAmf0StrictArray(w, v);
      case Obj(props) =>
        w.WriteMarker(OBJECT);
        ghost var fs;
        r, fs := EncodeAmf0Object(w, v);
        if r.Ok? {
          Assoc(old(w.data), [OBJECT as byte], EncodeFields(fs));
          r, t := Ok(1 + r.value), TObj(false, fs);
        }
      case Typed(_, _) =>
        r := Err(Unsupported);
    }

    /** A short or a long string, by its length. */
    method EncodeAmf0Str(w: Output, s: seq<byte>) returns (n: nat)
      modifies w
      ensures w.data == old(w.data) + Encode(TStr(s)) && n == |Encode(TStr(s))|
    {
      if |s| <= STRING_MAX {
        w.WriteMarker(STRING);
        n := EncodeAmf0String(w, s);
        Assoc(old(w.data), [STRING as byte], EncodeString(s));
      } else {
        w.WriteMarker(LONG_STRING);
        n := EncodeAmf0LongString(w, s);
        Assoc(old(w.data), [LONG_STRING as byte], BE(4, |s|) + s);
      }
      n := 1 + n;
    }

    method EncodeAmf0String(w: Output, val: seq<byte>) returns (n: nat)
      modifies w
      ensures w.data == old(w.data) + EncodeString(val) && n == |EncodeString(val)|
    {
      var _ := w.WriteBytes(BE(2, |val|));
      var m := w.WriteBytes(val);
      Assoc(old(w.data), BE(2, |val|), val);
      n := 2 + m;
    }

    method EncodeAmf0LongString(w: Output, val: seq<byte>) returns (n: nat)
      modifies w
      ensures w.data == old(w.data) + (BE(4, |val|) + val) && n == 4 + |val|
    {
      var _ := w.WriteBytes(BE(4, |val|));
      var m := w.WriteBytes(val);
      Assoc(old(w.data), BE(4, |val|), val);
      n := 4 + m;
    }

    method EncodeAmf0StrictArray(w: Output, v: Value) returns (r: Result<nat>, ghost t: Tree)
      requires v.Arr?
      modifies w
      ensures r.Ok? <==> Encodable(v)
      ensures r.Ok? ==> Orders(t, v) && w.data == old(w.data) + Encode(t) && r.value == |Encode(t)|
      decreases v, 0
    {
      ghost var ts: seq<Tree> := [];
      t := TNull;
      w.WriteMarker(STRICT_ARRAY);
      var _ := w.WriteBytes(BE(4, |v.items|));
      var n := 5;
      ghost var start := w.data;
      EmptyUnit(start);
      assert v.items[..0] == [];
      for i := 0 to |v.items|
        invariant |ts| == i && w.data == start + EncodeItems(ts) && n == 5 + |EncodeItems(ts)|
        invariant Meanings(ts) == v.items[..i] && (forall j | 0 <= j < i :: Iterates(ts[j]) && Encodable(v.items[j]))
      {
        ghost var one;
        r, one := EncodeAmf0(w, v.items[i]);
        if r.Err? { return; }
        ItemsSnoc(ts, one);
        Assoc(start, EncodeItems(ts), Encode(one));
        ts := ts + [one];
        n := n + r.value;
      }
      t := TArr(ts);
      assert v.items[..|v.items|] == v.items;
      Assoc(old(w.data), [STRICT_ARRAY as byte], BE(4, |v.items|));
      Assoc(old(w.data), [STRICT_ARRAY as byte] + BE(4, |v.items|), EncodeItems(ts));
      Assoc([STRICT_ARRAY as byte], BE(4, |v.items|), EncodeItems(ts));
      r := Ok(n);
    }

    /** The properties in whatever order the map delivers them, then the end of the object. */
    method EncodeAmf0Object(w: Output, v: Value) returns (r: Result<nat>, ghost fs: seq<Field>)
      requires v.Obj?
      modifies w
      ensures r.Ok? <==> Encodable(v)
      ensures r.Ok? ==> Orders(TObj(false, fs), v)
      ensures r.Ok? ==> w.data == old(w.data) + EncodeFields(fs) && r.value == |EncodeFields(fs)|
      decreases v, 0
    {
      fs := [];
      var n := 0;
      var keys := v.props.Keys;
      EmptyUnit(w.data);
      assert v.props - keys == map[];
      while keys != {}
        invariant Delivered(fs, v.props, keys) && (forall k | k in v.props && k !in keys :: Encodable(v.props[k]))
        invariant w.data == old(w.data) + OpenFields(fs) && n == |OpenFields(fs)|
        decreases keys
      {
        var k :| k in keys;
        ghost var t;
        r, t := EncodeProperty(w, k, v.props[k]);
        if r.Err? { return; }
        DeliverOne(fs, v.props, keys, k, t);
        Assoc(OpenFields(fs), EncodeString(k), Encode(t));
        Assoc(old(w.data), OpenFields(fs), EncodeString(k) + Encode(t));
        n := n + r.value;
        keys, fs := keys - {k}, fs + [Field(k, t)];
      }
      EncodeEnd(w);
      Assoc(old(w.data), OpenFields(fs), [0, 0, OBJECT_END]);
      Closed(fs);
      assert v.props - keys == v.props;
      r := Ok(n + 3);
    }

    method EncodeProperty(w: Output, k: seq<byte>, x: Value) returns (r: Result<nat>, ghost t: Tree)
      modifies w
      ensures r.Ok? <==> Encodable(x)
      ensures r.Ok? ==> Orders(t, x) && r.value == |EncodeString(k) + Encode(t)|
      ensures r.Ok? ==> w.data == old(w.data) + (EncodeString(k) + Encode(t))
      decreases x, 5
    {
      var m := EncodeAmf0String(w, k);
      r, t := EncodeAmf0(w, x);
      if r.Err? { return; }
      Assoc(old(w.data), EncodeString(k), Encode(t));
      r := Ok(m + r.value);
    }

    method EncodeEnd(w: Output)
      modifies w
      ensures w.data == old(w.data) + [0, 0, OBJECT_END]
    {
      var _ := EncodeAmf0String(w, []);
      w.WriteMarker(OBJECT_END);
      assert EncodeString([]) + [OBJECT_END as byte] == [0, 0, OBJECT_END] by {
        assert BE(1, 0) == [0];
        assert BE(2, 0) == [0, 0];
      }
      Assoc(old(w.data), EncodeString([]), [OBJECT_END as byte]);
    }

    method EncodeAmf0EcmaArray(w: Output, v: Value) returns (r: Result<nat>, ghost t: Tree)
      requires v.Obj?
      modifies w
      ensures r.Ok? <==> Encodable(v)
      ensures r.Ok? ==> Orders(t, v) && w.data == old(w.data) + Encode(t) && r.value == |Encode(t)|
    {
      t := TNull;
      w.WriteMarker(ECMA_ARRAY);
      var _ := w.WriteBytes(BE(4, |v.props|));
      ghost var fs;
      r, fs := EncodeAmf0Object(w, v);
      if r.Ok? {
        FieldCount(fs, v.props);
        r, t := Ok(5 + r.value), TObj(true, fs);
        Assoc(old(w.data), [ECMA_ARRAY as byte], BE(4, |v.props|));
        Assoc(old(w.data), [ECMA_ARRAY as byte] + BE(4, |v.props|), EncodeFields(fs));
        Assoc([ECMA_ARRAY as byte], BE(4, |v.props|), EncodeFields(fs));
      }
    }

    /** Writes every value; the returned count is always zero, as in the source. */
    method EncodeBatch(w: Output, vals: seq<Value>) returns (r: Result<nat>, ghost ts: seq<Tree>)
      modifies w
      ensures r.Ok? <==> forall i | 0 <= i < |vals| :: Encodable(vals[i])
      ensures r.Ok? ==> r.value == 0 && |ts| == |vals| && (forall i | 0 <= i < |vals| :: Orders(ts[i], vals[i]))
      ensures r.Ok? ==> w.data == old(w.data) + EncodeItems(ts)
    {
      ts := [];
      EmptyUnit(w.data);
      for i := 0 to |vals|
        invariant |ts| == i && (forall j | 0 <= j < i :: Orders(ts[j], vals[j]) && Encodable(vals[j]))
        invariant w.data == old(w.data) + EncodeItems(ts)
      {
        ghost var t;
        r, t := EncodeAmf0(w, vals[i]);
        if r.Err? { return; }
        ItemsSnoc(ts, t);
        Assoc(old(w.data), EncodeItems(ts), Encode(t));
        ts := ts + [t];
      }
      r := Ok(0);
    }
  }

  lemma {:induction false} FieldCount(fs: seq<Field>, props: map<seq<byte>, Value>)
    requires Properties(fs, map[]) == props && forall i, j | 0 <= i < j < |fs| :: fs[i].key != fs[j].key
    ensures |fs| == |props|
  {
    if fs == [] { } else {
      var f, init := fs[|fs| - 1], fs[..|fs| - 1];
      assert fs == init + [f];
      PropertiesSnoc(init, f, map[]);
      KeysOf(init, f.key);
      FieldCount(init, Properties(init, map[]));
      assert props.Keys == Properties(init, map[]).Keys + {f.key};
    }
  }

  lemma {:induction false} KeysOf(fs: seq<Field>, k: seq<byte>)
    requires forall i | 0 <= i < |fs| :: fs[i].key != k
    ensures k !in Properties(fs, map[])
  {
    if fs != [] {
      var f, init := fs[|fs| - 1], fs[..|fs| - 1];
      assert fs == init + [f];
      PropertiesSnoc(init, f, map[]);
      KeysOf(init, k);
    }
  }
}
