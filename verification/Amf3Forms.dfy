/** The AMF3 wire forms by their bytes, including those that are read and never written. */
module Amf3Forms {
  import opened Bytes
  import opened Amf3
  import opened Amf3Proofs
  import Amf0
  import Amf0Proofs

  /** Integers of one to four bytes, most significant first: seven bits each, and all eight of a fourth. */
  lemma U29Read(a: nat, b: nat, c: nat, d: byte, rest: seq<byte>)
    requires a < 128 && b < 128 && c < 128
    ensures DecodeU29([a] + rest) == Ok(Parsed(a, rest))
    ensures DecodeU29([128 + a, b] + rest) == Ok(Parsed(0x80 * a + b, rest))
    ensures DecodeU29([128 + a, 128 + b, c] + rest) == Ok(Parsed(0x4000 * a + 0x80 * b + c, rest))
    ensures DecodeU29([128 + a, 128 + b, 128 + c, d] + rest)
         == Ok(Parsed(0x40_0000 * a + 0x8000 * b + 0x100 * c + d, rest))
  {
    Unroll([a], rest);
    Unroll([128 + a, b], rest);
    Unroll([128 + a, 128 + b, c], rest);
    Unroll([128 + a, 128 + b, 128 + c, d], rest);
  }

  lemma Unroll(w: seq<byte>, rest: seq<byte>)
    requires 1 <= |w| <= 4
    ensures
      var s := w + rest;
      && s[|w|..] == rest && (forall i | 0 <= i < |w| :: s[i] == w[i])
      && (|w| > 1 ==> s[1..][1..] == s[2..]) && (|w| > 2 ==> s[2..][1..] == s[3..])
      && (|w| > 3 ==> s[3..][1..] == s[4..])
  {}

  /** A marker, then a header and bytes given in place. */
  function InPlaceForm(m: byte, bytes: seq<byte>): seq<byte>
    requires |bytes| < 0x1000_0000
  { [m] + (EncodeU29(2 * |bytes| + 1).value + bytes) }

  /** The bytes of each kind of value without parts, as section 3 of the AMF3 specification gives them. */
  lemma ScalarsWritten(n: nat, bits: Amf0.Double, s: Text, i: nat)
    requires n < 0x2000_0000 && |s| < 0x1000_0000 && i < 0x1000_0000
    ensures Encode(TUndefined) == Ok([0]) && Encode(TNull) == Ok([1])
    ensures Encode(TBool(false)) == Ok([2]) && Encode(TBool(true)) == Ok([3])
    ensures Encode(TInt(n)) == Ok([4] + EncodeU29(n).value) && Encode(TDouble(bits)) == Ok([5] + bits)
    ensures Encode(TStr(Inline(s))) == Ok(InPlaceForm(6, s)) && Encode(TBytes(s)) == Ok(InPlaceForm(12, s))
    ensures Encode(TStr(Ref(i))) == Ok([6] + EncodeU29(2 * i).value)
  {
    assert InPlace(|s|) == 2 * |s| + 1 && EncodeU29(InPlace(|s|)).Ok? && EncodeU29(2 * i).Ok?;
    hide EncodeU29, InPlace;
  }

  lemma HeadersWritten(n: nat, cls: Text)
    requires n < 0x1000_0000 && |cls| < 0x1000_0000
    ensures EncodeU29(InPlace(n)) == EncodeU29(2 * n + 1) && EncodeU29(2 * n + 1).Ok?
    ensures EncodeWire(Inline([])) == Ok([1])
    ensures EncodeU29(2 * |cls| + 1).Ok? && EncodeWire(Inline(cls)) == Ok(EncodeU29(2 * |cls| + 1).value + cls)
    ensures n < 0x200_0000 ==> forall d :: TraitHeader(n, d) == if d then 16 * n + 11 else 16 * n + 3
    ensures n < 0x200_0000 ==> EncodeU29(16 * n + 11).Ok? && EncodeU29(16 * n + 3).Ok?
  {
    assert InPlace(n) == 2 * n + 1 && EncodeU29(InPlace(n)).Ok?;
    assert InPlace(|cls|) == 2 * |cls| + 1 && EncodeU29(InPlace(|cls|)).Ok?;
    EmptyUnit([1 as byte]);
    if n < 0x200_0000 { assert TraitHeader(n, true) == 16 * n + 11 && TraitHeader(n, false) == 16 * n + 3; }
  }

  /** An array: its count, an empty key, its items. */
  lemma ArrayWritten(items: seq<Tree>)
    requires |items| < 0x1000_0000 && EncodeItems(items).Ok?
    ensures Encode(TArr(items)) == Ok([9] + (EncodeU29(2 * |items| + 1).value + ([1] + EncodeItems(items).value)))
  {
    hide *;
    HeadersWritten(|items|, []);
    ArrayParts(items, EncodeU29(2 * |items| + 1).value, [1], EncodeItems(items).value);
  }

  lemma ArrayParts(items: seq<Tree>, h: seq<byte>, k: seq<byte>, body: seq<byte>)
    requires EncodeU29(InPlace(|items|)) == Ok(h) && EncodeWire(Inline([])) == Ok(k) && EncodeItems(items) == Ok(body)
    ensures Encode(TArr(items)) == Ok([9] + (h + (k + body)))
  { hide EncodeU29, EncodeWire, EncodeItems, InPlace; }

  /** An object: its traits, with the number of its names and whether more may follow, its parts, an empty key. */
  lemma ObjectWritten(cls: Text, names: seq<Wire>, values: seq<Tree>, dynamic: bool)
    requires |names| < 0x200_0000 && |cls| < 0x1000_0000 && EncodeWires(names).Ok? && EncodeItems(values).Ok?
    ensures
      var h := EncodeU29(if dynamic then 16 * |names| + 11 else 16 * |names| + 3).value;
      var c := EncodeU29(2 * |cls| + 1).value + cls;
      Encode(TObj(Inline(cls), names, values, dynamic, [], []))
      == Ok([10] + (h + (c + (EncodeWires(names).value
                              + (EncodeItems(values).value + if dynamic then [1] else [])))))
  {
    hide *;
    HeadersWritten(|names|, cls);
    NoExtra();
    ObjectParts(TObj(Inline(cls), names, values, dynamic, [], []),
                EncodeU29(if dynamic then 16 * |names| + 11 else 16 * |names| + 3).value,
                EncodeU29(2 * |cls| + 1).value + cls,
                EncodeWires(names).value, EncodeItems(values).value, if dynamic then [1] else []);
  }

  lemma NoExtra()
    ensures EncodeExtra([], []) == EncodeWire(Inline([]))
  {}

  lemma ObjectParts(t: Tree, h: seq<byte>, c: seq<byte>, ns: seq<byte>, vs: seq<byte>, ds: seq<byte>)
    requires t.TObj? && EncodeU29(TraitHeader(|t.names|, t.dynamic)) == Ok(h) && EncodeWire(t.cls) == Ok(c)
    requires EncodeWires(t.names) == Ok(ns) && EncodeItems(t.values) == Ok(vs)
    requires if t.dynamic then EncodeExtra(t.keys, t.extra) == Ok(ds) else ds == []
    ensures Encode(t) == Ok([10] + (h + (c + (ns + (vs + ds)))))
  { hide EncodeU29, EncodeWire, EncodeWires, EncodeItems, EncodeExtra, TraitHeader; }

  lemma FlagsRead(strict: bool, refs: Refs, m: byte, n: nat, bits: Amf0.Double, rest: seq<byte>)
    requires n < 0x2000_0000
    ensures m < 2 ==> Decode(strict, refs, [m] + rest) == Ok(Step(Null, refs, rest))
    ensures 2 <= m < 4 ==> Decode(strict, refs, [m] + rest) == Ok(Step(Bool(m == 3), refs, rest))
    ensures m > 12 ==> Decode(strict, refs, [m] + rest) == Err(Unsupported)
    ensures Decode(strict, refs, [4] + (EncodeU29(n).value + rest))
         == Ok(Step(Int(if n < 0x1000_0000 then n else n - 0x2000_0000), refs, rest))
    ensures Decode(strict, refs, [5] + (bits + rest)) == Ok(Step(Double(bits), refs, rest))
  {
    Head(strict, refs, m, rest);
    U29Back(n, rest);
    Head(strict, refs, 4, EncodeU29(n).value + rest);
    Head(strict, refs, 5, bits + rest);
    Amf0Proofs.NumberBack(bits, rest);
    hide Decode, DecodeU29, EncodeU29, DecodeText, DecodeBytes, Amf0.DecodeNumber;
  }

  /** Bytes in place: a string, a document in either of its two forms, which are only read, or a byte array. */
  lemma InPlaceRead(strict: bool, refs: Refs, m: byte, s: Text, rest: seq<byte>)
    requires |s| < 0x1000_0000 && m in {6, 7, 11, 12} && (!strict || rest != [])
    ensures Decode(strict, refs, InPlaceForm(m, s) + rest)
         == Ok(Step(if m == 12 then Bytes(s) else Str(s), if m == 6 && s != [] then refs + [s] else refs, rest))
  {
    var e := EncodeU29(2 * |s| + 1).value;
    assert InPlaceForm(m, s) == [m] + (e + s) && InPlace(|s|) == 2 * |s| + 1;
    BytesBack(strict, s, rest);
    WireBack(strict, Inline(s), refs, rest);
    assert EncodeWire(Inline(s)) == Ok(e + s);
    hide Decode, DecodeU29, EncodeU29, DecodeText, DecodeBytes, InPlaceForm, InPlace, EncodeWire;
    Head(strict, refs, m, e + s + rest);
    Assoc([m], e + s, rest);
    EmptyUnit(refs);
  }

  lemma Head(strict: bool, refs: Refs, m: byte, s: seq<byte>)
    ensures m !in {9, 10} ==> Decode(strict, refs, [m] + s) == DecodeScalar(strict, refs, m, s)
  {
    EmptyUnit(s);
    Marked(strict, refs, m, [], s);
    EmptyUnit([m]);
    hide Decode, DecodeScalar;
  }

  /** An index names an earlier string, the first one being 0; an index beyond the table is a panic. */
  lemma ReferenceRead(strict: bool, refs: Refs, i: nat, rest: seq<byte>)
    requires i < 0x1000_0000
    ensures DecodeText(strict, refs, EncodeU29(2 * i).value + rest)
         == if i < |refs| then Ok(Step(refs[i], refs, rest)) else Err(Panic)
  {
    U29Back(2 * i, rest);
    hide DecodeU29, EncodeU29;
  }
}
