/** The AMF0 wire forms by their bytes, including those that are read and never written. */
module Amf0Forms {
  import opened Bytes
  import opened Amf0
  import opened Amf0Proofs

  /** The bytes of each kind of value, as sections 2.2 to 2.14 of the AMF0 specification give them. */
  lemma Written(t: Tree)
    ensures
      Encode(t) ==
      match t
      case TNumber(bits) => [0] + bits
      case TBool(b) => [1, if b then 1 else 0]
      case TStr(s) => if |s| < 0x1_0000 then [2] + (BE(2, |s|) + s) else [12] + (BE(4, |s|) + s)
      case TNull => [5]
      case TUndefined => [6]
      case TUnsupported => [13]
      case TArr(items) => [10] + (BE(4, |items|) + EncodeItems(items))
      case TObj(ecma, fields) =>
        if ecma then [8] + (BE(4, |fields|) + EncodeFields(fields)) else [3] + EncodeFields(fields)
    ensures EncodeFields([]) == [0, 0, 9]
  {}

  /** The values without bytes of their own, booleans and numbers, and the markers that are refused. */
  lemma ScalarsRead(strict: bool, m: byte, bits: Double, rest: seq<byte>)
    ensures m in {5, 6, 13} ==> Decode(strict, [m] + rest) == Ok(Parsed(Null, rest))
    ensures Decode(strict, [1] + ([m] + rest)) == if m > 1 then Err(Invalid) else Ok(Parsed(Bool(m == 1), rest))
    ensures Decode(strict, [0] + (bits + rest)) == Ok(Parsed(Number(bits), rest))
    ensures m in {4, 7, 9, 14} || m > 17 ==> Decode(strict, [m] + rest) == Err(Unsupported)
  {
    Head(strict, m, rest);
    Head(strict, 1, [m] + rest);
    Head(strict, 0, bits + rest);
    NumberBack(bits, rest);
    assert ([m] + rest)[1..] == rest;
    hide Decode, DecodeNumber, DecodeString, DecodeLongString, DecodeComposite;
  }

  /** Strings behind two or four bytes of length, and documents, which are only read. */
  lemma StringsRead(strict: bool, m: byte, s: seq<byte>, rest: seq<byte>)
    requires |s| < 0x1_0000_0000 && (!strict || rest != [])
    ensures |s| < 0x1_0000 ==> Decode(strict, [2] + (BE(2, |s|) + s + rest)) == Ok(Parsed(Str(s), rest))
    ensures m in {12, 15} ==> Decode(strict, [m] + (BE(4, |s|) + s + rest)) == Ok(Parsed(Str(s), rest))
  {
    Head(strict, 2, BE(2, |s|) + s + rest);
    Head(strict, m, BE(4, |s|) + s + rest);
    if |s| < 0x1_0000 { StringBack(strict, s, rest); }
    LongStringBack(strict, s, rest);
    hide Decode, DecodeNumber, DecodeString, DecodeLongString, DecodeComposite, BE;
  }

  lemma DateRead(strict: bool, bits: Double, zone: seq<byte>, rest: seq<byte>)
    requires |zone| == 2
    ensures Decode(strict, [11] + (bits + (zone + rest))) == Ok(Parsed(Number(bits), rest))
  {
    Head(strict, 11, bits + (zone + rest));
    NumberBack(bits, zone + rest);
    ReadBytesBack(strict, zone, rest);
    hide Decode, DecodeNumber, ReadBytes, DecodeComposite;
  }

  lemma Head(strict: bool, m: byte, s: seq<byte>)
    ensures Decode(strict, [m] + s)
         == if m in {3, 8, 10, 16} then DecodeComposite(strict, m, s) else DecodeScalar(strict, m, s)
  {
    EmptyUnit(s);
    Marked(strict, m, [], s);
    EmptyUnit([m]);
    hide Decode, DecodeComposite, DecodeScalar;
  }

  /** A typed object, which is only read, is its class name and the properties of an object. */
  lemma TypedRead(strict: bool, name: seq<byte>, fields: seq<Field>, rest: seq<byte>)
    requires |name| < 0x1_0000 && Fits(TObj(false, fields))
    ensures Decode(strict, [16] + (BE(2, |name|) + name + (EncodeFields(fields) + rest)))
         == Ok(Parsed(Typed(name, Properties(fields, map[])), rest))
  {
    Head(strict, 16, BE(2, |name|) + name + (EncodeFields(fields) + rest));
    FieldsBack(strict, fields, rest, map[]);
    assert EncodeFields(fields) != [];
    StringBack(strict, name, EncodeFields(fields) + rest);
    hide Decode, DecodeObject, DecodeString, EncodeFields, Properties, BE, DecodeScalar;
  }

  /** The count of an ECMA array says nothing about it. */
  lemma CountIgnored(strict: bool, count: nat, fields: seq<Field>, rest: seq<byte>)
    requires count < 0x1_0000_0000 && Fits(TObj(true, fields))
    ensures Decode(strict, [8] + (BE(4, count) + (EncodeFields(fields) + rest)))
         == Ok(Parsed(Obj(Properties(fields, map[])), rest))
  {
    Head(strict, 8, BE(4, count) + (EncodeFields(fields) + rest));
    Pow256Values();
    TakeBEAppend(4, count, EncodeFields(fields) + rest);
    FieldsBack(strict, fields, rest, map[]);
    hide Decode, DecodeObject, EncodeFields, Properties, BE, DecodeScalar;
  }
}
