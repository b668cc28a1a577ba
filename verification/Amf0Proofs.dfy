/** Round trips, totality and locality of the AMF0 codec. */
module Amf0Proofs {
  import opened Bytes
  import opened Amf0

  // ---- reading back what was written ----

  /** The reader can finish: a strict reader needs input behind a final empty string. */
  predicate Readable(strict: bool, t: Tree, rest: seq<byte>)
  { !strict || rest != [] || !EndsEmpty(Meaning(t)) }

  lemma ReadBytesBack(strict: bool, a: seq<byte>, rest: seq<byte>)
    requires !strict || a + rest != []
    ensures ReadBytes(strict, |a|, a + rest) == Ok(Parsed(a, rest))
  { assert (a + rest)[..|a|] == a && (a + rest)[|a|..] == rest; }

  lemma StringBack(strict: bool, s: seq<byte>, rest: seq<byte>)
    requires |s| <= STRING_MAX && (!strict || s + rest != [])
    ensures DecodeString(strict, EncodeString(s) + rest) == Ok(Parsed(s, rest))
  {
    Pow256Values();
    TakeBEAppend(2, |s|, s + rest);
    Assoc(BE(2, |s|), s, rest);
    ReadBytesBack(strict, s, rest);
  }

  lemma LongStringBack(strict: bool, s: seq<byte>, rest: seq<byte>)
    requires |s| < 0x1_0000_0000 && (!strict || s + rest != [])
    ensures DecodeLongString(strict, BE(4, |s|) + s + rest) == Ok(Parsed(s, rest))
  {
    Pow256Values();
    TakeBEAppend(4, |s|, s + rest);
    Assoc(BE(4, |s|), s, rest);
    ReadBytesBack(strict, s, rest);
  }

  lemma NumberBack(d: Double, rest: seq<byte>)
    ensures DecodeNumber(d + rest) == Ok(Parsed(d, rest))
  { assert (d + rest)[..8] == d && (d + rest)[8..] == rest; }

  /** Decoding looks at the marker, then at the rest. */
  lemma Marked(strict: bool, m: byte, s: seq<byte>, rest: seq<byte>)
    ensures Decode(strict, [m] + s + rest)
         == if IsComposite(m) then DecodeComposite(strict, m, s + rest) else DecodeScalar(strict, m, s + rest)
  {
    var all := [m] + s + rest;
    assert all[0] == m && all[1..] == s + rest;
  }

  lemma StrBack(strict: bool, s: seq<byte>, rest: seq<byte>)
    requires |s| < 0x1_0000_0000 && (!strict || s + rest != [])
    ensures Decode(strict, Encode(TStr(s)) + rest) == Ok(Parsed(Str(s), rest))
  {
    if |s| <= STRING_MAX {
      Marked(strict, STRING, EncodeString(s), rest);
      StringBack(strict, s, rest);
    } else {
      Marked(strict, LONG_STRING, BE(4, |s|) + s, rest);
      LongStringBack(strict, s, rest);
    }
  }

  lemma ScalarBack(strict: bool, t: Tree, rest: seq<byte>)
    requires !t.TArr? && !t.TObj? && Fits(t) && Readable(strict, t, rest)
    ensures Decode(strict, Encode(t) + rest) == Ok(Parsed(Meaning(t), rest))
  {
    match t
    case TNull => Marked(strict, NULL, [], rest); EmptyUnit(rest); EmptyUnit([NULL as byte]);
    case TUndefined => Marked(strict, UNDEFINED, [], rest); EmptyUnit(rest); EmptyUnit([UNDEFINED as byte]);
    case TUnsupported => Marked(strict, UNSUPPORTED, [], rest); EmptyUnit(rest); EmptyUnit([UNSUPPORTED as byte]);
    case TBool(b) =>
      var c: byte := if b then 1 else 0;
      assert Encode(t) == [BOOLEAN as byte] + [c];
      Marked(strict, BOOLEAN, [c], rest);
      assert ([c] + rest)[1..] == rest;
    case TNumber(bits) => Marked(strict, NUMBER, bits, rest); NumberBack(bits, rest);
    case TStr(s) => StrBack(strict, s, rest);
  }

  lemma DropHead(n: nat, v: nat, s: seq<byte>, rest: seq<byte>)
    ensures (BE(n, v) + s + rest)[n..] == s + rest && BE(n, v) + s + rest == BE(n, v) + (s + rest)
  {}

  lemma {:induction false} RoundTrip(strict: bool, t: Tree, rest: seq<byte>)
    requires Fits(t) && Readable(strict, t, rest)
    ensures Decode(strict, Encode(t) + rest) == Ok(Parsed(Meaning(t), rest))
    decreases t, 1
  {
    match t
    case TArr(items) =>
      if items != [] { MeaningsAt(items, |items| - 1); }
      ArrayBack(strict, items, rest);
    case TObj(ecma, fields) =>
      FieldsBack(strict, fields, rest, map[]);
      if ecma {
        Marked(strict, ECMA_ARRAY, BE(4, |fields|) + EncodeFields(fields), rest);
        DropHead(4, |fields|, EncodeFields(fields), rest);
      } else {
        Marked(strict, OBJECT, EncodeFields(fields), rest);
      }
      hide DecodeObject, EncodeFields, Properties, Decode;
    case _ => ScalarBack(strict, t, rest);
  }

  lemma {:induction false} ArrayBack(strict: bool, items: seq<Tree>, rest: seq<byte>)
    requires Fits(TArr(items))
    requires !strict || rest != [] || items == [] || !EndsEmpty(Meaning(items[|items| - 1]))
    ensures Decode(strict, Encode(TArr(items)) + rest) == Ok(Parsed(Meaning(TArr(items)), rest))
    decreases TArr(items), 0
  {
    Marked(strict, STRICT_ARRAY, BE(4, |items|) + EncodeItems(items), rest);
    DropHead(4, |items|, EncodeItems(items), rest);
    Pow256Values();
    TakeBEAppend(4, |items|, EncodeItems(items) + rest);
    ItemsBack(strict, items, rest, []);
    EmptyUnit(Meanings(items));
    hide DecodeItems, EncodeItems, Meanings, Decode, BE;
  }

  lemma {:induction false} ItemsBack(strict: bool, ts: seq<Tree>, rest: seq<byte>, acc: seq<Value>)
    requires forall i | 0 <= i < |ts| :: Fits(ts[i])
    requires !strict || rest != [] || ts == [] || !EndsEmpty(Meaning(ts[|ts| - 1]))
    ensures DecodeItems(strict, |ts|, EncodeItems(ts) + rest, acc) == Ok(Parsed(acc + Meanings(ts), rest))
    decreases ts, 0
  {
    if ts == [] { EmptyUnit(acc); EmptyUnit(rest); } else {
      var tail := EncodeItems(ts[1..]);
      assert ts[1..] != [] ==> tail != [];
      Assoc(Encode(ts[0]), tail, rest);
      RoundTrip(strict, ts[0], tail + rest);
      ItemsBack(strict, ts[1..], rest, acc + [Meaning(ts[0])]);
      Assoc(acc, [Meaning(ts[0])], Meanings(ts[1..]));
    }
  }

  lemma EndBack(strict: bool, rest: seq<byte>, acc: map<seq<byte>, Value>)
    ensures DecodeObject(strict, [0, 0, OBJECT_END] + rest, acc) == Ok(Parsed(acc, rest))
  {
    assert BE(2, 0) == [0, 0] by { assert BE(1, 0) == [0]; }
    StringBack(strict, [], [OBJECT_END as byte] + rest);
    assert EncodeString([]) + ([OBJECT_END as byte] + rest) == [0, 0, OBJECT_END] + rest;
    assert ([OBJECT_END as byte] + rest)[1..] == rest;
  }

  lemma {:induction false} FieldsBack(strict: bool, fs: seq<Field>, rest: seq<byte>, acc: map<seq<byte>, Value>)
    requires forall i | 0 <= i < |fs| :: 0 < |fs[i].key| <= STRING_MAX && Fits(fs[i].value)
    ensures DecodeObject(strict, EncodeFields(fs) + rest, acc) == Ok(Parsed(Properties(fs, acc), rest))
    decreases fs, 0
  {
    if fs == [] { EndBack(strict, rest, acc); } else {
      var k, v, tail := EncodeString(fs[0].key), Encode(fs[0].value), EncodeFields(fs[1..]);
      Assoc(k, v + tail, rest);
      Assoc(v, tail, rest);
      StringBack(strict, fs[0].key, v + (tail + rest));
      assert tail != [];
      RoundTrip(strict, fs[0].value, tail + rest);
      FieldsBack(strict, fs[1..], rest, acc[fs[0].key := Meaning(fs[0].value)]);
    }
  }

  // ---- what a decoder can return ----

  /** What decoded values look like, at every level. */
  predicate Plain(v: Value)
  {
    match v
    case Str(s) => |s| < 0x1_0000_0000
    case Arr(items) => |items| < 0x1_0000_0000 && forall i | 0 <= i < |items| :: Plain(items[i])
    case Obj(props) => forall k | k in props :: 0 < |k| <= STRING_MAX && Plain(props[k])
    case Typed(_, members) => forall k | k in members :: 0 < |k| <= STRING_MAX && Plain(members[k])
    case _ => true
  }

  predicate PlainProps(props: map<seq<byte>, Value>)
  { forall k | k in props :: 0 < |k| <= STRING_MAX && Plain(props[k]) }

  lemma {:induction false} DecodedPlain(strict: bool, s: seq<byte>)
    requires Decode(strict, s).Ok?
    ensures Plain(Decode(strict, s).value.val)
    decreases |s|, 2
  {
    var m, t := s[0], s[1..];
    if IsComposite(m) { CompositePlain(strict, m, t); }
  }

  lemma {:induction false} CompositePlain(strict: bool, m: byte, t: seq<byte>)
    requires IsComposite(m) && DecodeComposite(strict, m, t).Ok?
    ensures Plain(DecodeComposite(strict, m, t).value.val)
    decreases |t|, 4
  {
    if m == OBJECT { ObjectPlain(strict, t, map[]); }
    else if m == ECMA_ARRAY { ObjectPlain(strict, TakeBE(4, t).value.rest, map[]); }
    else if m == STRICT_ARRAY {
      Pow256Values();
      ItemsPlain(strict, TakeBE(4, t).value.val, TakeBE(4, t).value.rest, []);
    } else { ObjectPlain(strict, DecodeString(strict, t).value.rest, map[]); }
  }

  lemma {:induction false} ObjectPlain(strict: bool, s: seq<byte>, acc: map<seq<byte>, Value>)
    requires PlainProps(acc) && DecodeObject(strict, s, acc).Ok?
    ensures PlainProps(DecodeObject(strict, s, acc).value.val)
    decreases |s|, 3
  {
    ObjectStep(strict, s, acc);
    hide DecodeObject, Decode, DecodeString;
    var key := DecodeString(strict, s).value;
    if key.val != [] {
      DecodedPlain(strict, key.rest);
      var v := Decode(strict, key.rest).value;
      ObjectPlain(strict, v.rest, acc[key.val := v.val]);
    }
  }

  lemma {:induction false} ItemsPlain(strict: bool, n: nat, s: seq<byte>, acc: seq<Value>)
    requires (forall i | 0 <= i < |acc| :: Plain(acc[i])) && DecodeItems(strict, n, s, acc).Ok?
    ensures var a := DecodeItems(strict, n, s, acc).value.val; forall i | 0 <= i < |a| :: Plain(a[i])
    decreases |s|, 3
  {
    ItemsStep(strict, n, s, acc);
    hide DecodeItems, Decode;
    if n > 0 {
      DecodedPlain(strict, s);
      var v := Decode(strict, s).value;
      ItemsPlain(strict, n - 1, v.rest, acc + [v.val]);
    }
  }

  lemma {:induction false} PropertiesAt(fs: seq<Field>, acc: map<seq<byte>, Value>, k: seq<byte>)
    requires forall i, j | 0 <= i < j < |fs| :: fs[i].key != fs[j].key
    ensures (forall i | 0 <= i < |fs| :: fs[i].key != k) ==>
              (k in Properties(fs, acc) <==> k in acc) && (k in acc ==> Properties(fs, acc)[k] == acc[k])
    ensures forall i | 0 <= i < |fs| && fs[i].key == k ::
              k in Properties(fs, acc) && Properties(fs, acc)[k] == Meaning(fs[i].value)
  {
    if fs != [] {
      var acc' := acc[fs[0].key := Meaning(fs[0].value)];
      PropertiesAt(fs[1..], acc', k);
      forall i | 0 <= i < |fs| && fs[i].key == k
        ensures k in Properties(fs, acc) && Properties(fs, acc)[k] == Meaning(fs[i].value)
      {
        if i > 0 {
          assert fs[1..][i - 1] == fs[i];
        } else {
          assert forall j | 0 <= j < |fs[1..]| :: fs[1..][j] == fs[j + 1];
        }
      }
    }
  }

  lemma {:induction false} MeaningsAt(ts: seq<Tree>, i: nat)
    requires i < |ts|
    ensures Meanings(ts)[i] == Meaning(ts[i])
  { if i > 0 { MeaningsAt(ts[1..], i - 1); } }

  /** A tree whose value could have been decoded fits the length fields. */
  lemma {:induction false} PlainFits(t: Tree)
    requires Iterates(t) && Plain(Meaning(t))
    ensures Fits(t)
  {
    match t
    case TArr(items) =>
      forall i | 0 <= i < |items| ensures Fits(items[i]) {
        MeaningsAt(items, i);
        assert Plain(Meanings(items)[i]);
        PlainFits(items[i]);
      }
    case TObj(_, fields) =>
      forall i | 0 <= i < |fields| ensures 0 < |fields[i].key| <= STRING_MAX && Fits(fields[i].value) {
        PropertiesAt(fields, map[], fields[i].key);
        assert fields[i].key in Properties(fields, map[]);
        PlainFits(fields[i].value);
      }
    case _ =>
  }

  lemma DecodeCases(strict: bool, s: seq<byte>)
    ensures s == [] ==> Decode(strict, s) == Err(Eof)
    ensures
      s != [] ==>
        Decode(strict, s) == if IsComposite(s[0]) then DecodeComposite(strict, s[0], s[1..])
                             else DecodeScalar(strict, s[0], s[1..])
  {}

  /** What is read of a composite value, one after the other. */
  lemma CompositeCases(strict: bool, m: byte, s: seq<byte>)
    requires IsComposite(m)
    ensures m == OBJECT ==>
              match DecodeObject(strict, s, map[])
              case Ok(o) => DecodeComposite(strict, m, s) == Ok(Parsed(Obj(o.val), o.rest))
              case Err(e) => DecodeComposite(strict, m, s) == Err(e)
    ensures (m == ECMA_ARRAY || m == STRICT_ARRAY) && |s| < 4 ==> DecodeComposite(strict, m, s) == Err(Eof)
    ensures m == ECMA_ARRAY && |s| >= 4 ==>
              match DecodeObject(strict, s[4..], map[])
              case Ok(o) => DecodeComposite(strict, m, s) == Ok(Parsed(Obj(o.val), o.rest))
              case Err(e) => DecodeComposite(strict, m, s) == Err(e)
    ensures m == STRICT_ARRAY && |s| >= 4 ==>
              match DecodeItems(strict, TakeBE(4, s).value.val, s[4..], [])
              case Ok(a) => DecodeComposite(strict, m, s) == Ok(Parsed(Arr(a.val), a.rest))
              case Err(e) => DecodeComposite(strict, m, s) == Err(e)
    ensures m == TYPED_OBJECT && DecodeString(strict, s).Err? ==>
              DecodeComposite(strict, m, s) == Err(DecodeString(strict, s).error)
    ensures m == TYPED_OBJECT && DecodeString(strict, s).Ok? ==>
              match DecodeObject(strict, DecodeString(strict, s).value.rest, map[])
              case Ok(o) =>
                DecodeComposite(strict, m, s) == Ok(Parsed(Typed(DecodeString(strict, s).value.val, o.val), o.rest))
              case Err(e) => DecodeComposite(strict, m, s) == Err(e)
  { hide DecodeObject, DecodeItems, DecodeString; }

  /** The last of the items decoded ends in a zero-length read. */
  predicate LastEmpty(n: nat, vs: seq<Value>)
  { n > 0 && vs != [] && EndsEmpty(vs[|vs| - 1]) }

  /** Only the last item may end the input, and what it needs behind it the items need. */
  lemma ItemNeeds(strict: bool, n: nat, s: seq<byte>, acc: seq<Value>)
    requires n > 0 && DecodeItems(strict, n, s, acc).Ok?
    ensures
      var p, v := DecodeItems(strict, n, s, acc).value, Decode(strict, s).value;
      if n == 1 then LastEmpty(n, p.val) == EndsEmpty(v.val) && p.rest == v.rest && !LastEmpty(n - 1, p.val)
      else Left(v.rest, p.rest) && LastEmpty(n - 1, p.val) == LastEmpty(n, p.val)
  {
    hide DecodeItems, Decode, EndsEmpty, LastEmpty, Left;
    ItemsStep(strict, n, s, acc);
    var p, v := DecodeItems(strict, n, s, acc).value, Decode(strict, s).value;
    LastCases(n, p.val);
    if n > 1 {
      ItemsShrink(strict, n - 1, v.rest, acc + [v.val]);
    } else {
      ItemsStep(strict, 0, v.rest, acc + [v.val]);
      LastOfSnoc(acc, v.val);
    }
  }

  lemma LastCases(n: nat, vs: seq<Value>)
    ensures !LastEmpty(0, vs) && (n > 1 ==> LastEmpty(n - 1, vs) == LastEmpty(n, vs))
  {}

  lemma LastOfSnoc(acc: seq<Value>, v: Value)
    ensures LastEmpty(1, acc + [v]) == EndsEmpty(v)
  {}

  lemma ItemsShrink(strict: bool, n: nat, s: seq<byte>, acc: seq<Value>)
    requires n > 0 && DecodeItems(strict, n, s, acc).Ok?
    ensures Left(s, DecodeItems(strict, n, s, acc).value.rest)
  {
    ItemsStep(strict, n, s, acc);
    hide DecodeItems, Decode;
    var v := Decode(strict, s).value;
    LeftTrans(s, v.rest, DecodeItems(strict, n, s, acc).value.rest);
  }

  lemma ScalarEnd(m: byte, t: seq<byte>)
    requires DecodeScalar(true, m, t).Ok? && EndsEmpty(DecodeScalar(true, m, t).value.val)
    ensures DecodeScalar(true, m, t).value.rest != []
  {}

  /** A strict reader never finishes a value that ends in an empty string at the end of its input. */
  lemma {:induction false} StrictEnd(s: seq<byte>)
    requires Decode(true, s).Ok? && EndsEmpty(Decode(true, s).value.val)
    ensures Decode(true, s).value.rest != []
    decreases |s|, 2
  {
    DecodeCases(true, s);
    var m, t := s[0], s[1..];
    if IsComposite(m) {
      CompositeCases(true, m, t);
      hide DecodeItems, DecodeObject, DecodeComposite, DecodeString, Decode;
      if m == STRICT_ARRAY { ItemsEnd(TakeBE(4, t).value.val, t[4..], []); }
    } else {
      hide Decode, DecodeScalar, EndsEmpty;
      ScalarEnd(m, t);
    }
  }

  lemma {:induction false} ItemsEnd(n: nat, s: seq<byte>, acc: seq<Value>)
    requires n > 0 && DecodeItems(true, n, s, acc).Ok? && LastEmpty(n, DecodeItems(true, n, s, acc).value.val)
    ensures DecodeItems(true, n, s, acc).value.rest != []
    decreases |s|, 3
  {
    hide DecodeItems, Decode, EndsEmpty, LastEmpty;
    ItemsStep(true, n, s, acc);
    ItemNeeds(true, n, s, acc);
    var v := Decode(true, s).value;
    if n == 1 { StrictEnd(s); } else { ItemsEnd(n - 1, v.rest, acc + [v.val]); }
  }

  /**
   For every value and every iteration order, decoding an encoding gives back the value and leaves the
   rest exactly when the lengths fit, and a strict reader has something left to read at the end.
   */
  lemma RoundTripExact(strict: bool, t: Tree, rest: seq<byte>)
    requires Iterates(t)
    ensures Decode(strict, Encode(t) + rest) == Ok(Parsed(Meaning(t), rest)) <==> Fits(t) && Readable(strict, t, rest)
  {
    var r := Decode(strict, Encode(t) + rest);
    if r == Ok(Parsed(Meaning(t), rest)) {
      DecodedPlain(strict, Encode(t) + rest);
      PlainFits(t);
      if !Readable(strict, t, rest) {
        StrictEnd(Encode(t) + rest);
      }
    }
    if Fits(t) && Readable(strict, t, rest) { RoundTrip(strict, t, rest); }
  }

  // ---- locality ----

  /** `s2` begins like the part of `s` before `rest`, with more behind it if there is `need`. */
  predicate Agree(need: bool, s: seq<byte>, rest: seq<byte>, s2: seq<byte>)
  {
    && |rest| <= |s| && |s| - |rest| <= |s2| && (need ==> |s| - |rest| < |s2|)
    && s2[..|s| - |rest|] == s[..|s| - |rest|]
  }

  /** What follows the part of `s2` that corresponds to `s` before `rest`. */
  function After(s: seq<byte>, rest: seq<byte>, s2: seq<byte>): seq<byte>
    requires |rest| <= |s| && |s| - |rest| <= |s2|
  { s2[|s| - |rest|..] }

  /** Of two parts read one after the other, the first has something behind it if the second is not empty. */
  lemma AgreeSplit(need: bool, s: seq<byte>, mid: seq<byte>, rest: seq<byte>, s2: seq<byte>)
    requires Left(s, mid) && (Left(mid, rest) || rest == mid) && Agree(need, s, rest, s2)
    ensures Agree(need || Left(mid, rest), s, mid, s2) && Agree(need, mid, rest, After(s, mid, s2))
    ensures After(mid, rest, After(s, mid, s2)) == After(s, rest, s2)
    ensures Left(s2, After(s, mid, s2))
  {
    var k, j := |s| - |mid|, |s| - |rest|;
    assert s2[..j][..k] == s2[..k] && s[..j][..k] == s[..k];
    assert s2[k..][..j - k] == s2[..j][k..] && mid[..j - k] == s[..j][k..];
    assert s2[k..][j - k..] == s2[j..];
  }

  lemma StringLocal(strict: bool, s: seq<byte>, s2: seq<byte>)
    requires DecodeString(strict, s).Ok?
    requires var p := DecodeString(strict, s).value; Agree(strict && p.val == [], s, p.rest, s2)
    ensures var p := DecodeString(strict, s).value; DecodeString(strict, s2) == Ok(Parsed(p.val, After(s, p.rest, s2)))
  {
    var p := DecodeString(strict, s).value;
    var j := |s| - |p.rest|;
    assert s2[..2] == s2[..j][..2] == s[..2];
    assert s2[2..][..j - 2] == s2[..j][2..] == s[2..][..j - 2];
    assert s2[2..][j - 2..] == s2[j..];
  }

  lemma LongStringLocal(strict: bool, s: seq<byte>, s2: seq<byte>)
    requires DecodeLongString(strict, s).Ok?
    requires var p := DecodeLongString(strict, s).value; Agree(strict && p.val == [], s, p.rest, s2)
    ensures
      var p := DecodeLongString(strict, s).value;
      DecodeLongString(strict, s2) == Ok(Parsed(p.val, After(s, p.rest, s2)))
  {
    var p := DecodeLongString(strict, s).value;
    var j := |s| - |p.rest|;
    assert s2[..4] == s2[..j][..4] == s[..4];
    assert s2[4..][..j - 4] == s2[..j][4..] == s[4..][..j - 4];
    assert s2[4..][j - 4..] == s2[j..];
  }

  lemma DateLocal(strict: bool, s: seq<byte>, s2: seq<byte>)
    requires DecodeDate(strict, s).Ok? && Agree(false, s, DecodeDate(strict, s).value.rest, s2)
    ensures var p := DecodeDate(strict, s).value; DecodeDate(strict, s2) == Ok(Parsed(p.val, After(s, p.rest, s2)))
  {
    assert s2[..8] == s2[..10][..8] == s[..8];
    assert s2[8..][2..] == s2[10..];
  }

  lemma ScalarLocal(strict: bool, m: byte, s: seq<byte>, s2: seq<byte>)
    requires DecodeScalar(strict, m, s).Ok?
    requires var p := DecodeScalar(strict, m, s).value; Agree(strict && EndsEmpty(p.val), s, p.rest, s2)
    ensures
      var p := DecodeScalar(strict, m, s).value;
      DecodeScalar(strict, m, s2) == Ok(Parsed(p.val, After(s, p.rest, s2)))
  {
    if m == STRING { StringLocal(strict, s, s2); }
    else if m == DATE { DateLocal(strict, s, s2); }
    else if m == LONG_STRING || m == XML_DOCUMENT { LongStringLocal(strict, s, s2); }
    else if m == BOOLEAN { assert s2[0] == s2[..1][0] == s[..1][0]; }
  }

  lemma {:induction false} Local(strict: bool, s: seq<byte>, s2: seq<byte>)
    requires Decode(strict, s).Ok?
    requires var p := Decode(strict, s).value; Agree(strict && EndsEmpty(p.val), s, p.rest, s2)
    ensures var p := Decode(strict, s).value; Decode(strict, s2) == Ok(Parsed(p.val, After(s, p.rest, s2)))
    decreases |s|, 2
  {
    DecodeCases(strict, s);
    DecodeCases(strict, s2);
    hide Decode, DecodeComposite, DecodeScalar, EndsEmpty;
    var m, t, p := s[0], s[1..], Decode(strict, s).value;
    LeftDrop(s, 1);
    AgreeSplit(strict && EndsEmpty(p.val), s, t, p.rest, s2);
    assert s2[0] == s2[..|s| - |p.rest|][0];
    if IsComposite(m) { CompositeLocal(strict, m, t, s2[1..]); } else { ScalarLocal(strict, m, t, s2[1..]); }
  }

  lemma CountLocal(need: bool, s: seq<byte>, rest: seq<byte>, s2: seq<byte>)
    requires |s| >= 4 && (rest == s[4..] || Left(s[4..], rest)) && Agree(need, s, rest, s2)
    ensures TakeBE(4, s2) == Ok(Parsed(TakeBE(4, s).value.val, s2[4..])) && Agree(need, s[4..], rest, s2[4..])
    ensures After(s[4..], rest, s2[4..]) == After(s, rest, s2)
  {
    LeftDrop(s, 4);
    AgreeSplit(need, s, s[4..], rest, s2);
    assert s2[..4] == s2[..|s| - |rest|][..4] == s[..4];
  }

  lemma ArrayNeeds(n: nat, vs: seq<Value>)
    requires |vs| == n
    ensures EndsEmpty(Arr(vs)) == LastEmpty(n, vs)
  {}

  lemma {:induction false} CompositeLocal(strict: bool, m: byte, s: seq<byte>, s2: seq<byte>)
    requires IsComposite(m) && DecodeComposite(strict, m, s).Ok?
    requires var p := DecodeComposite(strict, m, s).value; Agree(strict && EndsEmpty(p.val), s, p.rest, s2)
    ensures
      var p := DecodeComposite(strict, m, s).value;
      DecodeComposite(strict, m, s2) == Ok(Parsed(p.val, After(s, p.rest, s2)))
    decreases |s|, 4
  {
    CompositeCases(strict, m, s);
    CompositeCases(strict, m, s2);
    hide DecodeComposite, DecodeObject, DecodeItems, DecodeString, EndsEmpty, LastEmpty, TakeBE;
    var p := DecodeComposite(strict, m, s).value;
    if m == OBJECT { ObjectLocal(strict, s, s2, map[]); }
    else if m == ECMA_ARRAY {
      CountLocal(false, s, p.rest, s2);
      ObjectLocal(strict, s[4..], s2[4..], map[]);
    } else if m == STRICT_ARRAY {
      ArrayNeeds(TakeBE(4, s).value.val, p.val.items);
      CountLocal(strict && EndsEmpty(p.val), s, p.rest, s2);
      ItemsLocal(strict, TakeBE(4, s).value.val, s[4..], s2[4..], []);
    } else {
      TypedLocal(strict, s, s2, p.rest);
    }
  }

  lemma {:induction false} TypedLocal(strict: bool, s: seq<byte>, s2: seq<byte>, rest: seq<byte>)
    requires DecodeString(strict, s).Ok? && Agree(false, s, rest, s2)
    requires var o := DecodeObject(strict, DecodeString(strict, s).value.rest, map[]); o.Ok? && o.value.rest == rest
    ensures
      var name := DecodeString(strict, s).value;
      var name2 := DecodeString(strict, s2);
      && name2.Ok? && name2.value.val == name.val
      && DecodeObject(strict, name2.value.rest, map[])
         == Ok(Parsed(DecodeObject(strict, name.rest, map[]).value.val, After(s, rest, s2)))
    decreases |s|, 3
  {
    hide DecodeObject, DecodeString;
    var name := DecodeString(strict, s).value;
    AgreeSplit(false, s, name.rest, rest, s2);
    StringLocal(strict, s, s2);
    ObjectLocal(strict, name.rest, After(s, name.rest, s2), map[]);
  }

  lemma EndLocal(s: seq<byte>, s2: seq<byte>)
    requires DecodeEnd(s).Ok? && Agree(false, s, DecodeEnd(s).value, s2)
    ensures DecodeEnd(s2) == Ok(After(s, DecodeEnd(s).value, s2))
  { assert s2[0] == s2[..1][0] == s[..1][0]; }

  lemma {:induction false} ObjectLocal(strict: bool, s: seq<byte>, s2: seq<byte>, acc: map<seq<byte>, Value>)
    requires DecodeObject(strict, s, acc).Ok? && Agree(false, s, DecodeObject(strict, s, acc).value.rest, s2)
    ensures
      var p := DecodeObject(strict, s, acc).value;
      DecodeObject(strict, s2, acc) == Ok(Parsed(p.val, After(s, p.rest, s2)))
    decreases |s|, 3
  {
    ObjectStep(strict, s, acc);
    ObjectStep(strict, s2, acc);
    hide DecodeObject, DecodeString, Decode, DecodeEnd, EndsEmpty;
    var rest := DecodeObject(strict, s, acc).value.rest;
    var key := DecodeString(strict, s).value;
    var t2 := s2[|s| - |key.rest|..];
    if key.val == [] {
      AgreeSplit(false, s, key.rest, rest, s2);
      StringLocal(strict, s, s2);
      EndLocal(key.rest, t2);
    } else {
      var v := Decode(strict, key.rest).value;
      LeftTrans(key.rest, v.rest, rest);
      AgreeSplit(false, s, key.rest, rest, s2);
      StringLocal(strict, s, s2);
      AgreeSplit(false, key.rest, v.rest, rest, t2);
      Local(strict, key.rest, t2);
      ObjectLocal(strict, v.rest, After(key.rest, v.rest, t2), acc[key.val := v.val]);
    }
  }

  lemma {:induction false} ItemsLocal(strict: bool, n: nat, s: seq<byte>, s2: seq<byte>, acc: seq<Value>)
    requires DecodeItems(strict, n, s, acc).Ok?
    requires var p := DecodeItems(strict, n, s, acc).value; Agree(strict && LastEmpty(n, p.val), s, p.rest, s2)
    ensures
      var p := DecodeItems(strict, n, s, acc).value;
      DecodeItems(strict, n, s2, acc) == Ok(Parsed(p.val, After(s, p.rest, s2)))
    decreases |s|, 3
  {
    ItemsStep(strict, n, s, acc);
    ItemsStep(strict, n, s2, acc);
    if n > 0 {
      var p, v := DecodeItems(strict, n, s, acc).value, Decode(strict, s).value;
      ItemsStep(strict, n - 1, v.rest, acc + [v.val]);
      ItemNeeds(strict, n, s, acc);
      hide DecodeItems, Decode, EndsEmpty, LastEmpty;
      AgreeSplit(strict && LastEmpty(n, p.val), s, v.rest, p.rest, s2);
      Local(strict, s, s2);
      ItemsLocal(strict, n - 1, v.rest, After(s, v.rest, s2), acc + [v.val]);
    }
  }

  /**
   A success depends only on the bytes it consumes: whatever follows them, the value is the same and what
   follows is left, except that a strict reader fails if nothing follows a value that ends in an empty string.
   */
  lemma DecodeLocal(strict: bool, s: seq<byte>, s2: seq<byte>)
    requires Decode(strict, s).Ok? && Agree(false, s, Decode(strict, s).value.rest, s2)
    ensures
      var p := Decode(strict, s).value;
      if strict && EndsEmpty(p.val) && After(s, p.rest, s2) == [] then Decode(strict, s2).Err?
      else Decode(strict, s2) == Ok(Parsed(p.val, After(s, p.rest, s2)))
  {
    var p := Decode(strict, s).value;
    if !strict || !EndsEmpty(p.val) || After(s, p.rest, s2) != [] {
      Local(strict, s, s2);
    } else if Decode(strict, s2).Ok? {
      StrictEnd(s);
      var p2 := Decode(strict, s2).value;
      hide Decode, EndsEmpty;
      AgreeBack(s, p.rest, s2, p2.rest);
      Local(strict, s2, s);
      StrictEnd(s2);
      assert false;
    }
  }

  /** The bytes consumed of `s2`, all of which agree with `s`, are the beginning of `s`, which goes on behind them. */
  lemma AgreeBack(s: seq<byte>, rest: seq<byte>, s2: seq<byte>, rest2: seq<byte>)
    requires Agree(false, s, rest, s2) && After(s, rest, s2) == [] && rest != [] && |rest2| <= |s2|
    ensures Agree(true, s2, rest2, s)
  { assert s2 == s[..|s| - |rest|]; }

  // ---- batches ----

  /** A batch of values that fit comes back whole, and ends with the end of the input. */
  lemma {:induction false} BatchBack(strict: bool, ts: seq<Tree>)
    requires (forall i | 0 <= i < |ts| :: Fits(ts[i])) && (!strict || ts == [] || !EndsEmpty(Meaning(ts[|ts| - 1])))
    ensures DecodeBatch(strict, EncodeItems(ts)) == (Meanings(ts), Eof)
  {
    if ts != [] {
      var tail := EncodeItems(ts[1..]);
      assert ts[1..] != [] ==> tail != [];
      RoundTrip(strict, ts[0], tail);
      BatchBack(strict, ts[1..]);
    }
  }
}
