/** Adding and removing the `@setDataFrame` command in front of metadata (`protocol/amf/metadata.go`). */
module Metadata {
  import opened Bytes
  import opened Amf0
  import opened AmfStreams
  import Amf0Codec
  import Amf0Proofs

  const SET_DATA_FRAME: seq<byte> := [64, 115, 101, 116, 68, 97, 116, 97, 70, 114, 97, 109, 101]

  datatype Flag = Add | Del

  /** The command as an AMF0 string. */
  function SetFrame(): seq<byte>
  { Encode(TStr(SET_DATA_FRAME)) }

  /** The first value must be a string; the command is put in front of any other, or taken off. */
  function Reform(p: seq<byte>, flag: Flag): Result<seq<byte>>
  {
    var v :- Decode(true, p);
    if !v.val.Str? then Err(Invalid)
    else if flag.Add? then Ok(if v.val.s != SET_DATA_FRAME then SetFrame() + p else p)
    else if v.val.s != SET_DATA_FRAME then Ok(p)
    else if |p| < |SetFrame()| then Err(Panic)
    else Ok(p[|SetFrame()|..])
  }

  /** A body that begins with a short string, which can be read before the end of the input. */
  predicate Named(p: seq<byte>, name: seq<byte>)
  {
    && |name| <= STRING_MAX && |Encode(TStr(name))| <= |p| && p[..|Encode(TStr(name))|] == Encode(TStr(name))
    && (name != [] || |Encode(TStr(name))| < |p|)
  }

  lemma NameOf(p: seq<byte>, name: seq<byte>)
    requires Named(p, name)
    ensures Decode(true, p) == Ok(Parsed(Str(name), p[|Encode(TStr(name))|..]))
  {
    var e := Encode(TStr(name));
    assert p == e + p[|e|..];
    hide Decode;
    Amf0Proofs.RoundTrip(true, TStr(name), p[|e|..]);
  }

  /** The command in front of metadata is the short string `@setDataFrame`. */
  lemma FrameNamed(p: seq<byte>)
    ensures Named(SetFrame() + p, SET_DATA_FRAME) && (SetFrame() + p)[|SetFrame()|..] == p
    ensures |SetFrame()| == 16 && SetFrame()[..3] == [2, 0, 13]
    ensures forall i | 0 <= i < 13 :: SetFrame()[3 + i] == "@setDataFrame"[i] as int
  {}

  /** On bodies named otherwise the two reforms undo each other, and removing first changes nothing. */
  lemma Inverse(p: seq<byte>, name: seq<byte>)
    requires Named(p, name) && name != SET_DATA_FRAME
    ensures Reform(p, Add) == Ok(SetFrame() + p) && Reform(SetFrame() + p, Del) == Ok(p)
    ensures Reform(p, Del) == Ok(p) && Reform(SetFrame() + p, Add) == Ok(SetFrame() + p)
  {
    NameOf(p, name);
    FrameNamed(p);
    hide Decode, Encode, Named;
    NameOf(SetFrame() + p, SET_DATA_FRAME);
  }

  /** The command, if it is there, is followed by a string that is not the command again. */
  predicate Once(p: seq<byte>, name: seq<byte>)
    requires Named(p, name)
  {
    name != SET_DATA_FRAME ||
    (var next := Decode(true, p[|SetFrame()|..]); next.Ok? && next.value.val.Str? && next.value.val.s != SET_DATA_FRAME)
  }

  /**
   Removing and adding gives the added form, for every body that begins with a short string, exactly
   when the command, if it is there, is followed by a string that is not the command again.
   */
  lemma AddedForm(p: seq<byte>, name: seq<byte>)
    requires Named(p, name)
    ensures
      var del := Reform(p, Del);
      (del.Ok? && Reform(del.value, Add).Ok? && Reform(del.value, Add) == Reform(p, Add)) <==> Once(p, name)
    ensures Reform(p, Add) == Ok(if name == SET_DATA_FRAME then p else SetFrame() + p) && Reform(p, Del).Ok?
  {
    NameOf(p, name);
    if name == SET_DATA_FRAME {
      var rest := p[|SetFrame()|..];
      assert p == SetFrame() + rest;
      assert |p| != |rest| by { FrameNamed(rest); }
    }
  }

  method MetaDataReform(p: seq<byte>, flag: Flag) returns (r: Result<seq<byte>>)
    ensures r == Reform(p, flag)
  {
    var input := new Input(p, true);
    var decoder := new Amf0Codec.Decoder();
    hide Decode, Encode;
    var v := decoder.DecodeAmf0(input);
    if v.Err? { return Err(v.error); }
    if !v.value.Str? { return Err(Invalid); }
    match flag
    case Add =>
      if v.value.s != SET_DATA_FRAME { return Ok(SetFrame() + p); }
      r := Ok(p);
    case Del =>
      if v.value.s != SET_DATA_FRAME { return Ok(p); }
      r := if |p| < |SetFrame()| then Err(Panic) else Ok(p[|SetFrame()|..]);
  }
}
