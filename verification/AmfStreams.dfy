/** The readers and writers under the AMF codecs, with the helpers of `protocol/amf/util.go`. */
module AmfStreams {
  import opened Bytes
  import Amf0

  /** What is left to read of a `bytes.Buffer`, or of a `bytes.Reader` when `strict`. */
  class Input {
    var data: seq<byte>
    const strict: bool

    constructor (data: seq<byte>, strict: bool)
      ensures this.data == data && this.strict == strict
    { this.data, this.strict := data, strict; }

    /** Up to `n` bytes; at the end of the input an error, unless a buffer is asked for none. */
    method Read(n: nat) returns (r: Result<seq<byte>>)
      modifies this
      ensures r.Ok? <==> old(data) != [] || (n == 0 && !strict)
      ensures r.Ok? ==> old(data) == r.value + data && |r.value| == if n <= |old(data)| then n else |old(data)|
      ensures r.Err? ==> r == Err(Eof) && data == old(data)
    {
      if data == [] { return if n == 0 && !strict then Ok([]) else Err(Eof); }
      var m := if n <= |data| then n else |data|;
      r := Ok(data[..m]);
      data := data[m..];
    }

    method ReadBytes(n: nat) returns (r: Result<seq<byte>>)
      modifies this
      ensures |data| <= |old(data)|
      ensures match Amf0.ReadBytes(strict, n, old(data))
              case Ok(p) => r == Ok(p.val) && data == p.rest
              case Err(e) => r == Err(e)
    {
      r := Read(n);
      if r.Ok? && |r.value| != n { return Err(Eof); }
      if r.Ok? { assert (r.value + data)[..n] == r.value && (r.value + data)[n..] == data; }
    }

    method ReadByte() returns (r: Result<byte>)
      modifies this
      ensures |data| <= |old(data)|
      ensures if old(data) == [] then r == Err(Eof) else r == Ok(old(data)[0]) && data == old(data)[1..]
    {
      var b := ReadBytes(1);
      if b.Err? { return Err(b.error); }
      r := Ok(b.value[0]);
    }

    method AssertMarker(check: bool, m: byte) returns (r: Result<()>)
      modifies this
      ensures |data| <= |old(data)|
      ensures r == if !check || (old(data) != [] && old(data)[0] == m) then Ok(())
                   else Err(if old(data) == [] then Eof else Invalid)
      ensures r.Ok? ==> data == if check then old(data)[1..] else old(data)
    {
      if !check { return Ok(()); }
      var marker := ReadByte();
      if marker.Err? { return Err(marker.error); }
      r := if marker.value == m then Ok(()) else Err(Invalid);
    }

    /** `binary.Read` of a big-endian integer of `n` bytes. */
    method ReadBE(n: nat) returns (r: Result<nat>)
      requires n <= 4
      modifies this
      ensures |data| <= |old(data)|
      ensures match TakeBE(n, old(data))
              case Ok(p) => r == Ok(p.val) && data == p.rest
              case Err(e) => r == Err(e)
    {
      if |data| < n {
        data := [];
        return Err(Eof);
      }
      r := Ok(TakeBE(n, data).value.val);
      data := data[n..];
    }
  }

  class Output {
    var data: seq<byte>

    constructor ()
      ensures data == []
    { data := []; }

    method WriteBytes(bytes: seq<byte>) returns (n: nat)
      modifies this
      ensures data == old(data) + bytes && n == |bytes|
    {
      data := data + bytes;
      n := |bytes|;
    }

    method WriteMarker(m: byte)
      modifies this
      ensures data == old(data) + [m]
    { var _ := WriteBytes([m]); }
  }
}
