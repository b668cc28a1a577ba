/** The buffered connection of `protocol/rtmp/core/read_writer.go`, over byte sequences in memory. */
module ReadWriters {
  import opened Bytes

  lemma {:induction false} UnLESnoc(s: seq<byte>, b: byte)
    ensures UnLE(s + [b]) == UnLE(s) + b * Pow256(|s|)
  {
    if s == [] { assert [b][1..] == []; } else {
      TailOfAppend(s, [b]);
      UnLESnoc(s[1..], b);
      assert Pow256(|s|) == 256 * Pow256(|s| - 1);
      Distribute(UnLE(s[1..]), b, Pow256(|s| - 1));
    }
  }

  lemma Distribute(u: int, b: int, p: int)
    ensures 256 * (u + b * p) == 256 * u + b * (256 * p)
  {}

  lemma UnBESnoc(s: seq<byte>, b: byte)
    ensures UnBE(s + [b]) == UnBE(s) * 256 + b
  { assert (s + [b])[..|s|] == s; }

  lemma {:induction false} Pow256Monotonic(m: nat, n: nat)
    requires m <= n
    ensures Pow256(m) <= Pow256(n)
  { if m < n { Pow256Monotonic(m, n - 1); } }

  /** Byte `i` of the big-endian form. */
  lemma {:induction false} BEAt(n: nat, v: nat, i: nat)
    requires i < n
    ensures BE(n, v)[i] == v / Pow256(n - 1 - i) % 256
  {
    if i < n - 1 {
      BEAt(n - 1, v / 256, i);
      DivDiv(v, Pow256(n - 2 - i));
      assert Pow256(n - 1 - i) == 256 * Pow256(n - 2 - i);
    }
  }

  lemma DivDiv(v: nat, p: nat)
    requires p > 0
    ensures v / 256 / p == v / (256 * p)
  {
    var q := v / 256 / p;
    var r := 256 * (v / 256 % p) + v % 256;
    assert v / 256 == p * q + v / 256 % p;
    assert v == 256 * (p * q) + r;
    assert 256 * (p * q) == (256 * p) * q;
    ModUnique(v, 256 * p, q, r);
  }

  class ReadWriter {
    var input: seq<byte>
    var output: seq<byte>

    constructor (input: seq<byte>)
      ensures this.input == input && output == []
    {
      this.input, output := input, [];
    }

    method ReadByte() returns (r: Result<byte>)
      modifies this`input
      ensures old(input) == [] ==> r == Err(Eof) && input == []
      ensures old(input) != [] ==> r == Ok(old(input)[0]) && input == old(input)[1..]
    {
      if input == [] { return Err(Eof); }
      r := Ok(input[0]);
      input := input[1..];
    }

    method ReadUintBE(n: nat) returns (r: Result<u32>)
      requires n <= 4
      modifies this`input
      ensures match TakeBE(n, old(input))
              case Ok(p) => r == Ok(p.val) && input == p.rest
              case Err(e) => r == Err(e)
    {
      var ret: u32 := 0;
      for i := 0 to n
        invariant i <= |old(input)| && input == old(input)[i..] && ret == UnBE(old(input)[..i])
      {
        var b := ReadByte();
        if b.Err? { return Err(b.error); }
        UnBESnoc(old(input)[..i], b.value);
        assert old(input)[..i + 1] == old(input)[..i] + [b.value];
        UnBEBound(old(input)[..i + 1]);
        Pow256Monotonic(i + 1, 4);
        Pow256Values();
        ret := (ret * 256 + b.value) % 0x1_0000_0000;
      }
      r := Ok(ret);
    }

    method ReadUintLE(n: nat) returns (r: Result<u32>)
      requires n <= 4
      modifies this`input
      ensures match TakeLE(n, old(input))
              case Ok(p) => r == Ok(p.val) && input == p.rest
              case Err(e) => r == Err(e)
    {
      var ret: u32 := 0;
      for i := 0 to n
        invariant i <= |old(input)| && input == old(input)[i..] && ret == UnLE(old(input)[..i])
      {
        var b := ReadByte();
        if b.Err? { return Err(b.error); }
        UnLESnoc(old(input)[..i], b.value);
        assert old(input)[..i + 1] == old(input)[..i] + [b.value];
        UnLEBound(old(input)[..i + 1]);
        Pow256Monotonic(i + 1, 4);
        Pow256Values();
        ret := (ret + b.value * Pow256(i)) % 0x1_0000_0000;
      }
      r := Ok(ret);
    }

    /** The next `n` bytes without consuming them. */
    method Peek(n: nat) returns (r: Result<seq<byte>>)
      ensures n <= |input| ==> r == Ok(input[..n])
      ensures n > |input| ==> r == Err(Eof)
    {
      r := if n <= |input| then Ok(input[..n]) else Err(Eof);
    }

    method Discard(n: nat)
      requires n <= |input|
      modifies this`input
      ensures input == old(input)[n..]
    {
      input := input[n..];
    }

    /** Exactly `n` bytes, or a failure that loses what was left. */
    method Read(n: nat) returns (r: Result<seq<byte>>)
      modifies this`input
      ensures match Take(n, old(input))
              case Ok(p) => r == Ok(p.val) && input == p.rest
              case Err(e) => r == Err(e)
    {
      if n > |input| {
        input := [];
        return Err(Eof);
      }
      r := Ok(input[..n]);
      input := input[n..];
    }

    method WriteByte(b: byte)
      modifies this`output
      ensures output == old(output) + [b]
    {
      output := output + [b];
    }

    method Write(p: seq<byte>)
      modifies this`output
      ensures output == old(output) + p
    {
      output := output + p;
    }

    method WriteUintBE(v: nat, n: nat)
      modifies this`output
      ensures output == old(output) + BE(n, v)
    {
      for i := 0 to n
        invariant output == old(output) + BE(n, v)[..i]
      {
        BEAt(n, v, i);
        WriteByte(v / Pow256(n - i - 1) % 256);
        assert BE(n, v)[..i + 1] == BE(n, v)[..i] + [BE(n, v)[i]];
      }
    }

    method WriteUintLE(v: nat, n: nat)
      modifies this`output
      ensures output == old(output) + LE(n, v)
    {
      var w := v;
      for i := 0 to n
        invariant output + LE(n - i, w) == old(output) + LE(n, v)
      {
        assert LE(n - i, w) == [w % 256] + LE(n - i - 1, w / 256);
        hide LE;
        Assoc(output, [w % 256], LE(n - i - 1, w / 256));
        WriteByte(w % 256);
        w := w / 256;
      }
      EmptyUnit(output);
    }
  }
}
