/** Fixed-width integers on the wire, and the parsing results shared by every codec. */
module Bytes {

  type byte = x: int | 0 <= x < 256
  type u32 = x: int | 0 <= x < 0x1_0000_0000

  /** The error outcomes of the readers; the source returns an `error` value or panics. */
  datatype Error = Eof | Invalid | Unsupported | Panic

  datatype Result<+T> = Ok(value: T) | Err(error: Error) {
    predicate IsFailure() { Err? }
    function PropagateFailure<U>(): Result<U>
      requires Err?
    { Err(error) }
    function Extract(): T
      requires Ok?
    { value }
  }

  datatype Option<+T> = None | Some(value: T)

  /** A parsed value together with the input that follows it. */
  datatype Parsed<+T> = Parsed(val: T, rest: seq<byte>)

  function Pow256(n: nat): (p: nat)
    ensures p > 0
  { if n == 0 then 1 else 256 * Pow256(n - 1) }

  /** The low `n` bytes of `v`, most significant first. */
  function BE(n: nat, v: nat): (s: seq<byte>)
    ensures |s| == n
  { if n == 0 then [] else BE(n - 1, v / 256) + [v % 256] }

  /** The low `n` bytes of `v`, least significant first. */
  function LE(n: nat, v: nat): (s: seq<byte>)
    ensures |s| == n
  { if n == 0 then [] else [v % 256] + LE(n - 1, v / 256) }

  function UnBE(s: seq<byte>): nat
  { if s == [] then 0 else UnBE(s[..|s| - 1]) * 256 + s[|s| - 1] }

  function UnLE(s: seq<byte>): nat
  { if s == [] then 0 else s[0] + 256 * UnLE(s[1..]) }

  lemma {:induction false} UnBEofBE(n: nat, v: nat)
    ensures UnBE(BE(n, v)) == v % Pow256(n)
  {
    if n > 0 {
      UnBEofBE(n - 1, v / 256);
      assert BE(n, v)[..n - 1] == BE(n - 1, v / 256);
      DivModStep(v, Pow256(n - 1));
    }
  }

  lemma {:induction false} UnLEofLE(n: nat, v: nat)
    ensures UnLE(LE(n, v)) == v % Pow256(n)
  {
    if n > 0 {
      UnLEofLE(n - 1, v / 256);
      assert LE(n, v)[1..] == LE(n - 1, v / 256);
      DivModStep(v, Pow256(n - 1));
    }
  }

  lemma DivModStep(v: nat, p: nat)
    requires p > 0
    ensures (v / 256 % p) * 256 + v % 256 == v % (256 * p)
  {
    var q, r := v / 256 / p, v / 256 % p;
    assert v / 256 == q * p + r;
    assert v == 256 * (q * p + r) + v % 256;
    assert v == (256 * p) * q + (256 * r + v % 256) by {
      assert 256 * (q * p) == (256 * p) * q;
    }
    assert 0 <= 256 * r + v % 256 < 256 * p;
    ModUnique(v, 256 * p, q, 256 * r + v % 256);
  }

  lemma MultipleBound(d: int, k: int)
    requires d > 0
    ensures k >= 1 ==> d * k >= d
    ensures k <= -1 ==> d * k <= -d
  {}

  lemma ModUnique(v: int, d: int, q: int, r: int)
    requires d > 0 && v == d * q + r && 0 <= r < d
    ensures v % d == r && v / d == q
  {
    var k := v / d - q;
    assert v % d == r - d * k by { assert v == d * (v / d) + v % d; assert d * (v / d) == d * q + d * k; }
    MultipleBound(d, k);
  }

  /** Integers on the wire, digit by digit; the writers are the inverses of these readings. */
  lemma UnBEDigits(a: byte, b: byte, c: byte, d: byte)
    ensures UnBE([a]) == UnLE([a]) == a
    ensures UnBE([a, b]) == 0x100 * (a as int) + b && UnLE([a, b]) == a + 0x100 * (b as int)
    ensures UnBE([a, b, c]) == 0x1_0000 * (a as int) + 0x100 * (b as int) + c
    ensures UnBE([a, b, c, d]) == 0x100_0000 * (a as int) + 0x1_0000 * (b as int) + 0x100 * (c as int) + d
    ensures UnLE([a, b, c, d]) == a + 0x100 * (b as int) + 0x1_0000 * (c as int) + 0x100_0000 * (d as int)
  {
    assert [a, b, c, d][..3] == [a, b, c] && [a, b, c][..2] == [a, b] && [a, b][..1] == [a] && [a][..0] == [];
    assert UnLE([d]) == d && UnLE([c, d]) == c + 0x100 * (d as int);
    assert [a, b, c, d][1..] == [b, c, d] && [b, c, d][1..] == [c, d];
  }

  lemma {:induction false} BEofUnBE(s: seq<byte>)
    ensures BE(|s|, UnBE(s)) == s
    ensures UnBE(s) < Pow256(|s|)
  {
    if s != [] {
      var t := s[..|s| - 1];
      BEofUnBE(t);
      assert UnBE(s) / 256 == UnBE(t) && UnBE(s) % 256 == s[|s| - 1];
      assert s == t + [s[|s| - 1]];
    }
  }

  lemma Pow256Values()
    ensures Pow256(1) == 0x100 && Pow256(2) == 0x1_0000 && Pow256(3) == 0x100_0000 && Pow256(4) == 0x1_0000_0000
  {
    assert Pow256(2) == 256 * Pow256(1);
    assert Pow256(3) == 256 * Pow256(2);
    assert Pow256(4) == 256 * Pow256(3);
  }

  lemma UnBEBound(s: seq<byte>)
    ensures UnBE(s) < Pow256(|s|)
  { BEofUnBE(s); }

  lemma {:induction false} UnLEBound(s: seq<byte>)
    ensures UnLE(s) < Pow256(|s|)
  { if s != [] { UnLEBound(s[1..]); } }

  /** Splits off the first `n` bytes; fails when fewer are left. */
  function Take(n: nat, s: seq<byte>): (r: Result<Parsed<seq<byte>>>)
    ensures r.Ok? ==> s == r.value.val + r.value.rest && |r.value.val| == n
    ensures r.Err? ==> r.error == Eof
  { if n <= |s| then Ok(Parsed(s[..n], s[n..])) else Err(Eof) }

  function TakeBE(n: nat, s: seq<byte>): (r: Result<Parsed<nat>>)
    requires n <= 4
    ensures r.Ok? ==> |r.value.rest| == |s| - n && r.value.val < Pow256(n)
    ensures r.Ok? <==> n <= |s|
    ensures r.Err? ==> r.error == Eof
  {
    var p :- Take(n, s);
    UnBEBound(p.val);
    Ok(Parsed(UnBE(p.val), p.rest))
  }

  function TakeLE(n: nat, s: seq<byte>): (r: Result<Parsed<nat>>)
    requires n <= 4
    ensures r.Ok? ==> |r.value.rest| == |s| - n && r.value.val < Pow256(n)
    ensures r.Ok? <==> n <= |s|
    ensures r.Err? ==> r.error == Eof
  {
    var p :- Take(n, s);
    UnLEBound(p.val);
    Ok(Parsed(UnLE(p.val), p.rest))
  }

  lemma TakeAppend(a: seq<byte>, b: seq<byte>)
    ensures Take(|a|, a + b) == Ok(Parsed(a, b))
  { assert (a + b)[..|a|] == a && (a + b)[|a|..] == b; }

  lemma TakeBEAppend(n: nat, v: nat, b: seq<byte>)
    requires n <= 4 && v < Pow256(n)
    ensures TakeBE(n, BE(n, v) + b) == Ok(Parsed(v, b))
  {
    TakeAppend(BE(n, v), b);
    UnBEofBE(n, v);
    ModUnique(v, Pow256(n), 0, v);
  }

  lemma TakeLEAppend(n: nat, v: nat, b: seq<byte>)
    requires n <= 4 && v < Pow256(n)
    ensures TakeLE(n, LE(n, v) + b) == Ok(Parsed(v, b))
  {
    TakeAppend(LE(n, v), b);
    UnLEofLE(n, v);
    ModUnique(v, Pow256(n), 0, v);
  }

  lemma Assoc<T>(a: seq<T>, b: seq<T>, c: seq<T>)
    ensures (a + b) + c == a + (b + c)
  {}

  lemma EmptyUnit<T>(s: seq<T>)
    ensures s + [] == s && [] + s == s
  {}

  lemma TailOfAppend<T>(a: seq<T>, b: seq<T>)
    requires a != []
    ensures (a + b)[1..] == a[1..] + b && (a + b)[0] == a[0] && a + b != []
  {}

  lemma TakeAll<T>(s: seq<T>)
    ensures s[..|s|] == s
  {}

  function Flatten(ss: seq<seq<byte>>): seq<byte>
  { if ss == [] then [] else ss[0] + Flatten(ss[1..]) }

  lemma {:induction false} FlattenAppend(a: seq<seq<byte>>, b: seq<seq<byte>>)
    ensures Flatten(a + b) == Flatten(a) + Flatten(b)
  {
    if a == [] { assert a + b == b; } else {
      assert (a + b)[1..] == a[1..] + b;
      FlattenAppend(a[1..], b);
    }
  }
}
