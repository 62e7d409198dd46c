/** Little-endian byte strings of unbounded naturals. */
module Bytes {
  import opened ControlCode

  type Byte = b: nat | b < 256

  function Pow256(n: nat): (p: nat)
    ensures p >= 1
  {
    if n == 0 then 1 else 256 * Pow256(n - 1)
  }

  /** The low `n` bytes of a number. */
  function ToBytes(v: nat, n: nat): (bs: seq<Byte>)
    ensures |bs| == n
  {
    if n == 0 then [] else [v % 256] + ToBytes(v / 256, n - 1)
  }

  function FromBytes(bs: seq<Byte>): nat {
    if bs == [] then 0 else bs[0] + 256 * FromBytes(bs[1..])
  }

  lemma {:induction false} FromBytesBound(bs: seq<Byte>)
    ensures FromBytes(bs) < Pow256(|bs|)
  {
    if bs != [] {
      FromBytesBound(bs[1..]);
    }
  }

  lemma {:induction false} FromToBytes(v: nat, n: nat)
    requires v < Pow256(n)
    ensures FromBytes(ToBytes(v, n)) == v
  {
    if n > 0 {
      FromToBytes(v / 256, n - 1);
    }
  }

  /** Writing `n` bytes keeps a number modulo 256^n. */
  lemma {:induction false} LowBytes(v: nat, n: nat)
    ensures FromBytes(ToBytes(v, n)) == v % Pow256(n)
  {
    if n > 0 {
      LowBytes(v / 256, n - 1);
      ModStep(v, Pow256(n - 1));
    }
  }

  lemma ModStep(v: nat, p: nat)
    requires p >= 1
    ensures v % (256 * p) == v % 256 + 256 * (v / 256 % p)
  {
    var h, b := v / 256, v % 256;
    DivStep(h, p);
    ModOf(h / p, h % p, b, p);
    assert v == 256 * h + b;
  }

  lemma DivStep(h: nat, p: nat)
    requires p >= 1
    ensures h == h / p * p + h % p && h % p < p
  {
  }

  lemma ModOf(q: nat, r: nat, b: nat, p: nat)
    requires r < p && b < 256
    ensures (256 * (q * p + r) + b) % (256 * p) == b + 256 * r
  {
    assert 256 * (q * p) == q * (256 * p);
    DivMod(q, b + 256 * r, 256 * p);
  }

  lemma {:induction false} ToFromBytes(bs: seq<Byte>)
    ensures ToBytes(FromBytes(bs), |bs|) == bs
  {
    if bs != [] {
      ToFromBytes(bs[1..]);
      var rest := FromBytes(bs[1..]);
      DivMod(rest, bs[0], 256);
    }
  }

  lemma {:induction false} FromBytesConcat(a: seq<Byte>, b: seq<Byte>)
    ensures FromBytes(a + b) == FromBytes(a) + Pow256(|a|) * FromBytes(b)
  {
    if a == [] {
      assert a + b == b;
    } else {
      FromBytesConcat(a[1..], b);
      assert (a + b)[1..] == a[1..] + b;
      var rest := Pow256(|a| - 1);
      assert 256 * (rest * FromBytes(b)) == (256 * rest) * FromBytes(b);
    }
  }

  /** Reads `n` bytes at `pos`, least significant first. */
  method ReadLittleEndian(bytes: seq<Byte>, pos: nat, n: nat) returns (val: nat)
    requires pos + n <= |bytes|
    ensures val == FromBytes(bytes[pos..pos + n])
  {
    val := 0;
    var scale: nat := 1;
    for i := 0 to n
      invariant scale == Pow256(i)
      invariant val == FromBytes(bytes[pos..pos + i])
    {
      FromBytesConcat(bytes[pos..pos + i], [bytes[pos + i]]);
      assert bytes[pos..pos + i + 1] == bytes[pos..pos + i] + [bytes[pos + i]];
      assert FromBytes([bytes[pos + i]]) == bytes[pos + i];
      val := val + bytes[pos + i] * scale;
      scale := scale * 256;
    }
  }

  /** Appends the low `nbytes` bytes of `value`, least significant first. */
  method AppendLittleEndian(out: seq<Byte>, value: nat, nbytes: nat) returns (out': seq<Byte>)
    ensures out' == out + ToBytes(value, nbytes)
  {
    out' := out;
    var v := value;
    for i := 0 to nbytes
      invariant out' + ToBytes(v, nbytes - i) == out + ToBytes(value, nbytes)
    {
      assert out' + ToBytes(v, nbytes - i) == (out' + [v % 256]) + ToBytes(v / 256, nbytes - i - 1);
      out' := out' + [v % 256];
      v := v / 256;
    }
  }
}
