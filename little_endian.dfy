/** Unsigned little-endian integers over byte sequences, as Python's
    `int.to_bytes(n, 'little')` and `int.from_bytes(bs, 'little')` compute them. */
module LittleEndian {

  /** One element of a Python `bytes` or `bytearray`. */
  type byte = x: int | 0 <= x < 256

  /** 256 to the power n: the number of distinct values n bytes can hold. */
  function Pow256(n: nat): (p: nat)
    ensures p >= 1
  {
    if n == 0 then 1 else 256 * Pow256(n - 1)
  }

  /** `int.from_bytes(bs, 'little')`: the first byte is the least significant. */
  function Decode(bs: seq<byte>): (v: nat)
    ensures v < Pow256(|bs|)
  {
    if bs == [] then 0
    else
      var rest := Decode(bs[1..]);
      assert rest + 1 <= Pow256(|bs| - 1);
      assert 256 * (rest + 1) <= 256 * Pow256(|bs| - 1);
      bs[0] + 256 * rest
  }

  /** `v.to_bytes(n, 'little')`. Python raises OverflowError unless the value
      fits in n bytes, so that is what a caller must provide. */
  function Encode(v: nat, n: nat): (bs: seq<byte>)
    requires v < Pow256(n)
    ensures |bs| == n
  {
    if n == 0 then []
    else
      assert v / 256 < Pow256(n - 1) by { DivBound(v, Pow256(n - 1)); }
      [v % 256] + Encode(v / 256, n - 1)
  }

  lemma DivBound(v: nat, p: nat)
    requires v < 256 * p
    ensures v / 256 < p
  {
  }

  /** Decoding what was encoded gives the value back. */
  lemma {:induction false} DecodeEncode(v: nat, n: nat)
    requires v < Pow256(n)
    ensures Decode(Encode(v, n)) == v
  {
    if n > 0 {
      var bs := Encode(v, n);
      assert v / 256 < Pow256(n - 1) by { DivBound(v, Pow256(n - 1)); }
      assert bs[1..] == Encode(v / 256, n - 1);
      DecodeEncode(v / 256, n - 1);
      assert Decode(bs) == v % 256 + 256 * (v / 256);
    }
  }

  /** Encoding what was decoded, at the same length, gives the bytes back. */
  lemma {:induction false} EncodeDecode(bs: seq<byte>)
    ensures Encode(Decode(bs), |bs|) == bs
  {
    if bs != [] {
      var v := Decode(bs);
      var rest := Decode(bs[1..]);
      assert v == bs[0] + 256 * rest;
      assert v % 256 == bs[0] && v / 256 == rest by { SplitLowByte(bs[0], rest); }
      EncodeDecode(bs[1..]);
    }
  }

  lemma SplitLowByte(b: byte, rest: nat)
    ensures (b + 256 * rest) % 256 == b
    ensures (b + 256 * rest) / 256 == rest
  {
  }

  /** Byte k of an encoding is digit k of the value in base 256. */
  lemma {:induction false} EncodeDigit(v: nat, n: nat, k: nat)
    requires v < Pow256(n) && k < n
    ensures Encode(v, n)[k] == (v / Pow256(k)) % 256
  {
    assert v / 256 < Pow256(n - 1) by { DivBound(v, Pow256(n - 1)); }
    if k > 0 {
      EncodeDigit(v / 256, n - 1, k - 1);
      assert v / Pow256(k) == (v / 256) / Pow256(k - 1) by { DivDiv(v, Pow256(k - 1)); }
    }
  }

  lemma DivDiv(v: nat, p: nat)
    requires p >= 1
    ensures v / (256 * p) == (v / 256) / p
  {
    var q := (v / 256) / p;
    var r := (v / 256) % p;
    var lo := v % 256;
    assert v / 256 == q * p + r;
    assert v == 256 * (v / 256) + lo;
    assert v == (256 * p) * q + (256 * r + lo) by {
      assert 256 * (q * p + r) == (256 * p) * q + 256 * r;
    }
    assert 256 * r + lo < 256 * p by {
      assert r + 1 <= p;
      assert 256 * (r + 1) <= 256 * p;
    }
    DivUnique(v, 256 * p, q, 256 * r + lo);
  }

  lemma DivUnique(v: nat, d: nat, q: nat, r: nat)
    requires d >= 1 && v == d * q + r && r < d
    ensures v / d == q
  {
    var q' := v / d;
    var r' := v % d;
    assert v == d * q' + r';
    if q' < q {
      MulMono(d, q' + 1, q);
      assert false;
    } else if q' > q {
      MulMono(d, q + 1, q');
      assert false;
    }
  }

  lemma MulMono(d: nat, a: nat, b: nat)
    requires a <= b
    ensures d * a <= d * b
  {
  }
}
