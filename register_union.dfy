/** The value side of the register union `SMN_MST_COMMON_BLOCK_SMN_MST_INT_ENABLE_reg_u`:
    its 64-bit `val` field, the default it starts from, and its little-endian
    serialisation. The bit-field overlay `f` is not part of this model. */
module RegisterUnion {
  import opened LittleEndian

  /** 2^64: the `val` field is a ctypes `c_uint64`. */
  const TwoTo64: nat := 0x1_0000_0000_0000_0000

  /** What a `c_uint64` field can hold. */
  type U64 = x: int | 0 <= x < TwoTo64

  /** SMN_SMN_MST_COMMON_BLOCK_SMN_MST_INT_ENABLE_REG_OFFSET and _REG_ADDR:
      the register's local offset and its full address. */
  const IntEnableRegOffset: int := 0x00000098
  const IntEnableRegAddr: int := 0x10000003010098

  /** SMN_MST_COMMON_BLOCK_SMN_MST_INT_ENABLE_REG_DEFAULT, stored into `val` by `__init__`. */
  const DefaultValue: U64 := 0x00000000

  lemma TwoTo64IsEightBytes()
    ensures Pow256(8) == TwoTo64
  {
  }

  /** Assigning a Python int to a `c_uint64` field: ctypes does no range check
      and keeps the low 64 bits (two's complement for negative numbers). */
  function Store(x: int): (v: U64)
    ensures 0 <= x < TwoTo64 ==> v == x
    ensures (v - x) % TwoTo64 == 0
  {
    x % TwoTo64
  }

  /** The access width chosen by `as_bytes` and by `read`: 4 bytes when `val`
      is a `c_uint32` object, otherwise 8. Reading a `c_uint64` field through
      ctypes yields a plain Python int, so the test is false at every call. */
  function AccessSize(valIsCUint32: bool): (n: nat)
    ensures n == 4 || n == 8
    ensures valIsCUint32 || n == 8
  {
    if valIsCUint32 then 4 else 8
  }

  /** `as_bytes`: `val` as 8 little-endian bytes. */
  function AsBytes(val: U64): (bs: seq<byte>)
    ensures |bs| == 8
  {
    TwoTo64IsEightBytes();
    Encode(val, AccessSize(false))
  }

  /** `from_bytes`: a fresh instance whose `val` is assigned the little-endian
      value of the bytes; only the value is modelled. */
  function FromBytes(bs: seq<byte>): (val: U64)
    ensures |bs| <= 8 ==> val == Decode(bs)
  {
    TwoTo64IsEightBytes();
    assert |bs| <= 8 ==> Decode(bs) < TwoTo64 by {
      if |bs| <= 8 { PowMono(|bs|, 8); }
    }
    Store(Decode(bs))
  }

  lemma {:induction false} PowMono(m: nat, n: nat)
    requires m <= n
    ensures Pow256(m) <= Pow256(n)
  {
    if m < n {
      PowMono(m, n - 1);
    }
  }

  /** The round trip of the source's serialiser: `from_bytes(as_bytes(v)).val == v`. */
  lemma FromBytesAsBytes(val: U64)
    ensures FromBytes(AsBytes(val)) == val
  {
    TwoTo64IsEightBytes();
    DecodeEncode(val, 8);
  }

  /** And the other way: eight bytes survive decoding and re-encoding. */
  lemma AsBytesFromBytes(bs: seq<byte>)
    requires |bs| == 8
    ensures AsBytes(FromBytes(bs)) == bs
  {
    TwoTo64IsEightBytes();
    EncodeDecode(bs);
  }

  /** Byte k of `as_bytes` is bits 8k .. 8k+7 of the value. */
  lemma AsBytesDigit(val: U64, k: nat)
    requires k < 8
    ensures AsBytes(val)[k] == (val / Pow256(k)) % 256
  {
    TwoTo64IsEightBytes();
    EncodeDigit(val, 8, k);
  }
}
