/**
 * The base-32 encoder: the bytes are read as one little-endian unsigned
 * integer and printed in radix 32 with the digits `0-9a-v`.
 */
module Base32 {
  import opened Bytes
  import opened Numerals

  /** 256 to the power `k`: the number of values `k` bytes can hold. */
  function Pow256(k: nat): (p: nat)
    ensures p >= 1
  {
    if k == 0 then 1 else 256 * Pow256(k - 1)
  }

  /** `BigUint::from_bytes_le`: the first byte is the least significant. */
  function FromBytesLe(bytes: seq<byte>): (n: nat)
    ensures n < Pow256(|bytes|)
    ensures bytes != [] ==> n % 256 == bytes[0]
  {
    if bytes == [] then 0 else bytes[0] + 256 * FromBytesLe(bytes[1..])
  }

  /** The 32 characters of the output alphabet `0123456789abcdefghijklmnopqrstuv`. */
  predicate IsBase32Char(c: char)
  {
    '0' <= c <= '9' || 'a' <= c <= 'v'
  }

  /** `encode`: the radix-32 numeral of the little-endian value of `bytes`. */
  function Encode(bytes: seq<byte>): (r: string)
    ensures |r| > 0
    ensures forall i :: 0 <= i < |r| ==> IsBase32Char(r[i])
    ensures r[0] == '0' ==> r == "0"
    ensures IsCanonical(r, 32)
  {
    ToStrRadix(FromBytesLe(bytes), 32)
  }

  /** Reading the output as a base-32 numeral gives back the value of the input. */
  lemma EncodeRoundTrip(bytes: seq<byte>)
    ensures ParseRadix(Encode(bytes), 32) == FromBytesLe(bytes)
  {
    ParseToStrRadix(FromBytesLe(bytes), 32);
  }

  /** The output is the only canonical base-32 numeral of the input's value. */
  lemma EncodeUnique(bytes: seq<byte>, s: string)
    requires IsCanonical(s, 32) && ParseRadix(s, 32) == FromBytesLe(bytes)
    ensures s == Encode(bytes)
  {
    ToStrRadixParse(s, 32);
  }

  /** Two inputs give the same output exactly when their little-endian values agree. */
  lemma EncodeInjective(a: seq<byte>, b: seq<byte>)
    ensures Encode(a) == Encode(b) <==> FromBytesLe(a) == FromBytesLe(b)
  {
    ToStrRadixInjective(FromBytesLe(a), FromBytesLe(b), 32);
  }

  predicate AllZero(bytes: seq<byte>)
  {
    forall i :: 0 <= i < |bytes| ==> bytes[i] == 0
  }

  lemma {:induction false} AllZeroValue(bytes: seq<byte>)
    ensures FromBytesLe(bytes) == 0 <==> AllZero(bytes)
  {
    if bytes != [] {
      AllZeroValue(bytes[1..]);
      assert AllZero(bytes) <==> bytes[0] == 0 && AllZero(bytes[1..]) by {
        if AllZero(bytes[1..]) && bytes[0] == 0 {
          forall i | 0 <= i < |bytes| ensures bytes[i] == 0 {
            if i > 0 { assert bytes[i] == bytes[1..][i - 1]; }
          }
        }
      }
    }
  }

  /** Empty input and input made only of zero bytes encode as "0", and nothing else does. */
  lemma EncodeZero(bytes: seq<byte>)
    ensures Encode(bytes) == "0" <==> AllZero(bytes)
  {
    AllZeroValue(bytes);
    ToStrRadixInjective(FromBytesLe(bytes), 0, 32);
  }

  lemma {:induction false} FromBytesLeAppendZeros(bytes: seq<byte>, zeros: seq<byte>)
    requires AllZero(zeros)
    ensures FromBytesLe(bytes + zeros) == FromBytesLe(bytes)
  {
    if bytes == [] {
      assert bytes + zeros == zeros;
      AllZeroValue(zeros);
    } else {
      assert (bytes + zeros)[1..] == bytes[1..] + zeros;
      FromBytesLeAppendZeros(bytes[1..], zeros);
    }
  }

  /** Zero bytes at the end of the input are the most significant ones and do not change the output. */
  lemma EncodeTrailingZeros(bytes: seq<byte>, zeros: seq<byte>)
    requires AllZero(zeros)
    ensures Encode(bytes + zeros) == Encode(bytes)
  {
    FromBytesLeAppendZeros(bytes, zeros);
  }
}
