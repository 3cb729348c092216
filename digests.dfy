/**
 * The blake3 digest as the code sees it: `hash.to_hex()` is 64 lower-case
 * hexadecimal characters, and a short code is its first four. The hash
 * function itself is a parameter of the operations that use it.
 */
module Digests {
  import opened Bytes

  predicate IsLowerHex(c: char)
  {
    '0' <= c <= '9' || 'a' <= c <= 'f'
  }

  predicate IsHexDigest(s: string)
  {
    |s| == 64 && forall i :: 0 <= i < |s| ==> IsLowerHex(s[i])
  }

  /** The hex form of a 256-bit digest. */
  type HexDigest = s: string | IsHexDigest(s) witness seq(64, _ => '0')

  /** blake3 followed by `to_hex`: some function of the bytes hashed, not modelled further. */
  type Hasher = seq<byte> -> HexDigest

  /** Length of a short code, the `[0..4]` slice of the hex digest. */
  const ShortLength: nat := 4

  /** `&hash.to_hex()[0..4]`: the short code of a digest. */
  function Short(digest: HexDigest): (short: string)
    ensures |short| == ShortLength
    ensures short <= digest
    ensures forall i :: 0 <= i < |short| ==> IsLowerHex(short[i])
  {
    digest[..ShortLength]
  }

  /** A short code is ASCII, contains no '.', no line break and no upper-case letter. */
  lemma ShortIsPlain(digest: HexDigest)
    ensures IsAscii(Short(digest))
    ensures '.' !in Short(digest) && '\n' !in Short(digest)
    ensures forall i :: 0 <= i < |Short(digest)| ==> !('A' <= Short(digest)[i] <= 'Z')
  {
  }
}
