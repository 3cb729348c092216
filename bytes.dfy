/** Bytes, and the UTF-8 byte view of a string that Rust's `str::as_bytes` gives. */
module Bytes {

  type byte = b: int | 0 <= b < 256

  /** The UTF-8 encoding of one Unicode scalar value. */
  function EncodeChar(c: char): (r: seq<byte>)
    ensures 1 <= |r| <= 4
    ensures c as int < 0x80 ==> r == [c as int]
  {
    var cp := c as int;
    if cp < 0x80 then [cp]
    else if cp < 0x800 then [0xC0 + cp / 0x40, 0x80 + cp % 0x40]
    else if cp < 0x1_0000 then [0xE0 + cp / 0x1000, 0x80 + (cp / 0x40) % 0x40, 0x80 + cp % 0x40]
    else [0xF0 + cp / 0x4_0000, 0x80 + (cp / 0x1000) % 0x40, 0x80 + (cp / 0x40) % 0x40, 0x80 + cp % 0x40]
  }

  /** The number of bytes a UTF-8 sequence has, read off its first byte. */
  function LeadLength(b0: byte): nat
  {
    if b0 < 0x80 then 1 else if b0 < 0xE0 then 2 else if b0 < 0xF0 then 3 else 4
  }

  /** The first byte of a character's encoding says how long the encoding is. */
  lemma EncodeCharLead(c: char)
    ensures |EncodeChar(c)| == LeadLength(EncodeChar(c)[0])
  {
  }

  /** Reads the code point back from a well-formed encoding of one character. */
  function DecodeChar(r: seq<byte>): int
    requires 1 <= |r| <= 4
  {
    var b0: int := r[0];
    if |r| == 1 then b0
    else
      var b1: int := r[1];
      if |r| == 2 then (b0 - 0xC0) * 0x40 + (b1 - 0x80)
      else
        var b2: int := r[2];
        if |r| == 3 then ((b0 - 0xE0) * 0x40 + (b1 - 0x80)) * 0x40 + (b2 - 0x80)
        else
          var b3: int := r[3];
          (((b0 - 0xF0) * 0x40 + (b1 - 0x80)) * 0x40 + (b2 - 0x80)) * 0x40 + (b3 - 0x80)
  }

  /** Dividing by 0x40 twice is dividing by 0x1000 once. */
  lemma DivTwice(n: nat)
    ensures n / 0x1000 == (n / 0x40) / 0x40
  {
    var q := n / 0x1000;
    var m := n % 0x1000;
    assert n == q * 0x1000 + m;
    assert n / 0x40 == q * 0x40 + m / 0x40;
  }

  /** Decoding an encoded character gives back its code point. */
  lemma DecodeEncodeChar(c: char)
    ensures DecodeChar(EncodeChar(c)) == c as int
  {
    var cp := c as int;
    if cp >= 0x800 {
      DivTwice(cp);
      DivTwice(cp / 0x40);
      assert cp / 0x4_0000 == ((cp / 0x40) / 0x40) / 0x40 by {
        assert cp / 0x4_0000 == (cp / 0x1000) / 0x40;
      }
    }
  }

  /** Different characters have different encodings. */
  lemma EncodeCharInjective(a: char, b: char)
    ensures EncodeChar(a) == EncodeChar(b) ==> a == b
  {
    DecodeEncodeChar(a);
    DecodeEncodeChar(b);
  }

  /** UTF-8 is prefix-free: an encoded character followed by more bytes is read back unambiguously. */
  lemma EncodeCharPrefixFree(a: char, b: char, x: seq<byte>, y: seq<byte>)
    requires EncodeChar(a) + x == EncodeChar(b) + y
    ensures a == b && x == y
  {
    var ea, eb := EncodeChar(a), EncodeChar(b);
    assert ea[0] == (ea + x)[0] == (eb + y)[0] == eb[0];
    EncodeCharLead(a);
    EncodeCharLead(b);
    assert ea == (ea + x)[..|ea|] == (eb + y)[..|eb|] == eb;
    EncodeCharInjective(a, b);
    assert x == (ea + x)[|ea|..] == (eb + y)[|eb|..] == y;
  }

  predicate IsAscii(s: string)
  {
    forall i :: 0 <= i < |s| ==> s[i] as int < 0x80
  }

  /** `s.as_bytes()`: the UTF-8 encoding of `s`. */
  function AsBytes(s: string): (r: seq<byte>)
    ensures |s| <= |r| <= 4 * |s|
    ensures IsAscii(s) ==> |r| == |s| && forall i :: 0 <= i < |s| ==> r[i] == s[i] as int
  {
    if s == [] then [] else EncodeChar(s[0]) + AsBytes(s[1..])
  }

  /** A string and its UTF-8 bytes determine each other. */
  lemma {:induction false} AsBytesInjective(a: string, b: string)
    ensures AsBytes(a) == AsBytes(b) ==> a == b
  {
    if AsBytes(a) == AsBytes(b) && a != [] && b != [] {
      EncodeCharPrefixFree(a[0], b[0], AsBytes(a[1..]), AsBytes(b[1..]));
      AsBytesInjective(a[1..], b[1..]);
    }
  }
}
