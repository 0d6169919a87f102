/** Bytes, little-endian integers and NUL-terminated strings: the raw
    material of the trie data file. Every multi-byte integer in the data file
    is decoded here, explicitly little-endian, instead of by casting a pointer
    to a C struct. */
module Bytes {

  /** An unsigned 8-bit byte. `char` values from the input strings are read
      as unsigned bytes too. */
  newtype byte = x: int | 0 <= x < 256

  const Nul: byte := 0

  datatype Option<+T> = None | Some(value: T)

  /** True when `s` holds no NUL byte: `s` is the content of a C string. */
  predicate NoNul(s: seq<byte>) {
    forall i :: 0 <= i < |s| ==> s[i] != Nul
  }

  /** The unsigned 16-bit little-endian value stored at `s[i..i+2]`. */
  function U16At(s: seq<byte>, i: nat): (v: nat)
    requires i + 2 <= |s|
    ensures v < 0x1_0000
  {
    s[i] as nat + 256 * s[i + 1] as nat
  }

  /** The unsigned 32-bit little-endian value stored at `s[i..i+4]`. */
  function U32At(s: seq<byte>, i: nat): (v: nat)
    requires i + 4 <= |s|
    ensures v < 0x1_0000_0000
  {
    s[i] as nat + 256 * (s[i + 1] as nat + 256 * (s[i + 2] as nat + 256 * s[i + 3] as nat))
  }

  /** The `k`-th 32-bit word of a segment read as an array of `unsigned int`. */
  function Word(s: seq<byte>, k: nat): (v: nat)
    requires 4 * k + 4 <= |s|
    ensures v < 0x1_0000_0000
  {
    U32At(s, 4 * k)
  }

  /** The two little-endian bytes of a 16-bit value. */
  function U16Bytes(v: nat): (b: seq<byte>)
    requires v < 0x1_0000
    ensures |b| == 2
  {
    [(v % 256) as byte, (v / 256) as byte]
  }

  /** The four little-endian bytes of a 32-bit value. */
  function U32Bytes(v: nat): (b: seq<byte>)
    requires v < 0x1_0000_0000
    ensures |b| == 4
  {
    [(v % 256) as byte, (v / 256 % 256) as byte, (v / 0x1_0000 % 256) as byte, (v / 0x100_0000) as byte]
  }

  /** Decoding a 16-bit value written by `U16Bytes`, wherever it sits, gives it back. */
  lemma U16RoundTrip(v: nat, before: seq<byte>, after: seq<byte>)
    requires v < 0x1_0000
    ensures U16At(before + U16Bytes(v) + after, |before|) == v
  {
    var s := before + U16Bytes(v) + after;
    assert s[|before|] == (v % 256) as byte && s[|before| + 1] == (v / 256) as byte;
  }

  /** Decoding a 32-bit value written by `U32Bytes`, wherever it sits, gives it back. */
  lemma U32RoundTrip(v: nat, before: seq<byte>, after: seq<byte>)
    requires v < 0x1_0000_0000
    ensures U32At(before + U32Bytes(v) + after, |before|) == v
  {
    var s := before + U32Bytes(v) + after;
    var n := |before|;
    var q0, q1, q2 := v / 256, v / 0x1_0000, v / 0x100_0000;
    assert q1 == q0 / 256 && q2 == q1 / 256;
    assert s[n] as nat == v % 256 && s[n + 1] as nat == q0 % 256;
    assert s[n + 2] as nat == q1 % 256 && s[n + 3] as nat == q2;
    assert q1 % 256 + 256 * q2 == q1;
    assert q0 % 256 + 256 * q1 == q0;
    assert v % 256 + 256 * q0 == v;
  }

  /** Encoding a decoded 16-bit value gives back the two bytes it came from. */
  lemma U16BytesAt(s: seq<byte>, i: nat)
    requires i + 2 <= |s|
    ensures U16Bytes(U16At(s, i)) == s[i..i + 2]
  {
    var v := U16At(s, i);
    assert v % 256 == s[i] as nat && v / 256 == s[i + 1] as nat;
  }

  /** Encoding a decoded 32-bit value gives back the four bytes it came from. */
  lemma U32BytesAt(s: seq<byte>, i: nat)
    requires i + 4 <= |s|
    ensures U32Bytes(U32At(s, i)) == s[i..i + 4]
  {
    var b0, b1, b2, b3 := s[i] as nat, s[i + 1] as nat, s[i + 2] as nat, s[i + 3] as nat;
    var v := U32At(s, i);
    var high := b1 + 256 * (b2 + 256 * b3);
    assert v == b0 + 256 * high;
    assert v % 256 == b0 && v / 256 == high;
    assert high % 256 == b1 && high / 256 == b2 + 256 * b3;
    assert v / 0x1_0000 == high / 256 by {
      assert v / 0x1_0000 == (v / 256) / 256;
    }
    assert v / 0x100_0000 == b3 by {
      assert v / 0x100_0000 == (v / 0x1_0000) / 256;
    }
  }

  /** A pool whose last byte is NUL: every string starting inside it ends inside it. */
  predicate Terminated(pool: seq<byte>) {
    |pool| > 0 && pool[|pool| - 1] == Nul
  }

  /** The C string that starts at byte `off` of `pool`: the bytes up to, not
      including, the first NUL at or after `off`. */
  function CString(pool: seq<byte>, off: nat): (r: seq<byte>)
    requires off < |pool| && Terminated(pool)
    ensures off + |r| < |pool| && pool[off..off + |r|] == r
    ensures pool[off + |r|] == Nul && NoNul(r)
    decreases |pool| - off
  {
    if pool[off] == Nul then [] else [pool[off]] + CString(pool, off + 1)
  }

  /** A NUL-free run of bytes followed by a NUL in the pool is the C string
      that starts there. */
  lemma CStringIs(pool: seq<byte>, off: nat, x: seq<byte>)
    requires Terminated(pool) && off + |x| < |pool|
    requires pool[off..off + |x|] == x && pool[off + |x|] == Nul && NoNul(x)
    ensures CString(pool, off) == x
  {
  }
}
