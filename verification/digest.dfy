/**
 * UserModel::hashPassword (usermodel.cpp:32-36): SHA-256 of the password,
 * rendered by QByteArray::toHex as lower-case hexadecimal text.  SHA-256
 * itself is a parameter of the model (an arbitrary function from passwords
 * to 32-byte digests); only the hexadecimal rendering is modelled here.
 */
module Digest {
  newtype byte = x: int | 0 <= x < 256

  /** A SHA-256 digest: 32 bytes. */
  type Sha256Digest = s: seq<byte> | |s| == 32 witness seq(32, _ => 0 as byte)

  predicate IsLowerHex(c: char) { '0' <= c <= '9' || 'a' <= c <= 'f' }

  /** The numeric value of a lower-case hexadecimal digit. */
  function HexValue(c: char): int
    requires IsLowerHex(c)
  {
    if c <= '9' then c as int - '0' as int else c as int - 'a' as int + 10
  }

  /** The lower-case hexadecimal digit for a nibble. */
  function HexDigit(n: int): (c: char)
    requires 0 <= n < 16
    ensures IsLowerHex(c) && HexValue(c) == n
  {
    if n < 10 then ('0' as int + n) as char else ('a' as int + n - 10) as char
  }

  /** One byte as two lower-case digits, high nibble first. */
  function HexByte(b: byte): (pair: string)
    ensures |pair| == 2 && IsLowerHex(pair[0]) && IsLowerHex(pair[1])
    ensures HexValue(pair[0]) * 16 + HexValue(pair[1]) == b as int
  {
    [HexDigit(b as int / 16), HexDigit(b as int % 16)]
  }

  /** QByteArray::toHex: the bytes' renderings, concatenated in order. */
  function ToHex(bytes: seq<byte>): (h: string)
    ensures |h| == 2 * |bytes|
    ensures forall i :: 0 <= i < |bytes| ==> h[2 * i..2 * i + 2] == HexByte(bytes[i])
  {
    if bytes == [] then []
    else
      var rest := ToHex(bytes[1..]);
      assert forall i :: 1 <= i < |bytes| ==> (HexByte(bytes[0]) + rest)[2 * i..2 * i + 2] == rest[2 * (i - 1)..2 * (i - 1) + 2];
      HexByte(bytes[0]) + rest
  }

  /** Every character of a rendering is a lower-case hexadecimal digit. */
  lemma ToHexIsLowerHex(bytes: seq<byte>)
    ensures forall i :: 0 <= i < |ToHex(bytes)| ==> IsLowerHex(ToHex(bytes)[i])
  {
  }

  /** Distinct byte strings have distinct hexadecimal renderings. */
  lemma ToHexInjective(a: seq<byte>, b: seq<byte>)
    requires ToHex(a) == ToHex(b)
    ensures a == b
  {
  }

  /** The stored form of a password: the hexadecimal rendering of its digest. */
  function HashPassword(sha256: string -> Sha256Digest, password: string): (h: string)
    ensures |h| == 64
    ensures forall i :: 0 <= i < |h| ==> IsLowerHex(h[i])
  {
    ToHexIsLowerHex(sha256(password));
    ToHex(sha256(password))
  }

  /**
   * Comparing stored hashes compares digests: two passwords get the same
   * stored hash exactly when SHA-256 gives them the same digest.
   */
  lemma HashPasswordComparesDigests(sha256: string -> Sha256Digest, p: string, q: string)
    ensures HashPassword(sha256, p) == HashPassword(sha256, q) <==> sha256(p) == sha256(q)
  {
  }
}
