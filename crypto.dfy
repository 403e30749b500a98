/**
 * The hash functions of FIPS 180-4 (SHA-1 and SHA-256) are not modelled:
 * they are an opaque pair of functions on byte strings that every operation
 * receives, so nothing proved here depends on what they compute.
 */
module Crypto {
  import opened Bytes

  datatype Hashes = Hashes(sha1: seq<byte> -> seq<byte>, sha256: seq<byte> -> seq<byte>)

  /** `hashlib.sha256(data).hexdigest()`. */
  function Sha256Hex(h: Hashes, data: seq<byte>): (r: string)
    ensures |r| == 2 * |h.sha256(data)|
    ensures forall i :: 0 <= i < |r| ==> IsLowerHexDigit(r[i])
  {
    ToHex(h.sha256(data))
  }
}
