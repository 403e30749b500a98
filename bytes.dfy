/**
 * Bytes and their two text forms used by the credential code: the hex
 * string of `bytes.hex()` / `hexdigest()` / `bytes.fromhex()`, and the UTF-8
 * encoding of `str.encode('utf-8')`.
 */
module Bytes {
  import opened Wrappers
  import opened Text

  type byte = b: int | 0 <= b < 256

  predicate IsHexDigit(c: char)
  {
    ('0' <= c <= '9') || ('a' <= c <= 'f') || ('A' <= c <= 'F')
  }

  predicate IsLowerHexDigit(c: char)
  {
    ('0' <= c <= '9') || ('a' <= c <= 'f')
  }

  function HexValue(c: char): (v: nat)
    requires IsHexDigit(c)
    ensures v < 16
  {
    if '0' <= c <= '9' then c as int - '0' as int
    else if 'a' <= c <= 'f' then c as int - 'a' as int + 10
    else c as int - 'A' as int + 10
  }

  function HexChar(v: nat): (c: char)
    requires v < 16
    ensures IsLowerHexDigit(c) && HexValue(c) == v
  {
    if v < 10 then ('0' as int + v) as char else ('a' as int + v - 10) as char
  }

  /** `bytes.hex()`: two lower-case hex digits per byte. */
  function ToHex(bs: seq<byte>): (r: string)
    ensures |r| == 2 * |bs|
    ensures forall i :: 0 <= i < |r| ==> IsLowerHexDigit(r[i])
  {
    if bs == [] then [] else [HexChar(bs[0] / 16), HexChar(bs[0] % 16)] + ToHex(bs[1..])
  }

  /** The ASCII whitespace `bytes.fromhex` skips between byte pairs. */
  predicate IsHexSpace(c: char)
  {
    c == ' ' || c == '\t' || c == '\n' || c == '\r' || c as int == 0x0B || c as int == 0x0C
  }

  /**
   * `bytes.fromhex(s)`: pairs of hex digits (either case), whitespace allowed
   * between pairs; `None` where Python raises ValueError.
   */
  function FromHex(s: string): Option<seq<byte>>
  {
    if s == [] then Some([])
    else if IsHexSpace(s[0]) then FromHex(s[1..])
    else if |s| < 2 || !IsHexDigit(s[0]) || !IsHexDigit(s[1]) then None
    else
      match FromHex(s[2..])
      case None => None
      case Some(rest) => Some([HexValue(s[0]) * 16 + HexValue(s[1])] + rest)
  }

  /** Decoding the hex form of some bytes gives those bytes back. */
  lemma {:induction false} FromHexToHex(bs: seq<byte>)
    ensures FromHex(ToHex(bs)) == Some(bs)
  {
    if bs != [] {
      var s := ToHex(bs);
      FromHexToHex(bs[1..]);
      assert s[2..] == ToHex(bs[1..]);
      assert !IsHexSpace(s[0]);
      assert [bs[0]] + bs[1..] == bs;
    }
  }

  /** A string of hex digits only, two per byte. */
  predicate IsPlainHex(s: string)
  {
    |s| % 2 == 0 && forall i :: 0 <= i < |s| ==> IsHexDigit(s[i])
  }

  /**
   * Re-encoding a plain hex string gives it back in lower case: what
   * `bytes.fromhex(s).hex()` does to a salt given as text.
   */
  lemma {:induction false} ToHexFromHex(s: string)
    requires IsPlainHex(s)
    ensures FromHex(s).Some?
    ensures ToHex(FromHex(s).value) == Lower(s)
  {
    if s != [] {
      assert IsPlainHex(s[2..]) by {
        assert forall i :: 0 <= i < |s[2..]| ==> s[2..][i] == s[i + 2];
      }
      ToHexFromHex(s[2..]);
      assert !IsHexSpace(s[0]);
      var b := HexValue(s[0]) * 16 + HexValue(s[1]);
      var rest := FromHex(s[2..]).value;
      assert FromHex(s).value == [b] + rest;
      assert b / 16 == HexValue(s[0]) && b % 16 == HexValue(s[1]);
      assert HexChar(HexValue(s[0])) == LowerChar(s[0]);
      assert HexChar(HexValue(s[1])) == LowerChar(s[1]);
      assert Lower(s) == [LowerChar(s[0]), LowerChar(s[1])] + Lower(s[2..]);
    }
  }

  // ----- UTF-8 -----

  /** The UTF-8 encoding of one Unicode scalar value. */
  function Utf8Char(c: char): (r: seq<byte>)
    ensures 1 <= |r| <= 4
    ensures c as int < 0x80 <==> r == [c as int]
  {
    var n := c as int;
    if n < 0x80 then [n]
    else if n < 0x800 then [0xC0 + n / 0x40, 0x80 + n % 0x40]
    else if n < 0x10000 then [0xE0 + n / 0x1000, 0x80 + (n / 0x40) % 0x40, 0x80 + n % 0x40]
    else [0xF0 + n / 0x40000, 0x80 + (n / 0x1000) % 0x40, 0x80 + (n / 0x40) % 0x40, 0x80 + n % 0x40]
  }

  /** `s.encode('utf-8')`. */
  function Utf8(s: string): (r: seq<byte>)
    ensures |s| <= |r| <= 4 * |s|
  {
    if s == [] then [] else Utf8Char(s[0]) + Utf8(s[1..])
  }
}
