/**
 * What the two breach checks (auth.py and CLI/auth.py) share: the
 * k-anonymity split of the SHA-1 fingerprint and the range endpoint of the
 * Have I Been Pwned service. The network is a fixed reply per URL; the
 * endpoint object records every URL requested, so a contract can say
 * whether, and with what, the service was consulted.
 */
module Pwned {
  import opened Text
  import opened Bytes
  import opened Crypto

  /** What `requests.get` gives back: an exception, or a status and a body. */
  datatype HttpReply = TransportError | Reply(status: int, text: string)

  const RangeUrl: string := "https://api.pwnedpasswords.com/range/"

  /** `hashlib.sha1(password.encode('utf-8')).hexdigest().upper()`. */
  function Fingerprint(h: Hashes, password: string): string
  {
    Upper(ToHex(h.sha1(Utf8(password))))
  }

  function Min(a: int, b: int): int { if a < b then a else b }

  /** `digest[:5]`, the part sent to the service. */
  function Prefix(digest: string): string
  {
    digest[..Min(5, |digest|)]
  }

  /** `digest[5:]`, the part kept local. */
  function Suffix(digest: string): string
  {
    digest[Min(5, |digest|)..]
  }

  predicate IsUpperHexDigit(c: char)
  {
    ('0' <= c <= '9') || ('A' <= c <= 'F')
  }

  /**
   * The 40-character upper-case fingerprint of a 20-byte SHA-1 digest splits
   * into a 5-character prefix and a 35-character suffix that together give
   * back the whole fingerprint.
   */
  lemma FingerprintSplit(h: Hashes, password: string)
    requires |h.sha1(Utf8(password))| == 20
    ensures var d := Fingerprint(h, password);
      && |d| == 40
      && (forall i :: 0 <= i < |d| ==> IsUpperHexDigit(d[i]))
      && |Prefix(d)| == 5 && |Suffix(d)| == 35
      && Prefix(d) + Suffix(d) == d
  {
    var x := ToHex(h.sha1(Utf8(password)));
    var d := Fingerprint(h, password);
    assert forall i :: 0 <= i < |d| ==> d[i] == UpperChar(x[i]);
    assert d[..5] + d[5..] == d;
  }

  /** The range endpoint: a fixed reply per URL, and the log of URLs requested. */
  class RangeApi {
    const reply: string -> HttpReply
    var requests: seq<string>

    constructor (reply: string -> HttpReply)
      ensures this.reply == reply && requests == []
    {
      this.reply := reply;
      requests := [];
    }

    /** `requests.get(url)`. */
    method Get(url: string) returns (r: HttpReply)
      modifies this
      ensures requests == old(requests) + [url]
      ensures r == reply(url)
    {
      requests := requests + [url];
      r := reply(url);
    }
  }
}
