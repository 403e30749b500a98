/**
 * CLI/auth.py: salted SHA-256 password hashing and the Have I Been Pwned
 * range lookup that returns how often a password was seen.
 *
 * `os.urandom(SALT_SIZE)` is the parameter `random`; SHA-256 and SHA-1 are
 * the opaque `Hashes`; the HTTP call goes through a `RangeApi` object.
 */
module CliAuth {
  import opened Wrappers
  import opened Text
  import opened Bytes
  import opened Crypto
  import opened Pwned

  const SaltSize: nat := 16

  /** The `salt` argument of `hash_password`: absent, a hex string, or bytes. */
  datatype SaltArg = NoSalt | TextSalt(text: string) | ByteSalt(bytes: seq<byte>)

  /** The exception `bytes.fromhex` raises on a malformed salt string. */
  datatype Raised = ValueError

  /** The salt bytes `hash_password` hashes with; `None` where `fromhex` raises. */
  function SaltBytes(salt: SaltArg, random: seq<byte>): Option<seq<byte>>
  {
    match salt
    case NoSalt => Some(random)
    case TextSalt(t) => FromHex(t)
    case ByteSalt(b) => Some(b)
  }

  /**
   * `hash_password(password, salt)`: the salt as lower-case hex and the
   * SHA-256 hex digest of the salt bytes followed by the UTF-8 password.
   */
  function HashPassword(h: Hashes, password: string, salt: SaltArg, random: seq<byte>)
    : (r: Result<(string, string), Raised>)
    requires |random| == SaltSize
    ensures r.Ok? <==> SaltBytes(salt, random).Some?
    ensures salt.NoSalt? ==> r.Ok? && r.value.0 == ToHex(random) && |r.value.0| == 2 * SaltSize
    ensures r.Ok? ==> FromHex(r.value.0) == SaltBytes(salt, random)
    ensures r.Ok? ==> forall i :: 0 <= i < |r.value.0| ==> IsLowerHexDigit(r.value.0[i])
    ensures r.Ok? ==> r.value.1 == Sha256Hex(h, SaltBytes(salt, random).value + Utf8(password))
  {
    match SaltBytes(salt, random)
    case None => Err(ValueError)
    case Some(b) =>
      FromHexToHex(b);
      Ok((ToHex(b), Sha256Hex(h, b + Utf8(password))))
  }

  /** `verify_password(stored_salt, stored_hash, provided_password)`. */
  function VerifyPassword(h: Hashes, storedSalt: SaltArg, storedHash: string, provided: string,
                          random: seq<byte>): (r: Result<bool, Raised>)
    requires |random| == SaltSize
    ensures r.Ok? <==> SaltBytes(storedSalt, random).Some?
    ensures r.Ok? ==> (r.value <==> HashPassword(h, provided, storedSalt, random).value.1 == storedHash)
  {
    match HashPassword(h, provided, storedSalt, random)
    case Err(e) => Err(e)
    case Ok((_, digest)) => Ok(digest == storedHash)
  }

  /**
   * Round trip: a password hashed with a fresh salt verifies against the
   * salt string and digest it produced, whatever randomness the check draws.
   */
  lemma HashThenVerify(h: Hashes, password: string, random: seq<byte>, random': seq<byte>)
    requires |random| == SaltSize && |random'| == SaltSize
    ensures var (salt, digest) := HashPassword(h, password, NoSalt, random).value;
      VerifyPassword(h, TextSalt(salt), digest, password, random') == Ok(true)
  {
    FromHexToHex(random);
  }

  /**
   * A salt given as a plain hex string is returned re-encoded in lower case,
   * and the digest depends only on the salt bytes and the password bytes.
   */
  lemma TextSaltReencoded(h: Hashes, password: string, salt: string, random: seq<byte>)
    requires |random| == SaltSize
    requires IsPlainHex(salt)
    ensures HashPassword(h, password, TextSalt(salt), random).Ok?
    ensures HashPassword(h, password, TextSalt(salt), random).value.0 == Lower(salt)
    ensures HashPassword(h, password, TextSalt(salt), random).value.1
         == HashPassword(h, password, ByteSalt(FromHex(salt).value), random).value.1
  {
    ToHexFromHex(salt);
  }

  // ----- check_pwned_password -----

  /** What the lookup ends with: a returned integer, or an uncaught ValueError. */
  datatype Outcome = Returns(n: int) | RaisesValueError

  /** The result of one response line that stops the scan. */
  function LineOutcome(line: string): Outcome
  {
    var parts := Split(line, ':');
    if |parts| != 2 then RaisesValueError
    else match ParseInt(parts[1])
      case None => RaisesValueError
      case Some(n) => Returns(n)
  }

  /** A line the scan walks past: `SUFFIX:COUNT` for another suffix. */
  predicate Passes(line: string, suffix: string)
  {
    var parts := Split(line, ':');
    |parts| == 2 && parts[0] != suffix
  }

  /**
   * The scan over the response lines (CLI/auth.py:50-56): unpacking a line
   * that is not exactly `A:B` raises, the first line whose suffix matches
   * gives `int(count)`, and no match gives 0.
   */
  function CountScan(lines: seq<string>, suffix: string): Outcome
  {
    if lines == [] then Returns(0)
    else if Passes(lines[0], suffix) then CountScan(lines[1..], suffix)
    else LineOutcome(lines[0])
  }

  /** Line `i` is the first line the scan does not walk past. */
  predicate FirstStop(lines: seq<string>, i: int, suffix: string)
  {
    && 0 <= i < |lines|
    && !Passes(lines[i], suffix)
    && forall j :: 0 <= j < i ==> Passes(lines[j], suffix)
  }

  /**
   * The scan's result is fixed by the first line it cannot walk past, and is
   * 0 when it walks past every line.
   */
  lemma {:induction false} CountScanResult(lines: seq<string>, suffix: string)
    ensures (forall i :: 0 <= i < |lines| ==> Passes(lines[i], suffix)) ==> CountScan(lines, suffix) == Returns(0)
    ensures forall i :: FirstStop(lines, i, suffix) ==> CountScan(lines, suffix) == LineOutcome(lines[i])
  {
    if lines != [] {
      CountScanResult(lines[1..], suffix);
      if Passes(lines[0], suffix) {
        forall i | FirstStop(lines, i, suffix)
          ensures CountScan(lines, suffix) == LineOutcome(lines[i])
        {
          assert i > 0;
          assert FirstStop(lines[1..], i - 1, suffix);
        }
        if forall i :: 0 <= i < |lines| ==> Passes(lines[i], suffix) {
          assert forall i :: 0 <= i < |lines[1..]| ==> lines[1..][i] == lines[i + 1];
        }
      } else {
        forall i | FirstStop(lines, i, suffix)
          ensures CountScan(lines, suffix) == LineOutcome(lines[i])
        {
          assert i == 0;
        }
      }
    }
  }

  /**
   * The lookup result for one reply: -1 for a transport error or a 4xx/5xx
   * status (`raise_for_status`), otherwise the scan of the body's lines.
   */
  function CountInReply(reply: HttpReply, suffix: string): (r: Outcome)
    ensures reply.TransportError? ==> r == Returns(-1)
    ensures reply.Reply? && 400 <= reply.status < 600 ==> r == Returns(-1)
  {
    match reply
    case TransportError => Returns(-1)
    case Reply(status, text) =>
      if 400 <= status < 600 then Returns(-1) else CountScan(SplitLines(text), suffix)
  }

  /**
   * With counts that carry no minus sign, as the service sends them, the
   * lookup never returns less than -1.
   */
  lemma {:induction false} CountScanNonNegative(lines: seq<string>, suffix: string)
    requires forall i :: 0 <= i < |lines| ==> '-' !in lines[i]
    ensures CountScan(lines, suffix).Returns? ==> CountScan(lines, suffix).n >= 0
  {
    if lines != [] {
      if Passes(lines[0], suffix) {
        CountScanNonNegative(lines[1..], suffix);
      } else {
        var parts := Split(lines[0], ':');
        if |parts| == 2 && ParseInt(parts[1]).Some? {
          SplitPiecesInside(lines[0], ':');
          assert '-' !in parts[1];
          ParseIntWithoutMinus(parts[1]);
        }
      }
    }
  }

  lemma ResultAtLeastMinusOne(reply: HttpReply, suffix: string)
    requires reply.Reply? ==> '-' !in reply.text
    ensures CountInReply(reply, suffix).Returns? ==> CountInReply(reply, suffix).n >= -1
  {
    if reply.Reply? && !(400 <= reply.status < 600) {
      var lines := SplitLines(reply.text);
      SplitLinesAvoid(reply.text, '-');
      CountScanNonNegative(lines, suffix);
    }
  }

  /**
   * `check_pwned_password(password)`: only the 5-character prefix of the
   * fingerprint goes into the URL; the suffix is matched locally.
   */
  method CheckPwnedPassword(api: RangeApi, h: Hashes, password: string) returns (r: Outcome)
    modifies api
    ensures var d := Fingerprint(h, password);
      && api.requests == old(api.requests) + [RangeUrl + Prefix(d)]
      && r == CountInReply(api.reply(RangeUrl + Prefix(d)), Suffix(d))
  {
    var d := Fingerprint(h, password);
    var prefix, suffix := Prefix(d), Suffix(d);
    var reply := api.Get(RangeUrl + prefix);
    r := CountInReply(reply, suffix);
  }
}
