/**
 * The Python string operations the core relies on: `str.strip`, `str.lower`,
 * `str.upper`, `str.split(sep)`, `str.splitlines`, the `in` substring test,
 * `int(str)` and `str(int)`.
 */
module Text {
  import opened Wrappers

  /** The characters `str.isspace()` accepts (and `str.strip()` removes). */
  predicate IsSpace(c: char)
  {
    var n := c as int;
    || (0x09 <= n <= 0x0D) || (0x1C <= n <= 0x20) || n == 0x85 || n == 0xA0 || n == 0x1680
    || (0x2000 <= n <= 0x200A) || n == 0x2028 || n == 0x2029 || n == 0x202F || n == 0x205F || n == 0x3000
  }

  /** The line boundaries of `str.splitlines()` (`"\r\n"` counts as one). */
  predicate IsLineBreak(c: char)
  {
    var n := c as int;
    (0x0A <= n <= 0x0D) || (0x1C <= n <= 0x1E) || n == 0x85 || n == 0x2028 || n == 0x2029
  }

  predicate IsDigit(c: char) { '0' <= c <= '9' }

  function DigitValue(c: char): nat
    requires IsDigit(c)
  {
    c as int - '0' as int
  }

  function LowerChar(c: char): char
  {
    if 'A' <= c <= 'Z' then (c as int + 32) as char else c
  }

  function UpperChar(c: char): char
  {
    if 'a' <= c <= 'z' then (c as int - 32) as char else c
  }

  /** `s.lower()` (ASCII letters). */
  function Lower(s: string): string
  {
    seq(|s|, i requires 0 <= i < |s| => LowerChar(s[i]))
  }

  /** `s.upper()` (ASCII letters). */
  function Upper(s: string): string
  {
    seq(|s|, i requires 0 <= i < |s| => UpperChar(s[i]))
  }

  function StripLeft(s: string): string
  {
    if s != [] && IsSpace(s[0]) then StripLeft(s[1..]) else s
  }

  function StripRight(s: string): string
  {
    if s != [] && IsSpace(s[|s| - 1]) then StripRight(s[..|s| - 1]) else s
  }

  /** `s.strip()`: `s` without its leading and trailing whitespace. */
  function Strip(s: string): (r: string)
  {
    StripRight(StripLeft(s))
  }

  /** A string that neither starts nor ends with whitespace is its own strip. */
  lemma StripUnchanged(s: string)
    requires s != [] ==> !IsSpace(s[0]) && !IsSpace(s[|s| - 1])
    ensures Strip(s) == s
  {
  }

  /**
   * `s.split(sep)`: the pieces between occurrences of `sep`; there is always
   * at least one piece (`"".split(":") == [""]`).
   */
  function Split(s: string, sep: char): (r: seq<string>)
    ensures |r| >= 1
  {
    if s == [] then [[]]
    else
      var rest := Split(s[1..], sep);
      if s[0] == sep then [[]] + rest else [[s[0]] + rest[0]] + rest[1..]
  }

  /** Joins pieces with `sep` between them: `sep.join(parts)`. */
  function Join(parts: seq<string>, sep: char): string
    requires |parts| >= 1
  {
    if |parts| == 1 then parts[0] else parts[0] + [sep] + Join(parts[1..], sep)
  }

  function Count(s: string, c: char): nat
  {
    if s == [] then 0 else (if s[0] == c then 1 else 0) + Count(s[1..], c)
  }

  /**
   * Splitting loses nothing: the pieces hold no separator, joining them
   * gives back the string, and there is one piece more than separators.
   */
  lemma {:induction false} SplitJoin(s: string, sep: char)
    ensures Join(Split(s, sep), sep) == s
    ensures |Split(s, sep)| == Count(s, sep) + 1
    ensures forall i, j :: 0 <= i < |Split(s, sep)| && 0 <= j < |Split(s, sep)[i]| ==> Split(s, sep)[i][j] != sep
  {
    if s != [] {
      SplitJoin(s[1..], sep);
      var rest := Split(s[1..], sep);
      if s[0] == sep {
        assert Split(s, sep) == [[]] + rest;
        assert ([[]] + rest)[1..] == rest;
        assert [] + [sep] + Join(rest, sep) == s;
      } else {
        var r := Split(s, sep);
        assert r == [[s[0]] + rest[0]] + rest[1..];
        if |rest| == 1 {
          assert Join(r, sep) == [s[0]] + rest[0];
        } else {
          assert r[1..] == rest[1..];
          assert Join(rest, sep) == rest[0] + [sep] + Join(rest[1..], sep);
          assert Join(r, sep) == [s[0]] + rest[0] + [sep] + Join(rest[1..], sep);
        }
        assert [s[0]] + s[1..] == s;
      }
    }
  }

  /** Every character of every piece comes from the split string. */
  lemma {:induction false} SplitPiecesInside(s: string, sep: char)
    ensures forall i, j :: 0 <= i < |Split(s, sep)| && 0 <= j < |Split(s, sep)[i]| ==> Split(s, sep)[i][j] in s
  {
    if s != [] {
      SplitPiecesInside(s[1..], sep);
      var rest := Split(s[1..], sep);
      var r := Split(s, sep);
      forall i, j | 0 <= i < |r| && 0 <= j < |r[i]|
        ensures r[i][j] in s
      {
        if s[0] == sep {
          assert r[i] == ([[]] + rest)[i];
          assert r[i][j] in s[1..];
        } else if i == 0 {
          assert r[0] == [s[0]] + rest[0];
          if j > 0 {
            assert r[0][j] == rest[0][j - 1];
            assert r[0][j] in s[1..];
          }
        } else {
          assert r[i] == rest[i];
          assert r[i][j] in s[1..];
        }
      }
    }
  }

  /** Index of the first line boundary at or after `from`, or `|s|`. */
  function LineEnd(s: string, from: nat): (i: nat)
    requires from <= |s|
    ensures from <= i <= |s|
    ensures i < |s| ==> IsLineBreak(s[i])
    ensures forall j :: from <= j < i ==> !IsLineBreak(s[j])
    decreases |s| - from
  {
    if from == |s| || IsLineBreak(s[from]) then from else LineEnd(s, from + 1)
  }

  /**
   * `s.splitlines()`: the lines of `s` without their boundaries; a final
   * boundary does not start an empty line.
   */
  function SplitLines(s: string): (r: seq<string>)
    ensures forall i, j :: 0 <= i < |r| && 0 <= j < |r[i]| ==> !IsLineBreak(r[i][j])
    ensures s == [] <==> r == []
    ensures (forall j :: 0 <= j < |s| ==> !IsLineBreak(s[j])) && s != [] ==> r == [s]
    decreases |s|
  {
    if s == [] then []
    else
      var i := LineEnd(s, 0);
      if i == |s| then [s]
      else
        var next := if s[i] == '\r' && i + 1 < |s| && s[i + 1] == '\n' then i + 2 else i + 1;
        [s[..i]] + SplitLines(s[next..])
  }

  /** A character absent from the string is absent from each of its lines. */
  lemma {:induction false} SplitLinesAvoid(s: string, c: char)
    requires c !in s
    ensures forall i :: 0 <= i < |SplitLines(s)| ==> c !in SplitLines(s)[i]
    decreases |s|
  {
    if s != [] {
      var i := LineEnd(s, 0);
      if i < |s| {
        var next := if s[i] == '\r' && i + 1 < |s| && s[i + 1] == '\n' then i + 2 else i + 1;
        var tail := s[next..];
        SplitLinesAvoid(tail, c);
        assert SplitLines(s) == [s[..i]] + SplitLines(tail);
      }
    }
  }

  /** Python's `a in b` on strings: `a` occurs contiguously in `b`. */
  predicate IsSubstring(a: string, b: string)
    decreases |b|
  {
    a <= b || (b != [] && IsSubstring(a, b[1..]))
  }

  /** `a` occurs in `b` starting at offset `k`. */
  predicate OccursAt(a: string, b: string, k: int)
  {
    0 <= k <= |b| - |a| && b[k..k + |a|] == a
  }

  /** The recursive substring test finds exactly the occurrences at some offset. */
  lemma {:induction false} SubstringAtOffset(a: string, b: string)
    ensures IsSubstring(a, b) <==> exists k :: OccursAt(a, b, k)
    decreases |b|
  {
    if a <= b {
      assert OccursAt(a, b, 0);
    } else if b == [] {
    } else {
      SubstringAtOffset(a, b[1..]);
      if IsSubstring(a, b[1..]) {
        var k :| OccursAt(a, b[1..], k);
        assert b[k + 1..k + 1 + |a|] == b[1..][k..k + |a|];
        assert OccursAt(a, b, k + 1);
      }
      if exists k :: OccursAt(a, b, k) {
        var k :| OccursAt(a, b, k);
        assert k != 0;
        assert b[1..][k - 1..k - 1 + |a|] == b[k..k + |a|];
        assert OccursAt(a, b[1..], k - 1);
      }
    }
  }

  /** The empty string occurs in every string. */
  lemma EmptyIsSubstring(b: string)
    ensures IsSubstring([], b)
  {
  }

  // ----- int(str) and str(int) -----

  /**
   * The body of a decimal literal as `int()` reads it: digits, with single
   * underscores allowed between two digits.
   */
  predicate WellFormedDigits(s: string)
  {
    && |s| > 0
    && IsDigit(s[0])
    && IsDigit(s[|s| - 1])
    && (forall i :: 0 <= i < |s| ==> IsDigit(s[i]) || s[i] == '_')
    && (forall i :: 0 <= i < |s| - 1 ==> !(s[i] == '_' && s[i + 1] == '_'))
  }

  /** The value of a string of digits and underscores (underscores ignored). */
  function DigitsValue(s: string): nat
    requires forall i :: 0 <= i < |s| ==> IsDigit(s[i]) || s[i] == '_'
  {
    if s == [] then 0
    else if s[|s| - 1] == '_' then DigitsValue(s[..|s| - 1])
    else DigitsValue(s[..|s| - 1]) * 10 + DigitValue(s[|s| - 1])
  }

  function ParseDigits(s: string): Option<nat>
  {
    if WellFormedDigits(s) then Some(DigitsValue(s)) else None
  }

  /**
   * `int(s)` for a string in base 10: surrounding whitespace, an optional
   * sign and ASCII digits; `None` where Python raises ValueError.
   */
  function ParseInt(s: string): Option<int>
  {
    var t := Strip(s);
    if |t| > 0 && (t[0] == '+' || t[0] == '-') then
      match ParseDigits(t[1..])
      case None => None
      case Some(n) => Some(if t[0] == '-' then -(n as int) else n as int)
    else
      match ParseDigits(t)
      case None => None
      case Some(n) => Some(n)
  }

  function DigitChar(d: nat): (c: char)
    requires d < 10
    ensures IsDigit(c) && DigitValue(c) == d
  {
    ('0' as int + d) as char
  }

  /** `str(n)` for a natural number. */
  function NatToString(n: nat): (r: string)
    ensures |r| > 0
    ensures forall i :: 0 <= i < |r| ==> IsDigit(r[i])
  {
    if n < 10 then [DigitChar(n)] else NatToString(n / 10) + [DigitChar(n % 10)]
  }

  /** `str(n)` for an integer. */
  function IntToString(n: int): string
  {
    if n < 0 then "-" + NatToString(-n) else NatToString(n)
  }

  lemma {:induction false} NatToStringValue(n: nat)
    ensures WellFormedDigits(NatToString(n))
    ensures DigitsValue(NatToString(n)) == n
  {
    var s := NatToString(n);
    if n >= 10 {
      NatToStringValue(n / 10);
      assert s[..|s| - 1] == NatToString(n / 10);
    }
  }

  /** `int(str(n)) == n`: the decimal rendering reads back as the same integer. */
  lemma IntToStringRoundTrip(n: int)
    ensures ParseInt(IntToString(n)) == Some(n)
  {
    var s := IntToString(n);
    NatToStringValue(if n < 0 then -n else n);
    StripUnchanged(s);
    if n < 0 {
      assert s[1..] == NatToString(-n);
    }
  }

  /** Without a minus sign, `int()` never yields a negative number. */
  lemma ParseIntWithoutMinus(s: string)
    requires '-' !in s
    requires ParseInt(s).Some?
    ensures ParseInt(s).value >= 0
  {
    var t := Strip(s);
    StripInside(s);
    if |t| > 0 {
      assert t[0] in s;
    }
  }

  /** Stripping only removes characters: what is left occurs in the original. */
  lemma {:induction false} StripInside(s: string)
    ensures forall i :: 0 <= i < |Strip(s)| ==> Strip(s)[i] in s
  {
    StripLeftInside(s);
    StripRightInside(StripLeft(s));
  }

  lemma {:induction false} StripLeftInside(s: string)
    ensures forall i :: 0 <= i < |StripLeft(s)| ==> StripLeft(s)[i] in s
  {
    if s != [] && IsSpace(s[0]) {
      StripLeftInside(s[1..]);
    }
  }

  lemma {:induction false} StripRightInside(s: string)
    ensures forall i :: 0 <= i < |StripRight(s)| ==> StripRight(s)[i] in s
  {
    if s != [] && IsSpace(s[|s| - 1]) {
      StripRightInside(s[..|s| - 1]);
    }
  }
}
