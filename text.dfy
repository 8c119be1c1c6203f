/**
 * The string operations the search filter relies on: lower-casing,
 * substring containment and URI-component decoding.
 */
module Text {
  import opened Wrappers

  predicate IsUpper(c: char) {
    'A' <= c <= 'Z'
  }

  function LowerChar(c: char): char {
    if IsUpper(c) then (c as int - 'A' as int + 'a' as int) as char else c
  }

  /** String.prototype.toLowerCase over the ASCII letters. */
  function Lower(s: string): (r: string)
    ensures |r| == |s|
    ensures forall i :: 0 <= i < |r| ==> !IsUpper(r[i])
    ensures forall i :: 0 <= i < |s| && !IsUpper(s[i]) ==> r[i] == s[i]
    ensures forall i :: 0 <= i < |s| && IsUpper(s[i]) ==> r[i] as int == s[i] as int + 32
  {
    seq(|s|, i requires 0 <= i < |s| => LowerChar(s[i]))
  }

  /** Lower-casing twice is lower-casing once. */
  lemma LowerIdempotent(s: string)
    ensures Lower(Lower(s)) == Lower(s)
  {
  }

  /** `a` and `b` are the same character, or the same ASCII letter in two cases. */
  predicate SameLetter(a: char, b: char) {
    || a == b
    || ('A' <= a <= 'Z' && b as int == a as int + 32)
    || ('A' <= b <= 'Z' && a as int == b as int + 32)
  }

  /** Strings that differ only in the case of ASCII letters lower-case to the same string. */
  lemma LowerIgnoresCase(s: string, t: string)
    requires |s| == |t|
    requires forall i :: 0 <= i < |s| ==> SameLetter(s[i], t[i])
    ensures Lower(s) == Lower(t)
  {
  }

  /** String.prototype.includes: whether `t` occurs in `s` as a contiguous block. */
  function Contains(s: string, t: string): bool
    decreases |s|
  {
    if |s| < |t| then false
    else if s[..|t|] == t then true
    else Contains(s[1..], t)
  }

  /** Whether `t` sits in `s` starting at position `i`. */
  predicate OccursAt(s: string, t: string, i: int) {
    0 <= i <= |s| - |t| && s[i..i + |t|] == t
  }

  /** An occurrence after the first position is an occurrence in the rest of the string. */
  lemma OccursLater(s: string, t: string, i: int)
    requires 0 < i && s != []
    ensures OccursAt(s, t, i) <==> OccursAt(s[1..], t, i - 1)
  {
    if i <= |s| - |t| {
      assert s[i..i + |t|] == s[1..][i - 1..i - 1 + |t|];
    }
  }

  /** `Contains` holds exactly when `t` occurs at some position of `s`. */
  lemma {:induction false} ContainsAt(s: string, t: string)
    ensures Contains(s, t) <==> exists i :: OccursAt(s, t, i)
  {
    if |s| < |t| {
    } else if s[..|t|] == t {
      assert OccursAt(s, t, 0);
    } else {
      ContainsAt(s[1..], t);
      if Contains(s[1..], t) {
        var i :| OccursAt(s[1..], t, i);
        OccursLater(s, t, i + 1);
      } else {
        forall i | OccursAt(s, t, i)
          ensures false
        {
          if i > 0 {
            OccursLater(s, t, i);
          }
        }
      }
    }
  }

  /** The empty string occurs in every string. */
  lemma ContainsEmpty(s: string)
    ensures Contains(s, "")
  {
    ContainsAt(s, "");
    assert OccursAt(s, "", 0);
  }

  /** The value of a hexadecimal digit, either case. */
  function HexValue(c: char): (v: Option<nat>)
    ensures v.Some? ==> v.value < 16
  {
    if '0' <= c <= '9' then Some(c as int - '0' as int)
    else if 'A' <= c <= 'F' then Some(c as int - 'A' as int + 10)
    else if 'a' <= c <= 'f' then Some(c as int - 'a' as int + 10)
    else None
  }

  /**
   * decodeURIComponent: every `%` must start an escape `%XY` of two
   * hexadecimal digits naming a byte, which becomes that character.
   * Only single-byte (ASCII) escapes are decoded; None stands for the
   * URIError the decoder throws.
   */
  function Decode(s: string): Option<string>
    decreases |s|
  {
    if s == [] then Some([])
    else if s[0] != '%' then
      match Decode(s[1..])
      case None => None
      case Some(rest) => Some([s[0]] + rest)
    else if |s| < 3 then None
    else match (HexValue(s[1]), HexValue(s[2]))
      case (Some(hi), Some(lo)) =>
        if 16 * hi + lo < 0x80 then
          match Decode(s[3..])
          case None => None
          case Some(rest) => Some([(16 * hi + lo) as char] + rest)
        else None
      case _ => None
  }

  /** Text without `%` decodes to itself. */
  lemma {:induction false} DecodePlain(s: string)
    requires forall i :: 0 <= i < |s| ==> s[i] != '%'
    ensures Decode(s) == Some(s)
  {
    if s != [] {
      DecodePlain(s[1..]);
      assert [s[0]] + s[1..] == s;
    }
  }

  /** A `%` that is not followed by two more characters makes the decoder throw. */
  lemma {:induction false} DecodeTruncatedEscape(s: string)
    requires |s| >= 1 && s[|s| - 1] == '%'
    ensures Decode(s) == None
  {
    if s[0] != '%' {
      DecodeTruncatedEscape(s[1..]);
    } else if |s| > 3 && HexValue(s[1]).Some? && HexValue(s[2]).Some? {
      DecodeTruncatedEscape(s[3..]);
    }
  }

  predicate IsAscii(c: char) {
    c as int < 0x80
  }

  /** The characters encodeURIComponent leaves as they are. */
  predicate Unreserved(c: char) {
    || 'A' <= c <= 'Z' || 'a' <= c <= 'z' || '0' <= c <= '9'
    || c in "-_.!~*'()"
  }

  function HexDigit(n: nat): char
    requires n < 16
  {
    if n < 10 then ('0' as int + n) as char else ('A' as int + n - 10) as char
  }

  lemma HexDigitValue(n: nat)
    requires n < 16
    ensures HexValue(HexDigit(n)) == Some(n)
  {
  }

  /** encodeURIComponent over ASCII text: what a client sends as a search term. */
  function Encode(s: string): string
    requires forall i :: 0 <= i < |s| ==> IsAscii(s[i])
  {
    if s == [] then []
    else
      var c := s[0];
      assert IsAscii(c);
      (if Unreserved(c) then [c] else ['%', HexDigit(c as int / 16), HexDigit(c as int % 16)])
      + Encode(s[1..])
  }

  /** Decoding undoes encoding. */
  lemma {:induction false} DecodeEncode(s: string)
    requires forall i :: 0 <= i < |s| ==> IsAscii(s[i])
    ensures Decode(Encode(s)) == Some(s)
  {
    if s != [] {
      var c := s[0];
      var rest := Encode(s[1..]);
      DecodeEncode(s[1..]);
      var e := Encode(s);
      if Unreserved(c) {
        assert e == [c] + rest;
        assert e[1..] == rest;
      } else {
        var hi, lo := c as int / 16, c as int % 16;
        HexDigitValue(hi);
        HexDigitValue(lo);
        assert e == ['%', HexDigit(hi), HexDigit(lo)] + rest;
        assert e[3..] == rest;
        assert (16 * hi + lo) as char == c;
      }
      assert [c] + s[1..] == s;
    }
  }
}
