/**
 * The browser's `btoa` and `atob`, which the spell pipeline calls around the
 * kana substitution.
 *
 * `btoa` is the base 64 encoding of section 4 of RFC 4648, padded with `=` as
 * section 3.2 of that RFC describes. `atob` is the "forgiving-base64 decode" of
 * the WHATWG Infra Standard: it strips ASCII whitespace, accepts the input with
 * or without its padding, rejects a length of 1 modulo 4 and any character
 * outside the alphabet, and discards the leftover bits of a final partial group.
 * Bytes are the characters of a "binary string" (code points 0 to 255).
 */
module Base64 {
  import opened Wrappers

  type Byte = b: int | 0 <= b < 256
  type Sextet = v: int | 0 <= v < 64

  /** Table 1 of RFC 4648: the character at position `v` encodes the value `v`. */
  const Alphabet: string :=
    "ABCDEFGHIJKLMNOPQRSTUVWXYZ" + "abcdefghijklmnopqrstuvwxyz" + "0123456789" + "+/"

  /** The value Table 1 gives a character, or -1 for a character outside the alphabet. */
  function SextetValue(c: char): (v: int)
    ensures -1 <= v < 64
  {
    if 'A' <= c <= 'Z' then c as int - 'A' as int
    else if 'a' <= c <= 'z' then c as int - 'a' as int + 26
    else if '0' <= c <= '9' then c as int - '0' as int + 52
    else if c == '+' then 62
    else if c == '/' then 63
    else -1
  }

  lemma AlphabetUpper()
    ensures forall v :: 0 <= v < 26 ==> Alphabet[v] == ('A' as int + v) as char
  {
  }

  lemma AlphabetLower()
    ensures forall v :: 26 <= v < 52 ==> Alphabet[v] == ('a' as int + v - 26) as char
  {
  }

  lemma AlphabetDigits()
    ensures forall v :: 52 <= v < 62 ==> Alphabet[v] == ('0' as int + v - 52) as char
  {
  }

  /** `SextetValue` reads Table 1 backwards: it inverts `Alphabet` and is -1 exactly off the alphabet. */
  lemma AlphabetValues()
    ensures |Alphabet| == 64
    ensures forall v :: 0 <= v < 64 ==> SextetValue(Alphabet[v]) == v
    ensures forall c :: SextetValue(c) >= 0 <==> c in Alphabet
  {
    AlphabetUpper();
    AlphabetLower();
    AlphabetDigits();
    assert Alphabet[62] == '+' && Alphabet[63] == '/';
    forall c | SextetValue(c) >= 0 ensures Alphabet[SextetValue(c)] == c {
    }
  }

  /**
   * The 6-bit groups of section 4 of RFC 4648, without padding: every 24-bit
   * group gives four values; a final single byte gives two, a final pair three,
   * with the missing low bits set to zero.
   */
  function Sextets(b: seq<Byte>): (v: seq<Sextet>)
    ensures |v| == (4 * |b| + 2) / 3
  {
    if |b| == 0 then []
    else if |b| == 1 then [b[0] / 4, b[0] % 4 * 16]
    else if |b| == 2 then [b[0] / 4, b[0] % 4 * 16 + b[1] / 16, b[1] % 16 * 4]
    else [b[0] / 4, b[0] % 4 * 16 + b[1] / 16, b[1] % 16 * 4 + b[2] / 64, b[2] % 64] + Sextets(b[3..])
  }

  /** The characters that spell the values `v`: each one reads back, through Table 1, as its own value. */
  function Chars(v: seq<Sextet>): (s: string)
    ensures |s| == |v|
    ensures forall k :: 0 <= k < |s| ==> SextetValue(s[k]) == v[k]
  {
    AlphabetValues();
    seq(|v|, k requires 0 <= k < |v| => Alphabet[v[k]])
  }

  /** The `=` characters of section 3.2 of RFC 4648 that fill the last 4-character group. */
  function Padding(n: nat): string {
    if n % 3 == 1 then "==" else if n % 3 == 2 then "=" else ""
  }

  /** `btoa`: the padded base 64 encoding of the bytes. */
  function Encode(b: seq<Byte>): (s: string)
    ensures forall k :: 0 <= k < |s| ==> s[k] in Alphabet || s[k] == '='
  {
    Chars(Sextets(b)) + Padding(|b|)
  }

  /**
   * Reassembles bytes from 6-bit values, four values to three bytes; a final
   * two or three values give one or two bytes and their leftover low bits are
   * discarded, as the forgiving decode does.
   */
  function Bytes(v: seq<Sextet>): (b: seq<Byte>)
    requires |v| % 4 != 1
    ensures |b| == 3 * |v| / 4
  {
    if |v| == 0 then []
    else
      var v0: int, v1: int, v2: int := v[0], v[1], if |v| >= 3 then v[2] else 0;
      if |v| == 2 then [v0 * 4 + v1 / 16]
      else if |v| == 3 then [v0 * 4 + v1 / 16, v1 % 16 * 16 + v2 / 4]
      else
        var rest := Bytes(v[4..]);
        assert 3 * |v| / 4 == 3 + |rest|;
        [v0 * 4 + v1 / 16, v1 % 16 * 16 + v2 / 4, v2 % 4 * 64 + v[3]] + rest
  }

  /** The characters the forgiving decode strips first: ASCII whitespace as the Infra Standard defines it. */
  predicate IsAsciiWhitespace(c: char) {
    c == '\t' || c == '\n' || c == '\U{000C}' || c == '\r' || c == ' '
  }

  function RemoveAsciiWhitespace(s: string): (r: string)
    ensures forall k :: 0 <= k < |r| ==> !IsAsciiWhitespace(r[k])
  {
    if s == [] then []
    else RemoveAsciiWhitespace(s[..|s| - 1]) + (if IsAsciiWhitespace(s[|s| - 1]) then [] else [s[|s| - 1]])
  }

  /** When the length is a multiple of 4, one or two trailing `=` are removed. */
  function StripPadding(d: string): string {
    if |d| % 4 == 0 && |d| >= 2 && d[|d| - 2..] == "==" then d[..|d| - 2]
    else if |d| % 4 == 0 && |d| >= 1 && d[|d| - 1] == '=' then d[..|d| - 1]
    else d
  }

  /** Every character is one of the 64 of the alphabet. */
  predicate AllInAlphabet(d: string) {
    forall k :: 0 <= k < |d| ==> SextetValue(d[k]) >= 0
  }

  /** The values Table 1 gives the characters of `d`. */
  function Values(d: string): (v: seq<Sextet>)
    requires AllInAlphabet(d)
  {
    seq(|d|, k requires 0 <= k < |d| => SextetValue(d[k]))
  }

  /** `atob`: the forgiving-base64 decode; `None` where `atob` throws. */
  function ForgivingDecode(s: string): (r: Option<seq<Byte>>)
    ensures r.Some? ==> |r.value| == 3 * |StripPadding(RemoveAsciiWhitespace(s))| / 4
  {
    var d := StripPadding(RemoveAsciiWhitespace(s));
    if |d| % 4 == 1 || !AllInAlphabet(d) then None
    else Some(Bytes(Values(d)))
  }

  /** `Bytes` undoes `Sextets`: the 6-bit split loses nothing. */
  lemma {:induction false} BytesSextets(b: seq<Byte>)
    ensures |Sextets(b)| % 4 != 1
    ensures Bytes(Sextets(b)) == b
  {
    if |b| >= 3 {
      BytesSextets(b[3..]);
      var v := Sextets(b);
      assert v[4..] == Sextets(b[3..]);
      assert b == [b[0], b[1], b[2]] + b[3..];
    }
  }

  /** A string of alphabet characters passes whitespace removal and padding removal unchanged. */
  lemma AlphabetOnlyIsStripped(s: string)
    requires AllInAlphabet(s)
    ensures StripPadding(RemoveAsciiWhitespace(s)) == s
  {
    NoWhitespaceKept(s);
    assert s == [] || SextetValue(s[|s| - 1]) >= 0;
  }

  /** The forgiving decode reads an unpadded encoding back to the bytes. */
  lemma DecodeUnpadded(b: seq<Byte>)
    ensures ForgivingDecode(Chars(Sextets(b))) == Some(b)
  {
    var v := Sextets(b);
    var s := Chars(v);
    assert AllInAlphabet(s);
    AlphabetOnlyIsStripped(s);
    BytesSextets(b);
    assert Values(s) == v;
  }

  /** Section 3.2 of RFC 4648: the padded encoding is whole 4-character groups. */
  lemma EncodeLength(b: seq<Byte>)
    ensures |Encode(b)| == 4 * ((|b| + 2) / 3)
    ensures |Encode(b)| % 4 == 0
  {
    var q, r := |b| / 3, |b| % 3;
    assert |b| == 3 * q + r;
    assert |Sextets(b)| == 4 * q + (4 * r + 2) / 3;
    assert |Encode(b)| == 4 * q + (if r == 0 then 0 else 4);
  }

  /** Padding of one or two `=` that completes a 4-character group is removed, and nothing else. */
  lemma StripPaddingOf(s: string, pad: string)
    requires s == [] || s[|s| - 1] != '='
    requires pad == "" || pad == "=" || pad == "=="
    requires |s + pad| % 4 == 0
    ensures StripPadding(s + pad) == s
  {
    var d := s + pad;
    if pad == "=" {
      assert d[|d| - 1] == '=';
      assert |d| >= 2 ==> d[|d| - 2] == s[|s| - 1];
    } else if pad == "==" {
      assert d[|d| - 2..] == "==";
    } else {
      assert d == s;
    }
  }

  /** The `=` of `btoa`'s output are exactly its padding: removing them leaves the unpadded encoding. */
  lemma StripEncode(b: seq<Byte>)
    ensures StripPadding(Encode(b)) == Chars(Sextets(b))
  {
    var s := Chars(Sextets(b));
    EncodeLength(b);
    assert s == [] || SextetValue(s[|s| - 1]) >= 0;
    StripPaddingOf(s, Padding(|b|));
  }

  /** Whitespace-free, `btoa`'s output holds only alphabet characters and `=`. */
  lemma EncodeNoWhitespace(b: seq<Byte>)
    ensures RemoveAsciiWhitespace(Encode(b)) == Encode(b)
  {
    var s := Chars(Sextets(b));
    var e := Encode(b);
    forall k | 0 <= k < |e| ensures !IsAsciiWhitespace(e[k]) {
      if k < |s| { assert e[k] == s[k]; } else { assert e[k] == '='; }
    }
    NoWhitespaceKept(e);
  }

  /** The forgiving decode looks at its input only through the whitespace- and padding-stripped form. */
  lemma DecodeByStripped(s1: string, s2: string)
    requires StripPadding(RemoveAsciiWhitespace(s1)) == StripPadding(RemoveAsciiWhitespace(s2))
    ensures ForgivingDecode(s1) == ForgivingDecode(s2)
  {
  }

  /** The forgiving decode reads a padded encoding, `btoa`'s output, back to the bytes. */
  lemma DecodeEncode(b: seq<Byte>)
    ensures ForgivingDecode(Encode(b)) == Some(b)
  {
    var s := Chars(Sextets(b));
    EncodeNoWhitespace(b);
    StripEncode(b);
    assert AllInAlphabet(s);
    AlphabetOnlyIsStripped(s);
    DecodeByStripped(Encode(b), s);
    DecodeUnpadded(b);
  }

  /** Removing whitespace changes nothing in a string that holds none. */
  lemma {:induction false} NoWhitespaceKept(s: string)
    requires forall k :: 0 <= k < |s| ==> !IsAsciiWhitespace(s[k])
    ensures RemoveAsciiWhitespace(s) == s
  {
    if s != [] {
      NoWhitespaceKept(s[..|s| - 1]);
    }
  }
}
