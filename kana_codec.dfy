/**
 * The kana substitution of the spell: each of the 64 base 64 characters is
 * exchanged for the hiragana at the same position of a second table, in both
 * directions, and any character the looked-up table does not hold is dropped
 * without an error.
 */
module KanaCodec {
  import opened JsText
  import Base64

  /** `base64Chars`: exactly the 64 characters of Table 1 of RFC 4648, in table order, without `=`. */
  const Base64Chars: string := Base64.Alphabet

  /** `hiraMap`, one row per group of `base64Chars` it pairs with. */
  const HiraUpper: seq<char> := "あいうえおかきくけこさしすせそたちつてとなにぬねのは"
  const HiraLower: seq<char> := "ひふへほまみむめもやゆよらりるれろわをんがぎぐげござ"
  const HiraDigits: seq<char> := "じずぜぞだぢづでどば"
  const HiraSigns: seq<char> := "びぶ"
  const HiraMap: seq<char> := HiraUpper + HiraLower + HiraDigits + HiraSigns

  /** The position of a hiragana in `hiraMap`, or -1: the table read backwards, searched by code point. */
  function HiraIndex(c: char): int {
    if c < 'ざ' then HiraIndexFrom3042(c)
    else if c < 'で' then HiraIndexFrom3056(c)
    else if c < 'ま' then HiraIndexFrom3067(c)
    else HiraIndexFrom307E(c)
  }

  /** `HiraIndex` for the entries from U+3042 up, in code point order. */
  function HiraIndexFrom3042(c: char): int {
    match c
    case 'あ' => 0
    case 'い' => 1
    case 'う' => 2
    case 'え' => 3
    case 'お' => 4
    case 'か' => 5
    case 'が' => 46
    case 'き' => 6
    case 'ぎ' => 47
    case 'く' => 7
    case 'ぐ' => 48
    case 'け' => 8
    case 'げ' => 49
    case 'こ' => 9
    case 'ご' => 50
    case 'さ' => 10
    case _ => -1
  }

  /** `HiraIndex` for the entries from U+3056 up, in code point order. */
  function HiraIndexFrom3056(c: char): int {
    match c
    case 'ざ' => 51
    case 'し' => 11
    case 'じ' => 52
    case 'す' => 12
    case 'ず' => 53
    case 'せ' => 13
    case 'ぜ' => 54
    case 'そ' => 14
    case 'ぞ' => 55
    case 'た' => 15
    case 'だ' => 56
    case 'ち' => 16
    case 'ぢ' => 57
    case 'つ' => 17
    case 'づ' => 58
    case 'て' => 18
    case _ => -1
  }

  /** `HiraIndex` for the entries from U+3067 up, in code point order. */
  function HiraIndexFrom3067(c: char): int {
    match c
    case 'で' => 59
    case 'と' => 19
    case 'ど' => 60
    case 'な' => 20
    case 'に' => 21
    case 'ぬ' => 22
    case 'ね' => 23
    case 'の' => 24
    case 'は' => 25
    case 'ば' => 61
    case 'ひ' => 26
    case 'び' => 62
    case 'ふ' => 27
    case 'ぶ' => 63
    case 'へ' => 28
    case 'ほ' => 29
    case _ => -1
  }

  /** `HiraIndex` for the entries from U+307E up, in code point order. */
  function HiraIndexFrom307E(c: char): int {
    match c
    case 'ま' => 30
    case 'み' => 31
    case 'む' => 32
    case 'め' => 33
    case 'も' => 34
    case 'や' => 35
    case 'ゆ' => 36
    case 'よ' => 37
    case 'ら' => 38
    case 'り' => 39
    case 'る' => 40
    case 'れ' => 41
    case 'ろ' => 42
    case 'わ' => 43
    case 'を' => 44
    case 'ん' => 45
    case _ => -1
  }

  /** The row for A to Z. */
  lemma HiraUpperIndexed()
    ensures |HiraUpper| == 26
    ensures forall k :: 0 <= k < 26 ==> HiraIndex(HiraUpper[k]) == k
  {
  }

  /** The row for a to z. */
  lemma HiraLowerIndexed()
    ensures |HiraLower| == 26
    ensures forall k :: 0 <= k < 26 ==> HiraIndex(HiraLower[k]) == 26 + k
  {
  }

  /** The row for 0 to 9. */
  lemma HiraDigitsIndexed()
    ensures |HiraDigits| == 10
    ensures forall k :: 0 <= k < 10 ==> HiraIndex(HiraDigits[k]) == 52 + k
  {
  }

  /** The row for + and /. */
  lemma HiraSignsIndexed()
    ensures |HiraSigns| == 2
    ensures forall k :: 0 <= k < 2 ==> HiraIndex(HiraSigns[k]) == 62 + k
  {
  }

  /** The letters of the Unicode Hiragana block, U+3041 to U+3096. */
  predicate IsHiragana(c: char) {
    '\U{3041}' <= c <= '\U{3096}'
  }

  lemma HiraUpperInBlock()
    ensures forall k :: 0 <= k < 26 ==> IsHiragana(HiraUpper[k])
  {
  }

  lemma HiraLowerInBlock()
    ensures forall k :: 0 <= k < 26 ==> IsHiragana(HiraLower[k])
  {
  }

  lemma HiraDigitsInBlock()
    ensures forall k :: 0 <= k < 10 ==> IsHiragana(HiraDigits[k])
  {
  }

  lemma HiraSignsInBlock()
    ensures forall k :: 0 <= k < 2 ==> IsHiragana(HiraSigns[k])
  {
  }

  /** The 64 hiragana of `hiraMap` are pairwise distinct, and `HiraIndex` finds each one's position. */
  lemma HiraMapDistinct()
    ensures |HiraMap| == 64 && Distinct(HiraMap)
    ensures forall k :: 0 <= k < 64 ==> HiraIndex(HiraMap[k]) == k
  {
    HiraUpperIndexed();
    HiraLowerIndexed();
    HiraDigitsIndexed();
    HiraSignsIndexed();
    forall k | 0 <= k < 64 ensures HiraIndex(HiraMap[k]) == k {
      if k < 26 {
        assert HiraMap[k] == HiraUpper[k];
      } else if k < 52 {
        assert HiraMap[k] == HiraLower[k - 26];
      } else if k < 62 {
        assert HiraMap[k] == HiraDigits[k - 52];
      } else {
        assert HiraMap[k] == HiraSigns[k - 62];
      }
    }
    forall i, j | 0 <= i < j < 64 ensures HiraMap[i] != HiraMap[j] {
      assert HiraIndex(HiraMap[i]) != HiraIndex(HiraMap[j]);
    }
  }

  /** The 64 characters of `base64Chars` are pairwise distinct. */
  lemma Base64CharsDistinct()
    ensures |Base64Chars| == 64 && Distinct(Base64Chars)
  {
    Base64.AlphabetValues();
    forall i, j | 0 <= i < j < 64 ensures Base64Chars[i] != Base64Chars[j] {
      assert Base64.SextetValue(Base64Chars[i]) != Base64.SextetValue(Base64Chars[j]);
    }
  }

  /**
   * What one character of the input contributes to the output: the entry of
   * `to` at the position where `from` holds the character, or nothing.
   */
  function Lookup(c: char, from: seq<char>, to: seq<char>): (r: string)
    requires |from| == |to|
  {
    var index := IndexOf(from, c);
    if index != -1 then [to[index]] else []
  }

  /**
   * The result `base64ToHiragana` and `hiraganaToBase64` accumulate: the input
   * substituted character by character, in input order, from table `from` to
   * table `to`.
   */
  function Substituted(s: string, from: seq<char>, to: seq<char>): (r: string)
    requires |from| == |to|
    ensures |r| <= |s|
    ensures forall k :: 0 <= k < |r| ==> r[k] in to
  {
    if s == [] then []
    else Substituted(s[..|s| - 1], from, to) + Lookup(s[|s| - 1], from, to)
  }

  /** The characters of `s` that `table` holds, in order. */
  function Kept(s: string, table: seq<char>): (r: string)
    ensures |r| <= |s|
    ensures forall k :: 0 <= k < |r| ==> r[k] in table
  {
    if s == [] then []
    else Kept(s[..|s| - 1], table) + (if s[|s| - 1] in table then [s[|s| - 1]] else [])
  }

  /** `base64ToHiragana` as a value. */
  function ToHiragana(s: string): (h: string)
    ensures |h| <= |s|
    ensures forall k :: 0 <= k < |h| ==> h[k] in HiraMap
  {
    Substituted(s, Base64Chars, HiraMap)
  }

  /** `hiraganaToBase64` as a value. */
  function ToBase64(h: string): (s: string)
    ensures |s| <= |h|
    ensures forall k :: 0 <= k < |s| ==> s[k] in Base64Chars
  {
    Substituted(h, HiraMap, Base64Chars)
  }

  /** Every `=` removed, everything else kept in order. */
  function WithoutPadding(b: string): (r: string)
    ensures |r| <= |b|
    ensures forall k :: 0 <= k < |r| ==> r[k] != '='
  {
    if b == [] then []
    else WithoutPadding(b[..|b| - 1]) + (if b[|b| - 1] == '=' then [] else [b[|b| - 1]])
  }

  /** Substitution distributes over concatenation: the output of a longer input extends the output of its prefix. */
  lemma {:induction false} SubstitutedAppend(a: string, b: string, from: seq<char>, to: seq<char>)
    requires |from| == |to|
    ensures Substituted(a + b, from, to) == Substituted(a, from, to) + Substituted(b, from, to)
  {
    if b == [] {
      assert a + b == a;
    } else {
      var p, c := b[..|b| - 1], b[|b| - 1];
      SubstitutedAppend(a, p, from, to);
      assert (a + b)[..|a + b| - 1] == a + p && (a + b)[|a + b| - 1] == c;
      var sa, sp, lc := Substituted(a, from, to), Substituted(p, from, to), Lookup(c, from, to);
      calc {
        Substituted(a + b, from, to);
        Substituted(a + p, from, to) + lc;
        sa + sp + lc;
        sa + (sp + lc);
      }
    }
  }

  /** Input with no character of `from` substitutes to the empty string: nothing is raised, everything is dropped. */
  lemma {:induction false} SubstitutedNone(s: string, from: seq<char>, to: seq<char>)
    requires |from| == |to|
    requires forall k :: 0 <= k < |s| ==> s[k] !in from
    ensures Substituted(s, from, to) == []
  {
    if s != [] {
      SubstitutedNone(s[..|s| - 1], from, to);
    }
  }

  /** A last character missing from `from` adds nothing to the output. */
  lemma SubstitutedDropsLast(a: string, c: char, from: seq<char>, to: seq<char>)
    requires |from| == |to|
    requires c !in from
    ensures Substituted(a + [c], from, to) == Substituted(a, from, to)
  {
  }

  /** A character missing from `from`, wherever it stands, leaves the output as if it were not there. */
  lemma SubstitutedDrops(a: string, c: char, b: string, from: seq<char>, to: seq<char>)
    requires |from| == |to|
    requires c !in from
    ensures Substituted(a + [c] + b, from, to) == Substituted(a + b, from, to)
  {
    SubstitutedAppend(a + [c], b, from, to);
    SubstitutedDropsLast(a, c, from, to);
    SubstitutedAppend(a, b, from, to);
  }

  /** Characters missing from `from` on either side of `y` add nothing to the output. */
  lemma SubstitutedAround(x: string, y: string, z: string, from: seq<char>, to: seq<char>)
    requires |from| == |to|
    requires forall k :: 0 <= k < |x| ==> x[k] !in from
    requires forall k :: 0 <= k < |z| ==> z[k] !in from
    ensures Substituted(x + y + z, from, to) == Substituted(y, from, to)
  {
    SubstitutedAppend(x + y, z, from, to);
    SubstitutedNone(z, from, to);
    SubstitutedAppend(x, y, from, to);
    SubstitutedNone(x, from, to);
  }

  /**
   * Only the characters `from` holds matter, and each gives exactly one output
   * character: the output length is the number of input characters found.
   */
  lemma {:induction false} SubstitutedKept(s: string, from: seq<char>, to: seq<char>)
    requires |from| == |to|
    ensures Substituted(s, from, to) == Substituted(Kept(s, from), from, to)
    ensures |Substituted(s, from, to)| == |Kept(s, from)|
  {
    if s != [] {
      var p, c := s[..|s| - 1], s[|s| - 1];
      SubstitutedKept(p, from, to);
      var tail := if c in from then [c] else [];
      SubstitutedAppend(Kept(p, from), tail, from, to);
      if c in from {
        assert Substituted(tail, from, to) == Lookup(c, from, to) by {
          assert tail[..0] == [];
        }
      }
    }
  }

  /** Input drawn from `from` gives, position by position, the entry of `to` at the character's index in `from`. */
  lemma {:induction false} SubstitutedPointwise(s: string, from: seq<char>, to: seq<char>)
    requires |from| == |to|
    requires forall k :: 0 <= k < |s| ==> s[k] in from
    ensures |Substituted(s, from, to)| == |s|
    ensures forall k :: 0 <= k < |s| ==> Substituted(s, from, to)[k] == to[IndexOf(from, s[k])]
  {
    if s != [] {
      SubstitutedPointwise(s[..|s| - 1], from, to);
    }
  }

  /** Substituting back with the tables swapped restores the characters `from` holds, provided `to` has no repeats. */
  lemma {:induction false} SubstitutedRoundTrip(s: string, from: seq<char>, to: seq<char>)
    requires |from| == |to| && Distinct(to)
    ensures Substituted(Substituted(s, from, to), to, from) == Kept(s, from)
  {
    if s != [] {
      var p, c := s[..|s| - 1], s[|s| - 1];
      SubstitutedRoundTrip(p, from, to);
      SubstitutedAppend(Substituted(p, from, to), Lookup(c, from, to), to, from);
      var i := IndexOf(from, c);
      if i != -1 {
        IndexOfDistinct(to, i);
        assert [to[i]][..0] == [];
      }
    }
  }

  /** Whitespace around the input changes nothing when the table `from` holds no whitespace. */
  lemma SubstitutedTrim(s: string, from: seq<char>, to: seq<char>)
    requires |from| == |to|
    requires forall k :: 0 <= k < |from| ==> !IsJsWhitespace(from[k])
    ensures Substituted(Trim(s), from, to) == Substituted(s, from, to)
  {
    var lead, trail := TrimSplit(s);
    SubstitutedAround(lead, Trim(s), trail, from, to);
  }

  /** No hiragana of `hiraMap` is whitespace. */
  lemma HiraMapNoWhitespace()
    ensures forall k :: 0 <= k < |HiraMap| ==> !IsJsWhitespace(HiraMap[k])
  {
    HiraUpperInBlock();
    HiraLowerInBlock();
    HiraDigitsInBlock();
    HiraSignsInBlock();
    assert forall k :: 0 <= k < |HiraMap| ==> IsHiragana(HiraMap[k]);
  }

  /** `hiraganaToBase64(base64ToHiragana(s))` keeps exactly the `base64Chars` characters of `s`, in order. */
  lemma Base64RoundTrip(s: string)
    ensures ToBase64(ToHiragana(s)) == Kept(s, Base64Chars)
  {
    HiraMapDistinct();
    SubstitutedRoundTrip(s, Base64Chars, HiraMap);
  }

  /** `base64ToHiragana(hiraganaToBase64(h))` keeps exactly the `hiraMap` characters of `h`, in order. */
  lemma HiraganaRoundTrip(h: string)
    ensures ToHiragana(ToBase64(h)) == Kept(h, HiraMap)
  {
    Base64CharsDistinct();
    SubstitutedRoundTrip(h, HiraMap, Base64Chars);
  }

  /** A string of table characters is kept whole. */
  lemma {:induction false} KeptAll(s: string, table: seq<char>)
    requires forall k :: 0 <= k < |s| ==> s[k] in table
    ensures Kept(s, table) == s
  {
    if s != [] {
      KeptAll(s[..|s| - 1], table);
    }
  }

  /** On base 64 text, the only characters the substitution drops are the `=` of the padding. */
  lemma {:induction false} KeptIsWithoutPadding(b: string)
    requires forall k :: 0 <= k < |b| ==> b[k] in Base64Chars || b[k] == '='
    ensures Kept(b, Base64Chars) == WithoutPadding(b)
  {
    if b != [] {
      KeptIsWithoutPadding(b[..|b| - 1]);
      Base64.AlphabetValues();
      assert Base64.SextetValue('=') < 0;
    }
  }

  /** Base 64 text through `base64ToHiragana` and back through `hiraganaToBase64` loses its `=` padding and nothing else. */
  lemma PaddingDropped(b: string)
    requires forall k :: 0 <= k < |b| ==> b[k] in Base64Chars || b[k] == '='
    ensures ToBase64(ToHiragana(b)) == WithoutPadding(b)
  {
    Base64RoundTrip(b);
    KeptIsWithoutPadding(b);
  }

  /** A string of `base64Chars` characters comes back unchanged; a string of `hiraMap` characters too. */
  lemma RoundTripsOnTables(s: string, h: string)
    requires forall k :: 0 <= k < |s| ==> s[k] in Base64Chars
    requires forall k :: 0 <= k < |h| ==> h[k] in HiraMap
    ensures ToBase64(ToHiragana(s)) == s
    ensures ToHiragana(ToBase64(h)) == h
  {
    Base64RoundTrip(s);
    KeptAll(s, Base64Chars);
    HiraganaRoundTrip(h);
    KeptAll(h, HiraMap);
  }

  /** `base64ToHiragana`: appends, for each character found in `base64Chars`, the hiragana at its index. */
  method Base64ToHiragana(str: string) returns (hira: string)
    ensures hira == ToHiragana(str)
  {
    hira := "";
    for i := 0 to |str|
      invariant hira == ToHiragana(str[..i])
    {
      var index := IndexOf(Base64Chars, str[i]);
      if index != -1 {
        hira := hira + [HiraMap[index]];
      }
      assert str[..i + 1][..i] == str[..i];
    }
    assert str[..|str|] == str;
  }

  /** `hiraganaToBase64`: appends, for each character found in `hiraMap`, the base 64 character at its index. */
  method HiraganaToBase64(hiraStr: string) returns (base64: string)
    ensures base64 == ToBase64(hiraStr)
  {
    base64 := "";
    for i := 0 to |hiraStr|
      invariant base64 == ToBase64(hiraStr[..i])
    {
      var index := IndexOf(HiraMap, hiraStr[i]);
      if index != -1 {
        base64 := base64 + [Base64Chars[index]];
      }
      assert hiraStr[..i + 1][..i] == hiraStr[..i];
    }
    assert hiraStr[..|hiraStr|] == hiraStr;
  }
}
