/**
 * The spell: the list of entries serialised to JSON, encoded as UTF-8, encoded in
 * base 64 by `btoa`, and substituted into hiragana; and the way back.
 *
 * JSON and UTF-8 are the browser's (`JSON.stringify`, `JSON.parse`, and the
 * `encodeURIComponent`/`unescape` and `escape`/`decodeURIComponent` pairs); they
 * enter as the functions of a `Platform`, and what is proved about the round
 * trip assumes of them only that each decoder undoes its encoder.
 */
module Spell {
  import opened Wrappers
  import opened JsText
  import opened Tasks
  import Base64
  import opened KanaCodec

  /** What `JSON.parse` hands back: an array, read as task records, or some other value. */
  datatype JsonValue = JsonArray(elements: seq<Task>) | JsonOther

  /** The browser functions the pipeline calls; a `None` result stands for an exception. */
  datatype Platform = Platform(
    stringify: seq<Task> -> string,
    parse: string -> Option<JsonValue>,
    utf8Encode: string -> seq<Base64.Byte>,
    utf8Decode: seq<Base64.Byte> -> Option<string>)

  /** `JSON.parse` undoes `JSON.stringify` on task arrays, and UTF-8 decoding undoes UTF-8 encoding. */
  ghost predicate Faithful(p: Platform) {
    && (forall ts :: p.parse(p.stringify(ts)) == Some(JsonArray(ts)))
    && (forall s :: p.utf8Decode(p.utf8Encode(s)) == Some(s))
  }

  /** The bytes `btoa` receives for a list of entries. */
  function Payload(p: Platform, ts: seq<Task>): seq<Base64.Byte> {
    p.utf8Encode(p.stringify(ts))
  }

  /** The generate handler's spell: `base64ToHiragana(btoa(utf8(JSON.stringify(tasks))))`. */
  function Generate(p: Platform, ts: seq<Task>): (spell: string)
    ensures forall k :: 0 <= k < |spell| ==> spell[k] in HiraMap
  {
    ToHiragana(Base64.Encode(Payload(p, ts)))
  }

  /**
   * The restore handler's pipeline: trim, `hiraganaToBase64`, `atob`, UTF-8
   * decoding, `JSON.parse`, then the array check. `None` wherever one of them
   * throws or the parsed value is not an array.
   */
  function Restore(p: Platform, input: string): (r: Option<seq<Task>>)
    ensures r.Some? ==> exists json :: p.parse(json) == Some(JsonArray(r.value))
  {
    match Base64.ForgivingDecode(ToBase64(Trim(input)))
    case None => None
    case Some(bytes) =>
      match p.utf8Decode(bytes)
      case None => None
      case Some(json) =>
        match p.parse(json)
        case Some(JsonArray(ts)) => Some(ts)
        case _ => None
  }

  /** Every character of an unpadded base 64 encoding is one of `base64Chars`. */
  lemma UnpaddedInTable(b: seq<Base64.Byte>)
    ensures forall k :: 0 <= k < |Base64.Chars(Base64.Sextets(b))| ==> Base64.Chars(Base64.Sextets(b))[k] in Base64Chars
  {
  }

  /** `base64ToHiragana` drops the padding of `btoa`'s output. */
  lemma PaddingGivesNoKana(b: seq<Base64.Byte>)
    ensures ToHiragana(Base64.Encode(b)) == ToHiragana(Base64.Chars(Base64.Sextets(b)))
  {
    var pad := Base64.Padding(|b|);
    Base64.AlphabetValues();
    assert Base64.SextetValue('=') < 0;
    assert forall k :: 0 <= k < |pad| ==> pad[k] !in Base64Chars;
    SubstitutedAppend(Base64.Chars(Base64.Sextets(b)), pad, Base64Chars, HiraMap);
    SubstitutedNone(pad, Base64Chars, HiraMap);
  }

  /**
   * A spell is made of `hiraMap` characters only, one for each character of
   * `btoa`'s output except the padding, and reading it back through
   * `hiraganaToBase64` gives the base 64 text without its `=`.
   */
  lemma GenerateCarriesUnpadded(p: Platform, ts: seq<Task>)
    ensures forall k :: 0 <= k < |Generate(p, ts)| ==> Generate(p, ts)[k] in HiraMap
    ensures |Generate(p, ts)| == (4 * |Payload(p, ts)| + 2) / 3
    ensures ToBase64(Generate(p, ts)) == Base64.Chars(Base64.Sextets(Payload(p, ts)))
  {
    var s := Base64.Chars(Base64.Sextets(Payload(p, ts)));
    PaddingGivesNoKana(Payload(p, ts));
    UnpaddedInTable(Payload(p, ts));
    SubstitutedPointwise(s, Base64Chars, HiraMap);
    Base64RoundTrip(s);
    KeptAll(s, Base64Chars);
  }

  /** Restoring a generated spell gives back exactly the list of entries it was generated from. */
  lemma RestoreGenerate(p: Platform, ts: seq<Task>)
    requires Faithful(p)
    ensures Restore(p, Generate(p, ts)) == Some(ts)
  {
    var spell := Generate(p, ts);
    GenerateCarriesUnpadded(p, ts);
    HiraMapNoWhitespace();
    TrimNoWhitespace(spell);
    Base64.DecodeUnpadded(Payload(p, ts));
  }

  /**
   * Everything in the input that is not a `hiraMap` character, whitespace
   * around it included, is ignored: restoring the input is restoring its
   * hiragana alone.
   */
  lemma RestoreIgnoresForeign(p: Platform, input: string)
    ensures Restore(p, input) == Restore(p, Kept(input, HiraMap))
  {
    var kept := Kept(input, HiraMap);
    HiraMapNoWhitespace();
    SubstitutedTrim(input, HiraMap, Base64Chars);
    SubstitutedKept(input, HiraMap, Base64Chars);
    TrimNoWhitespace(kept);
  }

  /**
   * An input without any `hiraMap` character, the empty input among them,
   * reaches `JSON.parse` as the empty text, which it rejects: the restore fails.
   */
  lemma RestoreWithoutKanaFails(p: Platform, input: string)
    requires p.utf8Decode([]) == Some("") && p.parse("") == None
    requires forall k :: 0 <= k < |input| ==> input[k] !in HiraMap
    ensures Restore(p, input) == None
  {
    HiraMapNoWhitespace();
    SubstitutedTrim(input, HiraMap, Base64Chars);
    SubstitutedNone(input, HiraMap, Base64Chars);
    assert Base64.RemoveAsciiWhitespace("") == "";
  }
}
