# Kana spell vocabulary list

The page keeps an ordered list of vocabulary entries (word, meaning,
example sentence, level, done flag). Entries can be added, marked as learnt
or unmarked, and deleted. The whole list can be exported as a "spell": the
list as JSON, encoded as UTF-8, encoded in base 64 by `btoa`, and then
substituted character by character into hiragana through two 64-entry
tables. Typing a spell back in restores the list.

This project models, in `js/script.js`:

- the two tables `base64Chars` and `hiraMap`, and the substitutions
  `base64ToHiragana` and `hiraganaToBase64` in both directions
  (`kana_codec.dfy`). Each is a method with the source's loop, proved
  against a function that describes the result;
- the entry record (`Task`), and what the add, toggle and delete handlers do to the
  list, as functions on values (`tasks.dfy`);
- the spell pipeline of the generate and restore handlers (`spell.dfy`),
  with `btoa` and `atob` written out (`base64.dfy`). JSON and UTF-8 are
  parameters;
- the page state as a class `TaskList`, whose methods are the event
  handlers (`app.dfy`);
- `String.prototype.trim` and single-character `indexOf`
  (`js_text.dfy`).

`btoa` follows section 4 of RFC 4648 and pads as section 3.2 describes.
`atob` is the "forgiving-base64 decode" of the WHATWG Infra Standard. It
removes ASCII whitespace. When the length is a multiple of 4 it drops one
or two trailing `=`. It rejects a length of 1 modulo 4 and any character
outside the alphabet, and it ignores the leftover bits of a final partial
group. Because `=` is not in `base64Chars`, a spell never carries padding.
Restoring therefore depends on `atob` accepting unpadded input, and
`Spell.RestoreGenerate` proves that it does.

JSON and UTF-8 are the browser's own functions. They enter as the four
functions of a `Spell.Platform` value. The round trip is proved under
`Spell.Faithful`, which assumes only that `JSON.parse` undoes
`JSON.stringify` on task arrays and that UTF-8 decoding undoes UTF-8
encoding. A `None` result from one of them stands for a thrown exception.

The code does not do the following, and neither does the model:

- check the range of `level` when an entry is added;
- validate the records on restore: any array replaces the list;
- report an index error from toggle or delete: the index is a precondition;
- reject padding as malformed: a spell never reaches `atob` with padding,
  and `atob` accepts input with or without it.

## Model

| member | source | states |
|---|---|---|
| JsText.Trim | js/script.js:66-68 | `trim` returns the text between the leading and the trailing whitespace (`SpaceEnd` to `SpaceStart`), never longer than its input; used again at js/script.js:162 |
| JsText.TrimSplit | js/script.js:66-68 | `trim` splits its input into leading whitespace, the result, and trailing whitespace |
| JsText.TrimEnds | js/script.js:66-68 | the trimmed text is empty or starts and ends with a non-whitespace character |
| JsText.TrimEmptyIff | js/script.js:66-71 | the trimmed text is empty exactly when every character is whitespace (the add handler's refusal test) |
| JsText.TrimNoWhitespace | js/script.js:162 | trimming text with no whitespace returns it unchanged |
| JsText.IndexOf | js/script.js:137 | `indexOf` returns the first position holding the character, or -1 exactly when the character is absent |
| JsText.IndexOfDistinct | js/script.js:149-151 | in a table without repeats, looking up the entry at position i finds i |
| Base64.AlphabetValues | js/script.js:20 | the alphabet has 64 characters; `SextetValue` inverts it and is -1 exactly for characters outside it |
| Base64.Encode | js/script.js:183 | `btoa`: the 6-bit values spelt in the alphabet, then one `=` for a final pair of bytes or `==` for a final single byte; every character is in the alphabet or `=` |
| Base64.ForgivingDecode | js/script.js:164 | `atob`: strips ASCII whitespace and the padding, fails on a length of 1 modulo 4 or a character outside the alphabet, and otherwise gives 3 bytes for every 4 characters (1 or 2 for a final partial group) |
| Base64.Sextets | js/script.js:183 | `btoa` produces (4n+2)/3 data characters for n bytes |
| Base64.Chars | js/script.js:183 | the encoding has one character per 6-bit value, and each character reads back through Table 1 as exactly that value (what `atob` relies on) |
| Base64.RemoveAsciiWhitespace | js/script.js:164 | `atob`'s first step leaves no ASCII whitespace |
| Base64.BytesSextets | js/script.js:164 | regrouping the 6-bit values into bytes gives back the bytes |
| Base64.AlphabetOnlyIsStripped | js/script.js:164 | `atob`'s whitespace and padding stripping leaves pure alphabet text unchanged |
| Base64.DecodeUnpadded | js/script.js:164 | `atob` decodes an unpadded encoding back to the bytes |
| Base64.EncodeLength | js/script.js:183 | `btoa`'s output is 4*ceil(n/3) characters long, whole 4-character groups |
| Base64.StripEncode | js/script.js:164 | the `=` in `btoa`'s output are exactly its padding |
| Base64.EncodeNoWhitespace | js/script.js:183 | `btoa`'s output contains no whitespace |
| Base64.DecodeByStripped | js/script.js:164 | `atob` depends only on the input after whitespace and padding are stripped |
| Base64.DecodeEncode | js/script.js:164 | `atob(btoa(b)) == b` for every byte string |
| KanaCodec.HiraMapDistinct | js/script.js:22-38 | `hiraMap` has 64 pairwise distinct entries, each found at its own position |
| KanaCodec.Base64CharsDistinct | js/script.js:20 | `base64Chars` has 64 pairwise distinct entries |
| KanaCodec.HiraMapNoWhitespace | js/script.js:22-38 | no `hiraMap` entry is whitespace, so `trim` never removes one |
| KanaCodec.ToHiragana | js/script.js:134-143 | `base64ToHiragana` as a value: the substitution from `base64Chars` to `hiraMap`, no longer than its input, all `hiraMap` characters |
| KanaCodec.ToBase64 | js/script.js:146-155 | `hiraganaToBase64` as a value: the substitution from `hiraMap` to `base64Chars`, no longer than its input, all `base64Chars` characters |
| KanaCodec.Substituted | js/script.js:134-155 | the substituted output is no longer than the input and draws only on the target table |
| KanaCodec.Kept | js/script.js:137-140 | the kept characters are no more than the input and all come from the table |
| KanaCodec.WithoutPadding | js/script.js:183-186 | the result has no `=` |
| KanaCodec.SubstitutedAppend | js/script.js:136-141 | substitution runs left to right: the output for a longer input extends the output for its prefix |
| KanaCodec.SubstitutedNone | js/script.js:137-140 | input with no table character gives empty output, never an error |
| KanaCodec.SubstitutedDrops | js/script.js:149-152 | a character missing from the table, wherever it appears, leaves the output as if it were absent |
| KanaCodec.SubstitutedKept | js/script.js:134-143 | only table characters matter; the output length is the number of input characters found in the table |
| KanaCodec.SubstitutedPointwise | js/script.js:134-143 | on input drawn from the table, output position k is `to[from.indexOf(s[k])]`, in input order |
| KanaCodec.SubstitutedRoundTrip | js/script.js:134-155 | substituting back with the tables swapped restores exactly the characters the first table holds, in order |
| KanaCodec.SubstitutedTrim | js/script.js:162-163 | whitespace around the input does not change the substitution |
| KanaCodec.Base64RoundTrip | js/script.js:134-155 | `hiraganaToBase64(base64ToHiragana(s))` is s restricted to `base64Chars` |
| KanaCodec.HiraganaRoundTrip | js/script.js:134-155 | `base64ToHiragana(hiraganaToBase64(h))` is h restricted to `hiraMap` |
| KanaCodec.KeptAll | js/script.js:137-140 | a string of table characters is kept whole |
| KanaCodec.KeptIsWithoutPadding | js/script.js:20 | on base 64 text, the only characters outside `base64Chars` are the `=` |
| KanaCodec.PaddingDropped | js/script.js:183-186 | base 64 text through both substitutions loses its `=` and nothing else |
| KanaCodec.RoundTripsOnTables | js/script.js:134-155 | both round trips are the identity on text drawn from their own table |
| KanaCodec.Base64ToHiragana | js/script.js:134-143 | the loop builds exactly the substitution from `base64Chars` to `hiraMap` |
| KanaCodec.HiraganaToBase64 | js/script.js:146-155 | the loop builds exactly the substitution from `hiraMap` to `base64Chars` |
| Tasks.Task | js/script.js:73-79 | the record the add handler pushes: `word`, `meaning`, `example`, `level`, `isDone` |
| Tasks.NewTask | js/script.js:65-79 | an entry is refused exactly when the trimmed word or the trimmed meaning is empty; otherwise the fields are trimmed, the level is kept, and the entry is not done |
| Tasks.Toggled | js/script.js:116 | only the done flag of the record at the index is negated; length, order and all other records are unchanged |
| Tasks.ToggledTwice | js/script.js:115-119 | toggling twice restores the list |
| Tasks.Spliced | js/script.js:123 | `splice(index, 1)` shortens the list by one and keeps the others in order |
| Tasks.SplicedRemovesOne | js/script.js:121-127 | the removed record and the remaining list together make up the old list |
| Spell.Generate | js/script.js:182-186 | the spell: `JSON.stringify`, UTF-8, `btoa`, then `base64ToHiragana`; every character is a `hiraMap` entry |
| Spell.Restore | js/script.js:162-172 | trim, `hiraganaToBase64`, `atob`, UTF-8 decoding and `JSON.parse`; a list exactly when every step succeeds and the parsed value is an array, and then the list is what `JSON.parse` returned |
| Spell.UnpaddedInTable | js/script.js:183-186 | every character of an unpadded encoding is in `base64Chars` |
| Spell.PaddingGivesNoKana | js/script.js:183-186 | `base64ToHiragana` drops `btoa`'s padding |
| Spell.GenerateCarriesUnpadded | js/script.js:180-187 | a spell is made only of `hiraMap` characters, (4n+2)/3 of them, and reads back to the unpadded base 64 |
| Spell.RestoreGenerate | js/script.js:160-187 | restoring a generated spell gives back the list it came from |
| Spell.RestoreIgnoresForeign | js/script.js:162-163 | restoring an input is the same as restoring only its `hiraMap` characters |
| Spell.RestoreWithoutKanaFails | js/script.js:162-165 | input without any `hiraMap` character, the empty input included, fails to restore |
| App.TaskList.constructor | js/script.js:17 | the list starts empty |
| App.TaskList.Add | js/script.js:65-83 | a refused entry leaves list and store unchanged; otherwise exactly one record is appended and the list is saved |
| App.TaskList.ToggleDone | js/script.js:115-119 | the list becomes the toggled list and is saved |
| App.TaskList.DeleteTask | js/script.js:121-127 | when confirmed, the record at the index is removed and the list is saved; otherwise nothing changes |
| App.TaskList.GenerateSpell | js/script.js:180-191 | the spell is the generate pipeline's output, made of `hiraMap` characters, and reads back to the unpadded base 64 |
| App.TaskList.RestoreSpell | js/script.js:160-177 | the list is replaced and saved exactly when the restore pipeline succeeds with an array; every failure leaves list and store unchanged |
| App.SpellRoundTrip | js/script.js:160-191 | generating a spell and restoring it leaves the list unchanged, and the store then holds the list |

## Left out

- DOM lookups, `render`, `toggleMenu`, the theme toggle and its storage: presentation only.
- `alert` and `console.log`: output only. A refused add and a failed restore show up as a `false` result.
- `confirm`: modelled as the boolean parameter `confirmed` of `DeleteTask`.
- `localStorage`: `saveTasks` is the ghost field `saved`, set to the list after each change. The load at startup is not modelled, because it reads an external store.
- `JSON.stringify`, `JSON.parse` and the `encodeURIComponent`/`unescape`/`escape`/`decodeURIComponent` UTF-8 pairs: parameters of `Platform`. Their round trips are the hypothesis `Faithful`, not a JSON grammar or an RFC 3629 codec.
- `parseInt` of the level field: the level is an `int` parameter. A non-numeric field (NaN) is not modelled.
- `JSON.parse` returning an array whose elements are not task records: the model reads every array as task records.
- App.TaskList.ToggleDone, App.TaskList.DeleteTask: the index is a `nat` below the list length. The list rendering (js/script.js:96-102) only ever passes such indices. Out-of-range calls are not modelled, and they behave as follows:
  - at or past the end, `toggleDone` throws a TypeError (js/script.js:116);
  - at or past the end, a confirmed `deleteTask` removes nothing but still saves (js/script.js:123-124);
  - with a negative index, `splice` counts from the end and removes that record (js/script.js:123).
- App.TaskList.GenerateSpell: the `catch` branch is not modelled, because nothing in the modelled pipeline throws.
- Strings are sequences of code points. Lone surrogates and the UTF-16 view of `for…of` and `indexOf` are not modelled; every table entry is a single BMP character, so both views agree on it.
