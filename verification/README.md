# fracbin paste service: identifier encoder and paste store

A Dafny model of the two pieces of logic in `src/index.ts` of the fracbin
paste service:

- **`nanoid`**, the identifier generator. It fills a `t`-byte buffer (default
  21) with random bytes, masks each byte to its low six bits and folds the
  buffer left to right into a string. Each masked value goes through a
  four-way branch: base 36 for 0..35, upper-cased base 36 of `v - 26` for
  36..61, `-` for 63 and `_` for 62. Module `Nanoid` (`nanoid.dfy`) takes the
  random bytes as an input stream, so the generator becomes a deterministic
  encoder. It models `toString(36)` as a general base-36 rendering and
  `toUpperCase` on ASCII letters. The module also gives an independent
  decoder by character ranges and proves that the decoder and encoder undo
  each other.
- **The paste store** behind `POST /save` and `GET /:id`. Module
  `PasteStore` (`paste_store.dfy`) models the KV namespace as a
  `map<string, Paste>`:
  - `Save` reads `title` and `code` with `FormData.get` semantics (first
    entry wins, `null` when missing). It draws a 21-character identifier and
    blind-writes `{id, title, code}` under it. It redirects to `/` followed
    by the identifier.
  - `Show` answers not-found when no record is stored under the key.
    Otherwise it hands title, code and `data.lang || 'js'` to the renderer.
  - `Replay` applies a history of writes to an empty namespace. The lemmas
    compare it with a reference definition: the last write under each key.

Bytes are `bv8` values, as in the source's `Uint8Array`. `e &= 63` is
modelled as an 8-bit AND, which agrees with JavaScript's 32-bit `&` on byte
values (`LowSixBits`). `wrappers.dfy` holds `Option`.

The `/save` handler stores only `id`, `title` and `code`
(src/index.ts:55-59). So `data.lang` is always undefined when a paste is read
back, and every saved paste renders as `js` (`Show`, `SaveThenShow`).

The handlers have no error paths of their own. A missing form field is
stored as `null`, and a store read yields a record or nothing.

## Model

| member | source | states |
|---|---|---|
| Nanoid.Mask | src/index.ts:116 | `e &= 63` on a byte keeps exactly the byte's value modulo 64 |
| Nanoid.Masks | src/index.ts:112-116 | the masked buffer has one value per byte, each the byte modulo 64 |
| Nanoid.ToBase36 | src/index.ts:117 | `toString(36)` gives a non-empty string of base-36 digits. It reads back as the number, has no leading zero, and is one character exactly when the number is below 36 |
| Nanoid.ToUpperCase | src/index.ts:119 | `toUpperCase` keeps the length and upper-cases each character in place |
| Nanoid.Piece | src/index.ts:116-122 | each branch appends exactly one character, and it lies in the alphabet `0-9a-zA-Z_-` |
| Nanoid.EncodeCharRanges | src/index.ts:116-122 | 0..9 map to the digits, 10..35 to `a-z` and 36..61 to `A-Z`, each in order. 62 maps to `_` and 63 to `-` |
| Nanoid.BoundaryValues | src/index.ts:116-122 | 0→`0`, 35→`z`, 36→`A`, 61→`Z`, 62→`_`, 63→`-` |
| Nanoid.DecodeEncodeChar | src/index.ts:116-122 | the range decoder recovers every masked value from its character |
| Nanoid.EncodeDecodeChar | src/index.ts:116-122 | a character decodes exactly when it is in the 64-symbol alphabet, and then it is the encoding of its value |
| Nanoid.EncodeCharInjective | src/index.ts:116-122 | two masked values give the same character only if they are equal |
| Nanoid.Encode | src/index.ts:113-124 | the fold yields one character per byte, in order. Character `i` is determined by byte `i` alone, and every character is in the alphabet |
| Nanoid.EncodeAppend | src/index.ts:113-124 | the fold appends in buffer order: encoding two parts and concatenating equals encoding the whole |
| Nanoid.Nanoid | src/index.ts:110-125 | `nanoid(t)` consumes exactly `t` bytes of the random stream and returns `t` alphabet characters, the `i`-th chosen by byte `i` modulo 64 |
| Nanoid.EmptyIdentifier | src/index.ts:110-124 | `t = 0` yields the empty string and consumes nothing |
| Nanoid.DecodePointwise | src/index.ts:113-124 | decoding an identifier succeeds exactly when every character decodes, and then decodes each position in place |
| Nanoid.DecodeEncode | src/index.ts:113-124 | decoding an encoded buffer gives back each byte's low six bits |
| Nanoid.EncodeDecode | src/index.ts:113-124 | a string decodes exactly when it is written in the alphabet. A buffer holding the decoded values then encodes back to the string, so every alphabet string of length `t` is a possible identifier |
| Nanoid.EncodeInjective | src/index.ts:116 | two buffers give the same identifier exactly when they agree on every byte modulo 64 |
| PasteStore.FormGet | src/index.ts:57-58 | `form.get` returns null exactly when no entry has the name. Otherwise it returns the value of the first entry with that name |
| PasteStore.Get | src/index.ts:36 | `KV.get` yields the stored record, or nothing when the key holds none |
| PasteStore.Put | src/index.ts:61 | `KV.put` makes the key yield the new record, changes no other key, and adds only that key |
| PasteStore.PutOverwrites | src/index.ts:61 | a second put under the same key replaces the first record |
| PasteStore.LangField | src/index.ts:55-59 | `data.lang` of a stored record (read at src/index.ts:45) is always undefined, because `/save` stores only `id`, `title` and `code` |
| PasteStore.SelectLanguage | src/index.ts:45 | `data.lang \|\| 'js'` returns a present, non-empty language. Otherwise it returns `js`, and the result is never empty |
| PasteStore.SelectLanguageIdempotent | src/index.ts:45 | feeding the selected language back in selects it again |
| PasteStore.Save | src/index.ts:51-64 | the redirect is `/` plus a 21-character alphabet identifier. The record `{id, title, code}` is readable under that identifier, other keys are unchanged, and 21 random bytes are consumed. The identifier is `nanoid()` of those bytes |
| PasteStore.Show | src/index.ts:35-47 | not-found exactly when the key holds no record. Otherwise the stored title and code are shown, highlighted as `js` because stored records carry no `lang` |
| PasteStore.SaveThenShow | src/index.ts:35-63 | fetching the redirect target of a save shows the submitted title and code, in `js` |
| PasteStore.SaveCollisionOverwrites | src/index.ts:55-63 | two saves whose 21 random bytes agree modulo 64 redirect to the same identifier. The second record replaces the first, because nothing detects the collision |
| PasteStore.SaveKeepsOthers | src/index.ts:61 | a save does not change the response for any other identifier |
| PasteStore.Replay | src/index.ts:61 | a history of `KV.put` calls into an empty namespace leaves exactly the keys that some write used |
| PasteStore.LastWrite | src/index.ts:61 | reference reading of a write history: nothing exactly when no write used the key. Otherwise it is the record of the last write under the key |
| PasteStore.ReplayGet | src/index.ts:36-61 | after any history of blind writes into an empty namespace, a lookup yields the last record written under the key |
| PasteStore.NeverWrittenIsNotFound | src/index.ts:36-40 | after any history of writes, `GET` answers not-found exactly for the keys no write used |

## Left out

- `html()`, the `theme` CSS, the form page and the not-found body (src/index.ts:12-31, 68-108, 127-196): presentation templating with no logic.
- `hljs.highlight`: a foreign library. Only the language string passed to it is modelled.
- `crypto.getRandomValues`: replaced by an input byte stream. Entropy, unguessability and collision probability cannot be stated here. Identifier collisions are not detected in the source either; a colliding save is a blind overwrite, which `Put` and `PutOverwrites` state.
- Nanoid.Nanoid: does not model the two throws of src/index.ts:111-112. `new Uint8Array(t)` throws a RangeError for a negative `t`, which the `nat` parameter excludes. `crypto.getRandomValues` throws a QuotaExceededError above 65536 bytes, which `requires t <= MaxRandomBytes` excludes. The source only calls `nanoid()` with the default `t = 21`. The model also requires the input stream to hold at least `t` bytes, where the source draws fresh bytes from the platform.
- Hono routing, `logger()`, `c.redirect`, form parsing and the stray `console.log` of a form field: framework and I/O plumbing.
- KV asynchrony, `JSON.stringify` and `'json'` parsing: the namespace is a total in-memory map of records. Reads return no new store, so repeated reads cannot change what they see. Concurrent requests are not modelled.
- PasteStore.FormGet: form values are strings only. Uploaded `File` entries are not modelled.
- Nanoid.ToUpperCase: upper-cases ASCII letters only. It is applied only to base-36 digits, where this matches JavaScript.
- Nanoid.ToBase36: covers non-negative integers only. The source applies `toString(36)` only to 0..35.
