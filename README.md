# Bokeh session ids, modelled in Dafny

This project models `bokeh/util/session_id.py`, the part of the Bokeh server that issues
and checks session ids. The code does three things:

- **Random base ids.** `_get_random_string` draws 44 characters from the 62 ASCII letters
  and digits, using the process-wide pseudo-random generator. When the OS-backed
  generator is unavailable, the fallback generator is first reseeded from its own state,
  the clock and the secret key.
- **Signed session ids.** When signing is on, `generate_session_id` returns
  `base_id + '-' + signature`. The signature is the URL-safe base64 of
  HMAC-SHA256(key, UTF-8 of base_id), with trailing `=` stripped.
- **Verification.** `check_session_id_signature` splits the presented id on the first
  `-` only and recomputes the signature. It answers True without looking when signing
  is off.

Files:

- `bytes.dfy`: bytes, `Option`, `Result`, and ASCII predicates.
- `utf8.dfy`: UTF-8 encoding (RFC 3629) of text keys and base ids, with a strict decoder.
- `base64url.dfy`: the URL-safe alphabet of section 5 of RFC 4648, with the padded encoder,
  `rstrip('=')`, the unpadded encoder and a strict decoder.
- `session_id.dfy`: the pure functions. These are `_ensure_bytes`, `_base64_encode`,
  `_signature`, `hmac.compare_digest`, `str.split('-', 1)` and
  `check_session_id_signature`, with the lemmas about them.
- `generator.dfy`: the generator as a class `Rng`. It holds the `using_sysrandom` flag,
  the generator's output stream and how far it has been read. Its methods are
  `_reseed_if_needed`, `random.choice`, the `_get_random_string` loop,
  `generate_secret_key` and `generate_session_id`.

HMAC-SHA256 is a parameter `hmac` of type `Hmac`, a total function from key and message
to a 32-byte digest. Because it is a function, it is deterministic, and nothing else about
it is assumed. The generator's outputs are an abstract stream `nat -> nat`. Draw number
`k` picks `chars[stream(k) % |chars|]`. A reseed replaces the stream with one supplied
from outside (a `Reseeder` applied to the normalised key). The flag `using_sysrandom`
is given to the constructor.

Notes on the code:

- The fallback generator is reseeded once per `_get_random_string` call
  (`bokeh/util/session_id.py:194`), not before every character.
- Signing without a key is the `TypeError` that `hmac.new(None, ...)` raises (`MissingKey`).
  It is not a separate configuration error. During generation it happens after the base id
  has been drawn. During checking it happens only if the id contains a `-`. An id without
  one is answered False first.
- Python's `hmac.compare_digest` raises on non-ASCII `str` (`NonAsciiComparison`); see
  Findings.

## Model

| member | source | states |
|---|---|---|
| `Utf8.Encode` | bokeh/util/session_id.py:152 | UTF-8 of a string is between one and four bytes per character |
| `Utf8.DecodeEncode` | bokeh/util/session_id.py:152 | a strict UTF-8 decoder recovers every string from its encoding |
| `Utf8.EncodeInjective` | bokeh/util/session_id.py:152 | distinct strings have distinct UTF-8 encodings |
| `Utf8.EncodeAscii` | bokeh/util/session_id.py:179 | an ASCII string (such as a base id) encodes to its code points, one byte each |
| `Base64Url.Sextets` | bokeh/util/session_id.py:173 | cutting bytes into groups of six bits gives values below 64 |
| `Base64Url.SextetsLength` | bokeh/util/session_id.py:173 | n bytes give (4n+2)/3 = ceil(4n/3) six-bit values |
| `Base64Url.Render` | bokeh/util/session_id.py:173 | six-bit values are written as URL-safe alphabet characters, all ASCII |
| `Base64Url.ValuesRender` | bokeh/util/session_id.py:173 | reading rendered characters back gives the six-bit values |
| `Base64Url.RenderValues` | bokeh/util/session_id.py:173 | every alphabet text is the rendering of its values |
| `Base64Url.JoinSextets` | bokeh/util/session_id.py:173 | the bytes are recovered from their six-bit values |
| `Base64Url.SextetsJoin` | bokeh/util/session_id.py:173 | only the values of `b` rebuild `b`, so the bit packing is a bijection onto valid value sequences |
| `Base64Url.EncodeUnpadded` | bokeh/util/session_id.py:173-175 | unpadded URL-safe base64 of n bytes has (4n+2)/3 = ceil(4n/3) characters, all in `A-Z a-z 0-9 - _` |
| `Base64Url.Padding` | bokeh/util/session_id.py:173 | the padding is up to two `=` and completes the input to a multiple of three bytes |
| `Base64Url.Encode` | bokeh/util/session_id.py:173 | `urlsafe_b64encode` output has a length that is a multiple of four |
| `Base64Url.DecodeEncode` | bokeh/util/session_id.py:173-175 | decoding the unpadded text gives the bytes back |
| `Base64Url.EncodeDecode` | bokeh/util/session_id.py:173-175 | the only text that decodes to `b` is the unpadded encoding of `b` |
| `Base64Url.RStrip` | bokeh/util/session_id.py:175 | `rstrip(c)` gives a prefix that does not end in `c`, and only `c` was removed |
| `Base64Url.RStripAppended` | bokeh/util/session_id.py:175 | stripping `c` from text followed by `c`s returns the text, if it does not end in `c` |
| `Base64Url.EncodeIsUnpaddedThenPadding` | bokeh/util/session_id.py:173 | the padded encoding is the unpadded one followed by fewer than three `=` and nothing else |
| `Base64Url.StripPadding` | bokeh/util/session_id.py:175 | stripping `=` from the padded encoding leaves exactly the unpadded encoding |
| `SessionId.DefaultCharsAlphanumeric` | bokeh/util/session_id.py:184-185 | the default alphabet has 62 characters, all ASCII letters or digits, and no `-` |
| `SessionId.ToBytes` | bokeh/util/session_id.py:149-152 | bytes pass through unchanged; text becomes bytes that UTF-8-decode back to it |
| `SessionId.EnsureBytes` | bokeh/util/session_id.py:146-152 | None maps to None, and a key maps to its bytes |
| `SessionId.AsKey` | bokeh/util/session_id.py:156 | normalised bytes handed back as a key normalise to themselves again |
| `SessionId.EnsureBytesIdempotent` | bokeh/util/session_id.py:146-152 | normalising an already normalised key changes nothing |
| `SessionId.EnsureBytesTextInjective` | bokeh/util/session_id.py:152 | two text keys normalise to the same bytes only if they are equal |
| `SessionId.Base64Encode` | bokeh/util/session_id.py:167-175 | the output has no `=`, only URL-safe ASCII characters, ceil(4n/3) characters, and decodes to the input bytes |
| `SessionId.Signature` | bokeh/util/session_id.py:177-181 | fails with `MissingKey` exactly when there is no key; otherwise 43 URL-safe characters, no `=`, decoding to HMAC-SHA256(key, UTF-8 of base id) |
| `SessionId.CompareDigest` | bokeh/util/session_id.py:112-114 | answers equality when both strings are ASCII, and raises otherwise |
| `SessionId.FirstIndex` | bokeh/util/session_id.py:106 | finds the first occurrence of the separator, or reports that there is none |
| `SessionId.SplitOnce` | bokeh/util/session_id.py:106-110 | one piece (the whole id) when there is no `-`; otherwise two pieces joined by `-`, the first with no `-` (the second may hold more) |
| `SessionId.SplitOnceJoined` | bokeh/util/session_id.py:106-110 | splitting `a + '-' + b` gives `[a, b]` whenever `a` has no `-` |
| `SessionId.CheckSessionIdSignature` | bokeh/util/session_id.py:104-115 | always True when unsigned; False for a signed check of an id with no `-`; `MissingKey` for an id with `-` and no key |
| `SessionId.SessionIdFor` | bokeh/util/session_id.py:80-86 | the unsigned id is the base id; the signed id is base id, `-` and signature; signing fails exactly without a key |
| `SessionId.SignedSessionIdVerifies` | bokeh/util/session_id.py:80-115 | round trip: a signed id passes the signed check under its key, or under any key with the same bytes |
| `SessionId.SignedSessionIdParts` | bokeh/util/session_id.py:83-84 | in a signed id, the part after the first `-` is exactly the signature of the part before it |
| `SessionId.AcceptedSessionIdIsSigned` | bokeh/util/session_id.py:104-114 | whatever passes a signed check has a key and is a `-`-free base id, `-`, and that base id's signature |
| `SessionId.CheckComparesSignature` | bokeh/util/session_id.py:106-114 | for a well-formed id with an ASCII signature part, the check answers whether that part equals the recomputed signature |
| `SessionId.NonAsciiSignatureRaises` | bokeh/util/session_id.py:112-114 | as written, `base + '-' + 'é'` makes the signed check raise instead of answering False |
| `SessionId.CheckSessionIdSignatureOnBytes` | bokeh/util/session_id.py:104-115 | corrected check: with a key present it always answers; unsigned is True and an id with no `-` is False |
| `SessionId.OnBytesAgreesOnAscii` | bokeh/util/session_id.py:112-114 | the corrected check gives the same answer as `SessionId.CheckSessionIdSignature` on every ASCII id |
| `SessionId.OnBytesAcceptsExactlySigned` | bokeh/util/session_id.py:106-114 | the corrected check accepts a well-formed id exactly when its signature part equals the recomputed signature |
| `Generator.Picks` | bokeh/util/session_id.py:195 | n draws give exactly n characters, each from the allowed characters |
| `Generator.PicksNext` | bokeh/util/session_id.py:195 | one more draw appends one character |
| `Generator.DefaultPicksAlphanumeric` | bokeh/util/session_id.py:183-195 | draws from the default alphabet are letters or digits and never `-` |
| `Generator.Rng.constructor` | bokeh/util/session_id.py:201 | the generator starts with the `using_sysrandom` outcome fixed and nothing drawn |
| `Generator.Rng.ReseedIfNeeded` | bokeh/util/session_id.py:155-165 | the OS generator is left alone; the fallback is reseeded from the normalised key and restarts its stream |
| `Generator.Rng.Choice` | bokeh/util/session_id.py:195 | `random.choice` returns a member of the characters picked by the next output, and advances the generator by one |
| `Generator.Rng.GetRandomString` | bokeh/util/session_id.py:183-195 | reseeds once if needed, then returns `max(length, 0)` characters, each from `allowed_chars`, as the next draws; an empty alphabet is allowed only for a non-positive length |
| `Generator.Rng.GenerateSecretKey` | bokeh/util/session_id.py:50-56 | returns 44 letters and digits, the next draws of the generator |
| `Generator.Rng.GenerateSessionId` | bokeh/util/session_id.py:58-86 | unsigned: 44 characters and no `-`; signed with a key: 88 characters (44 + 1 + 43) that pass both checks; signed without a key: `MissingKey` after the base id is drawn |

## Left out

- `_get_sysrandom` (`bokeh/util/session_id.py:125-144`) probes the platform and emits warnings. This is environment I/O. Only its outcome, `using_sysrandom`, enters the model, as a constructor argument.
- HMAC-SHA256 and SHA-256 internals are foreign cryptographic primitives. HMAC is a deterministic function parameter with a 32-byte result.
- Generator.Rng.ReseedIfNeeded: the new stream is supplied from outside (`Reseeder`) rather than computed. The digest of `random.getstate()`, `time.time()` and the `repr` of the key involves a wall clock, SHA-256 and Python formatting. The key's only role is as the argument the supplied stream depends on.
- Generator.Rng.Choice: `random.choice` is modelled as the next output modulo the alphabet size. The rejection sampling of `_randbelow`, and any claim about uniformity, are not modelled.
- Generator.Rng.GetRandomString: the `IndexError` that `random.choice('')` raises (`bokeh/util/session_id.py:195`) for a positive length with an empty alphabet, after the reseed at line 194 has run, is excluded by the precondition `length <= 0 || |allowedChars| > 0`. Every caller passes the 62-character default alphabet.
- The constant-time behaviour of `hmac.compare_digest` cannot be expressed here. It is modelled as string equality, with the ASCII restriction.
- Tamper resistance and the absence of collisions depend on cryptographic and probabilistic assumptions that an uninterpreted HMAC and an arbitrary stream cannot support.
- The default arguments read from `bokeh.settings` at import time (`bokeh/util/session_id.py:58-59`, `89-90`, `186`) are configuration loading. The key and the flags are passed explicitly. `generate_secret_key` takes the configured key, which only feeds the reseed.
- The `signed` argument of `check_session_id_signature` is typed `Optional[bool]`. A `None` there behaves like `False` and is not modelled separately.
- Python text may hold lone surrogates, which make UTF-8 encoding raise. A Dafny `char` is a Unicode scalar value, so these strings cannot be represented.
- `_base64_encode(None)` would raise in `urlsafe_b64encode`. Its annotated argument type excludes `None`, and its only caller passes bytes, so the model's argument type excludes it too.
- The locking that concurrent callers of the fallback generator would need is not modelled. The model is sequential.

## Findings

| source | as written | input that shows it | evidently intended | confidence | as-written member | corrected member |
|---|---|---|---|---|---|---|
| bokeh/util/session_id.py:114 | `hmac.compare_digest(expected_signature, provided_signature)` compares two `str`, and raises `TypeError` when either holds a non-ASCII character | a signed check, with a key, of `<base id>-é` | a presented id that does not verify gets the answer False, as the docstring ("returning True if it's valid") and the boolean result promise; for example, compare the UTF-8 bytes of both signatures | high, by the documented behaviour of `hmac.compare_digest` on `str`; not executed | `SessionId.NonAsciiSignatureRaises` | `SessionId.CheckSessionIdSignatureOnBytes` |
