# Pydio web client: hashing, slugs and the resources manager, in Dafny

This project models three pieces of the Pydio web client's JavaScript core
and proves properties of the model.

- `HasherUtils` is the MD5 / HMAC-MD5 toolkit:
  - 32-bit word arithmetic (`safe_add`, `bit_rol`, `md5_cmn` and the four round helpers);
  - packing between strings and little-endian word arrays (`str2binl`, `binl2str`);
  - `core_md5` with its padding, and `core_hmac_md5`;
  - the hex and base-64 renderings (`binl2hex`, `binl2b64`) and the six public `*_md5` / `*_hmac_md5` entry points;
  - the separate `utf8_encode` and `base64_encode`.

  Each is related to an independent reference definition written from its
  standard: MD5 from RFC 1321 (module `Md5Rfc`), HMAC from section 2 of
  RFC 2104 (`HmacRfc`), base 16 and base 64 from sections 8 and 4 of RFC 4648
  (`Base16`, `Base64Rfc`), and a UTF-8 decoder (`Utf8.Decode`). The
  central results are `CoreMd5IsMd5` and `CoreHmacIsHmac`: the source's word
  arithmetic computes the RFC digest of the low bytes of the input string.
- `LangUtils.computeStringSlug` and its accent table, and `LangUtils.objectMerge`.
- `ResourcesManager`:
  - registration of JS files, style sheets, HTML forms and plugin dependencies;
  - `hasDependencies`;
  - `load`, which loads the dependencies first and then the manager's own resources, once;
  - `loadFromXmlNode`.

  The DOM-touching loaders are events appended to a trace.

JavaScript values are modelled as follows:
- Strings are sequences of UTF-16 code units (`bv16`).
- Words are `bv32`. The signed and unsigned readings of a word are the same 32 bits, so `>>` and `>>>` differ only where the model says so.
- A read past the end of an array (`undefined`) or of a string (`NaN` from `charCodeAt`) is 0, which is what the bitwise operators make of it.
- The configuration variables `hexcase` and `b64pad` are parameters (`upper`, `pad`). `chrsz` is fixed at 8.

Files, bottom up:
- `js_values`: strings, bytes, `Option`/`Result`.
- `word_arith`: RFC 1321's F, G, H, I and rotation.
- `md5_words`: `safe_add`, `bit_rol`, `md5_cmn`.
- `little_endian`: bytes to and from words.
- `md5_packing`: `str2binl`, `binl2str`.
- `md5_rfc`: MD5 as RFC 1321 states it.
- `md5_core`: `core_md5` and its padding.
- `md5_table`: the 64 calls against the RFC's table.
- `md5_padding`: the source's padding against the RFC's.
- `md5_agreement`: `core_md5` computes RFC MD5.
- `base16`, `base64_rfc`, `triplets`: the reference encodings and the 24-bit groups.
- `md5_render`: `binl2hex`, `binl2b64`, `hex_md5` and the other MD5 entry points.
- `hmac_rfc`, `word_xor`, `hmac_md5`: HMAC.
- `utf8`: `utf8_encode`.
- `base64_text`: `base64_encode`.
- `slug`, `object_merge`, `resources_manager`.

## Model

| member | source | states |
|---|---|---|
| Md5Words.SafeAdd | core/src/plugins/gui.ajax/res/js/core/util/HasherUtils.js:337-341 | adding the low and high 16-bit halves separately, with the carry, gives the sum of the two words modulo 2^32 |
| Md5Words.BitRol | core/src/plugins/gui.ajax/res/js/core/util/HasherUtils.js:348-350 | for a count from 1 to 31, `num << cnt \| num >>> 32 - cnt` is the left rotation of RFC 1321 |
| Md5Words.BitRolInverse | core/src/plugins/gui.ajax/res/js/core/util/HasherUtils.js:348-350 | rotating by `cnt` and then by `32 - cnt` gives the word back |
| Md5Words.BitRolInjective | core/src/plugins/gui.ajax/res/js/core/util/HasherUtils.js:348-350 | two words with the same rotation are equal, so the rotation is a bijection |
| Md5Words.Md5CmnIsStep | core/src/plugins/gui.ajax/res/js/core/util/HasherUtils.js:287-289 | `md5_cmn` is `b + ((a + q + x + t) <<< s)` modulo 2^32, the step of section 3.4 of RFC 1321 |
| Md5Words.Md5Cmn | core/src/plugins/gui.ajax/res/js/core/util/HasherUtils.js:287-289 | models `md5_cmn`; its meaning is stated by `Md5Words.Md5CmnIsStep` |
| Md5Words.Md5FF | core/src/plugins/gui.ajax/res/js/core/util/HasherUtils.js:292-294 | models `md5_ff`; `Md5Agreement.ApplyIsOperation` states it is the RFC 1321 operation with F |
| Md5Words.Md5GG | core/src/plugins/gui.ajax/res/js/core/util/HasherUtils.js:297-299 | models `md5_gg`; `Md5Agreement.ApplyIsOperation` states it is the RFC 1321 operation with G |
| Md5Words.Md5HH | core/src/plugins/gui.ajax/res/js/core/util/HasherUtils.js:302-304 | models `md5_hh`; `Md5Agreement.ApplyIsOperation` states it is the RFC 1321 operation with H |
| Md5Words.Md5II | core/src/plugins/gui.ajax/res/js/core/util/HasherUtils.js:307-309 | models `md5_ii`; `Md5Agreement.ApplyIsOperation` states it is the RFC 1321 operation with I |
| WordArith.FSelects | core/src/plugins/gui.ajax/res/js/core/util/HasherUtils.js:293 | F takes the bits of y where x is set and the bits of z where it is clear |
| WordArith.GSelects | core/src/plugins/gui.ajax/res/js/core/util/HasherUtils.js:298 | G takes the bits of x where z is set and the bits of y where it is clear |
| WordArith.HIsParity | core/src/plugins/gui.ajax/res/js/core/util/HasherUtils.js:303 | H is the bitwise parity of its three words |
| WordArith.ISelects | core/src/plugins/gui.ajax/res/js/core/util/HasherUtils.js:308 | where z is clear, I is the complement of y; where z is set, it is x xor y |
| WordArith.RotlInverse | core/src/plugins/gui.ajax/res/js/core/util/HasherUtils.js:348-350 | rotation by s and then by 32 - s is the identity for every s from 1 to 31 |
| Md5Agreement.ApplyIsOperation | core/src/plugins/gui.ajax/res/js/core/util/HasherUtils.js:292-309 | `md5_ff`, `md5_gg`, `md5_hh` and `md5_ii` compute the operation of RFC 1321 with F, G, H and I |
| Md5Packing.Str2BinlPacks | core/src/plugins/gui.ajax/res/js/core/util/HasherUtils.js:358-363 | for at most 2^28 characters, `str2binl` packs the low bytes of the characters four to a word, little-endian, with the last word zero-filled |
| Md5Packing.Str2BinlPlacesChars | core/src/plugins/gui.ajax/res/js/core/util/HasherUtils.js:358-363 | for at most 2^28 characters, the array has (n + 3) / 4 words, and byte i % 4 of word i / 4 is the low 8 bits of character i |
| Md5Packing.Binl2StrIsBytes | core/src/plugins/gui.ajax/res/js/core/util/HasherUtils.js:370-375 | for at most 2^26 words, `binl2str` writes the four bytes of each word, least significant first, one character each |
| Md5Packing.Binl2StrOfStr2Binl | core/src/plugins/gui.ajax/res/js/core/util/HasherUtils.js:358-375 | for a string of at most 2^28 codes below 256 whose length is a multiple of 4, `binl2str(str2binl(s))` is `s` |
| Md5Packing.Str2BinlOfBinl2Str | core/src/plugins/gui.ajax/res/js/core/util/HasherUtils.js:358-375 | `str2binl(binl2str(w))` gives back every word array `w` of at most 2^26 words |
| Md5Packing.WordOfBit | core/src/plugins/gui.ajax/res/js/core/util/HasherUtils.js:361 | `i >> 5` lies in [-2^26, 2^26) and is the word index i / 32 while i is below 2^31 |
| Md5Packing.Str2Binl | core/src/plugins/gui.ajax/res/js/core/util/HasherUtils.js:358-363 | models `str2binl`; the array never grows past 2^26 words, whatever the string; its packing is stated by `Str2BinlPacks` |
| Md5Packing.Str2BinlPastLimit | core/src/plugins/gui.ajax/res/js/core/util/HasherUtils.js:361 | for more than 2^28 characters, `str2binl` no longer packs the string: its array, capped at 2^26 words, is too short for the bytes |
| Md5Packing.Binl2Str | core/src/plugins/gui.ajax/res/js/core/util/HasherUtils.js:370-375 | models `binl2str`: four characters per word, each a code below 256; what they are is stated by `Binl2StrIsBytes` |
| Md5Packing.Binl2StrPastLimit | core/src/plugins/gui.ajax/res/js/core/util/HasherUtils.js:373 | for more than 2^26 words, character 2^28 is read at index -2^26 and comes out 0, not the low byte of word 2^26 |
| JsValues.WidenLowBytes | core/src/plugins/gui.ajax/res/js/core/util/HasherUtils.js:361 | a string of codes below 256 is unchanged when its characters are cut to their low byte |
| Md5Padding.ShortSlots | core/src/plugins/gui.ajax/res/js/core/util/HasherUtils.js:192-193 | for fewer than 2^28 bytes, `len >> 5` is the word after the last whole message word and `(len + 64 >>> 9 << 4) + 14` is word 14 of the last block |
| Md5Padding.PaddingWrites | core/src/plugins/gui.ajax/res/js/core/util/HasherUtils.js:192-193 | the padding writes the length at its slot and the 0x80 bit into the marked word, and leaves every other word as it was |
| Md5Padding.SourcePadding | core/src/plugins/gui.ajax/res/js/core/util/HasherUtils.js:190-193 | the padded array holds the message words, then 0x80 right after the last byte, zeros, and the bit length in word 14 of the last block; the never-written word 15 reads as 0 |
| Md5Padding.RfcPadding | core/src/plugins/gui.ajax/res/js/core/util/HasherUtils.js:190-193 | the padded message of sections 3.1 and 3.2 of RFC 1321, read as words, is word for word the array the source builds |
| Md5Table.TableMatches | core/src/plugins/gui.ajax/res/js/core/util/HasherUtils.js:206-272 | call n of the 64 uses round n / 16's function, the message word, the shift and the sine constant T[n + 1] of RFC 1321 |
| Md5Agreement.PerformIsStep | core/src/plugins/gui.ajax/res/js/core/util/HasherUtils.js:206-272 | each of the 64 calls is step n of RFC 1321 on the block |
| Md5Agreement.CallsAreSteps | core/src/plugins/gui.ajax/res/js/core/util/HasherUtils.js:206-272 | the first n calls are the first n steps of the RFC |
| Md5Agreement.BlockAtIsBlock | core/src/plugins/gui.ajax/res/js/core/util/HasherUtils.js:200-277 | one pass of the loop, 64 calls and the four `safe_add`s, processes one 16-word block as section 3.4 of RFC 1321 does |
| Md5Agreement.LoopIsProcess | core/src/plugins/gui.ajax/res/js/core/util/HasherUtils.js:200-278 | the loop over the padded array processes the blocks of the RFC's padded message, although the array stops before word 15 of the last block |
| Md5Agreement.StartIsInitialBuffer | core/src/plugins/gui.ajax/res/js/core/util/HasherUtils.js:195-198 | the signed constants a, b, c, d are words A, B, C, D of section 3.3 of RFC 1321 |
| Md5Agreement.CoreMd5OfBytes | core/src/plugins/gui.ajax/res/js/core/util/HasherUtils.js:190-280 | `core_md5` of the words of a byte message and its bit length returns the four words whose bytes are the RFC 1321 digest |
| Md5Agreement.CoreMd5IsMd5 | core/src/plugins/gui.ajax/res/js/core/util/HasherUtils.js:190-280 | `core_md5(str2binl(s), 8 * s.length)` is the MD5 of the low bytes of `s` |
| Md5Core.CoreMd5 | core/src/plugins/gui.ajax/res/js/core/util/HasherUtils.js:190-280 | models `core_md5`; `Md5Agreement.CoreMd5OfBytes` and `CoreMd5IsMd5` state that it computes the RFC 1321 digest |
| Base16.DecodeEncode | core/src/plugins/gui.ajax/res/js/core/util/HasherUtils.js:382-389 | the hex encoding of bytes, high nibble first, decodes back to the bytes in either letter case |
| Base16.EncodeInAlphabet | core/src/plugins/gui.ajax/res/js/core/util/HasherUtils.js:383 | every character of the encoding is a digit of the chosen case |
| Md5Render.Binl2HexEncodes | core/src/plugins/gui.ajax/res/js/core/util/HasherUtils.js:382-389 | for at most 2^29 words, `binl2hex` is the hex encoding of the array's bytes, little-endian within each word, two characters per byte |
| Md5Render.Binl2HexDecodes | core/src/plugins/gui.ajax/res/js/core/util/HasherUtils.js:382-389 | for at most 2^29 words, decoding the output of `binl2hex` gives back the bytes of the words |
| Md5Render.Binl2Hex | core/src/plugins/gui.ajax/res/js/core/util/HasherUtils.js:382-389 | models `binl2hex`, reading byte i from word `i >> 2` as a signed shift; its output is stated by `Binl2HexEncodes` and `Binl2HexDecodes` up to 2^29 words, and beyond by `Binl2HexPastLimit` |
| Md5Render.WordOfByte | core/src/plugins/gui.ajax/res/js/core/util/HasherUtils.js:386 | `i >> 2` lies in [-2^29, 2^29) and is the word index i / 4 while i is below 2^31 |
| Md5Render.Binl2HexFromDigits | core/src/plugins/gui.ajax/res/js/core/util/HasherUtils.js:385-387 | for any array, the loop writes the two digits of byte j, high nibble first, at positions 2j and 2j + 1 |
| Md5Render.Binl2HexPastLimit | core/src/plugins/gui.ajax/res/js/core/util/HasherUtils.js:386 | beyond 2^29 words, byte 2^31 is read at index -2^29 and comes out "00", whatever word 2^29 holds |
| Md5Render.Binl2B64Encodes | core/src/plugins/gui.ajax/res/js/core/util/HasherUtils.js:396-406 | for at most 2^29 words, `binl2b64` is the base 64 of RFC 4648 of the array's bytes, with `b64pad` for each character past the last byte |
| Md5Render.Binl2B64Decodes | core/src/plugins/gui.ajax/res/js/core/util/HasherUtils.js:396-406 | for at most 2^29 words and with `b64pad` set to "=", the output decodes back to the bytes of the words |
| Md5Render.Binl2B64 | core/src/plugins/gui.ajax/res/js/core/util/HasherUtils.js:396-406 | models `binl2b64`, reading bytes i, i + 1 and i + 2 from words `i >> 2`, `i + 1 >> 2` and `i + 2 >> 2` as signed shifts; its output is stated by `Binl2B64Encodes` and `Binl2B64Decodes` up to 2^29 words, and beyond by `Binl2B64PastLimit` |
| Md5Render.Binl2B64PastLimit | core/src/plugins/gui.ajax/res/js/core/util/HasherUtils.js:400 | beyond 2^29 words, the group at byte 2^31 - 2 reads its third byte at index -2^29, as 0, whatever word 2^29 holds |
| Md5Render.HexMd5 | core/src/plugins/gui.ajax/res/js/core/util/HasherUtils.js:29-31 | `hex_md5` returns 32 characters |
| Md5Render.HexMd5IsDigest | core/src/plugins/gui.ajax/res/js/core/util/HasherUtils.js:29-31 | `hex_md5(s)` is the hex encoding of the RFC 1321 digest of the low bytes of `s` |
| Md5Render.HexMd5IsLowerHex | core/src/plugins/gui.ajax/res/js/core/util/HasherUtils.js:416 | with `hexcase` 0, every character of `hex_md5` is one of 0-9 and a-f |
| Md5Render.B64Md5IsDigest | core/src/plugins/gui.ajax/res/js/core/util/HasherUtils.js:34-36 | `b64_md5(s)` is the base 64 of the digest: 22 alphabet characters, then `b64pad` twice |
| Md5Render.B64Md5 | core/src/plugins/gui.ajax/res/js/core/util/HasherUtils.js:34-36 | models `b64_md5`; its output is stated by `B64Md5IsDigest` |
| Md5Render.DigestShape | core/src/plugins/gui.ajax/res/js/core/util/HasherUtils.js:396-406 | a 16-byte digest in base 64 is 22 characters of the alphabet followed by two pads, so 22 characters with the default empty pad and 24 with "=" |
| Md5Render.StrMd5IsDigest | core/src/plugins/gui.ajax/res/js/core/util/HasherUtils.js:39-41 | `str_md5(s)` is the 16 digest bytes as characters |
| Md5Render.StrMd5 | core/src/plugins/gui.ajax/res/js/core/util/HasherUtils.js:39-41 | models `str_md5`; its output is stated by `StrMd5IsDigest` |
| HmacMd5.KeyWordsAreHashedKey | core/src/plugins/gui.ajax/res/js/core/util/HasherUtils.js:317-318 | a key of more than 16 words, i.e. more than 64 bytes, is replaced by its MD5, as section 2 of RFC 2104 prescribes |
| HmacMd5.PadsAreRepeated | core/src/plugins/gui.ajax/res/js/core/util/HasherUtils.js:323-324 | 909522486 and 1549556828 are the bytes 0x36 and 0x5C of RFC 2104 repeated four times |
| HmacMd5.PadWordsAreXor | core/src/plugins/gui.ajax/res/js/core/util/HasherUtils.js:320-325 | `ipad` and `opad` are the words of the zero-filled 64-byte key block xored with 0x36 and 0x5C bytes; missing key words count as 0 |
| HmacMd5.CoreHmacIsHmac | core/src/plugins/gui.ajax/res/js/core/util/HasherUtils.js:316-329 | `core_hmac_md5` returns the words whose bytes are HMAC-MD5 of RFC 2104 of the low bytes of key and data |
| HmacMd5.CoreHmacMd5 | core/src/plugins/gui.ajax/res/js/core/util/HasherUtils.js:316-329 | models `core_hmac_md5`; `CoreHmacIsHmac` states that it computes HMAC-MD5 |
| HmacMd5.HexHmacIsHmac | core/src/plugins/gui.ajax/res/js/core/util/HasherUtils.js:44-46 | `hex_hmac_md5` is the hex encoding of the HMAC |
| HmacMd5.HexHmacMd5 | core/src/plugins/gui.ajax/res/js/core/util/HasherUtils.js:44-46 | models `hex_hmac_md5`; its output is stated by `HexHmacIsHmac` |
| HmacMd5.B64HmacIsHmac | core/src/plugins/gui.ajax/res/js/core/util/HasherUtils.js:49-51 | `b64_hmac_md5` is the base 64 of the HMAC with `b64pad` |
| HmacMd5.B64HmacMd5 | core/src/plugins/gui.ajax/res/js/core/util/HasherUtils.js:49-51 | models `b64_hmac_md5`; its output is stated by `B64HmacIsHmac` |
| HmacMd5.StrHmacIsHmac | core/src/plugins/gui.ajax/res/js/core/util/HasherUtils.js:54-56 | `str_hmac_md5` is the HMAC bytes as characters |
| HmacMd5.StrHmacMd5 | core/src/plugins/gui.ajax/res/js/core/util/HasherUtils.js:54-56 | models `str_hmac_md5`; its output is stated by `StrHmacIsHmac` |
| HmacRfc.XorTwice | core/src/plugins/gui.ajax/res/js/core/util/HasherUtils.js:322-325 | xoring a block with the same pad twice gives it back |
| Utf8.ReplaceCrRemovesCr | core/src/plugins/gui.ajax/res/js/core/util/HasherUtils.js:141 | after the two replacements no carriage return is left |
| Utf8.NormalizeIdempotent | core/src/plugins/gui.ajax/res/js/core/util/HasherUtils.js:141 | normalising line breaks twice is the same as once |
| Utf8.NormalizeWithoutCr | core/src/plugins/gui.ajax/res/js/core/util/HasherUtils.js:141 | a string without a carriage return is left as it is |
| Utf8.Normalize | core/src/plugins/gui.ajax/res/js/core/util/HasherUtils.js:141 | models the line-break replacement; `ReplaceCrRemovesCr`, `NormalizeIdempotent` and `NormalizeWithoutCr` state what it does |
| Utf8.NormalizeExample | core/src/plugins/gui.ajax/res/js/core/util/HasherUtils.js:141 | "a CR LF b CR c" becomes "a LF b LF c": a pair becomes one LF and a lone CR becomes LF |
| Utf8.UnitBytesLength | core/src/plugins/gui.ajax/res/js/core/util/HasherUtils.js:153-159 | a code unit becomes one byte below 128, two below 2048, three otherwise |
| Utf8.EncodeAscii | core/src/plugins/gui.ajax/res/js/core/util/HasherUtils.js:153-154 | a string of code units below 128 is copied unchanged |
| Utf8.EncodeLength | core/src/plugins/gui.ajax/res/js/core/util/HasherUtils.js:153-159 | the encoding has between one and three bytes per code unit |
| Utf8.EncodeKeepsNoCr | core/src/plugins/gui.ajax/res/js/core/util/HasherUtils.js:153-159 | a string without carriage return encodes to bytes without one: only ASCII units are copied, and every other byte written is 0x80 or more |
| Utf8.DecodeEncode | core/src/plugins/gui.ajax/res/js/core/util/HasherUtils.js:153-159 | decoding the bytes gives back the code units |
| Utf8.EncodeInjective | core/src/plugins/gui.ajax/res/js/core/util/HasherUtils.js:153-159 | two strings with the same encoding are equal |
| Utf8.Encode | core/src/plugins/gui.ajax/res/js/core/util/HasherUtils.js:150-166 | the encoding the loop builds, unit by unit; `DecodeEncode`, `EncodeLength` and `EncodeInjective` state what it is |
| Utf8.SurrogateExample | core/src/plugins/gui.ajax/res/js/core/util/HasherUtils.js:157-158 | a surrogate half is encoded by itself as three bytes (0xD83D as ED A0 BD), not joined with its partner |
| Utf8.EncodeUnit | core/src/plugins/gui.ajax/res/js/core/util/HasherUtils.js:150-166 | one pass of the loop: the text written so far plus the pending copy range grows by exactly the unit's bytes |
| Utf8.Utf8Encode | core/src/plugins/gui.ajax/res/js/core/util/HasherUtils.js:129-174 | the loop with its deferred copies returns the encoding of the normalised string; the normalised string has no carriage return, and the result is a string of bytes with none either |
| Base64Rfc.DecodeEncode | core/src/plugins/gui.ajax/res/js/core/util/HasherUtils.js:97-123 | the base 64 encoding with "=" padding decodes back to the bytes |
| Base64Rfc.EncodeLength | core/src/plugins/gui.ajax/res/js/core/util/HasherUtils.js:97-123 | four characters per whole group of three bytes, then the final quantum with its pads |
| Base64Rfc.EncodeShape | core/src/plugins/gui.ajax/res/js/core/util/HasherUtils.js:116-123 | an encoding is alphabet characters, as many as the bits need, followed by two pads after one leftover byte, one after two and none otherwise |
| Base64Rfc.PadCount | core/src/plugins/gui.ajax/res/js/core/util/HasherUtils.js:116-123 | with "=" as the pad the encoding of n bytes ends in exactly (3 - n % 3) % 3 "=" |
| Base64Rfc.ValueOfChar | core/src/plugins/gui.ajax/res/js/core/util/HasherUtils.js:77 | each alphabet character stands for its index in the alphabet string |
| Base64Text.HexetsAreQuantum | core/src/plugins/gui.ajax/res/js/core/util/HasherUtils.js:99-111 | one pass of the loop writes the four characters of the RFC's quantum of the next three bytes |
| Base64Text.AppendGroups | core/src/plugins/gui.ajax/res/js/core/util/HasherUtils.js:97-114 | the `do ... while` loop writes one group of four characters per started three bytes, reading 0 past the end |
| Base64Text.GroupsEncodeAll | core/src/plugins/gui.ajax/res/js/core/util/HasherUtils.js:97-123 | the groups, with the last one or two characters overwritten by "=", are the base 64 of RFC 4648 of the bytes |
| Base64Text.Base64Encode | core/src/plugins/gui.ajax/res/js/core/util/HasherUtils.js:91-125 | the empty string is returned unchanged; any other string becomes the base 64, with "=" padding, of its UTF-8 encoding after line-break normalisation |
| Base64Text.Base64EncodeRoundTrip | core/src/plugins/gui.ajax/res/js/core/util/HasherUtils.js:95-125 | decoding the result gives the UTF-8 bytes, and decoding those gives the normalised string |
| Base64Text.Base64EncodeLength | core/src/plugins/gui.ajax/res/js/core/util/HasherUtils.js:95-125 | for n UTF-8 bytes the result has 4 * ceil(n / 3) characters |
| Base64Text.Base64EncodePads | core/src/plugins/gui.ajax/res/js/core/util/HasherUtils.js:116-123 | the result ends in exactly (3 - n % 3) % 3 "=" after alphabet characters only |
| Slug.ApplyPointwise | core/src/plugins/gui.ajax/res/js/core/util/LangUtils.js:47 | the table's replacements, applied one after another to the whole value, act on each code unit separately and keep the length |
| Slug.TranslateIsFirstMatch | core/src/plugins/gui.ajax/res/js/core/util/LangUtils.js:47 | a unit becomes the letter of the first rule whose range holds it, or stays when none does, since no letter falls in a later range |
| Slug.AsWrittenNTilde | core/src/plugins/gui.ajax/res/js/core/util/LangUtils.js:60 | U+00D1 is caught first by the `[\xC7-\xE7]` rule and becomes 'c' |
| Slug.AsWrittenNRuleDead | core/src/plugins/gui.ajax/res/js/core/util/LangUtils.js:60 | no code unit ever reaches the `[\xD1]` rule first |
| Slug.AsWrittenSmallNTilde | core/src/plugins/gui.ajax/res/js/core/util/LangUtils.js:60 | U+00F1 lies above the range and becomes 'n' |
| Slug.CorrectedNTilde | core/src/plugins/gui.ajax/res/js/core/util/LangUtils.js:60 | with the range written `[\xC7\xE7]`, U+00D1 becomes 'N' through its own rule |
| Slug.CorrectedCedilla | core/src/plugins/gui.ajax/res/js/core/util/LangUtils.js:60 | the corrected rule still makes both C cedillas 'c' |
| Slug.LowerHasNoUpper | core/src/plugins/gui.ajax/res/js/core/util/LangUtils.js:53 | after `toLowerCase` no ASCII capital is left |
| Slug.SqueezeWhitespace | core/src/plugins/gui.ajax/res/js/core/util/LangUtils.js:53 | after `replace(/\s+/g, '-')` no white-space unit is left |
| Slug.SqueezeRunUnits | core/src/plugins/gui.ajax/res/js/core/util/LangUtils.js:53 | the only run-class units left are hyphens |
| Slug.SkipRunEmpty | core/src/plugins/gui.ajax/res/js/core/util/LangUtils.js:53 | skipping the leading run leaves nothing exactly when every unit of the value is in the run |
| Slug.SqueezeAllRun | core/src/plugins/gui.ajax/res/js/core/util/LangUtils.js:53 | a non-empty value made only of run units becomes one hyphen |
| Slug.SqueezeAppend | core/src/plugins/gui.ajax/res/js/core/util/LangUtils.js:53 | the replacement distributes over a concatenation whose seam does not fall inside a run |
| Slug.SqueezeMaximalRun | core/src/plugins/gui.ajax/res/js/core/util/LangUtils.js:53 | each maximal run becomes exactly one hyphen, between the replacements of what lies on either side of it |
| Slug.SqueezeAlternating | core/src/plugins/gui.ajax/res/js/core/util/LangUtils.js:53 | single run units alternating with other units each become one hyphen, the others stay |
| Slug.SqueezeKeepsOthers | core/src/plugins/gui.ajax/res/js/core/util/LangUtils.js:53 | the units outside the runs are kept, in order |
| Slug.SqueezeWhitespaceIdentity | core/src/plugins/gui.ajax/res/js/core/util/LangUtils.js:53 | the white-space replacement changes a value exactly when it has a white-space unit |
| Slug.SqueezeHyphensIdentity | core/src/plugins/gui.ajax/res/js/core/util/LangUtils.js:53 | `replace(/\-{2,}/g, '-')` changes a value exactly when it has two adjacent hyphens |
| Slug.KeepContents | core/src/plugins/gui.ajax/res/js/core/util/LangUtils.js:53 | `replace(/[^a-z0-9-]/g, '')` leaves exactly the values that are ASCII small letters, digits or hyphens and occur in the input |
| Slug.KeepAppend | core/src/plugins/gui.ajax/res/js/core/util/LangUtils.js:53 | the filter acts on the two parts of a concatenation separately, so it keeps the order of the units |
| Slug.KeepUnit | core/src/plugins/gui.ajax/res/js/core/util/LangUtils.js:53 | a single unit is kept when it is a small letter, digit or hyphen and dropped otherwise |
| Slug.SqueezeHyphens | core/src/plugins/gui.ajax/res/js/core/util/LangUtils.js:53 | after the last replacement no two hyphens are adjacent |
| Slug.SlugShape | core/src/plugins/gui.ajax/res/js/core/util/LangUtils.js:53 | a slug has only characters of `[a-z0-9-]` and never two hyphens in a row |
| Slug.SlugOfSlug | core/src/plugins/gui.ajax/res/js/core/util/LangUtils.js:46-54 | a value of slug characters without a double hyphen is its own slug |
| Slug.SlugIdempotent | core/src/plugins/gui.ajax/res/js/core/util/LangUtils.js:46-54 | slugging a slug changes nothing, for any table that only maps accented letters to ASCII letters |
| Slug.AsWrittenSlugIdempotent | core/src/plugins/gui.ajax/res/js/core/util/LangUtils.js:46-60 | `computeStringSlug` with the table as written is idempotent |
| Slug.CorrectedSlugIdempotent | core/src/plugins/gui.ajax/res/js/core/util/LangUtils.js:46-60 | so is it with the corrected table |
| Slug.AsWrittenNTildeSlug | core/src/plugins/gui.ajax/res/js/core/util/LangUtils.js:60 | the slug of "Ñ" is "c" as written |
| Slug.CorrectedNTildeSlug | core/src/plugins/gui.ajax/res/js/core/util/LangUtils.js:60 | the slug of "Ñ" is "n" with the corrected table |
| Slug.SpacedSlug | core/src/plugins/gui.ajax/res/js/core/util/LangUtils.js:46-54 | for any table that only maps accented letters, " a b " slugs to "-a-b-": leading, inner and trailing spaces each become one hyphen, which stay |
| Slug.Lower | core/src/plugins/gui.ajax/res/js/core/util/LangUtils.js:53 | models `toLowerCase`: each unit gives one or two units; `LowerHasNoUpper` states that no ASCII capital is left |
| Slug.ComputeSlug | core/src/plugins/gui.ajax/res/js/core/util/LangUtils.js:46-54 | models `computeStringSlug` over a given table; `SlugShape`, `SlugIdempotent` and `SpacedSlug` state what it returns |
| Slug.SlugAsWritten | core/src/plugins/gui.ajax/res/js/core/util/LangUtils.js:46-60 | `computeStringSlug` with the table as written; see `AsWrittenSlugIdempotent` and `AsWrittenNTildeSlug` |
| Slug.Slug | core/src/plugins/gui.ajax/res/js/core/util/LangUtils.js:46-60 | `computeStringSlug` with the corrected table; see `CorrectedSlugIdempotent` and `CorrectedNTildeSlug` |
| ObjectMerge.Merge | core/src/plugins/gui.ajax/res/js/core/util/LangUtils.js:14-21 | the result has the own keys of both objects, each own key of `obj2` with `obj2`'s value and each other key with `obj1`'s; the prototype is untouched |
| ObjectMerge.ObjectMerge | core/src/plugins/gui.ajax/res/js/core/util/LangUtils.js:14-21 | the `for ... in` loop with its `hasOwnProperty` test yields that merge whatever order it visits the keys in |
| ObjectMerge.MergeIdempotent | core/src/plugins/gui.ajax/res/js/core/util/LangUtils.js:14-21 | merging the same object twice is the same as once |
| ObjectMerge.InheritedNotCopied | core/src/plugins/gui.ajax/res/js/core/util/LangUtils.js:16 | a key `obj2` only inherits is not copied |
| ObjectMerge.MergeEmpty | core/src/plugins/gui.ajax/res/js/core/util/LangUtils.js:14-21 | merging an object without own properties returns the first one unchanged |
| ResourcesManager.SetFormLookup | core/src/plugins/gui.ajax/res/js/core/http/ResourcesManager.js:79-84 | after `addGuiForm` the id maps to the new snippet and every other id to what it had |
| ResourcesManager.SetFormShape | core/src/plugins/gui.ajax/res/js/core/http/ResourcesManager.js:79-84 | the form ids stay distinct; re-adding an id keeps the number of forms, and a new id adds one entry at the end |
| ResourcesManager.SetFormIds | core/src/plugins/gui.ajax/res/js/core/http/ResourcesManager.js:79-84 | every existing form keeps its id and its position |
| ResourcesManager.LookupFound | core/src/plugins/gui.ajax/res/js/core/http/ResourcesManager.js:79-84 | an id has a snippet exactly when some form entry carries it |
| ResourcesManager.HasDependenciesIff | core/src/plugins/gui.ajax/res/js/core/http/ResourcesManager.js:92-107 | after a series of registrations, `hasDependencies` holds exactly when it held before or one of them was `addDependency` |
| ResourcesManager.NewManagerHasDependencies | core/src/plugins/gui.ajax/res/js/core/http/ResourcesManager.js:36-107 | for a new manager, `hasDependencies` holds exactly when `addDependency` has been called |
| ResourcesManager.AddDependency | core/src/plugins/gui.ajax/res/js/core/http/ResourcesManager.js:92-97 | models `addDependency`; `HasDependenciesIff` and `NewManagerHasDependencies` state its effect |
| ResourcesManager.HasDependencies | core/src/plugins/gui.ajax/res/js/core/http/ResourcesManager.js:105-107 | models `hasDependencies` as a truth value; `HasDependenciesIff` states when it holds |
| ResourcesManager.AddJsThenLoad | core/src/plugins/gui.ajax/res/js/core/http/ResourcesManager.js:52-57 | a JS file added last is loaded after the other JS files and before any style sheet, and nothing else changes in the load |
| ResourcesManager.AddJSResource | core/src/plugins/gui.ajax/res/js/core/http/ResourcesManager.js:52-57 | models `addJSResource`; its effect on `load` is stated by `AddJsThenLoad` |
| ResourcesManager.AddCssThenLoad | core/src/plugins/gui.ajax/res/js/core/http/ResourcesManager.js:65-70 | a style sheet added last is the last resource loaded, and nothing else changes in the load |
| ResourcesManager.ReAddFormThenLoad | core/src/plugins/gui.ajax/res/js/core/http/ResourcesManager.js:79-84 | re-adding a form id keeps the number of load events and the order of the form ids |
| ResourcesManager.AddCSSResource | core/src/plugins/gui.ajax/res/js/core/http/ResourcesManager.js:65-70 | models `addCSSResource`; its effect on `load` is stated by `AddCssThenLoad` |
| ResourcesManager.AddGuiForm | core/src/plugins/gui.ajax/res/js/core/http/ResourcesManager.js:79-84 | models `addGuiForm`; its effect is stated by `SetFormLookup`, `SetFormShape` and `ReAddFormThenLoad` |
| ResourcesManager.OwnEventsOrder | core/src/plugins/gui.ajax/res/js/core/http/ResourcesManager.js:125-139 | a manager's own events are all its forms, then its JS files, then its style sheets, one event per resource, all issued by it |
| ResourcesManager.Load | core/src/plugins/gui.ajax/res/js/core/http/ResourcesManager.js:115-141 | a loaded manager does nothing. Otherwise the manager ends loaded, its own events come last, other managers only gain the loaded flag, and only managers ranked no higher are loaded; the events of the dependencies are stated by `LoadTrace` |
| ResourcesManager.LoadDependencies | core/src/plugins/gui.ajax/res/js/core/http/ResourcesManager.js:118-124 | every dependency the registry knows ends loaded; names it does not know are skipped; only managers ranked below the caller are loaded; the events are stated by `DependenciesTrace` |
| ResourcesManager.LoadTrace | core/src/plugins/gui.ajax/res/js/core/http/ResourcesManager.js:115-141 | the events of `load` are exactly the own events of the managers it marks loaded, each as one block, in the order it marks them, each manager once; that order loads every pending dependency before the manager that needs it, holds only the manager and what it depends on, and ends with the manager; for the manager's own dependency list, the managers loaded for each entry come after those for the entries before it (the lists of the dependencies themselves are ordered by `LoadOrdered`) |
| ResourcesManager.DependenciesTrace | core/src/plugins/gui.ajax/res/js/core/http/ResourcesManager.js:118-124 | the same for the loop over the dependency list: exactly the blocks of the managers it marks loaded, and for every j the managers loaded for the first j entries are a prefix of the order |
| ResourcesManager.LoadOrdered | core/src/plugins/gui.ajax/res/js/core/http/ResourcesManager.js:115-124 | the order in which `load` marks managers loaded is the depth-first load order: for every manager loaded on the way, an order for each entry of its own list in turn, in the registry the entries before it left, then the manager |
| ResourcesManager.DependenciesOrdered | core/src/plugins/gui.ajax/res/js/core/http/ResourcesManager.js:118-124 | the loop over a dependency list loads, for each pending entry in turn, exactly that entry's load order, and skips entries that are absent or loaded |
| ResourcesManager.LoadOrderUnique | core/src/plugins/gui.ajax/res/js/core/http/ResourcesManager.js:115-124 | at most one order fits that description, so together with `LoadTrace` the events of `load` are fixed |
| ResourcesManager.ListOrderUnique | core/src/plugins/gui.ajax/res/js/core/http/ResourcesManager.js:118-124 | at most one order fits a dependency list from a given entry on |
| ResourcesManager.LoadLeaves | core/src/plugins/gui.ajax/res/js/core/http/ResourcesManager.js:115-141 | after `load`, the registry is the old one with exactly the managers of its order marked loaded |
| ResourcesManager.LoadNestedDependencies | core/src/plugins/gui.ajax/res/js/core/http/ResourcesManager.js:115-141 | with `m` depending on `a`, and `a` on `c` and then `d`, `load` of `m` issues the own parts of `c`, `d`, `a` and `m`, in that order |
| ResourcesManager.LoadTwoDependencies | core/src/plugins/gui.ajax/res/js/core/http/ResourcesManager.js:115-141 | a manager with two unloaded dependencies that have none of their own: the events are the first dependency's, then the second's, then the manager's |
| ResourcesManager.LoadTwice | core/src/plugins/gui.ajax/res/js/core/http/ResourcesManager.js:116-140 | a second `load` issues no event and changes nothing |
| ResourcesManager.LoadLoadsDependencies | core/src/plugins/gui.ajax/res/js/core/http/ResourcesManager.js:118-124 | after `load` every dependency the registry has is loaded |
| ResourcesManager.CycleHasNoRank | core/src/plugins/gui.ajax/res/js/core/http/ResourcesManager.js:116-121 | two unloaded managers that depend on each other admit no ranking: the flag is set only after the recursion, which would not end |
| ResourcesManager.RegisterAllAppend | core/src/plugins/gui.ajax/res/js/core/http/ResourcesManager.js:52-97 | registering two series one after the other is registering their concatenation |
| ResourcesManager.ResourcesNode | core/src/plugins/gui.ajax/res/js/core/http/ResourcesManager.js:215-224 | the children of a `resources` node append their `js` entries to the JS files and their `css` entries to the style sheets, in document order, and change nothing else |
| ResourcesManager.DependenciesNode | core/src/plugins/gui.ajax/res/js/core/http/ResourcesManager.js:225-230 | the children of a `dependencies` node append only their `pluginResources` names, in document order |
| ResourcesManager.XmlNodeKinds | core/src/plugins/gui.ajax/res/js/core/http/ResourcesManager.js:212-239 | `loadFromXmlNode` handles `resources` and `dependencies` nodes so, and any other name but `clientForm` registers nothing |
| ResourcesManager.ClientFormNode | core/src/plugins/gui.ajax/res/js/core/http/ResourcesManager.js:231-238 | a `clientForm` without a theme or with the current theme adds its first child's text under its non-empty id; one of another theme adds nothing; one without a child is a TypeError |
| ResourcesManager.LoadFromXmlNode | core/src/plugins/gui.ajax/res/js/core/http/ResourcesManager.js:212-239 | models `loadFromXmlNode`; `ResourcesNode`, `DependenciesNode`, `ClientFormNode` and `XmlNodeKinds` state what each kind of child does |

## Left out

- Md5Agreement.CoreMd5IsMd5: holds for strings of fewer than 2^28 characters only. From 2^31 bits on, `len >> 5` goes negative, and lengths of 2^32 bits or more are stored modulo 2^32. The padding of such messages is modelled (`WordOfBit`, `LengthSlot`) but not related to the RFC.
- HmacMd5.CoreHmacIsHmac: holds under the same bound on the key and on 64 bytes plus the data.
- Md5Render.HexMd5IsDigest, Md5Render.B64Md5IsDigest, Md5Render.StrMd5IsDigest and the HMAC renderings: the same bound.
- `md5_vm_test` and the `base64_encode` doc-comment example are not evaluated. They are known-answer checks on concrete strings, and computing a digest by unfolding is beyond what the verifier does cheaply.
- Md5Packing.Str2Binl: the properties of `str2binl` (`Str2BinlPacks`, `Str2BinlPlacesChars`, `Binl2StrOfStr2Binl`) are stated for at most 2^28 characters only. The function models the signed index `i >> 5` for every length, and `Str2BinlPastLimit` shows that the packing fails beyond the bound.
- Md5Packing.Binl2StrIsBytes: stated, like `Str2BinlOfBinl2Str`, for at most 2^26 words. Past that, `i >> 5` is negative and then wraps, so characters read 0 or the bytes of a low word, as `Binl2StrPastLimit` shows.
- Md5Render.Binl2HexEncodes, Md5Render.Binl2HexDecodes, Md5Render.Binl2B64Encodes and Md5Render.Binl2B64Decodes: stated for at most 2^29 words. Beyond that, byte 2^31 and the bytes after it are read through a negative `i >> 2`, and later bytes through a wrapped one, so they are not the array's bytes.
- Md5Render.Binl2Hex: the model reads words through the signed `i >> 2` for every length, but its encoding is proved only up to 2^29 words; `Binl2HexPastLimit` shows the first byte that goes wrong beyond.
- Md5Render.Binl2B64: the same bound as `binl2hex`; `Binl2B64PastLimit` shows the first byte that goes wrong beyond.
- Md5Core.CoreMd5: `core_md5` writes the 0x80 marker and the bit length into the caller's array `x` in place. The model returns the padded words as a new sequence. No caller reads `x` afterwards, so nothing observable is lost.
- `chrsz` is fixed at 8. The 16-bit mode of `str2binl` and `binl2str` is not modelled.
- `hexcase` and `b64pad` are the parameters `upper` and `pad`, not global variables.
- JavaScript coercions are modelled only as "a missing array word or string character reads as 0". A non-string argument and `null` or `undefined` input to `base64_encode` are not modelled.
- `LangUtils.parseUrl`: it relies on global regular-expression matching, the legacy `RegExp.$n` statics and Prototype's `$A`.
- Slug.LowerUnit: `toLowerCase` is modelled for the ASCII and Latin-1 capitals, U+0130 and U+212A. Every other unit is kept as it is. Its lower case, where it has one, is neither ASCII nor white space, so the filter removes it either way.
- ObjectMerge.ObjectMerge: the order in which `for ... in` visits keys is left open rather than fixed. Getters, non-enumerable properties and aliasing between the two objects are not modelled.
- The bodies of `loadJSResource`, `loadCSSResource` and `loadGuiForm` are left out; each call is an event in the trace. Their checks of `window`, of the existing `link` elements and of the form container, and the `PydioApi.loadLibrary` and Prototype DOM calls, are not modelled.
- `addImageLibrary` writes a `window` global; `img_library` children register nothing here.
- `loadAutoLoadResources` runs XPath over the XML registry.
- `pydio.Parameters` lookups are left out. The current theme is a parameter of `loadFromXmlNode`.
- ResourcesManager.HasDependencies: `hasDependencies` returns the dependency array itself or `false`. The model returns a truth value. The array exists only once something has been added, so the value is truthy exactly when the list is non-empty.
- ResourcesManager.Load: `resourcesRegistry` is a map from names to managers. A manager appears once, and managers do not alias one another. A name absent from the map, including null read as "null", is skipped. A dependency named like a property the registry object inherits (such as "constructor") is not modelled: the source finds it truthy and then fails calling its `load`, while the model skips it as absent.
- ResourcesManager.Load: requires a ranking of all managers not yet loaded, with each ranked above its pending dependencies. That is an acyclic dependency graph among them, a little more than the source needs, since only the managers reachable from the one loaded must be acyclic. A cycle makes the source recurse without end, as `CycleHasNoRank` shows.
- ResourcesManager.AddJSResource: registration acts on the `resources` record, so the `loaded` flag cannot change. The append itself is the function's definition; its effect is stated through `load` (`AddJsThenLoad`, `AddCssThenLoad`).
- The Babel `_classCallCheck` and `_createClass` boilerplate, and `mainFormContainerId`, which only the DOM loaders use.

## Findings

| source | as written | input that shows it | evidently intended | confidence | as-written member | corrected member |
|---|---|---|---|---|---|---|
| core/src/plugins/gui.ajax/res/js/core/util/LangUtils.js:60 | the C-cedilla rule is the range `/[\xC7-\xE7]/g`, which comes before the `[\xD1]` rule and also covers U+00D0, U+00D1, U+00D7, U+00D8, U+00DD-U+00DF | `computeStringSlug("Ñ")` gives "c", and the `[\xD1]` → 'N' rule can never fire | the class `[\xC7\xE7]` (Ç and ç), so "Ñ" slugs to "n" | high (not executed) | Slug.AsWrittenNTildeSlug | Slug.CorrectedNTildeSlug |
