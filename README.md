# percent_encoding_lite, modelled in Dafny

This project models the Rust crate `percent_encoding_lite`, a small percent-encoding
(URL-encoding) codec that lives entirely in `src/lib.rs`. The crate has three parts:

- `Bitmask`: the set of "safe" bytes. It is three `u32` words covering code points
  32..=127. It offers `contains`, `add`, `remove`, `add_all` and `remove_all`, and the
  presets `EMPTY`, `URI_COMPONENT`, `URI`, `RFC3986` and `PATH`, built by composing
  those operations.
- `encode(src, mask)`: space becomes `+`, a safe byte is copied, and every other byte
  becomes `%` and two upper-case hex digits.
- `decode(src)`: a cursor loop that turns `+` into a space and `%XY` into the byte
  `XY`. It has its own handling of `%` sequences that are not escapes.

Files:

- `bytes.dfy` (module `ByteStrings`): the byte type `u8`, an integer newtype
  0..=255, and `Option`.
- `bitmask.dfy` (module `Bitmasks`):
  - `Bitmask` as three `bv32` words, with `contains`, `add` and `remove` as functions.
  - `add_all` and `remove_all` as methods with `while` loops. Each is proved equal to a
    left fold (`FoldAdd`, `FoldRemove`).
  - The five presets, composed exactly as in the source.
  - Membership lemmas for all of the above.
- `codec.dfy` (module `Codec`):
  - `encode` as a method with a `for` loop, proved equal to the specification function
    `Encoded`.
  - `decode` as a method with a `while` loop over a cursor, proved equal to `Decoded`.
  - The round trip, the grammar of encoded text, and a decoder with the fallback the
    code evidently intended (see Findings).

The decoder is modelled as the code is written. After a `%` that starts no escape it
pushes `%` and then skips one more byte, so that byte is lost. When the `%` it reads is
the last byte (as in `"100%"`, but not in `"a%%"`, whose final `%` is the skipped
byte), `&slice[1..]` panics. `Decoded` and `Decode` model exactly this. The behaviour that consumes only
the `%` is a correction, recorded under Findings and modelled separately as
`DecodedLenient`.

## Model

| member | source | states |
|---|---|---|
| `Bitmasks.Contains` | src/lib.rs:11-14 | a byte is a member only if it lies in 32..=127; bytes below 32 or above 127 are never members, whatever the words hold |
| `Bitmasks.SlotOfByte` | src/lib.rs:13 | the bit index `ch % 32` equals `(ch - 32) % 32`, so byte `ch` is bit `ch - 32` of the 96 bits, counted from word 0 |
| `Bitmasks.SlotsDistinct` | src/lib.rs:13 | two in-range bytes use the same word and bit exactly when they are the same byte |
| `Bitmasks.EverySlotUsed` | src/lib.rs:7 | each of the 96 bits of the three words is the slot of some byte in 32..=127 |
| `Bitmasks.SameMembersSameMask` | src/lib.rs:7 | two bitmasks with the same members are the same three words |
| `Bitmasks.Add` | src/lib.rs:17-22 | after `add(ch)`, `ch` is a member exactly when it lies in 32..=127; an out-of-range `ch` leaves the mask unchanged |
| `Bitmasks.Remove` | src/lib.rs:35-40 | after `remove(ch)`, `ch` is not a member; an out-of-range `ch` leaves the mask unchanged |
| `Bitmasks.AddMembers` | src/lib.rs:17-22 | after `add(ch)` the members are the old members plus `ch` when `ch` is in range; every other byte keeps its membership |
| `Bitmasks.RemoveMembers` | src/lib.rs:35-40 | after `remove(ch)` the members are the old members minus `ch`; every other byte keeps its membership |
| `Bitmasks.AddPresent` | src/lib.rs:17-22 | `add` of a member or of an out-of-range byte returns the mask unchanged |
| `Bitmasks.RemoveAbsent` | src/lib.rs:35-40 | `remove` of a non-member (including every out-of-range byte) returns the mask unchanged |
| `Bitmasks.AddIdempotent` | src/lib.rs:17-22 | adding the same byte twice equals adding it once |
| `Bitmasks.RemoveIdempotent` | src/lib.rs:35-40 | removing the same byte twice equals removing it once |
| `Bitmasks.FoldAdd` | src/lib.rs:25-32 | the mask `add_all(chars)` computes, the left fold of `add` over `chars`, keeps every member of the starting mask |
| `Bitmasks.FoldRemove` | src/lib.rs:43-50 | the mask `remove_all(chars)` computes, the left fold of `remove` over `chars`, holds no byte the starting mask did not |
| `Bitmasks.FoldAddMembers` | src/lib.rs:25-32 | after `add_all(chars)` the members are the old members plus the in-range bytes of `chars` |
| `Bitmasks.FoldRemoveMembers` | src/lib.rs:43-50 | after `remove_all(chars)` the members are the old members minus the bytes of `chars` |
| `Bitmasks.FoldAddOrderIrrelevant` | src/lib.rs:25-32 | `add_all` over two strings with the same bytes gives the same mask, whatever their order and repetitions |
| `Bitmasks.FoldRemoveOrderIrrelevant` | src/lib.rs:43-50 | `remove_all` over two strings with the same bytes gives the same mask |
| `Bitmasks.AddAll` | src/lib.rs:25-32 | the `while` loop returns the left fold of `add` over `chars` |
| `Bitmasks.RemoveAll` | src/lib.rs:43-50 | the `while` loop returns the left fold of `remove` over `chars` |
| `Bitmasks.EmptyHoldsNothing` | src/lib.rs:52 | `EMPTY` has no members |
| `Bitmasks.UriComponentMembers` | src/lib.rs:53-57 | `URI_COMPONENT` holds exactly the bytes of the four strings it is built from |
| `Bitmasks.UriComponentRanges` | src/lib.rs:53-57 | `URI_COMPONENT` is exactly A-Z, a-z, 0-9 and ``-_.!~*'()`` |
| `Bitmasks.UriMembers` | src/lib.rs:58 | `URI` is `URI_COMPONENT` plus `;/?:@&=+$,#` |
| `Bitmasks.Rfc3986Members` | src/lib.rs:59 | `RFC3986` is `URI` plus `[]`, minus ``!'()*`` |
| `Bitmasks.PathIsUriComponent` | src/lib.rs:60 | `PATH` removes `/` from `URI_COMPONENT`, which never held it, so `PATH == URI_COMPONENT` |
| `Bitmasks.PresetSpecialBytes` | src/lib.rs:52-60 | no preset holds `%`; `URI` and `RFC3986` hold `+` and `/`; `URI_COMPONENT` and `PATH` hold neither |
| `Codec.HexValue` | src/lib.rs:108 | `to_digit(16)` gives a value exactly for `0-9`, `A-F` and `a-f`, and that value is below 16 |
| `Codec.HexValueOfHex` | src/lib.rs:63 | reading digit `k` of `HEX` back with `to_digit(16)` gives `k` |
| `Codec.HexValueCaseInsensitive` | src/lib.rs:108 | `a`-`f` read the same as `A`-`F` |
| `Codec.UnhexOfEscape` | src/lib.rs:81-82 | the two digits `HEX[ch >> 4]`, `HEX[ch & 0xF]` are hex digits and spell `ch` again |
| `Codec.EncodeByte` | src/lib.rs:75-83 | one byte encodes to one byte, or to three bytes exactly when it is neither a space nor safe; the three are `%` and two upper-case digits from `HEX` that spell the byte; every output byte is in 33..=127 |
| `Codec.Encoded` | src/lib.rs:72-86 | the encoding of `n` bytes has length between `n` and `3n`, and every byte of it is in 33..=127 |
| `Codec.EncodedAppend` | src/lib.rs:74-84 | encoding works byte by byte: encoding `a + b` gives the encoding of `a` followed by the encoding of `b` |
| `Codec.Encode` | src/lib.rs:72-86 | the `for` loop returns exactly `Encoded(src, mask)` |
| `Codec.EncodedAllSafe` | src/lib.rs:75-78 | if every byte is a space or safe, the output is the input with spaces turned into `+`; with no spaces it is the input itself |
| `Codec.Decoded` | src/lib.rs:95-116 | the decoding, when there is no panic, is never longer than its input |
| `Codec.Decode` | src/lib.rs:95-116 | the cursor loop returns exactly `Decoded(src)`, and `None` where the source panics |
| `Codec.PanicNeedsTrailingPercent` | src/lib.rs:106 | `decode` panics only on an input whose last byte is `%` |
| `Codec.PlainThenPercentPanics` | src/lib.rs:98-106 | text without `+` and `%` followed by one `%` makes `decode` panic |
| `Codec.SkippedFinalPercent` | src/lib.rs:105-106 | a last byte `%` skipped after another `%` causes no panic: `"a%%"` decodes to `"a%"` |
| `Codec.DecodePlainPrefix` | src/lib.rs:101-104 | text without `+` and `%` is copied byte for byte, and decoding continues after it |
| `Codec.DecodeEscape` | src/lib.rs:107-112 | an escape written by the encoder decodes to its byte and consumes three bytes, whatever follows it |
| `Codec.DecodeEscaped` | src/lib.rs:91-93 | text made only of escapes, as in the documented example, decodes to the bytes they spell |
| `Codec.DecodeEncodeByte` | src/lib.rs:75-83 | under a mask without `+` and `%`, decoding one byte's encoding followed by anything gives that byte first |
| `Codec.RoundTrip` | src/lib.rs:72-116 | if the mask holds neither `+` nor `%`, then `decode(encode(v, mask)) == v` for every `v`, and decoding never panics |
| `Codec.EncodeInjective` | src/lib.rs:72-86 | under such a mask, different inputs have different encodings |
| `Codec.PresetRoundTrip` | src/lib.rs:53-60 | the round trip holds for `URI_COMPONENT` and `PATH` |
| `Codec.PlusBreaksRoundTrip` | src/lib.rs:101-102 | a mask holding `+` copies `+`, and `decode` reads it back as a space |
| `Codec.PresetBreaksRoundTrip` | src/lib.rs:58-59 | the round trip fails for `URI` and `RFC3986` |
| `Codec.EncodedWellFormed` | src/lib.rs:79-83 | under a mask without `%`, every `%` in the encoder's output starts an escape of two hex digits |
| `Codec.DecodersAgreeOnWellFormed` | src/lib.rs:101-112 | on such text, `decode` takes no fallback and no panic path, and agrees with the lenient decoder |
| `Codec.DecodedLenient` | src/lib.rs:106-109 | the corrected decoder never fails, and its output is never longer than its input |
| `Codec.LenientKeepsMalformed` | src/lib.rs:106-109 | the corrected decoder returns text without `+` and without `%XY` escapes unchanged, so malformed `%` sequences survive whole |
| `Codec.LenientRoundTrip` | src/lib.rs:95-116 | the corrected decoder undoes the encoder under the same masks |
| `Codec.PercentPairDropsByte` | src/lib.rs:109 | as written, `"%GG"` decodes to `"%G"`; the corrected decoder returns `"%GG"` |
| `Codec.PercentOneByteDropsIt` | src/lib.rs:106 | as written, `"100%2"` decodes to `"100%"`; the corrected decoder returns `"100%2"` |
| `Codec.TrailingPercentPanics` | src/lib.rs:106 | as written, `"100%"` panics; the corrected decoder returns `"100%"` |
| `Codec.MalformedEscapes` | src/lib.rs:106-109 | as written, `"%GG"` decodes to `"%G"`, `"100%2"` to `"100%"`, and `"100%"` panics; the corrected decoder returns each unchanged |

## Left out

- Rust `String`, `char` and UTF-8 handling are left out. `out.push(ch as char)`, `src.as_bytes()` and `String::from_utf8` in the tests are not modelled. The encoder only emits bytes in 33..=127, so its `String` is its bytes, and both sides are byte strings here.
- `char::to_digit(16)` and `Option::zip` are library calls. `HexValue`, one explicit function over `0-9A-Fa-f`, stands in for them.
- Rust's panic and unwinding are not modelled. The panic at `&slice[1..]` on an empty slice is the value `None` of `Decoded` and `Decode`.
- The derived `Debug`, `Clone`, `Copy`, `Default`, `PartialEq` and `Eq`, and the `with_capacity` hint, carry no behaviour and are not modelled.
- `const fn` evaluation at compile time is not modelled. The presets are Dafny constants built by the same composition.
- Integer widths are explicit where they matter. Bytes are the integers 0..=255 and the mask words are `bv32`. Index arithmetic on `usize` cannot overflow here, and `(hi * 16 + lo) as u8` never truncates because both digits are below 16.
- The documentation and test strings at src/lib.rs:68-70, 91-93 and 123-142 are not restated literally. The model proves the general facts each of them is an instance of:
  - src/lib.rs:68-70 (encode under `URI`): `EncodedAllSafe` with `UriMembers` and `UriComponentRanges`. Every byte is a space or a member of `URI`, so spaces become `+` and the rest is copied.
  - src/lib.rs:91-93 (decode of escapes only): `DecodeEscaped`.
  - src/lib.rs:123-131 (decode of plain text, `+` and escapes): `PresetRoundTrip`. The encoded text is the `URI_COMPONENT` encoding of the expected bytes, so it decodes to them. Piece by piece the same result follows from `DecodePlainPrefix`, the `+` case of `Decoded` and `DecodeEscape`.
  - src/lib.rs:135-138 (encode under `URI_COMPONENT` with escapes): `EncodeByte` fixes the form of each byte. A space becomes `+`, a member is copied, and anything else becomes `%` and two upper-case digits from `HEX`, as in `%2C`, `%5B` and `%D0`. `EncodedAppend` puts the pieces together, and `UriComponentRanges` says which bytes are members.
  - src/lib.rs:140-142 (encode of an all-safe string): `EncodedAllSafe` with `UriComponentRanges`. The string has no space and only members, so it encodes to itself.
  - The short malformed-escape cases are proved literally in `MalformedEscapes`.

## Findings

| source | as written | input that shows it | evidently intended | confidence | as-written member | corrected member |
|---|---|---|---|---|---|---|
| src/lib.rs:106-109 | on a `%` that starts no escape, `slice = &slice[1..]` drops one more byte, although line 99 already stepped past the `%`; with nothing left after `%` it slices an empty slice | `"100%"` panics; `"%GG"` decodes to `"%G"`; `"100%2"` decodes to `"100%"` | push `%` and consume only it, so the following bytes are read again and decoding never fails | medium; not executed | `Codec.MalformedEscapes` | `Codec.LenientKeepsMalformed` |

`Decoded` and `Decode` model the code as written. `DecodedLenient` is the corrected
decoder. The round trip (`LenientRoundTrip`) and the agreement with the code on every
well-formed text (`DecodersAgreeOnWellFormed`) are proved for it. So the two decoders
differ only on text that the encoder never produces under a mask without `%`. A mask
that holds `%` (a caller may `add(b'%')`) copies `%` unescaped, and on such output the
two decoders can differ.
