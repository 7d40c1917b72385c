# temp-otp in Dafny

This project models the two pieces of temp-otp that compute a time-based one-time
password:

- `Base32` (src/zero-base32.ts): the RFC 4648 section 6 alphabet
  `ABCDEFGHIJKLMNOPQRSTUVWXYZ234567` with '=' padding.
  - `encode` writes every byte as 8 bits, appends zero bits up to a multiple of 5,
    maps each 5-bit group to the alphabet, and appends '=' up to a multiple of 8
    characters.
  - `decode` removes every '=', writes every character's alphabet index as 5 bits,
    and cuts that bit string into 8-bit slices. A last slice shorter than 8 bits
    still becomes a byte.
- `TOTP.generate` (src/zero-totp.ts): the time-step counter of RFC 6238 section 4,
  the counter written as 8 big-endian bytes, and the dynamic truncation of RFC 4226
  section 5.3. The code is then reduced modulo 10^digits and left-padded with '0'.

Files:

- `bits.dfy` (module `Bits`): bit strings written as `seq<bool>`, most significant
  bit first. A JavaScript bit-string such as `byte.toString(2).padStart(8, '0')`
  becomes `ToBits(byte, 8)`, and `parseInt(chunk, 2)` becomes `FromBits(chunk)`.
- `base32.dfy` (module `Base32`): the codec.
  - `Encoding` and `Decoding` are the specification functions.
  - The methods `Encode` and `Decode` follow the source's loops step by step and are
    proved to compute those functions.
- `totp.dfy` (module `Totp`): the password derivation.
  - `Otp` is the specification function.
  - `Generate` follows the source and is proved equal to `Otp`.
  - `WriteCounter` fills an 8-byte array in place.

HMAC-SHA1 is a parameter `hmac` of type `(seq<Byte>, seq<Byte>) -> Digest`, where a
`Digest` is 20 bytes. The clock reading `Date.now()` is the parameter `nowMs`.

Two points where the code differs from what an RFC 4648 decoder does:

- An RFC 4648 decoder discards the bits left over after the last whole byte. The
  code (src/zero-base32.ts:104-107) turns a final slice shorter than 8 bits into one
  more byte. Hence `decode(encode(B))` is `B` only when `|B|` is a multiple of 5, and
  otherwise `B` followed by 0x00 (`Base32.RoundTrip`).
- The code rejects no character. For a character outside the alphabet `indexOf`
  gives -1, and "-1" is spliced into the bit string (src/zero-base32.ts:99-100). The
  model therefore requires every character to be '=' or an alphabet character
  (`Base32.Decodable`). It has no error result.

## Model

| member | source | states |
|---|---|---|
| Bits.ToBits | src/zero-base32.ts:39 | `toString(2).padStart(width, '0')` gives exactly `width` bits |
| Bits.BitOfValue | src/zero-base32.ts:39 | the binary digit of weight 2^k of v is (v / 2^k) mod 2, the closed form behind the most significant bit first order of `ToBitsAt` |
| Bits.ToBitsAt | src/zero-base32.ts:39 | bit k of the 8-bit (or 5-bit) form of a value is its binary digit of weight 2^(width-1-k), so the padded `toString(2)` is most significant bit first |
| Bits.FromBits | src/zero-base32.ts:64 | `parseInt(bits, 2)` of k bits is below 2^k |
| Bits.FromBitsOfToBits | src/zero-base32.ts:64 | reading back the width-bit form of a value below 2^width gives the value |
| Bits.ToBitsOfFromBits | src/zero-base32.ts:105 | writing the value of a bit string with its own width gives the bit string back |
| Bits.Pack | src/zero-base32.ts:38-40 | appending the width-bit forms of n values gives width * n bits |
| Bits.PackSlice | src/zero-base32.ts:38-40 | bits w*i .. w*i+w of the concatenated forms are the form of value i |
| Bits.PackCons | src/zero-base32.ts:38-40 | the concatenation starts with the first value's bits |
| Base32.AlphabetShape | src/zero-base32.ts:21-31 | the alphabet has 32 pairwise distinct characters; 'A' is 0, '2' is 26, '7' is 31; '=' is not among them |
| Base32.IndexOf | src/zero-base32.ts:99 | `indexOf` gives -1 exactly when the character is absent, and otherwise its first position |
| Base32.IndexOfAlphabet | src/zero-base32.ts:99 | `indexOf` of the character at position i of the alphabet is i |
| Base32.AlphabetRanges | src/zero-base32.ts:21-31 | a character is in the alphabet exactly when it is in 'A'..'Z' or '2'..'7' |
| Base32.IndexOfChar | src/zero-base32.ts:99 | `indexOf` of an alphabet character is the value 'A'=0 .. '7'=31 |
| Base32.PadLengthStops | src/zero-base32.ts:43-59 | appending characters reaches a multiple of m at exactly PadLength of them, so both padding loops stop there |
| Base32.Groups | src/zero-base32.ts:62-65 | n 5-bit groups give n characters |
| Base32.EncoderBits | src/zero-base32.ts:38-59 | the padded bit string has 5 * ceil(8n/5) bits |
| Base32.Encoding | src/zero-base32.ts:33-88 | the encoded string's length is a multiple of 8 |
| Base32.Encode | src/zero-base32.ts:33-88 | the method returns `Encoding(buffer)` |
| Base32.BinaryOfBytes | src/zero-base32.ts:38-40 | the loop builds the 8-bit forms of all bytes in order |
| Base32.PadBinary | src/zero-base32.ts:43-59 | the loop appends exactly the zero bits needed for a multiple of 5 |
| Base32.CharsOfBinary | src/zero-base32.ts:62-65 | the loop maps each 5-bit chunk to its alphabet character |
| Base32.PadEncoded | src/zero-base32.ts:67-85 | the loop appends exactly the '=' needed for a multiple of 8 |
| Base32.EncodingMsbFirst | src/zero-base32.ts:38-44 | output character i is the alphabet entry for input bits 5i..5i+4, most significant first, with zero bits past the last byte |
| Base32.EncodingLength | src/zero-base32.ts:38-69 | the output length is ceil(8n/5) rounded up to a multiple of 8; fewer than 8 characters are padding; the output is "" exactly for no bytes |
| Base32.EncodingPads | src/zero-base32.ts:67-69 | every character after the first ceil(8n/5) is '=' |
| Base32.EncodingAlphabet | src/zero-base32.ts:62-65 | each of the first ceil(8n/5) characters is in the alphabet |
| Base32.EncodingOfF | src/zero-base32.ts:33-88 | "f" encodes to "MY======" |
| Base32.EncodingOfFo | src/zero-base32.ts:33-88 | "fo" encodes to "MZXQ====" |
| Base32.EncodingOfFoo | src/zero-base32.ts:33-88 | "foo" encodes to "MZXW6===" |
| Base32.EncodingOfFoob | src/zero-base32.ts:33-88 | "foob" encodes to "MZXW6YQ=" |
| Base32.EncodingOfFooba | src/zero-base32.ts:33-88 | "fooba" encodes to "MZXW6YTB" |
| Base32.EncodingOfFoobar | src/zero-base32.ts:33-88 | "foobar" encodes to "MZXW6YTBOI======" |
| Base32.EncodingVectors | src/zero-base32.ts:33-88 | all seven RFC 4648 section 10 vectors, including "" for no bytes |
| Base32.StripPadding | src/zero-base32.ts:95 | the stripped string contains no '=' |
| Base32.StripPaddingAppend | src/zero-base32.ts:95 | stripping works piece by piece: the whole string is the concatenation of the stripped parts |
| Base32.StripPaddingCounts | src/zero-base32.ts:95 | every character other than '=' keeps its number of occurrences |
| Base32.StripPaddingKeeps | src/zero-base32.ts:95 | a string without '=' is unchanged |
| Base32.StripPaddingPads | src/zero-base32.ts:95 | a run of '=' strips to "" |
| Base32.StripPaddingDecodable | src/zero-base32.ts:95-100 | after stripping, only alphabet characters are left |
| Base32.StripPaddingDropsPad | src/zero-base32.ts:95 | one '=' anywhere is removed like a trailing one |
| Base32.Indices | src/zero-base32.ts:98-100 | one index is taken per character |
| Base32.DecoderBits | src/zero-base32.ts:97-101 | the bit string has 5 bits per character other than '=' |
| Base32.DecoderBitsAt | src/zero-base32.ts:98-101 | bits 5i..5i+4 read back as the value of character i |
| Base32.BitsToBytes | src/zero-base32.ts:103-107 | at most one byte exactly when there are at most 8 bits, and no bytes exactly for no bits |
| Base32.BitsToBytesLength | src/zero-base32.ts:103-107 | k bits give ceil(k/8) bytes |
| Base32.BitsToBytesAt | src/zero-base32.ts:104-106 | byte j is the value of bits 8j..8j+7, cut short at the end |
| Base32.BitsToBytesShortSlice | src/zero-base32.ts:104-107 | a final slice of fewer than 8 bits becomes a byte equal to its own binary value, below 2^(bits mod 8), not shifted left |
| Base32.DecodingLength | src/zero-base32.ts:97-107 | k characters other than '=' decode to ceil(5k/8) bytes |
| Base32.DecodingAt | src/zero-base32.ts:103-107 | byte j of the decoding is the most significant bit first value of its slice of the character bits |
| Base32.DecodableWithPad | src/zero-base32.ts:95 | inserting '=' keeps a string decodable |
| Base32.DecodingOfStripped | src/zero-base32.ts:95 | the decoding depends only on the characters other than '=' |
| Base32.DecodingIgnoresPad | src/zero-base32.ts:95 | a '=' anywhere in the input, not only at the end, does not change the result |
| Base32.Decoding | src/zero-base32.ts:90-110 | the result is empty exactly when no character other than '=' is left |
| Base32.Decode | src/zero-base32.ts:90-110 | the method returns `Decoding(encodedString)` |
| Base32.BinaryOfChars | src/zero-base32.ts:97-101 | the loop builds the 5-bit forms of the `indexOf` results in order |
| Base32.BytesOfBinary | src/zero-base32.ts:103-107 | the loop with `i += 8` and a clamped `substring` builds `BitsToBytes` |
| Base32.GroupsUnpack | src/zero-base32.ts:62-65 | the encoder's characters are alphabet characters whose indices give back its bits |
| Base32.BitsToBytesOfPack | src/zero-base32.ts:104-107 | slicing the bits of some bytes followed by fewer than 8 extra bits gives the bytes, plus one byte for the extra bits |
| Base32.PadBitsNone | src/zero-base32.ts:43-44 | the encoder appends no zero bits exactly when the byte count is a multiple of 5 |
| Base32.EncodingDecoderBits | src/zero-base32.ts:33-101 | every encoding is decodable, and the decoder rebuilds the encoder's bit string from it |
| Base32.RoundTrip | src/zero-base32.ts:43-44 | decode(encode(B)) is B when \|B\| is a multiple of 5, and B followed by 0x00 otherwise |
| Base32.DecodingOfWhole | src/zero-base32.ts:90-110 | the encoding of a whole number of 5-byte blocks decodes to exactly those bytes |
| Base32.DecodingOfF | src/zero-base32.ts:104-107 | "MY======" decodes to [0x66, 0x00] |
| Base32.DecodingOfFooba | src/zero-base32.ts:90-110 | "MZXW6YTB" decodes to "fooba" |
| Totp.TimeCounter | src/zero-totp.ts:14 | the counter c satisfies c * step <= nowMs < (c + 1) * step, for a step of timeStep * 1000 ms (the floor) |
| Totp.TimeCounterOfWindow | src/zero-totp.ts:14 | every instant in [c * step, (c + 1) * step) has counter c |
| Totp.BigEndian | src/zero-totp.ts:18 | the n-byte form has n bytes |
| Totp.FromBigEndian | src/zero-totp.ts:18 | n bytes read most significant first are below 256^n |
| Totp.FromBigEndianOfBigEndian | src/zero-totp.ts:18 | reading back the n-byte form of a value below 256^n gives the value |
| Totp.BigEndianOfFromBigEndian | src/zero-totp.ts:18 | writing the value of a byte string with its own length gives the string back |
| Totp.BigEndianAt | src/zero-totp.ts:18 | byte j of the n-byte form is the base-256 digit of weight 256^(n-1-j) |
| Totp.CounterBytes | src/zero-totp.ts:17-18 | the counter occupies 8 bytes |
| Totp.CounterBytesRoundTrip | src/zero-totp.ts:17-18 | the 8 bytes are the counter modulo 2^64; read back signed they give the counter; for 0 <= counter < 2^63 read back unsigned they give the counter |
| Totp.WriteCounter | src/zero-totp.ts:17-18 | the 8-byte array written from the last byte to the first holds `CounterBytes(counter)` |
| Totp.Offset | src/zero-totp.ts:33 | the offset is at most 15, so the 4 bytes from it lie inside the 20-byte digest |
| Totp.Code | src/zero-totp.ts:34-38 | the code is below 2^31 |
| Totp.CodeIsBigEndian | src/zero-totp.ts:33-38 | the code is the big-endian value of digest[offset..offset+3] with the top bit cleared |
| Totp.Token | src/zero-totp.ts:41 | the token is below 10^digits |
| Totp.TokenOfWideDigits | src/zero-totp.ts:41 | for 10 or more digits the token is the whole code, because every code is below 2^31 < 10^10 |
| Totp.Decimal | src/zero-totp.ts:44 | `toString()` gives at least one decimal digit, and no leading '0' for a positive number |
| Totp.DecimalValueOfDecimal | src/zero-totp.ts:44 | the decimal digits of n read back as n |
| Totp.DecimalLength | src/zero-totp.ts:44 | a number below 10^k has at most k digits |
| Totp.PadStart | src/zero-totp.ts:44 | `padStart` gives max(\|s\|, width) characters: fill characters, then s |
| Totp.DecimalValueOfPadded | src/zero-totp.ts:44 | leading '0' characters do not change the value |
| Totp.Render | src/zero-totp.ts:44 | the padded decimal string has at least one character and at least `digits` characters |
| Totp.RenderDigits | src/zero-totp.ts:44 | for digits >= 1 and token < 10^digits the result has exactly `digits` characters, all decimal digits, and reads back as the token |
| Totp.Otp | src/zero-totp.ts:33-44 | the password has at least one character and at least `digits` characters |
| Totp.OtpShape | src/zero-totp.ts:33-44 | for digits >= 1 the password is `digits` decimal digits whose value is the code modulo 10^digits; for 0 digits it is "0" |
| Totp.Generate | src/zero-totp.ts:7-45 | the result is `Otp` of the decoded secret, the time counter and the digits. With HMAC as a parameter it depends on nothing else, so equal inputs give equal passwords |
| Totp.OtpIgnoresPad | src/zero-totp.ts:21 | secrets that differ only in where a '=' stands give the same password |
| Totp.ExampleTruncation | src/zero-totp.ts:33-38 | the RFC 4226 section 5.4 digest gives offset 10 and code 0x50ef7f19 = 1357872921 |
| Totp.ExampleToken | src/zero-totp.ts:41-44 | with 6 digits the code 1357872921 becomes "872921" |

## Left out

- HMAC-SHA1 (`crypto.createHmac`, `update`, `digest`) is a foreign library. It is
  the parameter `hmac`, so no HMAC or RFC 6238 end-to-end vector can be checked.
- `Date.now()` is the parameter `nowMs`.
- `timeStep` and `digits` are whole numbers (`nat`), with `timeStep > 0`. Fractional,
  negative or non-finite JavaScript numbers are not modelled.
- Totp.Generate: requires the counter in [-2^63, 2^63), where `writeBigInt64BE`
  accepts it. Outside that range the source throws, which is not modelled.
- Base32.Decode: requires every character to be '=' or in the alphabet. For another
  character the source splices "-1" into the bit string, and that garbage is not
  modelled.
- JavaScript number details are not modelled: floating-point `Math.pow`, and
  `<<`/`&`/`|` on 32-bit signed integers. They are written as exact integer
  arithmetic: `& 0x0f` as `% 16`, `& 0x7f` as `% 128`, `<< k` as a multiplication
  by 2^k, and `|` of disjoint bit ranges as `+`. This is exact for digests of bytes,
  whose codes stay below 2^31.
- Strings are sequences of characters, and a `Buffer` is a sequence of bytes (an
  `array` for the counter buffer). `Buffer.concat` is modelled as appending to a
  sequence.
- src/zero.ts (demo wiring, QR code, console output, `otpauth://` URL) and
  src/zero-secret.ts (secret generation from `Math.random`) are not part of this
  model.
