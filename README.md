# ULID reference codec in Dafny

This project models the small ULID codec kept beside the library's tests (`UlidTest`). The library's parser and printer are checked against it.

A ULID is a 128-bit value. The codec holds it as two Java longs, the most and the least significant 64 bits, in the layout `java.util.UUID` uses. Its text is 26 characters over Crockford's base-32 alphabet `0123456789ABCDEFGHJKMNPQRSTVWXYZ`, in three fields:

- a 48-bit time field, written in 10 characters;
- a first 40-bit random field, written in 8 characters;
- a second 40-bit random field, written in 8 characters.

The codec never does base-32 arithmetic itself. To encode, it prints each field with `Long.toUnsignedString(_, 32)`, pads it with zeros to a fixed width, and transliterates the result from Java's radix-32 digits `0-9a-v` to the Crockford symbols. To decode, it transliterates the other way and reads each field with `Long.parseUnsignedLong(_, 32)`.

Modules, one per layer of the code:

- `JavaLong`: a Java `long` as the 64-bit pattern the codec reads unsigned, an integer 0 <= x < 2^64. It defines `>>>`, `<<` (bits above bit 63 are dropped), `&` and `|`.
- `Radix32`: the library calls the codec relies on:
  - `Character.forDigit` and `Character.digit` in radix 32;
  - `Long.toUnsignedString(_, 32)` and `Long.parseUnsignedLong(_, 32)`;
  - `FixedDigits`, a reference definition of the w-digit rendering of a number.
- `Transliteration`: `transliterate`. It is an imperative method over a `char` array, with nested loops and an early `break`. Its postcondition ties it to the function `Transliterated`.
- `UlidCodec`: the two alphabets and the codec's operations:
  - splitting the two longs into the three fields, and packing them back;
  - `toUuid(time, random1, random2)`;
  - `toTimeComponent`, `toRandomComponent` and `toString(msb, lsb)`;
  - `fromString`.
- `UlidProperties`: what the codec guarantees, stated over the number a text denotes (`TextValue`) and the number a pair of longs denotes (`Uuid.Value`):
  - value → text → value is the identity;
  - text → value → text is the identity exactly when the first character is `'0'..'7'`;
  - texts sort as the values they encode;
  - the particular texts of the smallest and the largest ULID.

Where this code departs from a strict Crockford base-32 decoder (one that rejects bad lengths and unlisted symbols), the model follows the code:

- The code has no length or character check. Text shorter than 26 characters makes `substring` throw. A character that is not a radix-32 digit after transliteration makes `parseUnsignedLong` throw. The model states both as preconditions of `FromString`; characters past the 26th are ignored.
- There is no alphabet check. Unlisted characters that `Character.digit` reads in radix 32 (`'I'`, `'L'`, `'O'`, `'U'`, lower-case `'a'..'v'`) pass through the transliteration unchanged and are accepted with Java's digit values: `'U'` is read as 30 (like `'Y'`), and `'j'` as 19 where `'J'` is 18 (`UnlistedLetters`). Every other character, such as `'w'`..`'z'` or punctuation, also passes through unchanged and then makes `parseUnsignedLong` throw (`UnreadableCharacters`).
- Decoding is not one to one. The time field is read as 10 characters (50 bits), and `time << 16` drops its top two bits. So a text whose first symbol has an index of 8 or more in `ALPHABET_CROCKFORD` decodes like the text with that symbol's index lowered by 8 (`OverflowCollision`, `DecodeEncode`).

## Model

| member | source | states |
|---|---|---|
| UlidCodec.AlphabetJavaDigits | src/test/java/com/github/f4b6a3/ulid/util/internal/UlidTest.java:17 | ALPHABET_JAVA has 32 symbols and its symbol at index d is `Character.forDigit(d, 32)`, the digit Long.parseUnsignedLong reads as d |
| UlidCodec.CrockfordAscending | src/test/java/com/github/f4b6a3/ulid/util/internal/UlidTest.java:16 | ALPHABET_CROCKFORD has 32 symbols in strictly ascending character order |
| UlidCodec.AlphabetsDistinct | src/test/java/com/github/f4b6a3/ulid/util/internal/UlidTest.java:16-17 | neither alphabet repeats a symbol |
| UlidCodec.JavaToCrockford | src/test/java/com/github/f4b6a3/ulid/util/internal/UlidTest.java:173 | a Java digit of value d is transliterated to the Crockford symbol at index d |
| UlidCodec.CrockfordToJava | src/test/java/com/github/f4b6a3/ulid/util/internal/UlidTest.java:119-121 | the Crockford symbol at index k is transliterated to the Java digit of value k |
| UlidCodec.CanonicalToCrockford | src/test/java/com/github/f4b6a3/ulid/util/internal/UlidTest.java:173 | transliterating a canonical numeral gives Crockford text whose symbol at each position has the index of that position's digit value |
| UlidCodec.CrockfordToCanonical | src/test/java/com/github/f4b6a3/ulid/util/internal/UlidTest.java:119-121 | transliterating Crockford text gives a canonical numeral (lower-case digits only) |
| UlidCodec.CrockfordRoundTrip | src/test/java/com/github/f4b6a3/ulid/util/internal/UlidTest.java:119-121 | transliterating a canonical numeral to Crockford and back gives the numeral again |
| Transliteration.FirstIndex | src/test/java/com/github/f4b6a3/ulid/util/internal/UlidTest.java:198-202 | the inner loop's stopping index: the first j with alphabet1[j] == c, or the alphabet's length when there is none |
| Transliteration.TransliterateChar | src/test/java/com/github/f4b6a3/ulid/util/internal/UlidTest.java:198-202 | no contract of its own: the image of one character, the alphabet2 symbol at the first match or the character itself; `TransliteratedAt` states it |
| Transliteration.Transliterated | src/test/java/com/github/f4b6a3/ulid/util/internal/UlidTest.java:195-206 | the reference function for `transliterate`: the result has the length of the input; `TransliteratedAt` states what each position becomes |
| Transliteration.Transliterate | src/test/java/com/github/f4b6a3/ulid/util/internal/UlidTest.java:195-206 | the in-place loops over the char array produce exactly `Transliterated(s, alphabet1, alphabet2)`: each character replaced by its image under the first match |
| Transliteration.TransliteratedAt | src/test/java/com/github/f4b6a3/ulid/util/internal/UlidTest.java:197-203 | a character equal to alphabet1[j], and to no earlier symbol, becomes alphabet2[j]; a character not in alphabet1 is left unchanged |
| Transliteration.TransliteratedAppend | src/test/java/com/github/f4b6a3/ulid/util/internal/UlidTest.java:195-206 | transliterating a concatenation is concatenating the transliterations |
| Transliteration.TransliteratedSlice | src/test/java/com/github/f4b6a3/ulid/util/internal/UlidTest.java:115-121 | transliterating a substring gives the same substring of the transliterated text |
| Transliteration.FirstIndexOfDistinct | src/test/java/com/github/f4b6a3/ulid/util/internal/UlidTest.java:198-202 | in an alphabet without repeats, the search for the symbol at index k stops at k |
| Transliteration.TransliterateInverse | src/test/java/com/github/f4b6a3/ulid/util/internal/UlidTest.java:195-206 | for two same-size alphabets without repeats, transliterating forth and back is the identity on strings over the first alphabet |
| JavaLong.BitAndLowMask | src/test/java/com/github/f4b6a3/ulid/util/internal/UlidTest.java:143-145 | `x & (2^k - 1)` is x modulo 2^k |
| JavaLong.BitOrDisjoint | src/test/java/com/github/f4b6a3/ulid/util/internal/UlidTest.java:147-148 | the OR of a multiple of 2^k and a value below 2^k is their sum |
| JavaLong.And | src/test/java/com/github/f4b6a3/ulid/util/internal/UlidTest.java:143-145 | `x & y` is at most either operand; `BitAndLowMask` and `UlidCodec.MaskFacts` state that the codec's masks keep the low bits |
| JavaLong.Or | src/test/java/com/github/f4b6a3/ulid/util/internal/UlidTest.java:147-148 | the bitwise OR is at least either operand and fits 64 bits; `BitOrDisjoint` states that OR of disjoint bit ranges is a sum |
| JavaLong.Ushr | src/test/java/com/github/f4b6a3/ulid/util/internal/UlidTest.java:164 | `x >>> n` is at most x; `UlidCodec.ShiftFacts` states it is x / 2^n for the codec's distances 16, 24 and 40 |
| JavaLong.Shl | src/test/java/com/github/f4b6a3/ulid/util/internal/UlidTest.java:147-148 | no contract of its own: `x << n` keeps the low 64 bits of x * 2^n; `UlidCodec.ShiftFacts` states it for the codec's distances 16, 24 and 40 |
| UlidCodec.ShiftFacts | src/test/java/com/github/f4b6a3/ulid/util/internal/UlidTest.java:127-128 | `x >>> 16`, `x >>> 24`, `x >>> 40` are x / 2^16, x / 2^24, x / 2^40, and `x << 16`, `x << 24`, `x << 40` are (x mod 2^48) * 2^16, (x mod 2^40) * 2^24, (x mod 2^24) * 2^40 |
| UlidCodec.MaskFacts | src/test/java/com/github/f4b6a3/ulid/util/internal/UlidTest.java:143-145 | `x & 0xffffL`, `x & 0xffffffffffL` and `x & 0xffffffffffffL` are x mod 2^16, x mod 2^40 and x mod 2^48 |
| UlidCodec.OrDisjoint | src/test/java/com/github/f4b6a3/ulid/util/internal/UlidTest.java:127-128 | the ORs the codec builds add their operands, since one operand's bits all lie below the other's |
| Radix32.DigitChar | src/test/java/com/github/f4b6a3/ulid/util/internal/UlidTest.java:183-184 | `Character.forDigit(d, 32)` is a canonical digit that `Character.digit` reads back as d |
| Radix32.DigitValue | src/test/java/com/github/f4b6a3/ulid/util/internal/UlidTest.java:123-125 | `Character.digit(c, 32)` of a radix-32 digit (either case) is below 32 |
| Radix32.CanonicalDigitRoundTrip | src/test/java/com/github/f4b6a3/ulid/util/internal/UlidTest.java:183-184 | `forDigit(digit(c, 32), 32)` is c for every lower-case radix-32 digit |
| Radix32.DigitsValue | src/test/java/com/github/f4b6a3/ulid/util/internal/UlidTest.java:123-125 | the number a radix-32 numeral denotes, most significant digit first; it is below 32^len |
| Radix32.ToUnsignedString | src/test/java/com/github/f4b6a3/ulid/util/internal/UlidTest.java:183-184 | `Long.toUnsignedString(x, 32)` is a non-empty canonical numeral of value x without leading zeros |
| Radix32.ToUnsignedStringLength | src/test/java/com/github/f4b6a3/ulid/util/internal/UlidTest.java:186-187 | the shortest numeral of x has at most w digits exactly when x < 32^w |
| Radix32.ParseUnsignedLong | src/test/java/com/github/f4b6a3/ulid/util/internal/UlidTest.java:123-125 | `Long.parseUnsignedLong(s, 32)` of at most 12 digits never overflows and is below 32^len(s) |
| Radix32.DigitsValueAppend | src/test/java/com/github/f4b6a3/ulid/util/internal/UlidTest.java:192 | the value of two numerals written one after the other is the first times 32^len(second) plus the second |
| Radix32.FixedDigitsValue | src/test/java/com/github/f4b6a3/ulid/util/internal/UlidTest.java:186-187 | the w-digit rendering of x reads back as x modulo 32^w |
| Radix32.FixedDigitsOfValue | src/test/java/com/github/f4b6a3/ulid/util/internal/UlidTest.java:123-125 | a canonical numeral is the fixed-width rendering of its own value |
| Radix32.FixedDigitsInjective | src/test/java/com/github/f4b6a3/ulid/util/internal/UlidTest.java:186-187 | two values below 32^w with the same w-digit rendering are equal |
| Radix32.FixedDigits | src/test/java/com/github/f4b6a3/ulid/util/internal/UlidTest.java:186-187 | reference definition of the zero-padded w-digit rendering: exactly w lower-case digits; `FixedDigitsValue` and `UlidCodec.PaddedDigits` tie it to the value and to the padded numeral |
| Radix32.FixedDigitsZero | src/test/java/com/github/f4b6a3/ulid/util/internal/UlidTest.java:178 | zero rendered in w digits is w zeros |
| UlidCodec.PadWithZeros | src/test/java/com/github/f4b6a3/ulid/util/internal/UlidTest.java:186-187 | padding gives exactly as many characters as the zeros string, and ends with the padded string |
| UlidCodec.PaddedDigits | src/test/java/com/github/f4b6a3/ulid/util/internal/UlidTest.java:183-187 | for x < 32^w the padding length is never negative, and padding the shortest numeral gives the w-digit rendering |
| UlidCodec.TimeField | src/test/java/com/github/f4b6a3/ulid/util/internal/UlidTest.java:164 | no contract of its own: `msb >>> 16`; `SplitArithmetic` states it is msb / 2^16 |
| UlidCodec.Random1Field | src/test/java/com/github/f4b6a3/ulid/util/internal/UlidTest.java:180 | no contract of its own: `((msb & 0xffffL) << 24) OR (lsb >>> 40)`; `SplitArithmetic` states it is (msb mod 2^16) * 2^24 + lsb / 2^40 |
| UlidCodec.Random2Field | src/test/java/com/github/f4b6a3/ulid/util/internal/UlidTest.java:181 | no contract of its own: `lsb & 0xffffffffffL`; `SplitArithmetic` states it is lsb mod 2^40 |
| UlidCodec.HighWord | src/test/java/com/github/f4b6a3/ulid/util/internal/UlidTest.java:127 | no contract of its own: `time << 16` OR `random1 >>> 24`; `HighWordArithmetic` states its value, `SplitThenJoin` and `JoinThenSplit` that it inverts the split |
| UlidCodec.LowWord | src/test/java/com/github/f4b6a3/ulid/util/internal/UlidTest.java:128 | no contract of its own: `random1 << 40` OR `random2 & 0xffffffffffL`; `LowWordArithmetic` states its value, `SplitThenJoin` and `JoinThenSplit` that it inverts the split |
| UlidCodec.SplitArithmetic | src/test/java/com/github/f4b6a3/ulid/util/internal/UlidTest.java:180-181 | the split fields are msb / 2^16, (msb mod 2^16) * 2^24 + lsb / 2^40 and lsb mod 2^40 |
| UlidCodec.HighWordArithmetic | src/test/java/com/github/f4b6a3/ulid/util/internal/UlidTest.java:147 | `time << 16` OR `random1 >>> 24` is (time mod 2^48) * 2^16 + random1 / 2^24 for a 40-bit random1 |
| UlidCodec.LowWordArithmetic | src/test/java/com/github/f4b6a3/ulid/util/internal/UlidTest.java:148 | `random1 << 40` OR `random2 & 0xffffffffffL` is (random1 mod 2^24) * 2^40 + random2 mod 2^40 |
| UlidCodec.PackedValue | src/test/java/com/github/f4b6a3/ulid/util/internal/UlidTest.java:147-148 | three fields that fit 48, 40 and 40 bits pack into the 128-bit value time * 2^80 + random1 * 2^40 + random2 |
| UlidCodec.ToUuid | src/test/java/com/github/f4b6a3/ulid/util/internal/UlidTest.java:141-151 | the packed UUID's value is (time mod 2^48) * 2^80 + (random1 mod 2^40) * 2^40 + random2 mod 2^40 |
| UlidCodec.ToTimeComponent | src/test/java/com/github/f4b6a3/ulid/util/internal/UlidTest.java:169-174 | for a time below 2^50 the component is 10 Crockford characters |
| UlidCodec.ToRandomComponent | src/test/java/com/github/f4b6a3/ulid/util/internal/UlidTest.java:176-193 | the component is 16 Crockford characters for every pair of longs |
| UlidCodec.ToString | src/test/java/com/github/f4b6a3/ulid/util/internal/UlidTest.java:163-167 | the text is 26 Crockford characters for every pair of longs |
| UlidCodec.TruncateTime | src/test/java/com/github/f4b6a3/ulid/util/internal/UlidTest.java:127 | modulo 2^128, a time weighted 2^80 keeps only its low 48 bits |
| UlidCodec.DecodeArithmetic | src/test/java/com/github/f4b6a3/ulid/util/internal/UlidTest.java:127-128 | the packed longs denote time * 2^80 + random1 * 2^40 + random2 modulo 2^128: the time bits above bit 47 are lost |
| UlidCodec.IsDecodable | src/test/java/com/github/f4b6a3/ulid/util/internal/UlidTest.java:123-125 | no contract of its own: every character, once transliterated, is one that `Character.digit(_, 32)` reads, so `parseUnsignedLong` does not throw; `UlidProperties.CrockfordDecodable` and `UlidProperties.UnreadableCharacters` state which texts qualify |
| UlidCodec.TextValue | src/test/java/com/github/f4b6a3/ulid/util/internal/UlidTest.java:123-125 | no contract of its own: the number `parseUnsignedLong` reads from the transliterated text; `TextValueAppend`, `TextValueSplit` and `UlidProperties.ToStringValue` state it |
| UlidCodec.SymbolTextValue | src/test/java/com/github/f4b6a3/ulid/util/internal/UlidTest.java:119-125 | a single decodable character is read as the digit value of its transliteration |
| UlidCodec.TextValueHeadDigit | src/test/java/com/github/f4b6a3/ulid/util/internal/UlidTest.java:119-125 | the value of decodable text is its first character's digit value times 32^(len-1) plus the value of the rest |
| UlidCodec.DecodableSlice | src/test/java/com/github/f4b6a3/ulid/util/internal/UlidTest.java:115-117 | every substring of decodable text is decodable |
| UlidCodec.TextValueAppend | src/test/java/com/github/f4b6a3/ulid/util/internal/UlidTest.java:115-125 | the value of two texts written one after the other is the first times 32^len(second) plus the second |
| UlidCodec.TextValueSplit | src/test/java/com/github/f4b6a3/ulid/util/internal/UlidTest.java:115-117 | the value of 26 characters is the value of [0,10) * 2^80 + the value of [10,18) * 2^40 + the value of [18,26) |
| UlidCodec.FieldsPackToValue | src/test/java/com/github/f4b6a3/ulid/util/internal/UlidTest.java:115-130 | packing the values read from the three fields gives the value of the whole text modulo 2^128 |
| UlidCodec.FromString | src/test/java/com/github/f4b6a3/ulid/util/internal/UlidTest.java:109-131 | the decoded pair of longs denotes the value of the first 26 characters modulo 2^128 |
| UlidProperties.ValueInjective | src/test/java/com/github/f4b6a3/ulid/util/internal/UlidTest.java:150 | two pairs of longs with the same 128-bit value are equal |
| UlidProperties.ValueBound | src/test/java/com/github/f4b6a3/ulid/util/internal/UlidTest.java:150 | a pair of longs denotes a value below 2^128 |
| UlidCodec.Uuid.Value | src/test/java/com/github/f4b6a3/ulid/util/internal/UlidTest.java:150 | no contract of its own: the 128-bit number msb * 2^64 + lsb that the two longs of `new UUID(msb, lsb)` and `Ulid.of(msb, lsb)` hold; `ValueInjective` and `ValueBound` state it is one to one and below 2^128 |
| UlidProperties.FieldsOfValue | src/test/java/com/github/f4b6a3/ulid/util/internal/UlidTest.java:180-181 | splitting a pair of longs of value time * 2^80 + random1 * 2^40 + random2 gives exactly those three fields |
| UlidProperties.SplitSum | src/test/java/com/github/f4b6a3/ulid/util/internal/UlidTest.java:180-181 | the three split fields, weighted 2^80, 2^40 and 1, add up to msb * 2^64 + lsb |
| UlidProperties.SplitThenJoin | src/test/java/com/github/f4b6a3/ulid/util/internal/UlidTest.java:127-128 | splitting a pair of longs into fields and packing them again gives the same two longs |
| UlidProperties.JoinThenSplit | src/test/java/com/github/f4b6a3/ulid/util/internal/UlidTest.java:127-128 | packing fields of 48, 40 and 40 bits and splitting the result gives the same three fields |
| UlidProperties.ToUuidFields | src/test/java/com/github/f4b6a3/ulid/util/internal/UlidTest.java:141-151 | splitting `toUuid(time, random1, random2)` gives time mod 2^48, random1 mod 2^40 and random2 mod 2^40 |
| UlidProperties.CrockfordRendering | src/test/java/com/github/f4b6a3/ulid/util/internal/UlidTest.java:186-190 | the Crockford rendering of x in w characters is Crockford text that reads back as x mod 32^w |
| UlidProperties.TimeComponentValue | src/test/java/com/github/f4b6a3/ulid/util/internal/UlidTest.java:169-174 | the time component reads back as the time it was made from |
| UlidProperties.RandomComponentValue | src/test/java/com/github/f4b6a3/ulid/util/internal/UlidTest.java:176-193 | the random component reads back as the low 80 bits of the pair: (msb mod 2^16) * 2^64 + lsb |
| UlidProperties.ToStringValue | src/test/java/com/github/f4b6a3/ulid/util/internal/UlidTest.java:163-167 | the text of a pair of longs reads back as msb * 2^64 + lsb |
| UlidProperties.CrockfordDecodable | src/test/java/com/github/f4b6a3/ulid/util/internal/UlidTest.java:119-125 | Crockford text can always be read by parseUnsignedLong, and transliterates to canonical digits |
| UlidProperties.CrockfordTextInjective | src/test/java/com/github/f4b6a3/ulid/util/internal/UlidTest.java:119-125 | two Crockford texts of one length with the same value are the same text |
| UlidProperties.TextValueHead | src/test/java/com/github/f4b6a3/ulid/util/internal/UlidTest.java:119-125 | the first symbol of Crockford text weighs its index in ALPHABET_CROCKFORD times 32^(len-1) |
| UlidProperties.CrockfordIndexOrder | src/test/java/com/github/f4b6a3/ulid/util/internal/UlidTest.java:16 | two Crockford symbols compare as their indices do |
| UlidProperties.LexLess | src/test/java/com/github/f4b6a3/ulid/util/internal/UlidTest.java:16 | no contract of its own: `a.compareTo(b) < 0` for Java strings; `CrockfordOrder`, `TextOrder` and `TimePrefixOrder` relate it to the values |
| UlidProperties.CrockfordOrder | src/test/java/com/github/f4b6a3/ulid/util/internal/UlidTest.java:119-125 | Crockford texts of one length: one precedes the other in String.compareTo order exactly when its value is smaller |
| UlidProperties.EncodeDecode | src/test/java/com/github/f4b6a3/ulid/util/internal/UlidTest.java:109-131 | `fromString(toString(msb, lsb))` is (msb, lsb) for every pair of longs |
| UlidProperties.LeadingSymbolIndex | src/test/java/com/github/f4b6a3/ulid/util/internal/UlidTest.java:16 | a Crockford symbol has an index below 8 exactly when it is '0'..'7' |
| UlidProperties.LeadingSymbolBound | src/test/java/com/github/f4b6a3/ulid/util/internal/UlidTest.java:115-127 | 26 Crockford characters denote a value below 2^128 exactly when the first is '0'..'7' |
| UlidProperties.DecodeEncode | src/test/java/com/github/f4b6a3/ulid/util/internal/UlidTest.java:109-131 | for 26 Crockford characters, `toString(fromString(s))` is s exactly when s starts with '0'..'7' |
| UlidProperties.TextOrder | src/test/java/com/github/f4b6a3/ulid/util/internal/UlidTest.java:163-193 | the texts of two ULIDs compare as their 128-bit values do (both directions) |
| UlidProperties.TimePrefixOrder | src/test/java/com/github/f4b6a3/ulid/util/internal/UlidTest.java:169-174 | the first 10 characters of two texts compare as the time fields `msb >>> 16` do (both directions) |
| UlidProperties.ZerosValue | src/test/java/com/github/f4b6a3/ulid/util/internal/UlidTest.java:178 | a run of zeros is Crockford text of value 0 |
| UlidProperties.TopSymbolsValue | src/test/java/com/github/f4b6a3/ulid/util/internal/UlidTest.java:119-125 | a run of n 'Z' is Crockford text of value 32^n - 1 |
| UlidProperties.NilText | src/test/java/com/github/f4b6a3/ulid/util/internal/UlidTest.java:163-193 | the text of (0, 0) is 26 zeros |
| UlidProperties.MaxTextValue | src/test/java/com/github/f4b6a3/ulid/util/internal/UlidTest.java:119-125 | '7' followed by 25 'Z' denotes 2^128 - 1 |
| UlidProperties.MaxText | src/test/java/com/github/f4b6a3/ulid/util/internal/UlidTest.java:163-193 | the text of the pair with all 128 bits set is '7' followed by 25 'Z' |
| UlidProperties.OverflowTextValue | src/test/java/com/github/f4b6a3/ulid/util/internal/UlidTest.java:119-125 | '8' followed by 25 zeros denotes 2^128 |
| UlidProperties.OverflowCollision | src/test/java/com/github/f4b6a3/ulid/util/internal/UlidTest.java:123-130 | '8' followed by 25 zeros and 26 zeros both decode to (0, 0): decoding is not one to one |
| UlidProperties.OutsideCrockford | src/test/java/com/github/f4b6a3/ulid/util/internal/UlidTest.java:197-203 | a character below '0', between 'T' and 'V', or above 'Z' is not in ALPHABET_CROCKFORD and passes through the transliteration unchanged |
| UlidProperties.UnlistedLetters | src/test/java/com/github/f4b6a3/ulid/util/internal/UlidTest.java:119-125 | 'U' is read as 30, like 'Y'; 'j' is read as 19 while 'J' is read as 18 |
| UlidProperties.UnreadableCharacters | src/test/java/com/github/f4b6a3/ulid/util/internal/UlidTest.java:119-125 | 'w' and '!' are not in ALPHABET_CROCKFORD, pass through the transliteration, and are no radix-32 digit, so text holding them makes `parseUnsignedLong` throw |

## Left out

- The `@Test` methods (lines 19-107) are left out. They are loops over `java.util.Random` and `UUID.randomUUID()` that compare the reference codec with the library's `Ulid` class, which is not part of this model. `EncodeDecode` is the round trip that `testConstructorString` relies on.
- The wrappers `toUuid(Ulid)`, `toString(Ulid)` and `toString(UUID)` (lines 133-161) are left out, because they only unpack the library's `Ulid` and `UUID` objects. That library class is not part of this model. `Ulid.of(msb, lsb)` and `new UUID(msb, lsb)` are both modelled as the pair `Uuid(msb, lsb)`.
- Exceptions are preconditions, not results, because the code handles none of them:
  - `FromString` requires at least 26 characters, since `substring` throws on shorter text;
  - `FromString` requires every one of the first 26 characters to be a radix-32 digit after transliteration, since `parseUnsignedLong` throws otherwise;
  - `ToTimeComponent` requires time < 2^50, since `substring` throws for a longer numeral. `toString` only passes `msb >>> 16`, which is below 2^48.
- FromString: Long.parseUnsignedLong also accepts a leading '+' in each field, and Character.digit also reads non-ASCII digit characters. Neither is modelled. The precondition `IsDecodable` is sufficient for Java to succeed, not necessary.
- Radix32.ParseUnsignedLong: its overflow check is left out, because it cannot fire on the 8- and 10-character fields the codec passes.
- JavaLong.Ushr and JavaLong.Shl take the shift distance modulo 64, as Java does. The codec only shifts by the constants 16, 24 and 40.
- Transliteration.Transliterate works on a `string` (a `seq<char>`) and copies it into a fresh array, as `toCharArray` does. The alphabets are sequences, not shared `char[]` objects, since the code never writes to them. The pure functions of the codec call the function `Transliterated`, to which the method is proved equal.
- Generators, clocks and random sources are not part of this model.
