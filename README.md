# septem digit codec in Dafny

A model of the Roman digit codec of the `septem` crate (`src/digit.rs`).

It covers these parts:

- The seven digits `I V X L C D M` and their magnitudes.
- The greedy encoder `Digit::from_int`. It walks a table of thirteen rows in descending order, including the subtractive pairs 900, 400, 90, 40, 9 and 4. For each row it appends as many copies of the row's digits as the row's value fits into what is left.
- The subtractive decoder `Digit::value_of`. It scans left to right; a digit followed by a larger one counts as their difference.
- The character mapper `Digit::from_char`. It accepts ASCII letters and the Unicode Number Forms glyphs U+2160 to U+217F, and some glyphs expand to several digits.
- The byte mapper `Digit::from_byte`, the renderers `to_uppercase` and `to_lowercase`, and the `Deref`, `From` and `Display` conversions.

Layout:

- `septem.dfy` (module `Septem`) stands in for the crate's `Error` and `Result` types.
- `digit.dfy` (module `DigitCodec`) holds the codec.

The two loops of the source are methods with loop invariants: `FromInt`/`EncodeWalk`/`AppendRow` and `ValueOf`. Each is proved against a specification function, `Encode` or `Decode`. Everything else is a function over the datatype `Digit`.

The main results:

- Decoding what the encoder emits gives back the number, for every number. This holds beyond 3999 too, where the output starts with a run of `M`.
- The encoder's output equals the textbook per-decimal-digit numeral.
- For 1 to 3999 the output has at most 15 digits and never four equal digits in a row.
- Every glyph expands to digits worth the glyph's number.
- ASCII input is read case-insensitively, and `from_char` agrees with `from_byte`.
- Both renderings of a digit read back as that digit.

The doc comment of `from_int` (src/digit.rs:58) says the call fails when the number is "too large". The code has no such check (src/digit.rs:63-106): its only error is for zero. The model follows the code, and `FromInt` succeeds on every nonzero 32-bit input.

## Model

| member | source | states |
|---|---|---|
| DigitCodec.FromInt | src/digit.rs:59-107 | zero fails with `InvalidNumber(0)`; every nonzero 32-bit number succeeds, with the table walk's output, and that output decodes back to the number (there is no upper-bound error) |
| DigitCodec.EncodeWalk | src/digit.rs:86-104 | the loop over the table rows, early `break` included, emits exactly the greedy walk `EncodeRows`: each row repeated `n / value` times in table order, then `n %= value`; its invariants keep consumed + remaining = original and remaining < the value of the row just processed |
| DigitCodec.AppendRow | src/digit.rs:93-101 | pushing `count` copies of a row onto the result extends it by exactly those copies, for single digits and for pairs |
| DigitCodec.Remainder | src/digit.rs:103 | after the walk over any non-empty table, what is left is less than the last row's value |
| DigitCodec.EncodeRowsZero | src/digit.rs:89-91 | once nothing is left, the rest of the walk emits nothing, so the early `break` does not change the output |
| DigitCodec.DecodeEncodeRows | src/digit.rs:86-104 | over well-formed rows, the decoded output plus the remainder equals the input, and the first emitted digit is worth at most the input |
| DigitCodec.TableWellFormed | src/digit.rs:70-84 | every table row is a single digit or a subtractive pair worth the row's value, and the last row is worth 1 |
| DigitCodec.DecodeEncode | src/digit.rs:59-107 | decoding the encoder's output gives the number back, for every natural number |
| DigitCodec.EncodeIsCanonical | src/digit.rs:70-104 | the greedy encoding is a run of `M` for the thousands followed by the textbook spelling of the hundreds, tens and units digits |
| DigitCodec.DecimalDigitGreedy | src/digit.rs:71-83 | the four table rows of one decimal position spell each digit 0 to 9 as the textbook numeral does |
| DigitCodec.CanonicalExamples | src/digit.rs:36-53 | the canonical numerals of 3, 8, 9 and 1994 are `III`, `VIII`, `IX` and `MCMXCIV`, which by `EncodeIsCanonical` are the encoder's outputs |
| DigitCodec.EncodeBounds | src/digit.rs:86 | for 1 to 3999 the encoding has at most 15 digits (the reserved capacity) and never four equal digits in a row |
| DigitCodec.Decode | src/digit.rs:176-193 | the subtractive reading of a sequence is 0 exactly for the empty sequence |
| DigitCodec.ValueOf | src/digit.rs:167-194 | the cursor loop computes the subtractive reading `Decode` of the whole sequence; it terminates because the cursor grows, and its subtraction happens only when the next digit is larger, so the total never goes negative |
| DigitCodec.DecodeExamples | src/digit.rs:158-165 | the documented values: the empty sequence is 0, `XII` is 12, `XIV` is 14, `IX` is 9 |
| DigitCodec.Value | src/digit.rs:124-149 | a digit's magnitude is one of 1, 5, 10, 50, 100, 500, 1000 |
| DigitCodec.ValueInjective | src/digit.rs:128-135 | distinct digits have distinct magnitudes, and equal magnitudes mean equal digits |
| DigitCodec.Magnitudes | src/digit.rs:128-135 | I=1, V=5, X=10, L=50, C=100, D=500, M=1000, and `Deref` and `u32::from` agree with `value` on every digit |
| DigitCodec.Deref | src/digit.rs:374-390 | the `Deref` table, written on its own, gives each digit's `value` |
| DigitCodec.U32From | src/digit.rs:354-359 | `u32::from(d)` is a 32-bit number equal to `value(d)` |
| DigitCodec.FromChar | src/digit.rs:258-296 | succeeds exactly on the fourteen ASCII letters and the glyphs U+2160 to U+217F; any other character fails with `InvalidDigit` carrying that character; a success holds one to four digits |
| DigitCodec.GlyphValue | src/digit.rs:263-278 | every glyph of U+2160 to U+217F expands to digits whose value is the glyph's number: 1 to 12 for the first twelve of each case, then 50, 100, 500, 1000 |
| DigitCodec.GlyphCaseInsensitive | src/digit.rs:263-278 | each lower-case glyph expands exactly as its upper-case partner |
| DigitCodec.GlyphExamples | src/digit.rs:212-230 | `v` gives `[V]`, `X` gives `[X]`, `Ⅷ` gives `[V, I, I, I]`, `ⅳ` gives `[I, V]`, and `A` fails with `InvalidDigit('A')` |
| DigitCodec.FromByte | src/digit.rs:310-322 | succeeds exactly on the fourteen ASCII letters, with the digit whose upper-case rendering is that letter made upper case; every other byte fails with `InvalidDigit` of the byte as a character |
| DigitCodec.FromByteRenders | src/digit.rs:312-321 | an accepted byte is the upper- or lower-case rendering of the digit it maps to |
| DigitCodec.FromCharAscii | src/digit.rs:263-278 | on an ASCII letter `from_char` gives the single digit `from_byte` gives, and upper and lower case of the letter read the same |
| DigitCodec.ToUppercase | src/digit.rs:337-348 | the upper-case rendering is an ASCII capital letter |
| DigitCodec.ToLowercase | src/digit.rs:324-335 | the lower-case rendering is an ASCII small letter |
| DigitCodec.CaseMapsRenderings | src/digit.rs:324-348 | ASCII case mapping takes either rendering of a digit to the other |
| DigitCodec.RenderRoundTrip | src/digit.rs:312-348 | `from_byte` reads both renderings back as the digit, `from_char` too, and the lower-case rendering is the ASCII lower case of the upper-case one |
| DigitCodec.CharFrom | src/digit.rs:361-366 | `char::from(&d)` reads back through `from_char` as `[d]` |
| DigitCodec.Display | src/digit.rs:368-372 | the display string is one character that reads back as `[d]` |
| DigitCodec.RenderUppercase | src/digit.rs:361-372 | `char::from(&d)` and the display string are both the upper-case rendering |

## Left out

- The `archaic` feature (src/digit.rs:16-25, 137-146, 281-290): it is feature-gated, and in that build `to_lowercase`, `to_uppercase` and `deref` do not cover the extra digits. Only the seven base digits are modelled.
- The generic numeric parameter `T` of `from_int`, `value` and `value_of`. `from_int` takes a 32-bit unsigned number (`U32`); `value` and `value_of` return unbounded naturals. The `f64` doc example is floating point and is not modelled.
- ValueOf: totals are unbounded naturals, so a u32 overflow of the total on very long inputs is not modelled.
- `unsafe impl Send`/`Sync` (src/digit.rs:351-352): concurrency markers with no logic.
- `Display`: only the string it writes is modelled; the `Formatter` plumbing and its error result are not.
- `Deref` as an implicit conversion: it is modelled only as the explicit accessor `Deref`.
- The crate's `Error` and `Result` types are not part of this model; `septem.dfy` stands in for them with the two error cases the codec raises.
- EncodeIsCanonical: the encoder's output is proved equal to the textbook numeral, but not proved to be the shortest numeral for its value among all digit sequences.
- AppendRow: the source's two match arms (extend with a repeated single digit, or push a pair `count` times) become one loop appending the row's digits `count` times. The `unreachable!()` arm has no counterpart, because every table row has one or two digits (`TableWellFormed`).
- FromChar: the match is written on code points rather than character literals. Each arm lists the same characters as the source's arm.
