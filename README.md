# UUID.js in Dafny

This project is a Dafny model of the core of UUID.js, a JavaScript library that creates and parses RFC 4122 / RFC 9562 UUIDs. Two source files are modelled: `src/uuid.ts`, and the older minimal `src/uuid.core.js`, whose `generate`, `_getRandomInt` and `_hexAligner` are the same code as in `src/uuid.ts`.

The model has six modules.

- **`Arith`**: powers of two, and the JavaScript operators the library applies to non-negative integers:
  - `>>>`, with the operand taken mod 2^32 and the shift count mod 32;
  - `|`;
  - masks `& (2^k - 1)`, written as `% 2^k`.
- **`Codec`**: the field codec.
  - `Number.prototype.toString(radix)`.
  - The doubling zero-fill loop behind `_hexAligner` and `_binAligner`. It is the imperative method `Align`, proved equal to the function `ZeroFill`.
  - `parseInt(s, radix)`.
- **`Uuid`**: the UUID object.
  - Its private constructor: the `for` loop that fills the three field arrays, plus the derived strings.
  - `toString`, `equals` and `UUID.NIL`.
  - A UUID object is never changed after construction, so it is a value, the datatype `Uuid`. The constructor is the method `New`, proved equal to the function `FromFields`.
- **`Parser`**: `UUID.parse`.
  - The regular expression is an explicit recogniser: trim white space, peel the optional prefix and suffix, check the 36-character body.
  - It is followed by the prefix/suffix check and six `parseInt` calls.
- **`Random`**: the two `_getRandomInt` sources, `Math.random()` and the Web Cryptography API, with their random draws as parameters.
- **`V4`**: `genV4()` and `generate()`.
- **`TimeBased`**: `genV1()`, `genV6()`, `_getTimeFieldValues`, `resetState()` and the `UUIDState` class.
  - `UUIDState` is a Dafny class whose method `Advance` updates its fields in place.
  - The static `UUID._state` is the nullable field of the class `Generator`.
  - The wall clock `now` and every `_getRandomInt(k)` draw are parameters, each bounded below 2^k.

## Model

| member | source | states |
|---|---|---|
| Codec.Align | src/uuid.core.js:58-62 | The doubling loop returns the radix digits of `num` with exactly `length - digits` zeros in front, or the digits unchanged when they are already at least `length` long (`ZeroFill`). Its invariant: the zeros added so far plus `i` times the block length equal the missing length. |
| Codec.HexAligner | src/uuid.ts:54-64 | `_hexAligner(num, length)` is the hexadecimal digits of `num`, zero-filled to `length` and never truncated. |
| Codec.BinAligner | src/uuid.ts:311-321 | `_binAligner(num, length)` is the binary digits of `num`, zero-filled to `length` and never truncated. |
| Codec.ToRadix | src/uuid.ts:55 | `toString(radix)` produces at least one character, all of them digits of the radix. |
| Codec.ToRadixLength | src/uuid.ts:55 | A value below b^k has at most k base-b digits, so zero-filling it to k places adds `k - digits` zeros. |
| Codec.ZeroFillFixed | src/uuid.ts:54-64 | Zero-filling a value below b^k to k places gives exactly its k lowest base-b digits. |
| Codec.ParseFixed | src/uuid.ts:162-167 | `parseInt` of the k fixed digits of a value below b^k gives the value back. |
| Codec.ParseRadix | src/uuid.ts:162-167 | `parseInt(s, b)` on a string of base-b digits: a numeral of k digits is below b^k. |
| Codec.FixedParse | src/uuid.ts:162-167 | Writing back the digits `parseInt` read (either case) gives the same digits in lower case. |
| Codec.DigitRoundTrip | src/uuid.ts:55 | Each digit `toString` writes reads back as its value, and re-writing a digit read in either case gives its lower-case form. |
| Codec.FixedSplit | src/uuid.ts:293-303 | The (j+m)-digit form of n is the j digits of n / b^m followed by the m low digits of n. |
| Uuid.Fill | src/uuid.ts:274-285 | After the constructor's loop, `intFields[i]` is the i-th argument, and `bitFields[i]` / `hexFields[i]` are the aligners' results for the sizes in `FIELD_SIZES`. |
| Uuid.FromFields | src/uuid.ts:254-306 | The UUID object the constructor builds from six field values. It has no contract of its own; `Uuid.New` proves the constructor's loop builds it, and `FieldsRoundTrip`, `DerivedForms` and `VersionDigit` state what it holds. |
| Uuid.New | src/uuid.ts:254-306 | The constructor builds exactly `FromFields(f)`: the field arrays, `version`, `bitString`, `hexNoDelim`, `hexString` and `urn` derived from the six fields. |
| Uuid.FieldsRoundTrip | src/uuid.ts:274-285 | For fields within their widths, `bitFields[i]` has `FIELD_SIZES[i]` binary digits and `hexFields[i]` a quarter as many hexadecimal digits, and both read back as `intFields[i]`. |
| Uuid.FieldPowers | src/uuid.ts:124 | The width of each field in `FIELD_SIZES` is a whole number of hexadecimal digits, and 16^(size/4) = 2^size is the field's limit. |
| Uuid.DerivedForms | src/uuid.ts:287-305 | For fields within their widths: `hexString` is in the canonical 8-4-4-4-12 lower-case form; it is `hexNoDelim` (32 digits) with four dashes inserted; `bitString` has 128 binary digits; `urn` is `urn:uuid:` + `hexString`; `toString()` returns `hexString`. |
| Uuid.DelimitShape | src/uuid.ts:291-303 | Six hexadecimal groups of 8, 4, 4, 2, 2 and 12 digits give a canonical delimited string and a 32-digit joined string, and the first is the second with dashes inserted. |
| Uuid.BinShape | src/uuid.ts:289 | The joined `bitFields` of in-width fields is 128 binary digits. |
| Uuid.VersionOf | src/uuid.ts:287 | `(timeHiAndVersion >>> 12) & 0xf` of a 16-bit field is its top four bits, `timeHiAndVersion / 0x1000`, a value below 16. |
| Uuid.VersionDigit | src/uuid.ts:287 | `version` = `(timeHiAndVersion >>> 12) & 0xf` is the top four bits of the 16-bit field, and it is the hexadecimal digit at position 14 of `hexString`. |
| Uuid.Equals | src/uuid.ts:335-345 | `equals` returns true exactly when the other value is a UUID object and all six integer fields agree pairwise. |
| Uuid.EqualIffFields | src/uuid.ts:335-345 | Two UUID objects are the same value exactly when their six integer fields are equal, so `equals` coincides with equality of the objects. |
| Uuid.NilValue | src/uuid.ts:351 | `UUID.NIL` (the constant `Uuid.Nil`, `FromFields` of six zeros) has six zero fields, version 0 and `hexString` "00000000-0000-0000-0000-000000000000". |
| Parser.TrimStartSplit | src/uuid.ts:152 | `^\s*` splits the input into a run of JavaScript white space and a rest that does not start with white space. |
| Parser.TrimEndSplit | src/uuid.ts:152 | `\s*$` splits the input into a rest that does not end with white space and a run of white space. |
| Parser.Parse | src/uuid.ts:149-172 | `UUID.parse(strId)`: when it returns an object, whatever the case of the input, the object has fields within their widths, a canonical lower-case `hexString`, and `urn` = `urn:uuid:` + `hexString`. Which inputs it accepts is stated by `ParseComplete` and `ParseSound`. |
| Parser.ParseComplete | src/uuid.ts:149-172 | Every input made of white space, an accepted wrapper (none, `{`…`}`, or `urn:uuid:` in any case with no `}`), a 36-character body of 8-4-4-4-12 hexadecimal digits in either case, and white space parses to the UUID object of the body's six groups. |
| Parser.ParseSound | src/uuid.ts:149-172 | Every input that parses decomposes in exactly that way, and the result is the UUID object of its body's groups. So wrong digit counts, non-hexadecimal characters, missing dashes, stray text and unmatched wrappers all give `null`. |
| Parser.GroupsOfHexString | src/uuid.ts:161-168 | For fields within their widths, `hexString` matches the body pattern and its six groups, read with `parseInt(…, 16)`, are the fields. |
| Parser.ParseHexString | src/uuid.ts:149-172 | `parse` inverts the constructor: `hexString`, `{hexString}` and `urn` all parse back to the same UUID object. |
| Parser.ParseNil | src/uuid.ts:351 | `parse("00000000-0000-0000-0000-000000000000")` is `UUID.NIL`. |
| Parser.GroupsInWidths | src/uuid.ts:161-168 | The six groups of a body are within their fields' widths. |
| Parser.ParsedForm | src/uuid.ts:161-168 | The object `parse` builds from a body has in-width fields, its `hexString` is the body in lower case, and its `urn` is `urn:uuid:` + that. |
| Parser.ParseCanonical | src/uuid.ts:149-172 | Whatever the case, wrapper or surrounding white space of an accepted input, the parsed object's `hexString` is canonical lower-case 8-4-4-4-12: the input's body lowered. |
| Random.MathRandomInt | src/uuid.ts:41-49 | `_getRandomInt(x)` returns NaN (`None`) exactly when x < 0 or x > 53. |
| Random.MathRandomBound | src/uuid.core.js:45-49 | For 0 <= x <= 53 the `Math.random()` source returns an x-bit integer: the 30-bit draw shifted right by 30 - x for x <= 30, and `n + m * 2^30` with m < 2^(x-30) otherwise. |
| Random.MathRandomOnto | src/uuid.ts:45-48 | Every x-bit integer is produced by some pair of `Math.random()` draws. |
| Random.CryptoRandomInt | src/uuid.ts:84-93 | The corrected Web Cryptography source, answering 0 for x = 0. It returns NaN exactly when x < 0 or x > 53; `CryptoRandomCorrect` proves the range. |
| Random.CryptoRandomIntAsWritten | src/uuid.ts:84-93 | The Web Cryptography source returns NaN exactly when x < 0 or x > 53. |
| Random.CryptoRandomBound | src/uuid.ts:88-92 | For 1 <= x <= 53 the Web Cryptography source returns an x-bit integer. |
| Random.CryptoZeroBits | src/uuid.ts:92 | As written, `_getRandomInt(0)` on the word 1 returns 1, outside the documented range 0 <= f(0) < 1. |
| Random.CryptoRandomCorrect | src/uuid.ts:36-40 | The corrected source returns an x-bit integer for every 0 <= x <= 53 and agrees with the code for x != 0. |
| Random.CryptoRandomOnto | src/uuid.ts:88-92 | Every x-bit integer is produced by some 32-bit words. |
| V4.GenV4 | src/uuid.ts:131-141 | `genV4()` stores its draws unchanged, with `0x4000 \| r12` and `0x80 \| r6` as plain sums. Its fields are within their widths, the version is 4, and the top bits of `clockSeqHiAndReserved` are `10`. |
| V4.GenV4Layout | src/uuid.ts:131-141 | The text of a `genV4()` object reads `4` at position 14 and one of `89ab` at position 19. |
| V4.SetBits | src/uuid.ts:136-137 | `0x4000 \| r` and `0x80 \| r` add the constant when r fits below its set bit. |
| V4.Generate | src/uuid.ts:20-34 | `generate()` returns the `hexString` of the `genV4()` object with the same draws: the 14 random bits of `0x8000 \| rand(14)` split into `clockSeqHiAndReserved` and `clockSeqLow`. The text is canonical 8-4-4-4-12 with `4` at 14 and one of `89ab` at 19. |
| V4.GenerateShape | src/uuid.core.js:26-37 | The legacy `generate()` text is five lower-case hexadecimal groups of 8, 4, 4, 4 and 12 digits joined by dashes, the third starting with `4` and the fourth with one of `8`, `9`, `a`, `b`. |
| V4.ClockSeqGroup | src/uuid.ts:30 | The group `hex(0x8000 \| r14, 4)` is the two hexadecimal digits of `0x80 \| r14 >> 8` followed by the two of `r14 & 0xff`. |
| TimeBased.GetTimeFieldValues | src/uuid.ts:411-425 | `_getTimeFieldValues(time)`: `low`, `mid` and `hi` are the low 32, next 16 and next 12 bits of the count of 100-nanosecond intervals since 1582-10-15. |
| TimeBased.LowProduct | src/uuid.ts:421 | Only the low 28 bits of the milliseconds reach the low 32 bits of the interval count. |
| TimeBased.NextClock | src/uuid.ts:368-380 | After the clock update, `timestamp` is `now` and the masked sequence fits in 14 bits. |
| TimeBased.ClockInvariant | src/uuid.ts:368-380 | The clock update keeps `tick <= 9999` and `sequence < 2^14`. |
| TimeBased.ClockAdvances | src/uuid.ts:442-454 | When the wall clock moves forward, or stays put with room in the tick, the clock's time (ms * 10000 + tick) strictly grows and the sequence is kept. When it moves back, or the tick is exhausted, the sequence becomes (sequence + 1) & 0x3fff. In every case the pair (time, sequence) changes. |
| TimeBased.ClockSeqFields | src/uuid.ts:389-390 | The two clock-sequence fields `(seq >>> 8) \| 0x80` and `seq & 0xff`. It has no contract of its own; `ClockSeqLayout` states their layout. |
| TimeBased.ClockSeqLayout | src/uuid.ts:388-390 | `(seq >>> 8) \| 0x80` is `0x80` + the top six bits of the sequence (variant `10`), `seq & 0xff` is its low byte, and together they hold the whole sequence. |
| TimeBased.InitialNode | src/uuid.ts:487 | `(rand(8) \| 1) * 2^40 + rand(40)` is below 2^48 with the multicast bit (bit 40) set, and keeps the other random bits. |
| TimeBased.V1FieldsAsWritten | src/uuid.ts:383-392 | The `genV1()` fields as the code computes them. `timeMid` stays within 16 bits, and `timeHiAndVersion` lies in 0x1000..0x1fff, so its version is 1. Only `timeLow` can leave its width, and by less than the tick (see `V1Overflow`). |
| TimeBased.V1Agrees | src/uuid.ts:383-392 | When `tf.low + tick` does not pass 2^32, the `genV1()` fields as written are the fields of the 60-bit timestamp `Ticks + tick`. |
| TimeBased.CarryFree | src/uuid.ts:384 | Adding less than the room below the next multiple of 2^32 changes only the low 32 bits. |
| TimeBased.V1Overflow | src/uuid.ts:384 | At 2025-10-09 09:11:54.759 UTC with tick 1680, the code's `timeLow` is 2^32, too wide for its field, and its `timeMid` is 42223. The full timestamp has `timeLow` 0 and `timeMid` 42224. |
| TimeBased.V1Layout | src/uuid.ts:383-392 | A version 1 UUID has fields within their widths and version 1. The top bits of `clockSeqHiAndReserved` are `10`. `timeLow`, `timeMid` and the low 12 bits of `timeHiAndVersion` recompose the 60-bit timestamp. The clock sequence and the node come back unchanged. |
| TimeBased.SetVersion | src/uuid.ts:385 | `x \| (v << 12)` for x < 2^12 is `v * 2^12 + x`, its version nibble is v and its low 12 bits are x. |
| TimeBased.V6TimeAsWritten | src/uuid.ts:457-461 | The time values `th`, `midlow >>> 12` and `midlow & 0xfff` as the code computes them. `th` stays within 32 bits and the last within 12. The middle two recompose `midlow`, which stays below 2^28 + tick, so `timeMid` passes 16 bits only through the carry the code drops. |
| TimeBased.V6FieldsAsWritten | src/uuid.ts:457-468 | The `genV6()` fields as the code computes them: `timeHigh` within 32 bits, and `timeLowAndVersion` in 0x6000..0x6fff, so its version is 6. |
| TimeBased.V6Agrees | src/uuid.ts:457-468 | When `midlow` does not pass 2^28, the `genV6()` fields as written are the fields of the 60-bit timestamp, most significant bits first. |
| TimeBased.V6TimeAgrees | src/uuid.ts:458-461 | Without a carry out of the low 28 bits, `th`, `midlow >>> 12` and `midlow & 0xfff` are the high 32, middle 16 and low 12 bits of the interval count plus the tick. |
| TimeBased.LowMidlow | src/uuid.ts:459 | `((ts & 0xfffffff) * 10000) & 0xfffffff` is the low 28 bits of the interval count. |
| TimeBased.V6Overflow | src/uuid.ts:459-460 | At the same moment, the code's `midlow` reaches 2^28, so `timeMid` is 2^16, too wide for its field. |
| TimeBased.V6Layout | src/uuid.ts:457-468 | A version 6 UUID has fields within their widths, version 6 and variant `10`. `timeHigh`, `timeMid` and the low 12 bits of `timeLowAndVersion` recompose the 60-bit timestamp. The clock sequence and the node come back unchanged. |
| TimeBased.UUIDState.constructor | src/uuid.ts:481-488 | `new UUIDState()` has timestamp and tick 0, a 14-bit random sequence and a random node with the multicast bit set. |
| TimeBased.UUIDState.Advance | src/uuid.ts:442-454 | The in-place update of `timestamp`, `tick` and `sequence` yields exactly `NextClock` of the old clock, and leaves `node` unchanged. |
| TimeBased.Generator.ResetState | src/uuid.ts:399-401 | `resetState()` installs a fresh, valid state with timestamp 0, tick 0, the drawn sequence and node. |
| TimeBased.Generator.EnsureState | src/uuid.ts:363-366 | The state is created on first use and reused afterwards. |
| TimeBased.Generator.GenV1 | src/uuid.ts:362-393 | `genV1()` advances the shared state by one clock update (creating it on first use) and keeps it valid. It returns the UUID object of `V1Fields` for the new clock and the node: fields within their widths, version 1. |
| TimeBased.Generator.GenV6 | src/uuid.ts:436-469 | `genV6()` does the same, returning the UUID object of `V6Fields`: version 6. |

## Left out

- Random sources: each `_getRandomInt(k)` draw is a parameter below 2^k. `Math.random()` is its 53-bit numerator m (`Math.random() == m / 2^53`), and `crypto.getRandomValues` is a parameter per 32-bit word. Which source is installed (the static block, src/uuid.ts:81-95, and `useMathRandom`, src/uuid.ts:70-79) is not modelled: it only swaps one function for the other, and both are modelled.
- Wall clock: `new Date().getTime()` is the parameter `now`. `Date.UTC(1582, 9, 15)` is the constant -12219292800000.
- TimeBased.GetTimeFieldValues: `hm` and the v6 `th` are computed by the source in floating point (`ts / 0x100000000 * 10000`, `Math.floor(ts / 0x10000000 * 10000)`). The model uses the exact integer quotients. Rounding in the last bit of a double is not modelled.
- TimeBased.Generator.GenV1, TimeBased.Generator.GenV6, TimeBased.UUIDState.Valid (the state invariant the generators keep), TimeBased.Ticks, TimeBased.GetTimeFieldValues, and the `V1…`/`V6…` field functions and lemmas: all require the moment to be no earlier than 1582-10-15 (`InEra`). For earlier times `ts` is negative, and JavaScript's `%`, `&` and `Math.floor` on negative numbers are not modelled.
- TimeBased.Generator.GenV1 and TimeBased.Generator.GenV6 return the corrected `V1Fields` / `V6Fields`, which carry the tick into the next field. The code as written is `V1FieldsAsWritten` / `V6FieldsAsWritten`. The two agree whenever no carry arises (`V1Agrees`, `V6Agrees`); see Findings.
- Uuid.Fill: the named aliases `intFields.timeLow` … `hexFields.node` (from `FIELD_NAMES`) are not modelled. The fields are indexed by position 0-5 only.
- Uuid.New: takes non-negative integers. The JavaScript coercion `parseInt(arguments[i] \|\| 0)` of other argument types is not modelled.
- Uuid.Equals: requires both objects to have six integer fields. `instanceof UUID` is modelled as `Option<Uuid>`, with `None` for anything that is not a UUID object.
- Parser.Parse: the `i` flag is modelled as ASCII case-insensitivity on the hexadecimal digits and on `urn:uuid:`. The characters `\s` matches are the ECMAScript WhiteSpace and LineTerminator sets.
- The legacy `src/uuid.core.js` `_hexAligner`, `generate` and `_getRandomInt` are the same code as the `src/uuid.ts` members. They are modelled once, by `Codec.Align`, `V4.Generate` and `Random.MathRandomInt`.
- Module plumbing (`overwrittenUUID`, `module.exports`), the compiled `dist/` copies and the type declarations contain no logic of their own and are not part of this model.
- The statistical properties of the generators (uniformity, collision rates) are not stated. `MathRandomOnto` and `CryptoRandomOnto` state only that every value is reachable.

## Findings

| source | as written | input that shows it | evidently intended | confidence | as-written member | corrected member |
|---|---|---|---|---|---|---|
| src/uuid.ts:384 | `tl = tf.low + st.tick` adds the tick to the low 32 bits of the timestamp without a carry | `now` = 1760001114759 (2025-10-09 09:11:54.759 UTC) with tick 1680: `tf.low` is 2^32 - 1680, so `timeLow` is 2^32 and `hexString` gets a 9-digit first group | the 60-bit timestamp `Ticks + tick` split into `timeLow`, `timeMid`, `timeHi` (carry into `timeMid`) | not executed | TimeBased.V1Overflow | TimeBased.V1Layout |
| src/uuid.ts:459-460 | `midlow = (low 28 bits of the count) + st.tick`, with no carry into `th` | the same moment with tick 1680: `midlow` is 2^28, so `tm = midlow >>> 12` is 2^16 | the low 28 bits of `Ticks + tick`, carrying into `th` | not executed | TimeBased.V6Overflow | TimeBased.V6Layout |
| src/uuid.ts:92 | `ns[0] >>> (32 - x)` for x = 0 shifts by 32, which JavaScript masks to 0 | `_getRandomInt(0)` with the random word 1 returns 1, not 0 | 0, as the documented range 0 <= f(x) < 2^x requires | not executed | Random.CryptoZeroBits | Random.CryptoRandomCorrect |
