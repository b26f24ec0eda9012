# blear.utils.number: base conversion and number formatting in Dafny

This project models the core of `blear.utils.number` (src/index.js):

- `toAny(number10, pool)` turns a decimal string of any length into a string over a
  digit pool. The pool is an ordered string of characters, and its length is the base.
  The default pool `STR_62` holds "0-9A-Za-z", which makes base 62.
- `fromAny(numberAny, pool)` turns such a string back into a decimal string.
- `format(num, separator)` puts a thousands separator into the integer part of a
  number string.

The arbitrary-precision integers of the big-integer library are modelled as exact
`nat` arithmetic: `mod`, `divide`, `add`, `multiply` and `pow` become `%`, `/`, `+`,
`*` and `Numerals.Pow`. `BigInt(s)` on a decimal string is `BaseConvert.DecimalValue`.
`toString()` is `BaseConvert.DecimalString`, the numeral of the value over "0123456789".

Modules:

- `Numerals` (numerals.dfy) defines positional numerals. `Value` is the positional
  sum that `fromAny` adds up. `Horner` is an independent reference evaluation. The
  module also holds the division facts the conversions rely on.
- `Pools` (pools.dfy) covers the digit pool.
  - `STR_62` is the default pool.
  - `EffectivePool` is `pool || STR_62`. The empty string stands for an omitted pool.
  - `PoolMap` gives the character map after k rounds of the 62-round map-building
    loop.
  - `DigitValues` gives the digit value of each input character.
- `BaseConvert` (convert.dfy) covers the two conversions.
  - `Encode` is what `toAny` emits.
  - `ToAny` and `FromAny` are the two loops, each proved equal to its specification
    function (`ToAnyOf`, `FromAnyOf`).
  - The module also holds the round-trip lemmas.
- `NumberFormat` (format.dfy) covers `format`.
  - `Split` is JavaScript's `split`.
  - `Group` is the global replace with `/(\d)(?=(\d{3})+$)/g`.
  - `Format` is the function itself. On an all-digit integer part `Group` equals
    `ChunkFromRight`, a grouping by threes counted from the right. A leading sign
    or other non-digit prefix is covered by `GroupAppendThree`.

`toAny`'s self-recursive `_cal` is a `while` loop whose body always runs at least
once, because the first call of `_cal` does not test the value. `ret.unshift`
becomes prepending to a sequence. In `fromAny` the map and the sum each become a
loop over the index.

Three behaviours of the code are worth knowing:

- The code never rejects a pool that is too short or has repeated characters, and
  it never rejects an input character missing from the pool. The model puts these
  cases in preconditions where its properties need them.
- For a repeated pool character, `fromAny` keeps the last position. See
  `Pools.PoolMapLastOccurrence`.
- `format` keeps only the piece between the first and the second '.', so "1.2.3"
  becomes "1.2". It is not everything after the first dot.

## Model

| member | source | states |
|---|---|---|
| BaseConvert.ToAny | src/index.js:104-121 | For a decimal input and a pool of at least 2 characters, the loop returns `Encode` of the input's value: the repeated mod/divide steps, digits most significant first. The result is never empty. |
| BaseConvert.FromAny | src/index.js:130-153 | For an input whose characters are all in the map, the map loop builds `PoolMap(p, 62)`. The sum loop adds up digit × base^(len-index-1). The result is the decimal rendering of the positional value of the digit values. |
| BaseConvert.Encode | src/index.js:109-117 | The output is non-empty, every character comes from the pool, and the value 0 gives exactly `[pool[0]]`. |
| BaseConvert.EncodeValue | src/index.js:109-117 | For 2 to 62 distinct pool characters, each output character has a digit value. Read back as a base-|pool| numeral, the output gives the encoded value. |
| BaseConvert.EncodeLeading | src/index.js:109-119 | For a pool without repeats, the first output character is `pool[0]` if and only if the value is 0. |
| BaseConvert.EncodeLength | src/index.js:109-119 | A positive value n gets k characters exactly when b^(k-1) <= n < b^k. A value below the base gets one character. |
| BaseConvert.EncodeOfValue | src/index.js:109-119 | For any pool of at least 2 characters, repeats allowed, every decodable string without a superfluous leading `pool[0]` is the encoding of its own value. So numerals over the pool are unique. |
| BaseConvert.DecimalStringCanonical | src/index.js:152 | `toString()` gives only digits, no leading '0' except "0" for zero, and parsing it gives back the value. |
| BaseConvert.DecimalStringOfValue | src/index.js:105 | A decimal string without superfluous leading zeros is the rendering of its own value. |
| BaseConvert.ToAnyShape | src/index.js:104-121 | `toAny`'s result is non-empty and all its characters come from the pool. For a pool without repeats, both "the result is `[pool[0]]`" and "the first character is `pool[0]`" hold if and only if the input's value is 0. |
| BaseConvert.FromAnyEmpty | src/index.js:131-152 | `fromAny` of the empty string is "0". |
| BaseConvert.FromAnyLeadingZeros | src/index.js:141-150 | For a pool without repeats, putting any number of `pool[0]` characters in front of the input changes neither whether it decodes nor what `fromAny` returns. |
| BaseConvert.RoundTrip | src/index.js:104-153 | For a pool of 2 to 62 distinct characters, `fromAny(toAny(x))` is the canonical decimal form of x. It equals x when x has no superfluous leading zero. |
| BaseConvert.RoundTripBack | src/index.js:104-153 | For any pool of at least 2 characters, repeats allowed, `toAny(fromAny(s))` is s for every decodable s without a superfluous leading `pool[0]`. `fromAny`'s result is always a decimal string. |
| Pools.EffectivePool | src/index.js:106 | `pool \|\| STR_62` is never empty, and an omitted pool gives a 62-character pool. |
| Pools.DefaultPool | src/index.js:12 | Without a pool both conversions use `STR_62`. It has 62 characters, and its characters are the codes 48-57, 65-90 and 97-122 in that order, with no repeats. |
| Pools.PoolMapLastOccurrence | src/index.js:137-139 | After k rounds, a character is in the map if and only if it occurs among the first k pool positions. It is mapped to its last such position. |
| Pools.PoolIndex | src/index.js:137-139 | In a pool without repeats, each of the first 62 positions maps back to itself. |
| Pools.DecodableChars | src/index.js:137-143 | An input has a digit value for every character if and only if each of its characters is among the first 62 characters of the pool. |
| Pools.DigitValuesBelow | src/index.js:142-143 | Each character's digit value is a pool position that holds that character. |
| Numerals.ValueIsHorner | src/index.js:141-150 | The positional sum that `fromAny` adds up equals Horner's evaluation (value × base + digit), for every numeral. |
| Numerals.ValueBound | src/index.js:145-149 | A numeral of k digits below b has a value below b^k. |
| Numerals.ValueLeadingZeros | src/index.js:145-149 | Leading zero digits do not change the positional sum. |
| Numerals.ValueAppend | src/index.js:145-149 | Appending a digit d gives value × b + d. |
| Numerals.Pow | src/index.js:147 | The library's `pow`: a power of a base of at least 1 is at least 1, and a power of a base of at least 2 is above the exponent. |
| Numerals.Value | src/index.js:141-150 | The positional sum of digit × base^(len-index-1) that `fromAny` accumulates. It has no contract of its own; `ValueIsHorner`, `ValueBound`, `ValueAppend` and `ValueLeadingZeros` state its properties. |
| Pools.PoolMap | src/index.js:137-139 | The character map after k rounds of the map-building loop. It has no contract of its own; `PoolMapLastOccurrence` states which characters it maps and to which position. |
| BaseConvert.DecimalValue | src/index.js:105 | `BigInt(number10)` on a decimal string of length k is below 10^k, and at least 10^(k-1) when the first digit is not '0'. |
| BaseConvert.DecimalString | src/index.js:152 | `toString()` is never empty, has only characters of "0123456789", and gives "0" for 0. |
| NumberFormat.Group | src/index.js:8 | The replace with `reFormat` only inserts: the result is at least as long as the input, starts with the input's first character, and is the input itself for an empty separator. |
| NumberFormat.Format | src/index.js:56-63 | The result is at least as long as the integer part before the first '.'. `FormatInteger` and `FormatFraction` state the result exactly. |
| NumberFormat.SplitWholeFrac | src/index.js:59 | For "whole.frac" followed by nothing or by a '.', `split('.')` gives at least two pieces, `whole` and then `frac`. |
| NumberFormat.SeparatorOrDefault | src/index.js:57 | The separator is never empty, and an omitted separator is ",". |
| NumberFormat.Split | src/index.js:59 | `split` always gives at least one piece. |
| NumberFormat.SplitJoin | src/index.js:59 | Joining the pieces with the split character gives the string back, and no piece contains that character. |
| NumberFormat.SplitNone | src/index.js:59 | A string without '.' splits into itself alone. |
| NumberFormat.SplitFirst | src/index.js:59 | The first piece is everything before the first '.'. |
| NumberFormat.GroupShort | src/index.js:8 | A string of at most three characters gets no separator. |
| NumberFormat.GroupAppendThree | src/index.js:8 | Appending three digits puts one separator after the old last character if that character is a digit, and changes nothing else. |
| NumberFormat.GroupIsChunkFromRight | src/index.js:8 | On a digit string the replace equals grouping by threes counted from the right. |
| NumberFormat.GroupThenStrip | src/index.js:60 | Deleting the separator's characters from the grouped string gives back the original, when no original character is in the separator. |
| NumberFormat.FormatInteger | src/index.js:56-63 | Without a '.', `format` is the grouped string. |
| NumberFormat.FormatFraction | src/index.js:56-63 | With a '.', `format` is the grouped integer part, then '.' and the piece up to the next '.', or nothing when that piece is empty. |
| NumberFormat.GroupSixDigits | src/index.js:51-54 | "123456" is grouped as "123", the separator, "456". |
| NumberFormat.FormatExample | src/index.js:50-54 | `format("123456.789")` is "123,456.789", and with the separator '-' it is "123-456.789". |

## Left out

- `parseInt`, `parseFloat` and `abbr` (src/index.js:23-96) are outside the modelled core, apart from `format`.
- The big-integer library `./big-integer/BigInteger` is not part of this model. Its values are exact `nat`s.
- `BigInt(number10)` on a JavaScript number, or on a string with a sign, blanks or non-digits, is not modelled. The input is a non-empty string of decimal digits, which may have leading zeros.
- `fromAny` on a character that is not among the first 62 pool characters is not modelled. There `map[pos]` is `undefined` and the result depends on the library. Such input is excluded by the precondition `Decodable`.
- The same holds for characters past position 62 of a pool longer than 62.
- `toAny` with a one-character pool is excluded by a precondition. With a positive value, dividing by 1 never reaches 0 and `_cal` recurses until the stack overflows. An empty pool cannot occur, because it is replaced by `STR_62`.
- `RoundTrip` requires a pool of 2 to 62 characters without repeats. With repeats, or with more than 62 characters, `fromAny` does not invert `toAny`.
- `EncodeLeading`, `ToAnyShape` (its statements about `pool[0]`) and `FromAnyLeadingZeros` require a pool without repeats. With a repeated `pool[0]`, a non-zero value can encode to a string starting with `pool[0]`, and a leading `pool[0]` decodes to the position of its last occurrence, not 0.
- The writes `map[undefined] = index` that a pool shorter than 62 makes are not modelled. Their key is never a single input character, so they do not affect the result.
- `array.each` is modelled as an ordinary index loop.
- JavaScript strings are sequences of UTF-16 code units. The model uses Dafny `char`s and does not treat surrogate pairs specially.
- `String(num)` for a JavaScript number is not modelled: `Format` takes the string form of the number. Floating-point rendering, such as exponent notation, is left out.
- `Format` requires a separator without '$'. JavaScript would read `$&`, `$1` and the like inside the replacement as patterns.
