# Nepali number converter, modelled in Dafny

`NepaliNumberConverter` turns an integer amount into Nepali words ending in
the currency phrase "रूपैयाँ मात्र" ("rupees only"). It also turns an
integer into Devanagari numerals ending in the mark " /-". This project
models that class and proves properties about it.

The model follows what `nepali_number_to_word/converter.py` does. That is
not always the usual Nepali convention:

- **Base-1000 groups.** A number of 1000 or more is cut into base-1000
  digits ("groups"). Each non-zero group is spoken by the three-digit
  renderer and followed by its position name: हजार for 1000, लाख for
  1000^2, करोड for 1000^3, and so on. The lakh/crore radix (100000, 10^7) is
  not used. So 100000 is "एक सय हजार रूपैयाँ मात्र" (`WordsOf100000`). The
  comment at `test.py:18` expects "एक लाख …", but the code does not produce it.
- **Word-by-word tens and units.** 23 is "बीस तीन", not an irregular word
  for 23.
- **Six positions.** Only the six lowest groups are spoken. Groups from
  1000^6 up are dropped (`WordsTruncate`). A positive multiple of 1000^6
  comes out as the currency phrase alone, with its leading space
  (`WordsDropped`, `WordsOfThousandPowSix`).
- **Zero and negatives.** Zero is "शून्य" with no currency phrase. A
  negative number is "ऋणात्मक " followed by the words of its absolute
  value.
- **Numerals.** Numerals replace each decimal digit of `str(number)` by its
  Devanagari glyph. There are no grouping commas (`NumeralsShape`). A
  negative number gets a leading "-".

Modules:

- `Text` models the Python string and list operations the class uses:
  `" ".join`, `filter(None, …)`, `str.strip` and `list.reverse`. Its `Map`
  only builds the model's own segment and phrase lists. The generator
  expression inside `"".join` at converter.py:83 is `Converter.Glyphs`.
- `Lexicon` holds the word and glyph tables.
- `Decimal` models `str(int)` and its inverse.
- `Base1000` models powers of 1000 and base-1000 digits.
- `Converter` holds the three conversions:
  - `ConvertThreeDigits` is `_convert_three_digits`.
  - `ConvertToWords` is `convert_to_nepali_words`. Its grouping loop is
    `CollectSegments`, proved against `Segments(NumberGroups(n))` with a
    loop invariant.
  - `ToNumerals` is `convert_to_nepali_numerals`. Its inverse
    `ReadNumerals` exists only in the model, to state the round trip.

## Model

| member | source | states |
|---|---|---|
| Lexicon.TablesWellFormed | nepali_number_to_word/converter.py:8-33 | units, tens and hundreds have ten entries and the position names have six; entry 0 of each is empty; every other entry is a non-empty phrase with no space at either end |
| Lexicon.GlyphMapInverse | nepali_number_to_word/converter.py:36-47 | the glyph map is defined exactly on '0'..'9'; the reverse map undoes it, so no two digits share a glyph; no glyph is a comma, a minus sign or a space |
| Lexicon.GlyphDigitInverse | nepali_number_to_word/converter.py:36-47 | every glyph is the image of the digit the reverse map gives for it |
| Decimal.Str | nepali_number_to_word/converter.py:82 | `str(n)` of a natural number is non-empty, all digits, with no leading zero unless it is "0"; it has one character exactly when n < 10 |
| Decimal.ParseStr | nepali_number_to_word/converter.py:82 | reading the digits of `str(n)` gives n back |
| Decimal.StrParse | nepali_number_to_word/converter.py:82 | every canonical digit string is `str` of its value, so `str` is a bijection onto canonical strings |
| Text.JoinSpace | nepali_number_to_word/converter.py:71 | `" ".join` of no parts is empty; otherwise the result starts with the first part, followed by a space when there is a second part |
| Text.FilterEmpty | nepali_number_to_word/converter.py:71 | `filter(None, …)` keeps exactly the non-empty strings |
| Text.Strip | nepali_number_to_word/converter.py:72 | `strip()` returns a slice of its argument with only spaces cut off before and after it, and that slice is "" or has no space at either end |
| Text.Reverse | nepali_number_to_word/converter.py:67 | `words.reverse()` keeps the length of the list |
| Text.ReverseIndex | nepali_number_to_word/converter.py:67 | position k of the reversed list holds position n-1-k of the list |
| Text.ReverseReverse | nepali_number_to_word/converter.py:67 | reversing twice gives the list back |
| Converter.DigitPhrases | nepali_number_to_word/converter.py:86-106 | a value below 1000 gives at most three phrases (hundreds, tens, units); it gives none exactly when the value is 0; each phrase is trimmed |
| Converter.ThreeDigitWords | nepali_number_to_word/converter.py:86-108 | the three-digit words are empty exactly for 0 and otherwise have no space at either end |
| Converter.ConvertThreeDigits | nepali_number_to_word/converter.py:86-108 | `_convert_three_digits`, with the early return for 0 and the remainder-below-10 branch, equals `ThreeDigitWords` |
| Converter.Abs | nepali_number_to_word/converter.py:57 | `abs` returns the number or its negation, never negative |
| Base1000.Digit | nepali_number_to_word/converter.py:62-64 | the base-1000 digit reached by repeated `% 1000` and `// 1000` is below 1000 |
| Converter.Groups | nepali_number_to_word/converter.py:60-65 | the groups from position `scale` below `top` number at most top - scale; each has a count in 1..999 and a position in range |
| Converter.NumberGroups | nepali_number_to_word/converter.py:60-65 | at most six groups, each with a count in 1..999 and a named position |
| Converter.GroupsAreDigits | nepali_number_to_word/converter.py:60-65 | a group is produced exactly when its count is the non-zero base-1000 digit of n at its position |
| Converter.GroupsDescending | nepali_number_to_word/converter.py:60-67 | after the reversal the groups come highest position first, strictly descending |
| Converter.GroupsValue | nepali_number_to_word/converter.py:60-65 | the groups from position `scale` add up to the number modulo 1000^(top-scale), shifted to `scale` |
| Converter.NumberGroupsValue | nepali_number_to_word/converter.py:60-65 | the groups add up to n modulo 1000^6, and to n itself below 1000^6: nothing but the dropped high digits is lost |
| Converter.NoGroups | nepali_number_to_word/converter.py:60-65 | no group is produced exactly when n is a multiple of 1000^6 |
| Converter.GroupsTruncate | nepali_number_to_word/converter.py:60-65 | the groups depend only on the number modulo 1000^(top-scale) |
| Converter.Segment | nepali_number_to_word/converter.py:63 | the segment appended for a group is never empty and does not start with a space, so `filter(None, …)` never drops it |
| Converter.Phrase | nepali_number_to_word/converter.py:63 | the phrase of a group is trimmed |
| Converter.Phrases | nepali_number_to_word/converter.py:63 | the phrases of valid groups are all trimmed |
| Converter.SegmentIsPhrase | nepali_number_to_word/converter.py:63 | the appended segment is the group's phrase; at position 0, whose name is empty, it has a trailing space |
| Converter.HighSegments | nepali_number_to_word/converter.py:63 | groups above position 0 append their finished phrases |
| Converter.SplitLowGroup | nepali_number_to_word/converter.py:61-64 | the first turn of the loop contributes the position-0 group exactly when n % 1000 != 0; the higher groups come from n // 1000 |
| Converter.SmallGroups | nepali_number_to_word/converter.py:68-69 | below 1000 the single group is the number itself at position 0 |
| Converter.CollectSegments | nepali_number_to_word/converter.py:59-67 | the grouping loop with its reversal yields the segments of the groups, highest position first |
| Converter.LoopStart | nepali_number_to_word/converter.py:59-60 | the loop invariant holds on entry |
| Converter.LoopStep | nepali_number_to_word/converter.py:61-65 | one turn of the loop (the optional append, then the division) keeps the invariant: the remaining groups, the segments so far in reverse, and the value split between the consumed groups and the rest |
| Converter.StepWords | nepali_number_to_word/converter.py:62-63 | the append extends the reversed segment list by the segment of the new group exactly when the digit is non-zero |
| Converter.StepValue | nepali_number_to_word/converter.py:62-64 | the consumed groups plus the shifted rest still add up to the number after the division |
| Converter.GroupsStep | nepali_number_to_word/converter.py:62-64 | the remaining groups split into the higher ones and the one at the current position |
| Converter.GroupsOfZero | nepali_number_to_word/converter.py:65-66 | once the number is 0 no further group is produced, so stopping early loses nothing |
| Converter.LoopDone | nepali_number_to_word/converter.py:65-66 | when the loop stops, by running out of names or by the number reaching 0, the reversed list is the segment list of all groups |
| Converter.ConvertPositive | nepali_number_to_word/converter.py:59-72 | the positive case (loop or three-digit words, then join, strip and currency phrase) equals `PositiveWords` |
| Converter.ConvertToWords | nepali_number_to_word/converter.py:49-72 | `convert_to_nepali_words` equals `Words`: zero, one level of recursion for negatives, then the positive case |
| Converter.Segments | nepali_number_to_word/converter.py:59-67 | the list left after the loop and the reversal has one segment per group, each non-empty and not starting with a space |
| Converter.WordParts | nepali_number_to_word/converter.py:59-69 | the `words` list has no empty entry, so `filter(None, …)` drops nothing; it has at most one entry per position name for 1000 or more, and exactly one below 1000 |
| Converter.PositiveWords | nepali_number_to_word/converter.py:59-72 | the words of a positive number end with the currency phrase |
| Converter.Stripped | nepali_number_to_word/converter.py:71-72 | the filtered, joined and stripped text is "" or has no space at either end |
| Converter.Assemble | nepali_number_to_word/converter.py:71-72 | the assembled words always end with the currency phrase " रूपैयाँ मात्र" |
| Converter.Words | nepali_number_to_word/converter.py:49-72 | the words are "शून्य" exactly for 0; every other number's words end with the currency phrase; a negative number's words start with "ऋणात्मक " |
| Converter.AssembleTrimmed | nepali_number_to_word/converter.py:71-72 | filter, join and strip of trimmed phrases is their plain space-join |
| Converter.SnocParts | nepali_number_to_word/converter.py:71 | appending a trimmed phrase, with or without the trailing space, keeps all parts trimmed or non-empty |
| Converter.AssembleTrailingSpace | nepali_number_to_word/converter.py:71-72 | the trailing space of the last segment is removed again by the strip |
| Converter.PositiveWordsShape | nepali_number_to_word/converter.py:59-72 | a positive number reads as its group phrases, highest first, separated by single spaces, then the currency phrase |
| Converter.PositiveStripped | nepali_number_to_word/converter.py:59-72 | the stripped text of a positive number is the space-join of its group phrases |
| Converter.RoundStripped | nepali_number_to_word/converter.py:59-72 | the same for 1000 or more with lowest digit zero |
| Converter.UnevenStripped | nepali_number_to_word/converter.py:59-72 | the same for 1000 or more with a non-zero lowest digit |
| Converter.WordsSpec | nepali_number_to_word/converter.py:49-72 | zero is "शून्य" alone; a negative number is the negative marker before the words of its absolute value; a positive number is its group phrases and the currency phrase |
| Converter.PositiveBody | nepali_number_to_word/converter.py:59-72 | the text before the currency phrase is empty exactly for multiples of 1000^6 and otherwise trimmed |
| Converter.SmallWords | nepali_number_to_word/converter.py:68-72 | from 1 to 999 the words are the three-digit words and the currency phrase |
| Converter.WordsTruncate | nepali_number_to_word/converter.py:60-66 | groups from 1000^6 up are never spoken: n reads as n modulo 1000^6 does when that is not 0 |
| Converter.WordsDropped | nepali_number_to_word/converter.py:60-72 | a positive multiple of 1000^6 yields only the currency phrase, with its leading space |
| Converter.ShiftRemainder | nepali_number_to_word/converter.py:62-64 | the value modulo 1000^k splits into the lowest digit and the rest one position up |
| Converter.ValueAppend | nepali_number_to_word/converter.py:62 | the value of concatenated group lists is the sum of their values |
| Converter.ShiftPositive | nepali_number_to_word/converter.py:62 | a non-zero group has a non-zero value |
| Converter.ThreeDigitsOf123 | nepali_number_to_word/converter.py:86-108 | 123 is "एक सय बीस तीन" |
| Converter.ThreeDigitsOf23 | nepali_number_to_word/converter.py:97-104 | 23 is "बीस तीन": tens and units are separate words |
| Converter.ThreeDigitsOf345 | nepali_number_to_word/converter.py:86-108 | 345 is "तीन सय चालीस पाँच" |
| Converter.WordsOf123 | nepali_number_to_word/converter.py:68-72 | 123 reads "एक सय बीस तीन रूपैयाँ मात्र" |
| Converter.OneGroupWords | nepali_number_to_word/converter.py:59-72 | a number with one group above position 0 reads as that group's phrase and the currency phrase |
| Converter.GroupsOfThousands | nepali_number_to_word/converter.py:60-65 | a whole number of thousands below a million has the one group (n/1000, हजार) |
| Converter.WordsOf1000 | nepali_number_to_word/converter.py:59-72 | 1000 reads "एक हजार रूपैयाँ मात्र" |
| Converter.OneThousand | nepali_number_to_word/converter.py:63 | the segment of (1, हजार) is "एक हजार" |
| Converter.WordsOfMinus1000 | nepali_number_to_word/converter.py:56-57 | -1000 reads "ऋणात्मक एक हजार रूपैयाँ मात्र" |
| Converter.WordsOf100000 | nepali_number_to_word/converter.py:59-72 | 100000 reads "एक सय हजार रूपैयाँ मात्र" |
| Converter.HundredThousand | nepali_number_to_word/converter.py:63 | the segment of (100, हजार) is "एक सय हजार" |
| Converter.WordsOf2000345 | nepali_number_to_word/converter.py:59-72 | 2000345 reads "दुई लाख तीन सय चालीस पाँच रूपैयाँ मात्र": the zero thousands group is skipped |
| Converter.TwoLakh | nepali_number_to_word/converter.py:63 | the segment of (2, लाख) is "दुई लाख" |
| Converter.GroupsOf2000345 | nepali_number_to_word/converter.py:60-65 | 2000345 has the groups (2, position 2) and (345, position 0) |
| Converter.WordsOfThousandPowSix | nepali_number_to_word/converter.py:60-72 | 1000^6 reads as the currency phrase alone |
| Converter.ToNumerals | nepali_number_to_word/converter.py:74-84 | the numerals always end with " /-", and they start with "-" exactly when the number is negative |
| Converter.Glyphs | nepali_number_to_word/converter.py:83 | one glyph per digit, each the glyph of the digit at the same place |
| Converter.UnGlyphs | nepali_number_to_word/converter.py:83 | mapping glyphs back gives, when it succeeds, a digit string of the same length |
| Converter.UnGlyphsGlyphs | nepali_number_to_word/converter.py:83 | mapping the glyphs of a digit string back gives the digits |
| Converter.GlyphsUnGlyphs | nepali_number_to_word/converter.py:83 | a string that maps back to digits is the glyph form of those digits |
| Converter.NumeralsShape | nepali_number_to_word/converter.py:82-84 | a non-negative number's numerals are the glyphs of `str(n)` and the closing mark, one glyph per digit, and no comma |
| Converter.NegativeNumerals | nepali_number_to_word/converter.py:79-80 | a negative number's numerals are "-" before those of its absolute value, which are not negative again |
| Converter.ReadSuffixed | nepali_number_to_word/converter.py:84 | the closing mark is recognised and removed |
| Converter.ReadGlyphsStr | nepali_number_to_word/converter.py:82-83 | the glyphs of `str(n)` read back as n |
| Converter.NumeralsRoundTrip | nepali_number_to_word/converter.py:74-84 | reading the numerals of every integer the model takes gives the integer back, so the conversion is one-to-one |
| Converter.NaturalRoundTrip | nepali_number_to_word/converter.py:82-84 | the same for a number that is not negative |
| Converter.NegativeRoundTrip | nepali_number_to_word/converter.py:79-84 | the same for a negative number |
| Converter.NegativeForm | nepali_number_to_word/converter.py:79-84 | a negative number's numerals are "-", the glyphs of `str(abs(number))`, and " /-" |
| Converter.ReadNegativeBody | nepali_number_to_word/converter.py:79-83 | a minus sign before the glyphs of a positive n reads as -n |
| Converter.ReadGlyphsExact | nepali_number_to_word/converter.py:82-83 | glyphs that read back as v are exactly the glyphs of `str(v)` |
| Converter.ReadSignedExact | nepali_number_to_word/converter.py:78-84 | a sign and glyphs that read back as a number, followed by the closing mark, are exactly that number's numerals |
| Converter.ReadNumeralsExact | nepali_number_to_word/converter.py:74-84 | every string that reads back as a number is that number's numerals: the reader is an exact inverse |
| Converter.NumeralsOf1000 | nepali_number_to_word/converter.py:74-84 | 1000 is "१००० /-" and -1000 is "-१००० /-" |
| Converter.StrOf1000 | nepali_number_to_word/converter.py:82 | `str(1000)` is "1000" |
| Converter.GlyphsOf1000 | nepali_number_to_word/converter.py:83 | the glyphs of "1000" are "१०००" |

## Left out

- The class is not a Dafny `class`. `__init__` (converter.py:7-47) only
  fills tables that are never changed afterwards. They are the constants of
  `Lexicon`, and the conversions are functions and methods over them.
- Inputs other than `int` (floats, strings, `None`) are not modelled. The
  parameter is a Dafny `int`.
- The `KeyError` that `self.nepali_numerals[digit]` at converter.py:83
  can raise is not modelled. For a plain `int` the branch at line 79
  removes the sign, so `str` of the rest holds only digits (`Glyphs`
  requires that). A `bool`, which Python treats as an `int`, is not: `str(True)`
  is "True", and the lookup fails. The model has no booleans among its
  inputs.
- Decimal.Str: it is total. In CPython 3.11, and in the 3.7–3.10 security releases of September 2022
  and later, `str` of an `int` with more
  than 4300 decimal digits raises `ValueError` under the default
  `int_max_str_digits` limit. So `convert_to_nepali_numerals` fails on such
  numbers, and `NumeralsRoundTrip` and `ReadNumeralsExact` hold only for the
  numbers Python can print.
- `Text.Strip` removes only the space character. Python's `strip()` also
  removes other whitespace, but no table entry contains any.
- Converter.ConvertToWords: the positive case is in its own method,
  `ConvertPositive`. Its loop is in `CollectSegments`, which stops through
  its loop guard instead of the test and `break` at lines 65–66. The guard checks the
  same condition after the same division, so the turns are the same.
- Converter.ReadNumerals, Converter.ReadSigned, Converter.ReadGlyphs,
  Converter.UnGlyphs and Decimal.Parse have no counterpart in the source. They are the inverse
  used to state that numerals are one-to-one.
- The lakh/crore radix, irregular names for 11–99 and comma grouping of
  numerals are the customary Nepali forms. They are not modelled because
  converter.py does not produce them, and the model follows the code.
- The printing in test.py is not part of this model.
