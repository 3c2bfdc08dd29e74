/**
  * The constant word and glyph tables of `NepaliNumberConverter`, filled once
  * by its constructor and never changed afterwards, together with the fixed
  * phrases its conversions use.
  */
module Lexicon {
  import opened Text

  /** Words for the units digit; index 0 is the empty placeholder. */
  const Units: seq<string> := ["", "एक", "दुई", "तीन", "चार", "पाँच", "छ", "सात", "आठ", "नौ"]

  /** Words for the tens digit (ten, twenty, ..., ninety); index 0 is empty. */
  const Tens: seq<string> := ["", "दस", "बीस", "तीस", "चालीस", "पचास", "साठी", "सत्तरी", "अस्सी", "नब्बे"]

  /** "N hundred" phrases for the hundreds digit; index 0 is empty. */
  const Hundreds: seq<string> :=
    ["", "एक सय", "दुई सय", "तीन सय", "चार सय", "पाँच सय", "छ सय", "सात सय", "आठ सय", "नौ सय"]

  /** The name given to the base-1000 group at position i: 1000^1 is हजार,
      1000^2 is लाख, 1000^3 is करोड and so on; position 0 has no name. */
  const Thousands: seq<string> := ["", "हजार", "लाख", "करोड", "अरब", "खरब"]

  /** ASCII decimal digit to Devanagari numeral glyph. */
  const NepaliNumerals: map<char, char> :=
    map['0' := '०', '1' := '१', '2' := '२', '3' := '३', '4' := '४',
        '5' := '५', '6' := '६', '7' := '७', '8' := '८', '9' := '९']

  /** Devanagari numeral glyph back to its ASCII decimal digit. */
  const NumeralDigits: map<char, char> :=
    map['०' := '0', '१' := '1', '२' := '2', '३' := '3', '४' := '4',
        '५' := '5', '६' := '6', '७' := '7', '८' := '8', '९' := '9']

  /** The whole answer for zero. */
  const ZeroWord: string := "शून्य"

  /** Put in front of the words of the absolute value of a negative number. */
  const NegativePrefix: string := "ऋणात्मक "

  /** Closes the words of every non-zero number ("rupees only"). */
  const CurrencySuffix: string := " रूपैयाँ मात्र"

  /** Closes every numeral string. */
  const NumeralSuffix: string := " /-"

  /** Every non-placeholder table entry is a trimmed phrase; the placeholders are empty. */
  lemma TablesWellFormed()
    ensures |Units| == 10 && |Tens| == 10 && |Hundreds| == 10 && |Thousands| == 6
    ensures Units[0] == "" && Tens[0] == "" && Hundreds[0] == "" && Thousands[0] == ""
    ensures forall d :: 1 <= d < 10 ==> Trimmed(Units[d]) && Trimmed(Tens[d]) && Trimmed(Hundreds[d])
    ensures forall i :: 1 <= i < 6 ==> Trimmed(Thousands[i])
  {
    forall d | 1 <= d < 10 ensures Trimmed(Units[d]) && Trimmed(Tens[d]) && Trimmed(Hundreds[d]) {
      if d == 1 {} else if d == 2 {} else if d == 3 {} else if d == 4 {} else if d == 5 {}
      else if d == 6 {} else if d == 7 {} else if d == 8 {} else {}
    }
    forall i | 1 <= i < 6 ensures Trimmed(Thousands[i]) {
      if i == 1 {} else if i == 2 {} else if i == 3 {} else if i == 4 {} else {}
    }
  }

  /** The glyph map is total on the ten ASCII digits, and `NumeralDigits`
      undoes it, so it is one-to-one; no glyph is a comma, a minus sign or a
      space. */
  lemma GlyphMapInverse()
    ensures forall c :: c in NepaliNumerals <==> '0' <= c <= '9'
    ensures forall c :: c in NepaliNumerals ==>
      NepaliNumerals[c] in NumeralDigits && NumeralDigits[NepaliNumerals[c]] == c
    ensures forall g :: g in NumeralDigits ==> g != ',' && g != '-' && g != ' '
    ensures forall c, d :: c in NepaliNumerals && d in NepaliNumerals && NepaliNumerals[c] == NepaliNumerals[d] ==> c == d
  {
    forall c | '0' <= c <= '9' ensures c in NepaliNumerals {
      assert c == '0' || c == '1' || c == '2' || c == '3' || c == '4'
          || c == '5' || c == '6' || c == '7' || c == '8' || c == '9';
    }
    forall c, d | c in NepaliNumerals && d in NepaliNumerals && NepaliNumerals[c] == NepaliNumerals[d]
      ensures c == d
    {
      assert NumeralDigits[NepaliNumerals[c]] == c;
    }
  }

  /** Each glyph is the image of the digit it maps back to. */
  lemma GlyphDigitInverse(g: char)
    requires g in NumeralDigits
    ensures NumeralDigits[g] in NepaliNumerals && NepaliNumerals[NumeralDigits[g]] == g
  {
    assert g == '०' || g == '१' || g == '२' || g == '३' || g == '४'
        || g == '५' || g == '६' || g == '७' || g == '८' || g == '९';
  }
}
