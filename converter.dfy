/**
  * `NepaliNumberConverter`: integer amounts to Nepali words and to Devanagari
  * numerals.
  *
  * Words: a number of 1000 or more is cut into base-1000 groups (powers of
  * 1000, not the lakh/crore radix); each non-zero group is spoken by the
  * three-digit renderer and followed by the name of its position (हजार for
  * 1000, लाख for 1000^2, ...); tens and units are spoken word by word. Only the
  * six lowest groups are looked at. Numerals: each decimal digit is replaced by
  * its Devanagari glyph, without grouping commas.
  */
module Converter {
  import opened Text
  import opened Lexicon
  import opened Decimal
  import opened Base1000

  datatype Option<T> = None | Some(value: T)

  // ---------------------------------------------------------------------------
  // Three digits
  // ---------------------------------------------------------------------------

  /** The phrases that speak `m`, digit by digit: the hundreds phrase when the
      hundreds digit is not 0, then the tens word when the tens digit is not 0,
      then the units word when the units digit is not 0. */
  function DigitPhrases(m: nat): (parts: seq<string>)
    requires m < 1000
    ensures |parts| <= 3
    ensures parts == [] <==> m == 0
    ensures forall k :: 0 <= k < |parts| ==> Trimmed(parts[k])
  {
    TablesWellFormed();
    var h, t, u := m / 100, m % 100 / 10, m % 10;
    (if h > 0 then [Hundreds[h]] else [])
      + (if t > 0 then [Tens[t]] else [])
      + (if u > 0 then [Units[u]] else [])
  }

  /** The words for a value below 1000: empty for 0, otherwise a trimmed phrase. */
  function ThreeDigitWords(m: nat): (r: string)
    requires m < 1000
    ensures r == "" <==> m == 0
    ensures m > 0 ==> Trimmed(r)
  {
    var parts := DigitPhrases(m);
    if m > 0 then JoinTrimmed(parts); JoinSpace(parts) else JoinSpace(parts)
  }

  /** `_convert_three_digits`: collects the phrases with the source's branches
      (a remainder below 10 goes straight to the units table) and joins them. */
  method ConvertThreeDigits(number: nat) returns (r: string)
    requires number < 1000
    ensures r == ThreeDigitWords(number)
  {
    if number == 0 {
      return "";
    }
    var words: seq<string> := [];
    var hundred := number / 100;
    if hundred > 0 {
      words := words + [Hundreds[hundred]];
    }
    var remaining := number % 100;
    if remaining > 0 {
      if remaining < 10 {
        words := words + [Units[remaining]];
      } else {
        var ten := remaining / 10;
        var unit := remaining % 10;
        if ten > 0 {
          words := words + [Tens[ten]];
        }
        if unit > 0 {
          words := words + [Units[unit]];
        }
      }
    }
    assert words == DigitPhrases(number) by {
      RemainderDigits(number);
    }
    FilterNoEmpty(words);
    r := JoinSpace(FilterEmpty(words));
  }

  /** The tens and units digits of `m` are those of `m % 100`. */
  lemma RemainderDigits(m: nat)
    ensures (m % 100) % 10 == m % 10
    ensures m % 100 < 10 ==> m % 100 / 10 == 0 && m % 100 == m % 10
  {
  }

  // ---------------------------------------------------------------------------
  // Base-1000 groups
  // ---------------------------------------------------------------------------

  /** A non-zero base-1000 group of the number and its position. */
  datatype Group = Group(count: nat, scale: nat)

  predicate ValidGroup(g: Group) {
    0 < g.count < 1000 && g.scale < |Thousands|
  }

  /** The non-zero base-1000 digits of `n`, its lowest digit labelled with
      position `scale` and the next ones upwards, as far as (not including)
      position `top`; the highest position comes first. */
  function Groups(n: nat, scale: nat, top: nat): (gs: seq<Group>)
    ensures scale <= top ==> |gs| <= top - scale
    ensures forall g :: g in gs ==> 0 < g.count < 1000 && scale <= g.scale < top
    decreases top - scale
  {
    if scale >= top then []
    else Groups(n / 1000, scale + 1, top) + (if n % 1000 != 0 then [Group(n % 1000, scale)] else [])
  }

  /** The groups the conversion looks at: the six lowest positions. */
  function NumberGroups(n: nat): (gs: seq<Group>)
    ensures |gs| <= |Thousands|
    ensures forall g :: g in gs ==> ValidGroup(g)
  {
    Groups(n, 0, |Thousands|)
  }

  /** The sum of count * 1000^scale over the groups. */
  function Value(gs: seq<Group>): nat
  {
    if |gs| == 0 then 0 else Shift(gs[0].count, gs[0].scale) + Value(gs[1..])
  }

  /** What the loop appends for a group: its words, a space, its position name
      (for position 0 the name is empty, so a trailing space is left). Groups
      outside the tables never arise; they give the empty string. */
  function Segment(g: Group): (r: string)
    ensures ValidGroup(g) ==> r != "" && r[0] != ' '
  {
    if ValidGroup(g) then ThreeDigitWords(g.count) + " " + Thousands[g.scale] else ""
  }

  /** The list after the reversal: one segment per group, in the groups' order. */
  function Segments(gs: seq<Group>): (r: seq<string>)
    ensures |r| == |gs|
    ensures (forall g :: g in gs ==> ValidGroup(g)) ==> forall k :: 0 <= k < |r| ==> r[k] != "" && r[k][0] != ' '
  {
    Map(Segment, gs)
  }

  /** How a group reads in the finished phrase: its words, then its position
      name when the position has one. */
  function Phrase(g: Group): (r: string)
    ensures ValidGroup(g) ==> Trimmed(r)
  {
    TablesWellFormed();
    if !ValidGroup(g) then ""
    else if g.scale == 0 then ThreeDigitWords(g.count)
    else ThreeDigitWords(g.count) + " " + Thousands[g.scale]
  }

  function Phrases(gs: seq<Group>): (r: seq<string>)
    ensures (forall g :: g in gs ==> ValidGroup(g)) ==> forall k :: 0 <= k < |r| ==> Trimmed(r[k])
  {
    Map(Phrase, gs)
  }

  // ---------------------------------------------------------------------------
  // Words
  // ---------------------------------------------------------------------------

  /** The list the source builds before assembling: one segment per group for
      1000 or more, otherwise the three-digit words alone. */
  function WordParts(n: nat): (r: seq<string>)
    requires n > 0
    ensures forall k :: 0 <= k < |r| ==> r[k] != ""
    ensures n >= 1000 ==> |r| <= |Thousands|
    ensures n < 1000 ==> |r| == 1
  {
    if n >= 1000 then Segments(NumberGroups(n)) else [ThreeDigitWords(n)]
  }

  /** The assembly step: empty entries dropped, the rest joined with spaces,
      the result stripped, and the currency phrase appended. */
  function Assemble(words: seq<string>): (r: string)
    ensures EndsWith(r, CurrencySuffix)
  {
    ConcatEnds(Stripped(words), CurrencySuffix);
    Stripped(words) + CurrencySuffix
  }

  /** The assembled text before the currency phrase. */
  function Stripped(words: seq<string>): (r: string)
    ensures r == "" || Trimmed(r)
  {
    Strip(JoinSpace(FilterEmpty(words)))
  }

  /** The word form of a positive number: its assembled parts. */
  function PositiveWords(n: nat): (r: string)
    requires n > 0
    ensures EndsWith(r, CurrencySuffix)
  {
    Assemble(WordParts(n))
  }

  /** Python's `abs`. */
  function Abs(n: int): (r: nat)
    ensures r == n || r == -n
  {
    if n < 0 then -n else n
  }

  /** The word form of `number`: zero is a word of its own, a negative number
      is the negative marker before the words of its absolute value, which is
      positive, so the recursion is one level deep. */
  function Words(number: int): (r: string)
    ensures r == ZeroWord <==> number == 0
    ensures number != 0 ==> EndsWith(r, CurrencySuffix)
    ensures number < 0 ==> StartsWith(r, NegativePrefix)
    decreases if number < 0 then 1 else 0
  {
    assert |ZeroWord| < |CurrencySuffix|;
    if number == 0 then ZeroWord
    else if number < 0 then
      var positive := Words(Abs(number));
      PrependKeepsEnd(NegativePrefix, positive, CurrencySuffix);
      ConcatEnds(NegativePrefix, positive);
      NegativePrefix + positive
    else PositiveWords(number)
  }

  /** `convert_to_nepali_words`: zero first; a negative number calls the
      conversion once more on its absolute value, which is positive, so the
      recursion is one level deep; the positive case last. */
  method ConvertToWords(number: int) returns (r: string)
    ensures r == Words(number)
    decreases if number < 0 then 1 else 0
  {
    if number == 0 {
      return ZeroWord;
    }
    if number < 0 {
      var positive := ConvertToWords(Abs(number));
      return NegativePrefix + positive;
    }
    r := ConvertPositive(number);
  }

  /** The positive case of `convert_to_nepali_words`: the segment list (from
      `CollectSegments` for 1000 or more, the three-digit words alone below
      that), then the assembly. */
  method ConvertPositive(number: nat) returns (r: string)
    requires number > 0
    ensures r == PositiveWords(number)
  {
    var words: seq<string>;
    if number >= 1000 {
      words := CollectSegments(number);
    } else {
      var part := ConvertThreeDigits(number);
      words := [part];
    }
    assert words == WordParts(number);
    r := Assemble(words);
  }

  /** The loop of `convert_to_nepali_words` for 1000 or more: it walks the six
      position names from the lowest, appends a segment for every non-zero
      group, divides by 1000, and stops early when nothing is left; the list is
      then reversed, so the highest position comes first. The early stop is
      tested in the loop condition rather than by a `break` after the
      division: the loop is entered with a non-zero number, so the turns taken
      are the same. */
  method CollectSegments(number: nat) returns (words: seq<string>)
    requires number >= 1000
    ensures words == Segments(NumberGroups(number))
  {
    words := [];
    var rest: nat := number;
    var i := 0;
    ghost var consumed: seq<Group> := [];
    LoopStart(number);
    while i < |Thousands| && rest != 0
      invariant LoopProgress(number, rest, i, consumed, words)
    {
      ghost var low := if rest % 1000 != 0 then [Group(rest % 1000, i)] else [];
      ghost var before := words;
      if rest % 1000 != 0 {
        var part := ConvertThreeDigits(rest % 1000);
        words := words + [part + " " + Thousands[i]];
      }
      LoopStep(number, rest, i, consumed, before, words);
      assert LoopProgress(number, rest / 1000, i + 1, low + consumed, words);
      consumed := low + consumed;
      rest := rest / 1000;
      i := i + 1;
    }
    LoopDone(number, rest, i, consumed, words);
    words := Reverse(words);
  }

  /** What holds each time the loop of `CollectSegments` comes round: the
      groups of `number` are the groups still in `rest` (which is `number` after
      `i` divisions by 1000, its lowest group at position `i`) above the groups
      already taken off, `consumed` (highest first), and `words` holds the
      segments of `consumed` in the order they were appended (lowest first). */
  ghost predicate LoopProgress(number: nat, rest: nat, i: nat, consumed: seq<Group>, words: seq<string>) {
    && i <= |Thousands|
    && NumberGroups(number) == Groups(rest, i, |Thousands|) + consumed
    && words == Reverse(Segments(consumed))
    && number == Value(consumed) + Shift(rest, i)
  }

  /** Before the first turn nothing is consumed and `rest` is the number. */
  lemma LoopStart(number: nat)
    ensures LoopProgress(number, number, 0, [], [])
  {
    assert Shift(number, 0) == number;
    assert Groups(number, 0, |Thousands|) + [] == NumberGroups(number);
  }

  /** One turn of the loop keeps `LoopProgress`. */
  lemma LoopStep(number: nat, rest: nat, i: nat, consumed: seq<Group>, words: seq<string>, next: seq<string>)
    requires i < |Thousands|
    requires LoopProgress(number, rest, i, consumed, words)
    requires next == words + (if rest % 1000 != 0 then [ThreeDigitWords(rest % 1000) + " " + Thousands[i]] else [])
    ensures LoopProgress(number, rest / 1000, i + 1,
      (if rest % 1000 != 0 then [Group(rest % 1000, i)] else []) + consumed, next)
  {
    var low := if rest % 1000 != 0 then [Group(rest % 1000, i)] else [];
    GroupsStep(rest, i, |Thousands|, consumed);
    StepWords(rest, i, consumed, words, next);
    StepValue(number, rest, i, consumed);
  }

  /** The segment appended by one turn is the reversed segment list of the
      group list grown at the front. */
  lemma StepWords(rest: nat, i: nat, consumed: seq<Group>, words: seq<string>, next: seq<string>)
    requires i < |Thousands|
    requires words == Reverse(Segments(consumed))
    requires next == words + (if rest % 1000 != 0 then [ThreeDigitWords(rest % 1000) + " " + Thousands[i]] else [])
    ensures next == Reverse(Segments((if rest % 1000 != 0 then [Group(rest % 1000, i)] else []) + consumed))
  {
    if rest % 1000 != 0 {
      var g := Group(rest % 1000, i);
      MapAppend(Segment, [g], consumed);
      assert Segments([g]) == [Segment(g)];
      ReverseAppend(Segments(consumed), Segment(g));
    } else {
      assert [] + consumed == consumed;
    }
  }

  /** When the loop ends, every group has been consumed: the reversed words
      list is the list of segments of all groups. */
  lemma LoopDone(number: nat, rest: nat, i: nat, consumed: seq<Group>, words: seq<string>)
    requires LoopProgress(number, rest, i, consumed, words)
    requires i == |Thousands| || rest == 0
    ensures Reverse(words) == Segments(NumberGroups(number))
  {
    if rest == 0 {
      GroupsOfZero(i, |Thousands|);
    }
    assert NumberGroups(number) == consumed;
    ReverseReverse(Segments(consumed));
  }

  /** Taking the lowest group off `rest` moves it from the pending groups to
      the front of the consumed ones. */
  lemma GroupsStep(rest: nat, i: nat, top: nat, consumed: seq<Group>)
    requires i < top
    ensures Groups(rest, i, top) + consumed
         == Groups(rest / 1000, i + 1, top) + ((if rest % 1000 != 0 then [Group(rest % 1000, i)] else []) + consumed)
  {
  }

  /** Moving the lowest group of `rest` into the consumed list keeps the total. */
  lemma StepValue(number: nat, rest: nat, i: nat, consumed: seq<Group>)
    requires number == Value(consumed) + Shift(rest, i)
    ensures number == Value((if rest % 1000 != 0 then [Group(rest % 1000, i)] else []) + consumed)
                      + Shift(rest / 1000, i + 1)
  {
    ShiftLowDigit(rest, i);
    if rest % 1000 != 0 {
      assert ([Group(rest % 1000, i)] + consumed)[1..] == consumed;
    } else {
      ShiftZero(i);
      assert [] + consumed == consumed;
    }
  }

  /** Nothing is emitted for a number that is used up. */
  lemma {:induction false} GroupsOfZero(scale: nat, top: nat)
    ensures Groups(0, scale, top) == []
    decreases top - scale
  {
    if scale < top {
      GroupsOfZero(scale + 1, top);
    }
  }

  // ---------------------------------------------------------------------------
  // What the groups are
  // ---------------------------------------------------------------------------

  /** A group is emitted for exactly the non-zero base-1000 digits of `n` in
      the positions looked at, and it carries that digit. */
  lemma {:induction false} GroupsAreDigits(n: nat, scale: nat, top: nat, g: Group)
    ensures g in Groups(n, scale, top) <==>
      scale <= g.scale < top && g.count == Digit(n, g.scale - scale) && g.count != 0
    decreases top - scale
  {
    if scale < top {
      GroupsAreDigits(n / 1000, scale + 1, top, g);
      if g.scale > scale {
        assert Digit(n, g.scale - scale) == Digit(n / 1000, g.scale - (scale + 1));
      }
    }
  }

  /** Positions strictly decrease along the list. */
  predicate Descending(gs: seq<Group>) {
    forall a, b :: 0 <= a < b < |gs| ==> gs[a].scale > gs[b].scale
  }

  /** The groups come highest position first, each position at most once. */
  lemma {:induction false} GroupsDescending(n: nat, scale: nat, top: nat)
    ensures Descending(Groups(n, scale, top))
    decreases top - scale
  {
    if scale < top {
      GroupsDescending(n / 1000, scale + 1, top);
      var hi := Groups(n / 1000, scale + 1, top);
      var gs := Groups(n, scale, top);
      forall a, b | 0 <= a < b < |gs| ensures gs[a].scale > gs[b].scale {
        assert gs[a] == hi[a];
        if b < |hi| {
          assert gs[b] == hi[b];
          assert hi[a].scale > hi[b].scale;
        } else {
          assert gs[a] in hi;
          assert gs[b] == Group(n % 1000, scale);
        }
      }
    }
  }

  lemma {:induction false} ValueAppend(a: seq<Group>, b: seq<Group>)
    ensures Value(a + b) == Value(a) + Value(b)
  {
    if |a| > 0 {
      assert (a + b)[1..] == a[1..] + b;
      ValueAppend(a[1..], b);
    } else {
      assert a + b == b;
    }
  }

  /** The groups add back up to the part of `n` below the first position not
      looked at, shifted to their starting position. */
  lemma {:induction false} GroupsValue(n: nat, scale: nat, top: nat)
    requires scale <= top
    ensures Value(Groups(n, scale, top)) == Shift(n % Pow1000(top - scale), scale)
    decreases top - scale
  {
    if scale == top {
      ShiftZero(scale);
    } else {
      var hi := Groups(n / 1000, scale + 1, top);
      var low := if n % 1000 != 0 then [Group(n % 1000, scale)] else [];
      calc {
        Value(Groups(n, scale, top));
        Value(hi + low);
        { ValueAppend(hi, low); }
        Value(hi) + Value(low);
        { GroupsValue(n / 1000, scale + 1, top); LowValue(n, scale); }
        Shift((n / 1000) % Pow1000(top - (scale + 1)), scale + 1) + Shift(n % 1000, scale);
        { ShiftRemainder(n, scale, top); }
        Shift(n % Pow1000(top - scale), scale);
      }
    }
  }

  /** The group a turn of the loop may add is worth the lowest digit. */
  lemma LowValue(n: nat, scale: nat)
    ensures Value(if n % 1000 != 0 then [Group(n % 1000, scale)] else []) == Shift(n % 1000, scale)
  {
    if n % 1000 == 0 {
      ShiftZero(scale);
    } else {
      assert [Group(n % 1000, scale)][1..] == [];
    }
  }

  /** The remainder modulo 1000^(top - scale), shifted to `scale`, is its
      lowest digit shifted to `scale` plus the rest shifted one position
      further. */
  lemma ShiftRemainder(n: nat, scale: nat, top: nat)
    requires scale < top
    ensures Shift(n % Pow1000(top - scale), scale)
         == Shift((n / 1000) % Pow1000(top - (scale + 1)), scale + 1) + Shift(n % 1000, scale)
  {
    var b := Pow1000(top - (scale + 1));
    assert Pow1000(top - scale) == 1000 * b;
    ModSplit(n, b);
    var x := (n / 1000) % b;
    ShiftAdd(1000 * x, n % 1000, scale);
    ShiftThousand(x, scale);
  }

  /** The digits the conversion reads back add up to the number modulo
      1000^6; below 1000^6 they add up to the number itself. */
  lemma NumberGroupsValue(n: nat)
    ensures Value(NumberGroups(n)) == n % Pow1000(|Thousands|)
    ensures n < Pow1000(|Thousands|) ==> Value(NumberGroups(n)) == n
  {
    GroupsValue(n, 0, |Thousands|);
    var p := Pow1000(|Thousands|);
    if n < p {
      DivModUnique(n, p, 0, n);
    }
  }

  lemma {:induction false} ShiftPositive(x: nat, k: nat)
    requires x > 0
    ensures Shift(x, k) > 0
  {
    if k > 0 {
      ShiftPositive(x, k - 1);
    }
  }

  /** No group at all is emitted exactly when the six lowest base-1000
      digits are all zero. */
  lemma NoGroups(n: nat)
    ensures NumberGroups(n) == [] <==> n % Pow1000(|Thousands|) == 0
  {
    var gs := NumberGroups(n);
    NumberGroupsValue(n);
    if gs != [] {
      assert ValidGroup(gs[0]);
      ShiftPositive(gs[0].count, gs[0].scale);
    }
  }

  /** Only the six lowest base-1000 digits matter: higher groups are dropped. */
  lemma {:induction false} GroupsTruncate(n: nat, scale: nat, top: nat)
    requires scale <= top
    ensures Groups(n, scale, top) == Groups(n % Pow1000(top - scale), scale, top)
    decreases top - scale
  {
    if scale < top {
      var k := top - scale;
      var m := n % Pow1000(k);
      ModSplit(n, Pow1000(k - 1));
      var x := (n / 1000) % Pow1000(k - 1);
      DivModUnique(m, 1000, x, n % 1000);
      GroupsTruncate(n / 1000, scale + 1, top);
    }
  }

  // ---------------------------------------------------------------------------
  // The shape of the words
  // ---------------------------------------------------------------------------

  /** A segment is the group's phrase, with a space left over at position 0,
      whose name is empty. */
  lemma SegmentIsPhrase(g: Group)
    requires ValidGroup(g)
    ensures Segment(g) == if g.scale == 0 then Phrase(g) + " " else Phrase(g)
  {
    if g.scale == 0 {
      assert Thousands[0] == "";
      assert ThreeDigitWords(g.count) + " " + "" == ThreeDigitWords(g.count) + " ";
    }
  }

  /** Above position 0 a segment is already the finished phrase. */
  lemma HighSegments(gs: seq<Group>)
    requires forall g :: g in gs ==> ValidGroup(g) && g.scale > 0
    ensures Segments(gs) == Phrases(gs)
  {
    forall k | 0 <= k < |gs| ensures Segments(gs)[k] == Phrases(gs)[k] {
      assert gs[k] in gs;
      SegmentIsPhrase(gs[k]);
    }
  }

  /** The groups are those above position 0, then the group at position 0
      when the lowest digit is not zero. */
  lemma SplitLowGroup(n: nat)
    ensures NumberGroups(n) == Groups(n / 1000, 1, |Thousands|)
                               + (if n % 1000 != 0 then [Group(n % 1000, 0)] else [])
  {
  }

  /** Below 1000 there is one group, at position 0. */
  lemma SmallGroups(n: nat)
    requires 0 < n < 1000
    ensures NumberGroups(n) == [Group(n, 0)]
  {
    SplitLowGroup(n);
    GroupsOfZero(1, |Thousands|);
  }

  /** Assembling trimmed phrases just joins them. */
  lemma AssembleTrimmed(ps: seq<string>)
    requires forall k :: 0 <= k < |ps| ==> Trimmed(ps[k])
    ensures Stripped(ps) == JoinSpace(ps)
  {
    FilterNoEmpty(ps);
    if ps != [] {
      JoinTrimmed(ps);
      StripTrimmed(JoinSpace(ps));
    }
  }

  /** Adding a trimmed phrase, with or without a trailing space, to trimmed
      phrases keeps every entry trimmed or at least non-empty. */
  lemma SnocParts(ps: seq<string>, x: string)
    requires forall k :: 0 <= k < |ps| ==> Trimmed(ps[k])
    requires Trimmed(x)
    ensures forall k :: 0 <= k < |ps + [x]| ==> Trimmed((ps + [x])[k])
    ensures forall k :: 0 <= k < |ps + [x + " "]| ==> (ps + [x + " "])[k] != ""
  {
    forall k | 0 <= k < |ps + [x]| ensures Trimmed((ps + [x])[k]) {
      if k < |ps| {
        assert (ps + [x])[k] == ps[k];
      }
    }
    forall k | 0 <= k < |ps + [x + " "]| ensures (ps + [x + " "])[k] != "" {
      if k < |ps| {
        assert (ps + [x + " "])[k] == ps[k];
      }
    }
  }

  /** Assembling trimmed phrases whose last one carries a trailing space: the
      strip takes the space off again. */
  lemma AssembleTrailingSpace(ps: seq<string>, x: string)
    requires forall k :: 0 <= k < |ps| ==> Trimmed(ps[k])
    requires Trimmed(x)
    ensures Stripped(ps + [x + " "]) == JoinSpace(ps + [x])
  {
    var words := ps + [x + " "];
    var all := ps + [x];
    SnocParts(ps, x);
    FilterNoEmpty(words);
    JoinLastSpace(ps, x);
    JoinTrimmed(all);
    StripTrailingSpace(JoinSpace(all));
  }

  /** A positive number reads as the phrases of its groups, highest position
      first, joined by single spaces, then the currency phrase: the empty
      entries, the trailing space of the lowest segment and the strip cancel
      out. */
  lemma PositiveWordsShape(n: nat)
    requires n > 0
    ensures PositiveWords(n) == JoinSpace(Phrases(NumberGroups(n))) + CurrencySuffix
  {
    PositiveStripped(n);
  }

  lemma PositiveStripped(n: nat)
    requires n > 0
    ensures Stripped(WordParts(n)) == JoinSpace(Phrases(NumberGroups(n)))
  {
    if n < 1000 {
      SmallGroups(n);
      assert Phrases([Group(n, 0)]) == [ThreeDigitWords(n)];
      AssembleTrimmed([ThreeDigitWords(n)]);
    } else if n % 1000 == 0 {
      RoundStripped(n);
    } else {
      UnevenStripped(n);
    }
  }

  /** A number of 1000 or more whose lowest digit is zero: every segment is
      already a finished phrase. */
  lemma RoundStripped(n: nat)
    requires n >= 1000 && n % 1000 == 0
    ensures Stripped(WordParts(n)) == JoinSpace(Phrases(NumberGroups(n)))
  {
    var hi := Groups(n / 1000, 1, |Thousands|);
    SplitLowGroup(n);
    assert NumberGroups(n) == hi;
    HighSegments(hi);
    AssembleTrimmed(Phrases(hi));
  }

  /** A number of 1000 or more whose lowest digit is not zero: the last
      segment is the phrase of position 0 with a trailing space. */
  lemma UnevenStripped(n: nat)
    requires n >= 1000 && n % 1000 != 0
    ensures Stripped(WordParts(n)) == JoinSpace(Phrases(NumberGroups(n)))
  {
    var hi := Groups(n / 1000, 1, |Thousands|);
    var g := Group(n % 1000, 0);
    SplitLowGroup(n);
    assert NumberGroups(n) == hi + [g];
    HighSegments(hi);
    SegmentIsPhrase(g);
    MapAppend(Segment, hi, [g]);
    MapAppend(Phrase, hi, [g]);
    assert Segments([g]) == [Phrase(g) + " "];
    assert Phrases([g]) == [Phrase(g)];
    assert WordParts(n) == Phrases(hi) + [Phrase(g) + " "];
    AssembleTrailingSpace(Phrases(hi), Phrase(g));
  }

  /** The word conversion, case by case: zero is its own word with no
      currency phrase, a negative number is the negative marker before the
      words of its absolute value, and a positive number is its group phrases
      and the currency phrase. */
  lemma WordsSpec(number: int)
    ensures number == 0 ==> Words(number) == ZeroWord
    ensures number < 0 ==> Words(number) == NegativePrefix + Words(-number)
    ensures number > 0 ==> Words(number) == JoinSpace(Phrases(NumberGroups(number))) + CurrencySuffix
  {
    if number > 0 {
      PositiveWordsShape(number);
    }
  }

  /** The text before the currency phrase of a positive number is empty only
      when the six lowest base-1000 digits are zero, and otherwise has no
      space at either end. */
  lemma PositiveBody(n: nat)
    requires n > 0
    ensures var body := JoinSpace(Phrases(NumberGroups(n)));
      && Words(n) == body + CurrencySuffix
      && (body == "" <==> n % Pow1000(|Thousands|) == 0)
      && (body == "" || Trimmed(body))
  {
    WordsSpec(n);
    NoGroups(n);
    var ps := Phrases(NumberGroups(n));
    if ps != [] {
      JoinTrimmed(ps);
    }
  }

  /** From 1 to 999 the words are the three-digit words and the currency phrase. */
  lemma SmallWords(n: nat)
    requires 0 < n < 1000
    ensures Words(n) == ThreeDigitWords(n) + CurrencySuffix
  {
    WordsSpec(n);
    SmallGroups(n);
  }

  /** Groups from position 6 up are never spoken: a number reads as its
      remainder modulo 1000^6 does, as long as that remainder is not 0. */
  lemma WordsTruncate(n: nat)
    requires n % Pow1000(|Thousands|) != 0
    ensures Words(n) == Words(n % Pow1000(|Thousands|))
  {
    var p := Pow1000(|Thousands|);
    var m := n % p;
    NonZeroRemainder(n, p);
    GroupsTruncate(n, 0, |Thousands|);
    assert NumberGroups(n) == NumberGroups(m);
    PositiveWordsShape(n);
    PositiveWordsShape(m);
  }

  lemma NonZeroRemainder(n: nat, p: nat)
    requires p > 0 && n % p != 0
    ensures n > 0 && n % p > 0
  {
  }

  /** A positive multiple of 1000^6 has no words at all: the answer is the
      currency phrase alone, space included. */
  lemma WordsDropped(n: nat)
    requires n > 0 && n % Pow1000(|Thousands|) == 0
    ensures Words(n) == CurrencySuffix
  {
    PositiveBody(n);
  }

  // ---------------------------------------------------------------------------
  // Worked examples
  // ---------------------------------------------------------------------------

  /** 123 is "one hundred", "twenty", "three". */
  lemma ThreeDigitsOf123()
    ensures ThreeDigitWords(123) == "एक सय बीस तीन"
  {
    assert DigitPhrases(123) == ["एक सय", "बीस", "तीन"];
  }

  /** Tens and units are spoken word by word: 23 is "twenty three". */
  lemma ThreeDigitsOf23()
    ensures ThreeDigitWords(23) == "बीस तीन"
  {
    assert DigitPhrases(23) == ["बीस", "तीन"];
  }

  lemma ThreeDigitsOf345()
    ensures ThreeDigitWords(345) == "तीन सय चालीस पाँच"
  {
    assert DigitPhrases(345) == ["तीन सय", "चालीस", "पाँच"];
  }

  lemma WordsOf123()
    ensures Words(123) == "एक सय बीस तीन" + CurrencySuffix
  {
    SmallWords(123);
    ThreeDigitsOf123();
  }

  /** The words of a number whose only group is `g`, above position 0. */
  lemma OneGroupWords(n: nat, g: Group, words: string)
    requires n > 0 && ValidGroup(g) && g.scale > 0
    requires NumberGroups(n) == [g]
    requires words == ThreeDigitWords(g.count) + " " + Thousands[g.scale]
    ensures Words(n) == words + CurrencySuffix
  {
    assert Phrases([g]) == [Phrase(g)];
    WordsSpec(n);
  }

  /** A number below 1000^2 whose lowest digit is zero has only the group at
      position 1. */
  lemma GroupsOfThousands(n: nat)
    requires n % 1000 == 0 && 0 < n / 1000 < 1000
    ensures NumberGroups(n) == [Group(n / 1000, 1)]
  {
    SplitLowGroup(n);
    GroupsOfZero(2, |Thousands|);
    assert Groups(n / 1000, 1, |Thousands|) == Groups(0, 2, |Thousands|) + [Group(n / 1000, 1)];
  }

  /** 1000 is one group, at position 1. */
  lemma WordsOf1000()
    ensures Words(1000) == "एक हजार" + CurrencySuffix
  {
    GroupsOfThousands(1000);
    OneThousand();
    OneGroupWords(1000, Group(1, 1), "एक हजार");
  }

  lemma WordsOfMinus1000()
    ensures Words(-1000) == NegativePrefix + ("एक हजार" + CurrencySuffix)
  {
    WordsOf1000();
  }

  lemma OneThousand()
    ensures ThreeDigitWords(1) + " " + Thousands[1] == "एक हजार"
  {
    assert DigitPhrases(1) == ["एक"];
  }

  /** 100000 is the group 100 at position 1: "one hundred thousand", not a
      lakh. */
  lemma WordsOf100000()
    ensures Words(100000) == "एक सय हजार" + CurrencySuffix
  {
    GroupsOfThousands(100000);
    HundredThousand();
    OneGroupWords(100000, Group(100, 1), "एक सय हजार");
  }

  lemma HundredThousand()
    ensures ThreeDigitWords(100) + " " + Thousands[1] == "एक सय हजार"
  {
    assert DigitPhrases(100) == ["एक सय"];
  }

  /** A zero group in the middle says nothing: 2000345 is two at position 2
      (लाख, 1000^2 here) and 345 at position 0. */
  lemma WordsOf2000345()
    ensures Words(2000345) == "दुई लाख" + " " + "तीन सय चालीस पाँच" + CurrencySuffix
  {
    var gs := [Group(2, 2), Group(345, 0)];
    GroupsOf2000345();
    TwoLakh();
    ThreeDigitsOf345();
    assert Phrases(gs) == [Phrase(gs[0])] + ([Phrase(gs[1])] + Phrases([]));
    WordsSpec(2000345);
  }

  lemma TwoLakh()
    ensures ThreeDigitWords(2) + " " + Thousands[2] == "दुई लाख"
  {
    assert DigitPhrases(2) == ["दुई"];
  }

  lemma GroupsOf2000345()
    ensures NumberGroups(2000345) == [Group(2, 2), Group(345, 0)]
  {
    assert 2000345 / 1000 == 2000 && 2000345 % 1000 == 345;
    assert 2000 / 1000 == 2 && 2000 % 1000 == 0;
    assert 2 / 1000 == 0 && 2 % 1000 == 2;
    SplitLowGroup(2000345);
    GroupsOfZero(3, |Thousands|);
    assert Groups(2000, 1, |Thousands|) == Groups(2, 2, |Thousands|) + [];
    assert Groups(2, 2, |Thousands|) == Groups(0, 3, |Thousands|) + [Group(2, 2)];
  }

  /** 1000^6 runs past the six position names: nothing but the currency
      phrase comes out. */
  lemma WordsOfThousandPowSix()
    ensures Words(1000000000000000000) == CurrencySuffix
  {
    calc {
      Pow1000(|Thousands|);
      1000 * Pow1000(5);
      1000 * (1000 * Pow1000(4));
      1000 * (1000 * (1000 * Pow1000(3)));
      1000 * (1000 * (1000 * (1000 * Pow1000(2))));
      1000 * (1000 * (1000 * (1000 * (1000 * Pow1000(1)))));
      1000000000000000000;
    }
    WordsDropped(1000000000000000000);
  }

  /** Numerals of 1000 and -1000: no grouping comma. */
  lemma NumeralsOf1000()
    ensures ToNumerals(1000) == "१०००" + NumeralSuffix
    ensures ToNumerals(-1000) == "-" + "१०००" + NumeralSuffix
  {
    GlyphsOf1000();
  }

  lemma StrOf1000()
    ensures Str(1000) == "1000"
  {
    assert Str(1) == "1";
    assert Str(10) == Str(1) + ['0'];
    assert Str(100) == Str(10) + ['0'];
    assert Str(1000) == Str(100) + ['0'];
  }

  lemma GlyphsOf1000()
    ensures Glyphs(Str(1000)) == "१०००"
  {
    StrOf1000();
    assert Glyphs("1000") == ['१'] + Glyphs("000");
    assert Glyphs("000") == ['०'] + Glyphs("00");
    assert Glyphs("00") == ['०'] + Glyphs("0");
    assert Glyphs("0") == ['०'] + Glyphs("");
  }

  // ---------------------------------------------------------------------------
  // Numerals
  // ---------------------------------------------------------------------------

  /** Each ASCII digit of `s` replaced by its Devanagari glyph. */
  function Glyphs(s: string): (r: string)
    requires AllDigits(s)
    ensures |r| == |s|
    ensures forall k :: 0 <= k < |r| ==> r[k] in NumeralDigits && NumeralDigits[r[k]] == s[k]
  {
    GlyphMapInverse();
    if |s| == 0 then "" else [NepaliNumerals[s[0]]] + Glyphs(s[1..])
  }

  /** `convert_to_nepali_numerals`: a minus sign before the numerals of the
      absolute value, or the glyphs of the decimal digits and the closing
      mark. */
  function ToNumerals(number: int): (r: string)
    ensures |r| > |NumeralSuffix| && EndsWith(r, NumeralSuffix)
    ensures r[0] == '-' <==> number < 0
    decreases if number < 0 then 1 else 0
  {
    if number < 0 then
      var positive := ToNumerals(Abs(number));
      PrependKeepsEnd("-", positive, NumeralSuffix);
      "-" + positive
    else
      var digits := Glyphs(Str(number));
      ConcatEnds(digits, NumeralSuffix);
      GlyphMapInverse();
      assert digits[0] in NumeralDigits;
      digits + NumeralSuffix
  }

  /** Each glyph of `g` back to its ASCII digit; `None` when some character
      is not a numeral glyph. */
  function UnGlyphs(g: string): (r: Option<string>)
    ensures r.Some? ==> |r.value| == |g| && AllDigits(r.value)
  {
    if |g| == 0 then Some("")
    else if g[0] !in NumeralDigits then None
    else match UnGlyphs(g[1..])
      case None => None
      case Some(rest) =>
        GlyphMapInverse();
        assert NumeralDigits[g[0]] in NepaliNumerals;
        Some([NumeralDigits[g[0]]] + rest)
  }

  /** The value of a string of glyphs, when it is the glyph form of a
      canonical decimal string. */
  function ReadGlyphs(g: string): Option<nat>
  {
    match UnGlyphs(g)
    case None => None
    case Some(d) => if Canonical(d) then Some(Parse(d)) else None
  }

  /** The reading of a numeral string: the closing mark is required, a
      leading minus sign makes the value negative, and anything that is not a
      possible output of `ToNumerals` is refused. */
  function ReadNumerals(s: string): Option<int>
  {
    if |s| < |NumeralSuffix| || s[|s| - |NumeralSuffix|..] != NumeralSuffix then None
    else ReadSigned(s[..|s| - |NumeralSuffix|])
  }

  /** The reading of what precedes the closing mark. */
  function ReadSigned(body: string): Option<int>
  {
    if |body| > 0 && body[0] == '-' then
      match ReadGlyphs(body[1..])
      case Some(v) => if v > 0 then Some(-(v as int)) else None
      case None => None
    else
      match ReadGlyphs(body)
      case Some(v) => Some(v as int)
      case None => None
  }

  /** Mapping the glyphs back gives the digits again. */
  lemma {:induction false} UnGlyphsGlyphs(s: string)
    requires AllDigits(s)
    ensures UnGlyphs(Glyphs(s)) == Some(s)
  {
    if |s| > 0 {
      var g := Glyphs(s);
      assert g[0] in NumeralDigits && NumeralDigits[g[0]] == s[0];
      assert g[1..] == Glyphs(s[1..]);
      UnGlyphsGlyphs(s[1..]);
      assert [s[0]] + s[1..] == s;
    }
  }

  /** A string that maps back to digits is the glyph form of those digits. */
  lemma {:induction false} GlyphsUnGlyphs(g: string)
    requires UnGlyphs(g).Some?
    ensures Glyphs(UnGlyphs(g).value) == g
  {
    if |g| > 0 {
      GlyphsUnGlyphs(g[1..]);
      GlyphDigitInverse(g[0]);
      var d := UnGlyphs(g).value;
      var rest := UnGlyphs(g[1..]).value;
      assert d == [NumeralDigits[g[0]]] + rest;
      assert d[0] == NumeralDigits[g[0]] && d[1..] == rest;
      assert Glyphs(d) == [NepaliNumerals[d[0]]] + Glyphs(rest);
      assert [g[0]] + g[1..] == g;
    }
  }

  /** The glyph part of a numeral string has one glyph per decimal digit and
      no comma: there is no digit grouping. */
  lemma NumeralsShape(n: nat)
    ensures ToNumerals(n) == Glyphs(Str(n)) + NumeralSuffix
    ensures |Glyphs(Str(n))| == |Str(n)|
    ensures forall k :: 0 <= k < |Glyphs(Str(n))| ==> Glyphs(Str(n))[k] != ','
  {
    GlyphMapInverse();
  }

  /** A negative number's numerals are a minus sign before its absolute
      value's, which are not negative again: one level of recursion. */
  lemma NegativeNumerals(number: int)
    requires number < 0
    ensures ToNumerals(number) == "-" + Glyphs(Str(-number)) + NumeralSuffix
    ensures ToNumerals(number) == "-" + ToNumerals(-number)
  {
  }

  /** The closing mark is found and cut off again. */
  lemma ReadSuffixed(body: string)
    ensures ReadNumerals(body + NumeralSuffix) == ReadSigned(body)
  {
    var s := body + NumeralSuffix;
    assert s[|s| - |NumeralSuffix|..] == NumeralSuffix;
    assert s[..|s| - |NumeralSuffix|] == body;
  }

  /** The glyphs of `str(n)` read back as `n`. */
  lemma ReadGlyphsStr(n: nat)
    ensures ReadGlyphs(Glyphs(Str(n))) == Some(n)
  {
    UnGlyphsGlyphs(Str(n));
    ParseStr(n);
  }

  /** Reading a numeral string back gives the number. */
  lemma NumeralsRoundTrip(number: int)
    ensures ReadNumerals(ToNumerals(number)) == Some(number)
  {
    if number < 0 {
      NegativeRoundTrip(number);
    } else {
      NaturalRoundTrip(number);
    }
  }

  lemma NaturalRoundTrip(n: nat)
    ensures ReadNumerals(ToNumerals(n)) == Some(n)
  {
    var digits := Glyphs(Str(n));
    ReadGlyphsStr(n);
    GlyphMapInverse();
    assert digits[0] in NumeralDigits;
    ReadSuffixed(digits);
  }

  lemma NegativeRoundTrip(number: int)
    requires number < 0
    ensures ReadNumerals(ToNumerals(number)) == Some(number)
  {
    var n := Abs(number);
    NegativeForm(number);
    ReadSuffixed("-" + Glyphs(Str(n)));
    ReadNegativeBody(n);
  }

  /** The numerals of a negative number, with the closing mark split off. */
  lemma NegativeForm(number: int)
    requires number < 0
    ensures ToNumerals(number) == ("-" + Glyphs(Str(Abs(number)))) + NumeralSuffix
  {
    var digits := Glyphs(Str(Abs(number)));
    assert ToNumerals(number) == "-" + (digits + NumeralSuffix);
  }

  /** A minus sign before the glyphs of a positive `n` reads as `-n`. */
  lemma ReadNegativeBody(n: nat)
    requires n > 0
    ensures ReadSigned("-" + Glyphs(Str(n))) == Some(-(n as int))
  {
    var body := "-" + Glyphs(Str(n));
    assert body[1..] == Glyphs(Str(n));
    ReadGlyphsStr(n);
  }

  /** Glyphs that read back as `v` are the glyphs of `str(v)`. */
  lemma ReadGlyphsExact(g: string, v: nat)
    requires ReadGlyphs(g) == Some(v)
    ensures Glyphs(Str(v)) == g
  {
    var d := UnGlyphs(g).value;
    StrParse(d);
    GlyphsUnGlyphs(g);
  }

  /** Every string that reads back as a number is that number's numerals, so
      `ToNumerals` and `ReadNumerals` are inverse to each other. */
  lemma ReadNumeralsExact(s: string, number: int)
    requires ReadNumerals(s) == Some(number)
    ensures ToNumerals(number) == s
  {
    var body := s[..|s| - |NumeralSuffix|];
    assert s == body + NumeralSuffix;
    ReadSignedExact(body, number);
  }

  /** What precedes the closing mark and reads as `number` is the numerals
      of `number` without that mark. */
  lemma ReadSignedExact(body: string, number: int)
    requires ReadSigned(body) == Some(number)
    ensures ToNumerals(number) == body + NumeralSuffix
  {
    if |body| > 0 && body[0] == '-' {
      var g := body[1..];
      var v :| ReadGlyphs(g) == Some(v) && v > 0 && number == -(v as int);
      ReadGlyphsExact(g, v);
      assert body == "-" + g;
      assert Abs(number) == v;
      NegativeForm(number);
    } else {
      ReadGlyphsExact(body, number);
      NumeralsShape(number);
    }
  }
}
