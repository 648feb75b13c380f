/**
 * number_to_ordinal_word: the ordinal word of a positive integer, in three
 * tiers (an exact table for 1..31, tens word plus ones entry for 32..99, and
 * the numeral with "th" from 100 on).
 */
module OrdinalWords {

  import opened Numerals

  /** The table of ordinal words for the days of a month, indexed by the number; 0 is unused. */
  const Ordinals: seq<string> := [
    "", "first", "second", "third", "fourth", "fifth",
    "sixth", "seventh", "eighth", "ninth", "tenth",
    "eleventh", "twelfth", "thirteenth", "fourteenth",
    "fifteenth", "sixteenth", "seventeenth", "eighteenth",
    "nineteenth", "twentieth", "twenty-first", "twenty-second",
    "twenty-third", "twenty-fourth", "twenty-fifth", "twenty-sixth",
    "twenty-seventh", "twenty-eighth", "twenty-ninth", "thirtieth",
    "thirty-first"
  ]

  /** `n` is a key of the table. */
  predicate InTable(n: int) {
    1 <= n < |Ordinals|
  }

  /** Cardinal words of the tens, indexed by the tens digit; 0 and 1 are unused. */
  const TensWords: seq<string> := [
    "", "", "twenty", "thirty", "forty", "fifty", "sixty", "seventy", "eighty", "ninety"
  ]

  /**
   * The ordinal word of `n`, as the source computes it. Zero falls through
   * the table to the round-ten branch with an empty tens word.
   */
  function OrdinalWord(n: int): string
    requires n >= 0
  {
    if InTable(n) then Ordinals[n]
    else if n < 100 then
      var tens, ones: nat := n / 10, n % 10;
      if ones == 0 then TensWords[tens] + "th"
      else
        var onesOrdinal := if InTable(ones) then Ordinals[ones] else Decimal(ones) + "th";
        TensWords[tens] + "-" + onesOrdinal
    else Decimal(n) + "th"
  }

  /** Zero is not in the table and has an empty tens word, so it reads as the bare suffix `th`. */
  lemma OrdinalOfZero()
    ensures OrdinalWord(0) == "th"
  {
    assert TensWords[0] == "";
  }

  /** `w` is written in lower-case letters and hyphens only. */
  predicate Lettered(w: string) {
    forall i | 0 <= i < |w| :: 'a' <= w[i] <= 'z' || w[i] == '-'
  }

  /** A lettered word holds no digit, no comma and no space. */
  lemma LetteredText(w: string)
    requires Lettered(w)
    ensures NoDigits(w) && ',' !in w && ' ' !in w
  {
  }

  /** Every table entry is a non-empty lettered word. */
  lemma TableSpelledOut()
    ensures forall n | InTable(n) :: |Ordinals[n]| >= 1 && Lettered(Ordinals[n])
  {
    TableLowSpelledOut();
    TableMiddleSpelledOut();
    TableHighSpelledOut();
  }

  lemma TableLowSpelledOut()
    ensures forall n | 1 <= n <= 10 :: |Ordinals[n]| >= 1 && Lettered(Ordinals[n])
  {
  }

  lemma TableMiddleSpelledOut()
    ensures forall n | 11 <= n <= 20 :: |Ordinals[n]| >= 1 && Lettered(Ordinals[n])
  {
  }

  lemma TableHighSpelledOut()
    ensures forall n | 21 <= n <= 31 :: |Ordinals[n]| >= 1 && Lettered(Ordinals[n])
  {
  }

  /** The days 1..31 read exactly as the table has them. */
  lemma OrdinalOfDay(n: int)
    requires 1 <= n <= 31
    ensures OrdinalWord(n) == Ordinals[n]
    ensures n == 1 ==> OrdinalWord(n) == "first"
    ensures n == 21 ==> OrdinalWord(n) == "twenty-first"
    ensures n == 31 ==> OrdinalWord(n) == "thirty-first"
  {
  }

  /**
   * From 21 to 99, a number whose ones digit is not zero reads as its tens
   * word, a hyphen and the ordinal of its ones digit: the table's compound
   * entries and the computed tier follow one rule, and the ones lookup never
   * falls back to a numeral.
   */
  lemma OrdinalCompound(n: int)
    requires 21 <= n <= 99 && n % 10 != 0
    ensures OrdinalWord(n) == TensWords[n / 10] + "-" + OrdinalWord(n % 10)
    ensures n == 47 ==> OrdinalWord(n) == "forty-seventh"
  {
    if n <= 31 {
      CompoundInTable(n);
    } else {
      CompoundComputed(n);
    }
  }

  /** The compound rule for the table's own entries 21 to 29 and 31. */
  lemma CompoundInTable(n: int)
    requires 21 <= n <= 31 && n % 10 != 0
    ensures OrdinalWord(n) == TensWords[n / 10] + "-" + OrdinalWord(n % 10)
  {
    if n <= 29 {
      assert n / 10 == 2 && n % 10 == n - 20;
      CompoundTwenties(n);
    } else {
      assert n == 31;
      CompoundThirtyFirst();
    }
  }

  lemma CompoundTwenties(n: int)
    requires 21 <= n <= 29
    ensures OrdinalWord(n) == TensWords[2] + "-" + OrdinalWord(n - 20)
  {
    OrdinalOfDay(n);
    OrdinalOfDay(n - 20);
    TableTwenties(n);
  }

  lemma CompoundThirtyFirst()
    ensures OrdinalWord(31) == TensWords[3] + "-" + OrdinalWord(1)
  {
    OrdinalOfDay(31);
    OrdinalOfDay(1);
  }

  /** The compound rule beyond the table, where the source builds the word itself. */
  lemma CompoundComputed(n: int)
    requires 32 <= n <= 99 && n % 10 != 0
    ensures OrdinalWord(n) == TensWords[n / 10] + "-" + OrdinalWord(n % 10)
    ensures n == 47 ==> OrdinalWord(n) == "forty-seventh"
  {
    OrdinalOfDay(n % 10);
  }

  /** The table's entries 21 to 29 are "twenty-" and the ones ordinal. */
  lemma TableTwenties(n: int)
    requires 21 <= n <= 29
    ensures Ordinals[n] == "twenty" + "-" + Ordinals[n - 20]
  {
    if n <= 23 {
      TwentiesFirstThird(n);
    } else if n <= 26 {
      TwentiesMiddleThird(n);
    } else {
      TwentiesLastThird(n);
    }
  }

  lemma TwentiesFirstThird(n: int)
    requires 21 <= n <= 23
    ensures Ordinals[n] == "twenty" + "-" + Ordinals[n - 20]
  {
    assert n == 21 || n == 22 || n == 23;
  }

  lemma TwentiesMiddleThird(n: int)
    requires 24 <= n <= 26
    ensures Ordinals[n] == "twenty" + "-" + Ordinals[n - 20]
  {
    assert n == 24 || n == 25 || n == 26;
  }

  lemma TwentiesLastThird(n: int)
    requires 27 <= n <= 29
    ensures Ordinals[n] == "twenty" + "-" + Ordinals[n - 20]
  {
    assert n == 27 || n == 28 || n == 29;
  }

  /** From 32 to 99, a round ten reads as its tens word followed by "th". */
  lemma OrdinalRoundTen(n: int)
    requires 32 <= n <= 99 && n % 10 == 0
    ensures OrdinalWord(n) == TensWords[n / 10] + "th"
  {
  }

  /** Every number from 1 to 99 is spelled out: a non-empty word with no digit. */
  lemma OrdinalSpelledOut(n: int)
    requires 1 <= n <= 99
    ensures |OrdinalWord(n)| >= 1 && NoDigits(OrdinalWord(n))
  {
    TableSpelledOut();
    if n <= 31 {
      LetteredText(Ordinals[n]);
    } else {
      var t := TensWords[n / 10];
      assert NoDigits(t) && |t| >= 1;
      if n % 10 == 0 {
        NoDigitsConcat(t, "th");
      } else {
        LetteredText(Ordinals[n % 10]);
        NoDigitsConcat(t, "-");
        NoDigitsConcat(t + "-", Ordinals[n % 10]);
      }
    }
  }

  /**
   * From 100 on, the word is the numeral followed by "th", and the numeral
   * reads back as `n`.
   */
  lemma OrdinalNumeral(n: int)
    requires n >= 100
    ensures OrdinalWord(n) == Decimal(n) + "th"
    ensures var w := OrdinalWord(n); AllDigits(w[..|w| - 2]) && Value(w[..|w| - 2]) == n
    ensures n == 100 ==> OrdinalWord(n) == "100th"
  {
    var w := OrdinalWord(n);
    assert w[..|w| - 2] == Decimal(n);
    ValueOfDecimal(n);
    if n == 100 {
      assert Decimal(100) == Decimal(10) + [DigitChar(0)];
      assert Decimal(10) == Decimal(1) + [DigitChar(0)];
    }
  }

  // ---------------------------------------------------------------------------
  // Round tens: the code as written and the evidently intended reading
  // ---------------------------------------------------------------------------

  /**
   * `w` is the regular ordinal of the round ten `n`: its tens word with the
   * final "y" turned into "ieth", as the table writes "twentieth" and
   * "thirtieth".
   */
  predicate IsRoundTenOrdinal(n: int, w: string)
    requires 2 <= n / 10 <= 9
  {
    var t := TensWords[n / 10];
    |t| >= 1 && w == t[..|t| - 1] + "ieth"
  }

  /**
   * The source's round tens are regular at 20 and 30, which come from the
   * table, but not from 40 on, where "th" is appended to the tens word:
   * 40 reads "fortyth" instead of "fortieth".
   */
  lemma OrdinalRoundTenIrregular()
    ensures IsRoundTenOrdinal(20, OrdinalWord(20)) && IsRoundTenOrdinal(30, OrdinalWord(30))
    ensures OrdinalWord(40) == "fortyth" && !IsRoundTenOrdinal(40, OrdinalWord(40))
  {
    assert OrdinalWord(40) == "forty" + "th";
    assert "fortyth"[5] != "fortieth"[5];
  }

  /** Ordinal words of the round tens, indexed by the tens digit; 0 and 1 are unused. */
  const TensOrdinals: seq<string> := [
    "", "", "twentieth", "thirtieth", "fortieth", "fiftieth", "sixtieth", "seventieth",
    "eightieth", "ninetieth"
  ]

  /** The ordinal word of `n` with the round tens spelled as intended. */
  function FixedOrdinalWord(n: int): string
    requires n >= 1
  {
    if InTable(n) then Ordinals[n]
    else if n < 100 then
      var tens, ones := n / 10, n % 10;
      if ones == 0 then TensOrdinals[tens]
      else TensWords[tens] + "-" + Ordinals[ones]
    else Decimal(n) + "th"
  }

  /** With the fix every round ten from 20 to 90 is regular. */
  lemma FixedRoundTensRegular(n: int)
    requires 20 <= n <= 99 && n % 10 == 0
    ensures IsRoundTenOrdinal(n, FixedOrdinalWord(n))
  {
  }

  /** The fix changes only the round tens from 40 on, so every day of a month reads as before. */
  lemma FixedAgreesElsewhere(n: int)
    requires n >= 1 && !(40 <= n <= 99 && n % 10 == 0)
    ensures FixedOrdinalWord(n) == OrdinalWord(n)
    ensures n <= 31 ==> FixedOrdinalWord(n) == Ordinals[n]
  {
  }
}
