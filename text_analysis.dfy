/**
 * The counting part of the text analyser: the text is lower-cased, reduced
 * to the characters of a fixed 48-character alphabet, and every alphabet
 * character gets one row with its number of occurrences and its
 * probability. The case mapping is a parameter (`lower`), applied character
 * by character.
 */
module TextAnalysis {
  import opened Folds
  import opened Symbols

  /** The 32 lower-case Cyrillic letters а..я (ё is not among them). */
  const Letters: string := "абвгдежзийклмнопрстуфхцчшщъыьэюя"
  const Digits: string := "0123456789"
  const Punctuation: string := ".,:;- "

  /** The analyser's alphabet, in the order of its rows. */
  const Alphabet: string := Letters + Digits + Punctuation

  /** The error reported for an empty text. */
  const NoTextError: string := "Текст не загружен"

  /** Fixed code length of the ASCII comparison row. */
  const AsciiCodeLength: nat := 8

  /** How often `c` occurs in `s`: the number of pieces `split(c)` makes, minus one. */
  function Occurrences(s: string, c: char): (n: nat)
    ensures n == multiset(s)[c]
    ensures n <= |s|
  {
    if s == [] then 0
    else
      assert s == [s[0]] + s[1..];
      (if s[0] == c then 1 else 0) + Occurrences(s[1..], c)
  }

  /** The characters of `s` that belong to the alphabet, in their order. */
  function ValidText(s: string): (v: string)
    ensures |v| <= |s|
  {
    if s == [] then [] else (if s[0] in Alphabet then [s[0]] else []) + ValidText(s[1..])
  }

  /** `count / total`, or 0 when there is nothing to count. */
  function Probability(count: nat, total: nat): (p: real)
    ensures count <= total ==> 0.0 <= p <= 1.0
    ensures total > 0 ==> p * total as real == count as real
  {
    if total > 0 then count as real / total as real else 0.0
  }

  /** The row of one symbol; the normalised probability is the same formula computed again. */
  function Row(validText: string, symbol: char): (row: SymbolStat)
    ensures row.symbol == symbol && row.count == multiset(validText)[symbol]
    ensures 0.0 <= row.probability <= 1.0 && row.normalizedProbability == row.probability
  {
    var count := Occurrences(validText, symbol);
    SymbolStat(symbol, count, Probability(count, |validText|), Probability(count, |validText|))
  }

  /** One row per character of `letters`, in their order; the ensures only unfold the map, for use in proofs. */
  function Rows(letters: string, validText: string): (rows: seq<SymbolStat>)
    ensures |rows| == |letters|
    ensures forall i :: 0 <= i < |letters| ==> rows[i] == Row(validText, letters[i])
  {
    Map(letters, c => Row(validText, c))
  }

  datatype Analysis = Analysis(symbolCounts: seq<SymbolStat>, totalSymbols: nat, totalProbability: real)

  /**
   * The analyser: an empty text is an error; otherwise the rows of the
   * alphabet over the valid text, the sum of their counts and the sum of
   * their probabilities.
   */
  function AnalyzeText(text: string, lower: char -> char): (r: Result<Analysis, string>)
    ensures r.Err? <==> text == []
    ensures r.Err? ==> r.error == NoTextError
  {
    if text == [] then Err(NoTextError)
    else
      var validText := ValidText(Map(text, lower));
      var rows := Rows(Alphabet, validText);
      Ok(Analysis(rows, CountSum(rows), ProbabilitySum(rows)))
  }

  // --------------------------------------------------------------- filter

  lemma {:induction false} OccurrencesAppend(a: string, b: string, c: char)
    ensures Occurrences(a + b, c) == Occurrences(a, c) + Occurrences(b, c)
    decreases |a|
  {
    if a != [] {
      assert (a + b)[1..] == a[1..] + b;
      OccurrencesAppend(a[1..], b, c);
    } else {
      assert a + b == b;
    }
  }

  /** Filtering a concatenation filters each part: the valid text keeps the order of the text. */
  lemma {:induction false} ValidTextAppend(a: string, b: string)
    ensures ValidText(a + b) == ValidText(a) + ValidText(b)
    decreases |a|
  {
    if a != [] {
      var head := if a[0] in Alphabet then [a[0]] else [];
      assert (a + b)[0] == a[0] && (a + b)[1..] == a[1..] + b;
      ValidTextAppend(a[1..], b);
      calc {
        ValidText(a + b);
        head + ValidText(a[1..] + b);
        head + (ValidText(a[1..]) + ValidText(b));
        (head + ValidText(a[1..])) + ValidText(b);
        ValidText(a) + ValidText(b);
      }
    } else {
      assert a + b == b;
    }
  }

  /**
   * The valid text holds only alphabet characters, and each alphabet
   * character as often as the text does.
   */
  lemma {:induction false} ValidTextContents(s: string)
    ensures forall i :: 0 <= i < |ValidText(s)| ==> ValidText(s)[i] in Alphabet
    ensures forall c :: Occurrences(ValidText(s), c) == if c in Alphabet then Occurrences(s, c) else 0
    decreases |s|
  {
    if s != [] {
      ValidTextContents(s[1..]);
      var head := if s[0] in Alphabet then [s[0]] else [];
      forall c
        ensures Occurrences(ValidText(s), c) == if c in Alphabet then Occurrences(s, c) else 0
      {
        OccurrencesAppend(head, ValidText(s[1..]), c);
      }
    }
  }

  /** The valid text is empty exactly when no character of the text is in the alphabet. */
  lemma {:induction false} ValidTextEmpty(s: string)
    ensures ValidText(s) == [] <==> forall i :: 0 <= i < |s| ==> s[i] !in Alphabet
    decreases |s|
  {
    if s != [] {
      ValidTextEmpty(s[1..]);
      assert forall i :: 1 <= i < |s| ==> s[i] == s[1..][i - 1];
    }
  }

  /** A text made of alphabet characters only is its own valid text, so filtering twice filters once. */
  lemma {:induction false} ValidTextKeeps(s: string)
    requires forall i :: 0 <= i < |s| ==> s[i] in Alphabet
    ensures ValidText(s) == s
    decreases |s|
  {
    if s != [] {
      ValidTextKeeps(s[1..]);
      assert s == [s[0]] + s[1..];
    }
  }

  lemma ValidTextIdempotent(s: string)
    ensures ValidText(ValidText(s)) == ValidText(s)
  {
    ValidTextContents(s);
    ValidTextKeeps(ValidText(s));
  }

  // ------------------------------------------------------------- alphabet

  lemma AlphabetCodes()
    ensures forall i :: 0 <= i < |Letters| ==> Letters[i] as int == 0x430 + i
    ensures forall i :: 0 <= i < |Digits| ==> Digits[i] as int == 0x30 + i
    ensures forall i, j :: 0 <= i < j < |Punctuation| ==> Punctuation[i] != Punctuation[j]
    ensures forall i :: 0 <= i < |Punctuation| ==> Punctuation[i] as int < 0x30 || 0x39 < Punctuation[i] as int < 0x430
  {
  }

  /** The alphabet has 48 characters and none of them twice. */
  lemma AlphabetDistinct()
    ensures |Alphabet| == 48
    ensures forall i, j :: 0 <= i < j < |Alphabet| ==> Alphabet[i] != Alphabet[j]
  {
    AlphabetCodes();
    forall i, j | 0 <= i < j < |Alphabet|
      ensures Alphabet[i] != Alphabet[j]
    {
      if j < 32 {
        assert Alphabet[i] == Letters[i] && Alphabet[j] == Letters[j];
      } else if j < 42 {
        assert Alphabet[j] == Digits[j - 32];
        if i < 32 {
          assert Alphabet[i] == Letters[i];
        } else {
          assert Alphabet[i] == Digits[i - 32];
        }
      } else {
        assert Alphabet[j] == Punctuation[j - 42];
        if i < 32 {
          assert Alphabet[i] == Letters[i];
        } else if i < 42 {
          assert Alphabet[i] == Digits[i - 32];
        } else {
          assert Alphabet[i] == Punctuation[i - 42];
        }
      }
    }
  }

  predicate Distinct(s: string)
  {
    forall i, j :: 0 <= i < j < |s| ==> s[i] != s[j]
  }

  lemma {:induction false} Absent(s: string, x: char)
    requires x !in s
    ensures Occurrences(s, x) == 0
    decreases |s|
  {
    if s != [] {
      Absent(s[1..], x);
    }
  }

  /** A character of a word with no repeated characters occurs in it once. */
  lemma {:induction false} OccursOnce(s: string, x: char)
    requires Distinct(s) && x in s
    ensures Occurrences(s, x) == 1
    decreases |s|
  {
    if s[0] == x {
      Absent(s[1..], x);
    } else {
      assert x in s[1..] by {
        var k :| 0 <= k < |s| && s[k] == x;
        assert s[1..][k - 1] == x;
      }
      OccursOnce(s[1..], x);
    }
  }

  // --------------------------------------------------------------- totals

  /** The rows of the first letters are the first rows. */
  lemma RowsPrefix(letters: string, v: string)
    requires letters != []
    ensures Rows(letters, v)[..|letters| - 1] == Rows(letters[..|letters| - 1], v)
  {
  }

  /** The counts of the rows over a concatenation add up. */
  lemma {:induction false} RowCountsAdd(letters: string, a: string, b: string)
    ensures CountSum(Rows(letters, a + b)) == CountSum(Rows(letters, a)) + CountSum(Rows(letters, b))
    decreases |letters|
  {
    if letters != [] {
      var n := |letters|;
      RowsPrefix(letters, a + b);
      RowsPrefix(letters, a);
      RowsPrefix(letters, b);
      RowCountsAdd(letters[..n - 1], a, b);
      OccurrencesAppend(a, b, letters[n - 1]);
    }
  }

  /** Over a one-character text, the counts add up to how often the letters hold that character. */
  lemma {:induction false} RowCountsOne(letters: string, x: char)
    ensures CountSum(Rows(letters, [x])) == Occurrences(letters, x)
    decreases |letters|
  {
    if letters != [] {
      var n := |letters|;
      RowsPrefix(letters, [x]);
      RowCountsOne(letters[..n - 1], x);
      assert letters == letters[..n - 1] + [letters[n - 1]];
      OccurrencesAppend(letters[..n - 1], [letters[n - 1]], x);
      assert [x][1..] == [] && [letters[n - 1]][1..] == [];
      assert Occurrences([letters[n - 1]], x) == Occurrences([x], letters[n - 1]);
    }
  }

  /**
   * When every character of the text is one of the letters and no letter
   * repeats, the counts of the rows add up to the length of the text.
   */
  lemma {:induction false} RowCountsCover(letters: string, v: string)
    requires Distinct(letters)
    requires forall i :: 0 <= i < |v| ==> v[i] in letters
    ensures CountSum(Rows(letters, v)) == |v|
    decreases |v|
  {
    if v == [] {
      RowCountsNone(letters);
    } else {
      assert v == [v[0]] + v[1..];
      RowCountsAdd(letters, [v[0]], v[1..]);
      RowCountsOne(letters, v[0]);
      OccursOnce(letters, v[0]);
      RowCountsCover(letters, v[1..]);
    }
  }

  lemma {:induction false} RowCountsNone(letters: string)
    ensures CountSum(Rows(letters, [])) == 0
    decreases |letters|
  {
    if letters != [] {
      RowsPrefix(letters, []);
      RowCountsNone(letters[..|letters| - 1]);
    }
  }

  lemma DivideSum(a: real, b: real, t: real)
    requires t > 0.0
    ensures a / t + b / t == (a + b) / t
  {
  }

  /** Each probability is its count over the length of the text, so their sum is the counts' sum over it. */
  lemma {:induction false} RowProbabilities(letters: string, v: string)
    requires |v| > 0
    ensures ProbabilitySum(Rows(letters, v)) == CountSum(Rows(letters, v)) as real / |v| as real
    decreases |letters|
  {
    if letters != [] {
      var n := |letters|;
      var rows := Rows(letters, v);
      RowsPrefix(letters, v);
      RowProbabilities(letters[..n - 1], v);
      DivideSum(CountSum(rows[..n - 1]) as real, rows[n - 1].count as real, |v| as real);
    }
  }

  /** Over an empty valid text every probability is 0. */
  lemma {:induction false} RowProbabilitiesOfNothing(letters: string)
    ensures ProbabilitySum(Rows(letters, [])) == 0.0
    decreases |letters|
  {
    if letters != [] {
      RowsPrefix(letters, []);
      RowProbabilitiesOfNothing(letters[..|letters| - 1]);
    }
  }

  // ------------------------------------------------------------- analyser

  /**
   * The table has one row per alphabet character, in alphabet order, zero
   * counts included; each count is the number of occurrences of the
   * character in the lower-cased text; the probability is the count over
   * the length of the valid text (0 for an empty valid text), and the
   * normalised probability is the same number.
   */
  lemma AnalyzeTextRows(text: string, lower: char -> char)
    requires text != []
    ensures var rows := AnalyzeText(text, lower).value.symbolCounts;
      var validText := ValidText(Map(text, lower));
      |rows| == |Alphabet| == 48 &&
      forall i :: 0 <= i < 48 ==>
        rows[i].symbol == Alphabet[i] &&
        rows[i].count == Occurrences(Map(text, lower), Alphabet[i]) &&
        rows[i].probability == rows[i].normalizedProbability &&
        (|validText| > 0 ==> rows[i].probability == rows[i].count as real / |validText| as real) &&
        (|validText| == 0 ==> rows[i].probability == 0.0)
  {
    AlphabetDistinct();
    ValidTextContents(Map(text, lower));
  }

  /**
   * The total of the counts is the length of the valid text, and the total
   * probability is 1 when the valid text is non-empty and 0 otherwise.
   */
  lemma AnalyzeTextTotals(text: string, lower: char -> char)
    requires text != []
    ensures var a := AnalyzeText(text, lower).value;
      var validText := ValidText(Map(text, lower));
      a.totalSymbols == |validText| &&
      a.totalProbability == if |validText| > 0 then 1.0 else 0.0
  {
    ValidTextContents(Map(text, lower));
    AlphabetTotals(ValidText(Map(text, lower)));
  }

  /** The totals over the alphabet's rows for a text made of alphabet characters. */
  lemma AlphabetTotals(v: string)
    requires forall i :: 0 <= i < |v| ==> v[i] in Alphabet
    ensures CountSum(Rows(Alphabet, v)) == |v|
    ensures ProbabilitySum(Rows(Alphabet, v)) == if |v| > 0 then 1.0 else 0.0
  {
    AlphabetDistinct();
    RowTotals(Alphabet, v);
  }

  lemma SelfQuotient(x: real)
    requires x > 0.0
    ensures x / x == 1.0
  {
  }

  /** The totals over the rows of distinct letters for a text made of those letters. */
  lemma RowTotals(letters: string, v: string)
    requires Distinct(letters)
    requires forall i :: 0 <= i < |v| ==> v[i] in letters
    ensures CountSum(Rows(letters, v)) == |v|
    ensures ProbabilitySum(Rows(letters, v)) == if |v| > 0 then 1.0 else 0.0
  {
    RowCountsCover(letters, v);
    if |v| > 0 {
      RowProbabilities(letters, v);
      SelfQuotient(|v| as real);
    } else {
      assert v == [];
      RowProbabilitiesOfNothing(letters);
    }
  }

  /**
   * The rows carry 48 different symbols and non-negative probabilities, so
   * a code table built from them never holds one symbol twice.
   */
  lemma AnalyzeTextSymbols(text: string, lower: char -> char)
    requires text != []
    ensures var rows := AnalyzeText(text, lower).value.symbolCounts;
      (forall i, j :: 0 <= i < j < |rows| ==> rows[i].symbol != rows[j].symbol) &&
      (forall i :: 0 <= i < |rows| ==> rows[i].probability >= 0.0)
  {
    AlphabetDistinct();
  }

  // -------------------------------------------------------------- Hartley

  function Pow2(k: nat): nat
  {
    if k == 0 then 1 else 2 * Pow2(k - 1)
  }

  /** The Hartley code length: the least k with 2^k at least the alphabet size (ceil of log2). */
  function HartleyCodeLength(size: nat): (k: nat)
    requires size >= 1
    ensures Pow2(k) >= size
    ensures k > 0 ==> Pow2(k - 1) < size
  {
    if size == 1 then 0 else 1 + HartleyCodeLength((size + 1) / 2)
  }

  /** For the 48-character alphabet the Hartley code length is 6, against 8 for ASCII. */
  lemma HartleyOfAlphabet()
    ensures HartleyCodeLength(|Alphabet|) == 6 < AsciiCodeLength
  {
    AlphabetDistinct();
  }
}
