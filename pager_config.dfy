/**
 * The configuration side of AlphaPagination (src/AlphaPagination.php): the
 * handler's options, the per-language alphabet and number tables, and the
 * predicates derived from them. The handler object never changes while a
 * listing is rendered, so it is a value here.
 */
module PagerConfig {
  import opened PhpStrings

  // The built-in tables, written in rows so that each row's order can be checked on its own.

  const LatinRow1: seq<string> := ["A", "B", "C", "D", "E", "F", "G", "H"]
  const LatinRow2: seq<string> := ["I", "J", "K", "L", "M", "N", "O", "P"]
  const LatinRow3: seq<string> := ["Q", "R", "S", "T", "U", "V", "W", "X"]
  const LatinRow4: seq<string> := ["Y", "Z"]
  const DigitRow1: seq<string> := ["0", "1", "2", "3", "4"]
  const DigitRow2: seq<string> := ["5", "6", "7", "8", "9"]
  const ArabicRow1: seq<string> := ["ا", "ب", "ت", "ث", "ج", "ح", "خ"]
  const ArabicRow2: seq<string> := ["د", "ذ", "ر", "ز", "س", "ش", "ص"]
  const ArabicRow3: seq<string> := ["ض", "ط", "ظ", "ع", "غ", "ف", "ق"]
  const ArabicRow4: seq<string> := ["ك", "ل", "م", "ن", "و", "ه", "ي"]
  const CyrillicRow1: seq<string> := ["А", "Б", "В", "Г", "Д", "Е", "Ё", "Ж"]
  const CyrillicRow2: seq<string> := ["З", "И", "Й", "К", "Л", "М", "Н", "О"]
  const CyrillicRow3: seq<string> := ["П", "Р", "С", "Т", "У", "Ф", "Х", "Ц"]
  const CyrillicRow4: seq<string> := ["Ч", "Ш", "Щ", "Ы", "Э", "Ю", "Я"]

  /** English A-Z, the fallback alphabet. */
  function DefaultAlphabet(): seq<string> {
    LatinRow1 + LatinRow2 + LatinRow3 + LatinRow4
  }

  /** 0-9, the fallback number list. */
  function DefaultNumbers(): seq<string> {
    DigitRow1 + DigitRow2
  }

  /** The Arabic alphabet of the built-in table. */
  function ArabicAlphabet(): seq<string> {
    ArabicRow1 + ArabicRow2 + ArabicRow3 + ArabicRow4
  }

  /** The Russian alphabet of the built-in table. */
  function RussianAlphabet(): seq<string> {
    CyrillicRow1 + CyrillicRow2 + CyrillicRow3 + CyrillicRow4
  }

  /** The alphabet table the module builds before the alter hook runs. */
  function BuiltinAlphabets(): map<string, seq<string>> {
    map["ar" := ArabicAlphabet(), "en" := DefaultAlphabet(), "ru" := RussianAlphabet()]
  }

  /** The number table the module builds before the alter hook runs. */
  function BuiltinNumbers(): map<string, seq<string>> {
    map["en" := DefaultNumbers()]
  }

  /** A list of distinct one-character strings. */
  predicate IsCharacterList(s: seq<string>) {
    |s| > 0 && NoDups(s) && forall k :: 0 <= k < |s| ==> |s[k]| == 1
  }

  /**
   * The alphabet pager: the view handler's options (each already read as a
   * string, as getOption casts it), the request's language, and the alphabet
   * and number tables as they stand after the alter hooks and the cache.
   */
  datatype Pager = Pager(
    options: map<string, string>,
    langcode: string,
    alphabets: map<string, seq<string>>,
    numbers: map<string, seq<string>>)
  {
    /** getOption: the configured value if set, else the default. */
    function GetOption(name: string, default: string): string {
      if name in options then options[name] else default
    }

    /** getAlphabet: the table's entry for the language, else English. */
    function GetAlphabet(lang: string): (r: seq<string>)
      ensures lang in alphabets ==> r == alphabets[lang]
      ensures lang !in alphabets ==> r == DefaultAlphabet()
    {
      if lang in alphabets then alphabets[lang] else DefaultAlphabet()
    }

    /** getNumbers: the table's entry for the language, else 0-9. */
    function GetNumbers(lang: string): (r: seq<string>)
      ensures lang in numbers ==> r == numbers[lang]
      ensures lang !in numbers ==> r == DefaultNumbers()
    {
      if lang in numbers then numbers[lang] else DefaultNumbers()
    }

    /** isNumeric: the single-label sentinel in mode '2', or one of the current language's numbers. */
    predicate IsNumeric(value: string) {
      (NumericType() == "2" && value == NumericValue()) || value in GetNumbers(langcode)
    }

    // The options getCharacters reads, with the defaults it passes.

    function NumericType(): string { GetOption("paginate_view_numbers", "0") }
    function NumericValue(): string { GetOption("paginate_numeric_value", "") }
    function NumericLabel(): string { GetOption("paginate_numeric_label", "") }
    function AllValue(): string { GetOption("paginate_all_value", "all") }

    /** $all: the "All" label when the entry is displayed, else the empty string. */
    function AllLabel(): string {
      if GetOption("paginate_all_display", "") == "1" then GetOption("paginate_all_label", "All") else ""
    }

    /** Whether the "All" entry is shown (`if ($all)`). */
    predicate AllShown() { Truthy(AllLabel()) }

    /** Whether the '-' divider entry is added (never in single-label mode). */
    predicate HasDivider() {
      NumericType() != "2" && Truthy(GetOption("paginate_numeric_divider", ""))
    }
  }

  /**
   * One-character strings whose characters strictly increase under `rank`:
   * a cheap witness of distinctness (any rank will do, it need not be injective).
   */
  predicate Ascending(s: seq<string>, rank: char -> int) {
    (forall k :: 0 <= k < |s| ==> |s[k]| == 1) &&
    forall k :: 0 <= k < |s| - 1 ==> rank(s[k][0]) < rank(s[k + 1][0])
  }

  lemma {:induction false} AscendingNoDups(s: seq<string>, rank: char -> int)
    requires Ascending(s, rank)
    ensures NoDups(s)
    ensures forall i, j :: 0 <= i < j < |s| ==> rank(s[i][0]) < rank(s[j][0])
    decreases |s|
  {
    if |s| > 1 {
      AscendingNoDups(s[1..], rank);
      forall i, j | 0 <= i < j < |s| ensures rank(s[i][0]) < rank(s[j][0]) {
        if i > 0 {
          assert s[i] == s[1..][i - 1] && s[j] == s[1..][j - 1];
        } else if j > 1 {
          assert s[1] == s[1..][0] && s[j] == s[1..][j - 1];
        }
      }
    }
  }

  /** Joining two ascending lists keeps them ascending when the first ends below the start of the second. */
  lemma AscendingAppend(a: seq<string>, b: seq<string>, rank: char -> int)
    requires Ascending(a, rank) && Ascending(b, rank) && a != [] && b != []
    requires rank(a[|a| - 1][0]) < rank(b[0][0])
    ensures Ascending(a + b, rank)
  {
    forall k | 0 <= k < |a + b| - 1 ensures rank((a + b)[k][0]) < rank((a + b)[k + 1][0]) {
      if k >= |a| {
        assert (a + b)[k] == b[k - |a|] && (a + b)[k + 1] == b[k + 1 - |a|];
      }
    }
  }

  /** Code point order, doubled so that a letter can be slotted in just after another. */
  function CodeRank(c: char): int { 2 * (c as int) }

  /** The order of the Arabic table: heh (U+0647) is listed after waw (U+0648). */
  function ArabicRank(c: char): int { if c == 'ه' then CodeRank('و') + 1 else CodeRank(c) }

  /** The order of the Russian table: io (U+0401) is listed after ie (U+0415). */
  function CyrillicRank(c: char): int { if c == 'Ё' then CodeRank('Е') + 1 else CodeRank(c) }

  lemma LatinRow12Ascending()
    ensures Ascending(LatinRow1, CodeRank) && Ascending(LatinRow2, CodeRank)
  {
  }

  lemma LatinRow34Ascending()
    ensures Ascending(LatinRow3, CodeRank) && Ascending(LatinRow4, CodeRank)
  {
  }

  lemma DigitRowsAscending()
    ensures Ascending(DigitRow1, CodeRank) && Ascending(DigitRow2, CodeRank)
  {
  }

  lemma ArabicRow12Ascending()
    ensures Ascending(ArabicRow1, ArabicRank) && Ascending(ArabicRow2, ArabicRank)
  {
  }

  lemma ArabicRow34Ascending()
    ensures Ascending(ArabicRow3, ArabicRank) && Ascending(ArabicRow4, ArabicRank)
  {
  }

  lemma CyrillicRow1Ascending()
    ensures Ascending(CyrillicRow1, CyrillicRank)
  {
  }

  lemma CyrillicRow2Ascending()
    ensures Ascending(CyrillicRow2, CyrillicRank)
  {
  }

  lemma CyrillicRow34Ascending()
    ensures Ascending(CyrillicRow3, CyrillicRank) && Ascending(CyrillicRow4, CyrillicRank)
  {
  }

  lemma EnglishWellFormed()
    ensures IsCharacterList(DefaultAlphabet()) && IsCharacterList(DefaultNumbers())
  {
    LatinRow12Ascending();
    LatinRow34Ascending();
    AscendingAppend(LatinRow1, LatinRow2, CodeRank);
    AscendingAppend(LatinRow1 + LatinRow2, LatinRow3, CodeRank);
    AscendingAppend(LatinRow1 + LatinRow2 + LatinRow3, LatinRow4, CodeRank);
    AscendingNoDups(DefaultAlphabet(), CodeRank);
    DigitRowsAscending();
    AscendingAppend(DigitRow1, DigitRow2, CodeRank);
    AscendingNoDups(DefaultNumbers(), CodeRank);
  }

  lemma ArabicWellFormed()
    ensures IsCharacterList(ArabicAlphabet())
  {
    ArabicRow12Ascending();
    ArabicRow34Ascending();
    AscendingAppend(ArabicRow1, ArabicRow2, ArabicRank);
    AscendingAppend(ArabicRow1 + ArabicRow2, ArabicRow3, ArabicRank);
    AscendingAppend(ArabicRow1 + ArabicRow2 + ArabicRow3, ArabicRow4, ArabicRank);
    AscendingNoDups(ArabicAlphabet(), ArabicRank);
  }

  lemma RussianWellFormed()
    ensures IsCharacterList(RussianAlphabet())
  {
    CyrillicRow1Ascending();
    CyrillicRow2Ascending();
    CyrillicRow34Ascending();
    AscendingAppend(CyrillicRow1, CyrillicRow2, CyrillicRank);
    AscendingAppend(CyrillicRow1 + CyrillicRow2, CyrillicRow3, CyrillicRank);
    AscendingAppend(CyrillicRow1 + CyrillicRow2 + CyrillicRow3, CyrillicRow4, CyrillicRank);
    AscendingNoDups(RussianAlphabet(), CyrillicRank);
  }

  /** With the tables as built in, every language gets a non-empty list of distinct characters; unknown ones get English. */
  lemma BuiltinTablesWellFormed(p: Pager, lang: string)
    requires p.alphabets == BuiltinAlphabets() && p.numbers == BuiltinNumbers()
    ensures IsCharacterList(p.GetAlphabet(lang)) && IsCharacterList(p.GetNumbers(lang))
    ensures lang !in {"ar", "en", "ru"} ==> p.GetAlphabet(lang) == DefaultAlphabet()
    ensures p.GetNumbers(lang) == DefaultNumbers()
  {
    EnglishWellFormed();
    ArabicWellFormed();
    RussianWellFormed();
  }

  /** With the built-in number table, a value is numeric exactly when it is the mode-'2' sentinel or a single digit. */
  lemma BuiltinNumeric(p: Pager, v: string)
    requires p.numbers == BuiltinNumbers()
    ensures p.IsNumeric(v) <==> (p.NumericType() == "2" && v == p.NumericValue()) || IsDigitString(v)
  {
    var digits := DefaultNumbers();
    assert p.GetNumbers(p.langcode) == digits;
    if IsDigitString(v) {
      assert v == [v[0]];
      var k := (v[0] as int) - ('0' as int);
      assert 0 <= k < 10 && digits[k] == [v[0]];
    }
    if v in digits {
      var k :| 0 <= k < |digits| && digits[k] == v;
    }
  }
}
