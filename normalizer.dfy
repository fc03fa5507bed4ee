/**
 * The `Normalizer` of app/utils/normalizer.py: per-character maps for
 * Arabic and Persian digits, Arabic punctuation and Arabic letter
 * variants, deletion of diacritics and tatweel, the `clean_text`
 * pipeline, and the two tests built on it.
 *
 * The maps are built once in `__init__` and never change, so the class is
 * modelled as plain functions over strings.
 */
module Normalizer {
  import opened Text

  // ---------------------------------------------------------------- numerals

  predicate IsArabicIndicDigit(c: char) { '\U{0660}' <= c <= '\U{0669}' }
  predicate IsPersianDigit(c: char) { '\U{06F0}' <= c <= '\U{06F9}' }

  /** The value of a digit the model recognises. */
  function DigitValue(c: char): (v: nat)
    requires IsDigit(c)
    ensures v < 10
  {
    if '0' <= c <= '9' then c as int - '0' as int
    else if IsArabicIndicDigit(c) then c as int - 0x0660
    else c as int - 0x06F0
  }

  /** Lines 9-12: the numeral table of `str.maketrans`. */
  function NumeralChar(c: char): char {
    if IsArabicIndicDigit(c) then (c as int - 0x0660 + '0' as int) as char
    else if IsPersianDigit(c) then (c as int - 0x06F0 + '0' as int) as char
    else c
  }

  /**
   * An Arabic-Indic or Persian digit becomes the ASCII digit of the same
   * value; every other character is left alone.
   */
  lemma NumeralCharSpec(c: char)
    ensures IsArabicIndicDigit(c) || IsPersianDigit(c) ==>
      '0' <= NumeralChar(c) <= '9' && DigitValue(NumeralChar(c)) == DigitValue(c)
    ensures !IsArabicIndicDigit(c) && !IsPersianDigit(c) ==> NumeralChar(c) == c
  {
  }

  /** Lines 36-40: `text.translate(numeral_map)`. */
  function NormalizeNumerals(text: string): (r: string)
    ensures |r| == |text|
    ensures forall i :: 0 <= i < |r| ==> !IsArabicIndicDigit(r[i]) && !IsPersianDigit(r[i])
    ensures forall i :: 0 <= i < |r| ==> IsDigit(r[i]) == IsDigit(text[i])
    ensures forall i :: 0 <= i < |r| && IsDigit(text[i]) ==> DigitValue(r[i]) == DigitValue(text[i])
    ensures forall i :: 0 <= i < |r| && !IsDigit(text[i]) ==> r[i] == text[i]
  {
    seq(|text|, i requires 0 <= i < |text| => NumeralChar(text[i]))
  }

  lemma NormalizeNumeralsIdempotent(text: string)
    ensures NormalizeNumerals(NormalizeNumerals(text)) == NormalizeNumerals(text)
  {
    var r := NormalizeNumerals(text);
    var rr := NormalizeNumerals(r);
    assert forall i :: 0 <= i < |r| ==> rr[i] == NumeralChar(r[i]) == r[i];
  }

  // ------------------------------------------------------------- punctuation

  /** The six Arabic punctuation marks of lines 15-22. */
  predicate IsArabicPunctuation(c: char) {
    c in {'\U{060C}', '\U{061B}', '\U{061F}', '\U{066A}', '\U{066B}', '\U{066C}'}
  }

  predicate IsAsciiPunctuation(c: char) { c == ',' || c == ';' || c == '?' || c == '%' || c == '.' }

  /** Lines 15-22: the punctuation table. */
  function PunctuationChar(c: char): char {
    match c
    case '\U{060C}' => ','
    case '\U{061B}' => ';'
    case '\U{061F}' => '?'
    case '\U{066A}' => '%'
    case '\U{066B}' => '.'
    case '\U{066C}' => ','
    case _ => c
  }

  /** Exactly the six marks are changed, each into ASCII punctuation. */
  lemma PunctuationCharSpec(c: char)
    ensures PunctuationChar(c) != c <==> IsArabicPunctuation(c)
    ensures IsArabicPunctuation(c) ==> IsAsciiPunctuation(PunctuationChar(c))
  {
  }

  /** Lines 42-46: `text.translate(punctuation_map)`. */
  function NormalizePunctuation(text: string): (r: string)
    ensures |r| == |text|
    ensures forall i :: 0 <= i < |r| ==> !IsArabicPunctuation(r[i])
    ensures forall i :: 0 <= i < |r| && !IsArabicPunctuation(text[i]) ==> r[i] == text[i]
    ensures forall i :: 0 <= i < |r| && IsArabicPunctuation(text[i]) ==> IsAsciiPunctuation(r[i])
  {
    seq(|text|, i requires 0 <= i < |text| => PunctuationChar(text[i]))
  }

  // ----------------------------------------------------------------- letters

  /** Line 25: the diacritics pattern `[ً-ٰٟۖ-ۭ]`. */
  predicate IsDiacritic(c: char) {
    ('\U{064B}' <= c <= '\U{065F}') || c == '\U{0670}' || ('\U{06D6}' <= c <= '\U{06ED}')
  }

  const Tatweel: char := '\U{0640}'

  /** The characters `normalize_letters` deletes. */
  predicate IsDeleted(c: char) { IsDiacritic(c) || c == Tatweel }

  /** Line 52: `diacritics_re.sub("", text)`. */
  function RemoveDiacritics(text: string): (r: string)
    ensures |r| <= |text|
    ensures forall c :: c in r <==> c in text && !IsDiacritic(c)
    ensures (forall i :: 0 <= i < |text| ==> !IsDiacritic(text[i])) ==> r == text
    decreases |text|
  {
    if text == [] then ""
    else
      var rest := RemoveDiacritics(text[1..]);
      assert forall c :: c in text <==> c == text[0] || c in text[1..];
      assert text == [text[0]] + text[1..];
      (if IsDiacritic(text[0]) then "" else [text[0]]) + rest
  }

  /** Lines 29-34: the letter-variant table. */
  function LetterChar(c: char): char {
    match c
    case '\U{0623}' => '\U{0627}'
    case '\U{0625}' => '\U{0627}'
    case '\U{0622}' => '\U{0627}'
    case '\U{0649}' => '\U{064A}'
    case '\U{0626}' => '\U{064A}'
    case '\U{0624}' => '\U{0648}'
    case '\U{06C0}' => '\U{0629}'
    case '\U{0629}' => '\U{0647}'
    case _ => c
  }

  /** Line 54: `text.translate(letter_norm_map)`, one lookup per character. */
  function MapLetters(text: string): (r: string)
    ensures |r| == |text|
    ensures forall i :: 0 <= i < |r| ==> r[i] == LetterChar(text[i])
  {
    seq(|text|, i requires 0 <= i < |text| => LetterChar(text[i]))
  }

  /** What the letter table does to each class of character the model cares about. */
  lemma LetterCharSpec(c: char)
    ensures LetterChar(c) != '\U{06C0}'
    ensures LetterChar(c) == '\U{0629}' <==> c == '\U{06C0}'
    ensures !IsDeleted(c) ==> !IsDeleted(LetterChar(c))
    ensures !IsArabicIndicDigit(c) && !IsPersianDigit(c) ==>
      !IsArabicIndicDigit(LetterChar(c)) && !IsPersianDigit(LetterChar(c))
    ensures !IsArabicPunctuation(c) ==> !IsArabicPunctuation(LetterChar(c))
  {
  }

  /** The characters that pass both deletions. */
  function KeptLetters(text: string): (kept: string)
    ensures |kept| <= |text|
    ensures forall c :: c in kept <==> c in text && !IsDeleted(c)
  {
    RemoveCharMembers(RemoveDiacritics(text), Tatweel);
    RemoveChar(RemoveDiacritics(text), Tatweel)
  }

  /** Lines 48-54: diacritics, then tatweel, deleted; then the letter table. */
  function NormalizeLetters(text: string): (r: string)
    ensures |r| <= |text|
    ensures forall i :: 0 <= i < |r| ==> !IsDeleted(r[i])
    ensures forall c :: c in text && !IsDeleted(c) ==> LetterChar(c) in r
    ensures forall i :: 0 <= i < |r| ==> r[i] != '\U{06C0}'
  {
    var kept := KeptLetters(text);
    var r := MapLetters(kept);
    assert forall i :: 0 <= i < |r| ==> !IsDeleted(r[i]) && r[i] != '\U{06C0}' by {
      forall i | 0 <= i < |r| ensures !IsDeleted(r[i]) && r[i] != '\U{06C0}' {
        assert kept[i] in kept;
        LetterCharSpec(kept[i]);
      }
    }
    assert forall c :: c in text && !IsDeleted(c) ==> LetterChar(c) in r by {
      forall c | c in text && !IsDeleted(c) ensures LetterChar(c) in r {
        var k :| 0 <= k < |kept| && kept[k] == c;
        assert r[k] == LetterChar(c);
      }
    }
    r
  }

  /** The table is not chained: `ۀ` becomes `ة`, which a second pass turns into `ه`. */
  lemma LetterMapNotChained()
    ensures NormalizeLetters("\U{06C0}") == "\U{0629}"
    ensures NormalizeLetters("\U{0629}") == "\U{0647}"
  {
    assert RemoveDiacritics("\U{06C0}") == "\U{06C0}";
    assert RemoveDiacritics("\U{0629}") == "\U{0629}";
    assert KeptLetters("\U{06C0}") == "\U{06C0}";
    assert KeptLetters("\U{0629}") == "\U{0629}";
  }

  /** So `normalize_letters` is not idempotent: every text containing `ۀ` changes on a second pass. */
  lemma NormalizeLettersNotIdempotent(text: string)
    requires '\U{06C0}' in text
    ensures NormalizeLetters(NormalizeLetters(text)) != NormalizeLetters(text)
  {
    var r1 := NormalizeLetters(text);
    assert LetterChar('\U{06C0}') == '\U{0629}';
    assert '\U{0629}' in r1;
    var kept := KeptLetters(r1);
    var r2 := MapLetters(kept);
    assert r2 == NormalizeLetters(r1);
    forall i | 0 <= i < |r2| ensures r2[i] != '\U{0629}' {
      assert kept[i] in kept;
      assert kept[i] in r1;
      LetterCharSpec(kept[i]);
    }
    assert '\U{0629}' !in r2;
  }

  // -------------------------------------------------------------- clean_text

  /** Lines 56-69: numerals, punctuation, letters, then `strip()`. */
  function CleanText(text: string): string {
    Strip(NormalizeLetters(NormalizePunctuation(NormalizeNumerals(text))))
  }

  /** After the first two steps no Arabic or Persian digit and no Arabic punctuation is left. */
  lemma NumeralsAndPunctuationGone(text: string)
    ensures var p := NormalizePunctuation(NormalizeNumerals(text));
      forall i :: 0 <= i < |p| ==> !IsArabicIndicDigit(p[i]) && !IsPersianDigit(p[i]) && !IsArabicPunctuation(p[i])
  {
    var n := NormalizeNumerals(text);
    var p := NormalizePunctuation(n);
    forall i | 0 <= i < |p|
      ensures !IsArabicIndicDigit(p[i]) && !IsPersianDigit(p[i]) && !IsArabicPunctuation(p[i])
    {
      if IsArabicPunctuation(n[i]) {
        assert IsAsciiPunctuation(p[i]);
      } else {
        assert p[i] == n[i];
      }
    }
  }

  /**
   * The cleaned text has no outer whitespace, no Arabic or Persian digit,
   * no Arabic punctuation, and no diacritic or tatweel.
   */
  lemma CleanTextSpec(text: string)
    ensures var r := CleanText(text);
      && (r == [] || (!IsSpace(r[0]) && !IsSpace(r[|r| - 1])))
      && (forall i :: 0 <= i < |r| ==> !IsArabicIndicDigit(r[i]) && !IsPersianDigit(r[i]))
      && (forall i :: 0 <= i < |r| ==> !IsArabicPunctuation(r[i]) && !IsDeleted(r[i]))
  {
    var p := NormalizePunctuation(NormalizeNumerals(text));
    NumeralsAndPunctuationGone(text);
    var l := NormalizeLetters(p);
    LetterCharKeepsClasses(p, l);
    var r := Strip(l);
    StripMembers(l);
    assert CleanText(text) == r;
    forall i | 0 <= i < |r|
      ensures !IsArabicIndicDigit(r[i]) && !IsPersianDigit(r[i]) && !IsArabicPunctuation(r[i]) && !IsDeleted(r[i])
    {
      assert r[i] in r;
      assert r[i] in l;
    }
  }

  /** The letter step brings in no digit and no Arabic punctuation. */
  lemma LetterCharKeepsClasses(p: string, l: string)
    requires l == NormalizeLetters(p)
    requires forall i :: 0 <= i < |p| ==> !IsArabicIndicDigit(p[i]) && !IsPersianDigit(p[i]) && !IsArabicPunctuation(p[i])
    ensures forall c :: c in l ==> !IsArabicIndicDigit(c) && !IsPersianDigit(c) && !IsArabicPunctuation(c) && !IsDeleted(c)
  {
    var kept := KeptLetters(p);
    assert l == MapLetters(kept);
    forall c | c in l
      ensures !IsArabicIndicDigit(c) && !IsPersianDigit(c) && !IsArabicPunctuation(c) && !IsDeleted(c)
    {
      var k :| 0 <= k < |l| && l[k] == c;
      assert kept[k] in kept;
      assert kept[k] in p;
      LetterCharSpec(kept[k]);
    }
  }

  // --------------------------------------------------------- is_numeric_only

  /** Line 79: the symbols and space removed before the digit test. */
  const FinancialChars: string := ".,%$-+()[] "

  /** `s` after `s = s.replace(c, "")` for each `c` of `cs`, in order. */
  function RemoveAll(s: string, cs: string): string
    decreases |cs|
  {
    if cs == [] then s
    else RemoveChar(RemoveAll(s, cs[..|cs| - 1]), cs[|cs| - 1])
  }

  /** What is left is what is not removed. */
  lemma {:induction false} RemoveAllSpec(s: string, cs: string)
    ensures forall c :: c in RemoveAll(s, cs) <==> c in s && c !in cs
    decreases |cs|
  {
    if cs != [] {
      var init := cs[..|cs| - 1];
      RemoveAllSpec(s, init);
      RemoveCharMembers(RemoveAll(s, init), cs[|cs| - 1]);
      assert cs == init + [cs[|cs| - 1]];
      assert forall c :: c in cs <==> c in init || c == cs[|cs| - 1];
    }
  }

  /** Lines 76-86: the value `is_numeric_only` returns for a string. */
  predicate NumericOnly(text: string) {
    var cleaned := RemoveAll(CleanText(text), FinancialChars);
    cleaned == [] || AllDigits(cleaned)
  }

  /** `is_numeric_only` (lines 71-86). */
  method IsNumericOnly(text: string) returns (b: bool)
    ensures b == NumericOnly(text)
  {
    var cleaned := CleanText(text);
    cleaned := RemoveFinancial(cleaned);
    if cleaned == [] {
      return true;
    }
    b := AllDigits(cleaned);
  }

  /** Lines 79-80: the loop removing each financial symbol in turn. */
  method RemoveFinancial(s: string) returns (cleaned: string)
    ensures cleaned == RemoveAll(s, FinancialChars)
  {
    cleaned := s;
    for k := 0 to |FinancialChars|
      invariant cleaned == RemoveAll(s, FinancialChars[..k])
    {
      assert FinancialChars[..k + 1][..k] == FinancialChars[..k];
      cleaned := RemoveChar(cleaned, FinancialChars[k]);
    }
    assert FinancialChars[..|FinancialChars|] == FinancialChars;
  }

  /**
   * Numeric-only exactly when every character that survives cleaning and
   * is not a financial symbol is a digit; so a blank string is numeric.
   */
  lemma NumericOnlySpec(text: string)
    ensures NumericOnly(text) <==>
      forall c :: c in CleanText(text) && c !in FinancialChars ==> IsDigit(c)
  {
    var cleaned := RemoveAll(CleanText(text), FinancialChars);
    RemoveAllSpec(CleanText(text), FinancialChars);
    if NumericOnly(text) {
      forall c | c in CleanText(text) && c !in FinancialChars ensures IsDigit(c) {
        var k :| 0 <= k < |cleaned| && cleaned[k] == c;
      }
    } else {
      assert cleaned != [];
      var k :| 0 <= k < |cleaned| && !IsDigit(cleaned[k]);
      assert cleaned[k] in cleaned;
    }
  }

  // ------------------------------------------------------ has_arabic_letters

  /** Line 93: the pattern `[ء-غف-يٱ-ۓ۰-ۼ]`. */
  predicate InArabicLetterRanges(c: char) {
    || ('\U{0621}' <= c <= '\U{063A}') || ('\U{0641}' <= c <= '\U{064A}')
    || ('\U{0671}' <= c <= '\U{06D3}') || ('\U{06F0}' <= c <= '\U{06FC}')
  }

  /** Lines 88-93: `re.search` for any character of the ranges. */
  function HasArabicLetters(text: string): (b: bool)
    ensures b <==> exists i :: 0 <= i < |text| && InArabicLetterRanges(text[i])
    decreases |text|
  {
    if text == [] then false
    else
      var rest := HasArabicLetters(text[1..]);
      assert forall i :: 1 <= i < |text| ==> text[i] == text[1..][i - 1];
      assert rest ==> exists i :: 0 <= i < |text| && InArabicLetterRanges(text[i]) by {
        if rest {
          var j :| 0 <= j < |text[1..]| && InArabicLetterRanges(text[1..][j]);
          assert InArabicLetterRanges(text[j + 1]);
        }
      }
      InArabicLetterRanges(text[0]) || rest
  }

  /** The last range holds the Persian digits: `"۱"` has Arabic letters and is numeric-only. */
  lemma PersianDigitCountsAsLetter()
    ensures HasArabicLetters("\U{06F1}")
    ensures NumericOnly("\U{06F1}")
  {
    var n := NormalizeNumerals("\U{06F1}");
    assert n == "1";
    var p := NormalizePunctuation(n);
    assert p == "1";
    assert RemoveDiacritics("1") == "1";
    assert RemoveChar("1", Tatweel) == "1";
    assert MapLetters("1") == "1";
    assert NormalizeLetters(p) == "1";
    StripUnpadded("1");
    assert CleanText("\U{06F1}") == "1";
    NumericOnlySpec("\U{06F1}");
  }

  /** The letter ranges without the digits that line 92's comment says they exclude. */
  predicate IsArabicLetter(c: char) {
    InArabicLetterRanges(c) && !IsPersianDigit(c)
  }

  /** `has_arabic_letters` as its comment describes it: letters only, no numerals. */
  function HasArabicLettersIntended(text: string): (b: bool)
    ensures b <==> exists i :: 0 <= i < |text| && IsArabicLetter(text[i])
    ensures b ==> HasArabicLetters(text)
    decreases |text|
  {
    if text == [] then false
    else
      var rest := HasArabicLettersIntended(text[1..]);
      assert forall i :: 1 <= i < |text| ==> text[i] == text[1..][i - 1];
      assert rest ==> exists i :: 0 <= i < |text| && IsArabicLetter(text[i]) by {
        if rest {
          var j :| 0 <= j < |text[1..]| && IsArabicLetter(text[1..][j]);
          assert IsArabicLetter(text[j + 1]);
        }
      }
      IsArabicLetter(text[0]) || rest
  }

  /** An Arabic letter is no space, no digit and no financial symbol, and the letter table keeps it a letter. */
  lemma ArabicLetterClass(c: char)
    requires IsArabicLetter(c)
    ensures !IsSpace(c) && !IsDigit(c) && c !in FinancialChars
    ensures !IsArabicIndicDigit(c) && !IsPersianDigit(c) && !IsArabicPunctuation(c) && !IsDeleted(c)
    ensures IsArabicLetter(LetterChar(c))
  {
  }

  /** An Arabic letter survives every step of `clean_text` as an Arabic letter. */
  lemma LetterSurvivesCleaning(text: string, c: char)
    requires c in text && IsArabicLetter(c)
    ensures IsArabicLetter(LetterChar(c)) && LetterChar(c) in CleanText(text)
  {
    ArabicLetterClass(c);
    ArabicLetterClass(LetterChar(c));
    var n := NormalizeNumerals(text);
    var k :| 0 <= k < |text| && text[k] == c;
    assert n[k] == c;
    var p := NormalizePunctuation(n);
    assert p[k] == c;
    assert c in p;
    var l := NormalizeLetters(p);
    assert LetterChar(c) in l;
    var j :| 0 <= j < |l| && l[j] == LetterChar(c);
    assert CleanText(text) == Strip(l);
  }

  /** With letters read as the comment says, a string with an Arabic letter is never numeric-only. */
  lemma ArabicLettersNotNumeric(text: string)
    requires HasArabicLettersIntended(text)
    ensures !NumericOnly(text)
  {
    var i :| 0 <= i < |text| && IsArabicLetter(text[i]);
    assert text[i] in text;
    LetterSurvivesCleaning(text, text[i]);
    var d := LetterChar(text[i]);
    ArabicLetterClass(d);
    NumericOnlySpec(text);
    assert d in CleanText(text) && d !in FinancialChars && !IsDigit(d);
  }
}
