/**
 * `TranslationService` of app/services/translation_service.py: the
 * numeric test that keeps numbers out of the translator, the rule that
 * decides which headers, index labels and cells are translated, and the
 * naming of the translated files.
 *
 * The translator is the parameter `translate`; reading a CSV file is the
 * parameter `readCsv`, and writing one is not modelled.
 */
module Translation {
  import opened Seqs
  import opened Text
  import opened PdfExtraction

  // --------------------------------------------------------------- _is_numeric

  /** The characters line 66 removes. */
  predicate IsSeparator(c: char) { c == ',' || c == '.' || c == '%' }

  /** Line 66: `,`, `.` and `%` removed, then outer whitespace. */
  function NumericCore(s: string): string {
    Strip(RemoveChar(RemoveChar(RemoveChar(s, ','), '.'), '%'))
  }

  /**
   * What survives the cleaning of line 66: characters of `s` that are no
   * separator, among them every one that is no whitespace either; nothing
   * survives exactly when `s` is made of separators and whitespace.
   */
  lemma NumericCoreSpec(s: string)
    ensures forall c :: c in NumericCore(s) ==> c in s && !IsSeparator(c)
    ensures forall k :: 0 <= k < |s| && !IsSpace(s[k]) && !IsSeparator(s[k]) ==> s[k] in NumericCore(s)
    ensures NumericCore(s) == [] <==> forall c :: c in s ==> IsSpace(c) || IsSeparator(c)
  {
    var t1 := RemoveChar(s, ',');
    var t2 := RemoveChar(t1, '.');
    var t := RemoveChar(t2, '%');
    RemoveCharMembers(s, ',');
    RemoveCharMembers(t1, '.');
    RemoveCharMembers(t2, '%');
    StripMembers(t);
    assert forall k :: 0 <= k < |s| && !IsSeparator(s[k]) ==> s[k] in t;
    assert AllSpace(t) <==> forall c :: c in s ==> IsSpace(c) || IsSeparator(c) by {
      if AllSpace(t) {
        forall c | c in s ensures IsSpace(c) || IsSeparator(c) {
          if !IsSeparator(c) {
            assert c in t;
            var k :| 0 <= k < |t| && t[k] == c;
          }
        }
      } else {
        var k :| 0 <= k < |t| && !IsSpace(t[k]);
        assert t[k] in t;
      }
    }
  }

  /** Line 67: the Arabic-Indic digits `٠`-`٩` are listed besides `isdigit()`, which already holds for them. */
  predicate IsNumericChar(c: char) {
    IsDigit(c) || ('\U{0660}' <= c <= '\U{0669}')
  }

  /** `_is_numeric` (lines 64-67). */
  predicate IsNumeric(s: string) {
    var cleaned := NumericCore(s);
    forall i :: 0 <= i < |cleaned| ==> IsNumericChar(cleaned[i])
  }

  /** Numeric exactly when every character left after cleaning is a digit; the extra Arabic-Indic list adds none. */
  lemma IsNumericSpec(s: string)
    ensures IsNumeric(s) <==> forall c :: c in NumericCore(s) ==> IsDigit(c)
  {
    var cleaned := NumericCore(s);
    assert forall i :: 0 <= i < |cleaned| ==> cleaned[i] in cleaned;
    assert forall c :: c in cleaned ==> exists i :: 0 <= i < |cleaned| && cleaned[i] == c;
  }

  /** Digits mixed with `,`, `.` and `%` are numeric. */
  lemma DigitsAndSeparatorsAreNumeric(s: string)
    requires forall c :: c in s ==> IsDigit(c) || IsSeparator(c)
    ensures IsNumeric(s)
  {
    NumericCoreSpec(s);
    IsNumericSpec(s);
  }

  /** `all` over nothing holds: the empty string, and any string of separators and whitespace, is numeric. */
  lemma BlankIsNumeric(s: string)
    requires forall c :: c in s ==> IsSpace(c) || IsSeparator(c)
    ensures IsNumeric(s)
  {
    NumericCoreSpec(s);
  }

  /** Any other character makes the string non-numeric. */
  lemma OtherCharIsNotNumeric(s: string, k: nat)
    requires k < |s| && !IsDigit(s[k]) && !IsSpace(s[k]) && !IsSeparator(s[k])
    ensures !IsNumeric(s)
  {
    NumericCoreSpec(s);
    IsNumericSpec(s);
    assert s[k] in NumericCore(s);
  }

  /** `s.replace(c, "")` leaves a string without `c` as it is. */
  lemma RemoveAbsent(s: string, c: char)
    requires c !in s
    ensures RemoveChar(s, c) == s
    decreases |s|
  {
    if s != [] {
      RemoveAbsent(s[1..], c);
      assert s == [s[0]] + s[1..];
    }
  }

  /** No separator occurs in `s`, so line 66 only strips it. */
  lemma NoSeparatorCore(s: string)
    requires forall k :: 0 <= k < |s| ==> !IsSeparator(s[k])
    ensures NumericCore(s) == Strip(s)
  {
    assert ',' !in s && '.' !in s && '%' !in s;
    RemoveAbsent(s, ',');
    RemoveAbsent(s, '.');
    RemoveAbsent(s, '%');
  }

  /** Digits and whitespace only: no separator to remove. */
  predicate DigitsAndSpaces(s: string) {
    forall k :: 0 <= k < |s| ==> IsDigit(s[k]) || IsSpace(s[k])
  }

  lemma DigitsAndSpacesJoin(a: string, w: string, b: string)
    requires DigitsAndSpaces(a) && DigitsAndSpaces(w) && DigitsAndSpaces(b)
    ensures DigitsAndSpaces(a + w + b)
  {
    var s := a + w + b;
    forall k | 0 <= k < |s| ensures IsDigit(s[k]) || IsSpace(s[k]) {
      if k < |a| { assert s[k] == a[k]; }
      else if k < |a| + |w| { assert s[k] == w[k - |a|]; }
      else { assert s[k] == b[k - |a| - |w|]; }
    }
  }

  /** Whitespace and digits survive line 66 except for the outer whitespace. */
  lemma DigitsAndSpacesCore(s: string)
    requires DigitsAndSpaces(s)
    ensures NumericCore(s) == Strip(s)
  {
    assert forall k :: 0 <= k < |s| ==> !IsSeparator(s[k]);
    assert ',' !in s && '.' !in s && '%' !in s;
    RemoveAbsent(s, ',');
    RemoveAbsent(s, '.');
    RemoveAbsent(s, '%');
  }

  /** Outer whitespace is ignored: digits padded with whitespace are numeric (`" 12 "`). */
  lemma PaddedNumberIsNumeric(p: string, d: string, q: string)
    requires AllSpace(p) && AllSpace(q) && d != [] && AllDigits(d)
    ensures IsNumeric(p + d + q)
  {
    PaddedCore(p, d, q);
  }

  /** Line 66 turns digits padded with whitespace into the digits. */
  lemma PaddedCore(p: string, d: string, q: string)
    requires AllSpace(p) && AllSpace(q) && d != [] && AllDigits(d)
    ensures NumericCore(p + d + q) == d
  {
    DigitsAndSpacesJoin(p, d, q);
    DigitsAndSpacesCore(p + d + q);
    assert !IsSpace(d[0]) && !IsSpace(d[|d| - 1]);
    StripPadded(p, d, q);
  }

  lemma SpacedCore(a: string, w: string, b: string)
    requires a != [] && b != [] && AllDigits(a) && AllDigits(b) && w != [] && AllSpace(w)
    ensures w[0] in NumericCore(a + w + b)
  {
    var s := a + w + b;
    DigitsAndSpacesJoin(a, w, b);
    DigitsAndSpacesCore(s);
    assert s[0] == a[0] && s[|a|] == w[0] && s[|s| - 1] == b[|b| - 1];
    StripKeepsInterior(s, 0, |a|, |s| - 1);
  }

  /** Inner whitespace is not: digits with whitespace between them are not numeric (`"1 2"`). */
  lemma SpacedNumberIsNotNumeric(a: string, w: string, b: string)
    requires a != [] && b != [] && AllDigits(a) && AllDigits(b) && w != [] && AllSpace(w)
    ensures !IsNumeric(a + w + b)
  {
    SpacedCore(a, w, b);
    assert !IsDigit(w[0]);
    IsNumericSpec(a + w + b);
  }

  lemma PaddedExample()
    ensures IsNumeric(" 12 ")
  {
    PaddedNumberIsNumeric(" ", "12", " ");
    assert " " + "12" + " " == " 12 ";
  }

  lemma SpacedExample()
    ensures !IsNumeric("1 2")
  {
    SpacedNumberIsNotNumeric("1", " ", "2");
    assert "1" + " " + "2" == "1 2";
  }

  // ---------------------------------------------------------- _translate_dataframe

  /** A header, index label or cell as pandas holds it: a string, a missing value, or a number. */
  datatype Value = Str(s: string) | Missing | Number(n: real)

  /** A table read from CSV: headers, index labels, and the cells column by column. */
  datatype Frame = Frame(columns: seq<Value>, index: seq<Value>, data: seq<seq<Value>>)

  /** Every column holds one cell per index label. */
  predicate WellShaped(f: Frame) {
    |f.data| == |f.columns| && forall j :: 0 <= j < |f.data| ==> |f.data[j]| == |f.index|
  }

  /** Lines 44 and 50: a label is translated when it is a string. */
  function TranslateLabel(v: Value, translate: string -> string): Value {
    if v.Str? then Str(translate(v.s)) else v
  }

  /** Lines 57-59: a cell is translated when it is a non-missing, non-numeric string. */
  function TranslateCell(v: Value, translate: string -> string): Value {
    if v.Str? && !IsNumeric(v.s) then Str(translate(v.s)) else v
  }

  /** Lines 43-52: the translated labels, one per label. */
  method TranslateLabels(labels: seq<Value>, translate: string -> string) returns (r: seq<Value>)
    ensures |r| == |labels|
    ensures forall j :: 0 <= j < |r| ==> r[j] == TranslateLabel(labels[j], translate)
  {
    r := [];
    for j := 0 to |labels|
      invariant |r| == j
      invariant forall k :: 0 <= k < j ==> r[k] == TranslateLabel(labels[k], translate)
    {
      r := r + [TranslateLabel(labels[j], translate)];
    }
  }

  /** Lines 56-60: `column.apply(...)`. */
  method TranslateColumn(column: seq<Value>, translate: string -> string) returns (r: seq<Value>)
    ensures |r| == |column|
    ensures forall i :: 0 <= i < |r| ==> r[i] == TranslateCell(column[i], translate)
  {
    r := [];
    for i := 0 to |column|
      invariant |r| == i
      invariant forall k :: 0 <= k < i ==> r[k] == TranslateCell(column[k], translate)
    {
      r := r + [TranslateCell(column[i], translate)];
    }
  }

  /**
   * `result` is `df` with headers and index labels translated when they
   * are strings, and cells when they are non-numeric strings; its shape is
   * that of `df`.
   */
  predicate TranslatedFrom(result: Frame, df: Frame, translate: string -> string) {
    && |result.columns| == |df.columns| && |result.index| == |df.index| && |result.data| == |df.data|
    && (forall j :: 0 <= j < |df.columns| ==> result.columns[j] == TranslateLabel(df.columns[j], translate))
    && (forall i :: 0 <= i < |df.index| ==> result.index[i] == TranslateLabel(df.index[i], translate))
    && (forall j :: 0 <= j < |df.data| ==> |result.data[j]| == |df.data[j]|)
    && (forall j, i :: 0 <= j < |df.data| && 0 <= i < |df.data[j]| ==>
          result.data[j][i] == TranslateCell(df.data[j][i], translate))
  }

  /** Translation keeps a frame well shaped. */
  lemma TranslatedShape(result: Frame, df: Frame, translate: string -> string)
    requires TranslatedFrom(result, df, translate) && WellShaped(df)
    ensures WellShaped(result)
  {
  }

  /** The translated frame itself: what `TranslatedFrom` describes, as a value. */
  function TranslatedFrame(df: Frame, translate: string -> string): Frame {
    Frame(seq(|df.columns|, j requires 0 <= j < |df.columns| => TranslateLabel(df.columns[j], translate)),
          seq(|df.index|, i requires 0 <= i < |df.index| => TranslateLabel(df.index[i], translate)),
          seq(|df.data|, j requires 0 <= j < |df.data| =>
            seq(|df.data[j]|, i requires 0 <= i < |df.data[j]| => TranslateCell(df.data[j][i], translate))))
  }

  /** `TranslatedFrom` pins the result down: it holds of `TranslatedFrame` and of nothing else. */
  lemma TranslatedFrameUnique(result: Frame, df: Frame, translate: string -> string)
    ensures TranslatedFrom(result, df, translate) <==> result == TranslatedFrame(df, translate)
  {
    var f := TranslatedFrame(df, translate);
    if TranslatedFrom(result, df, translate) {
      assert result.columns == f.columns;
      assert result.index == f.index;
      forall j | 0 <= j < |df.data| ensures result.data[j] == f.data[j] {
        assert |result.data[j]| == |f.data[j]|;
      }
      assert result.data == f.data;
    }
  }

  /** `_translate_dataframe` (lines 38-62). */
  method TranslateDataFrame(df: Frame, translate: string -> string) returns (result: Frame)
    ensures TranslatedFrom(result, df, translate)
  {
    result := df;
    var columns := TranslateLabels(df.columns, translate);
    result := result.(columns := columns);
    var index := TranslateLabels(df.index, translate);
    result := result.(index := index);
    for j := 0 to |df.data|
      invariant result.columns == columns && result.index == index && |result.data| == |df.data|
      invariant forall k :: j <= k < |df.data| ==> result.data[k] == df.data[k]
      invariant forall k :: 0 <= k < j ==> |result.data[k]| == |df.data[k]|
      invariant forall k, i :: 0 <= k < j && 0 <= i < |df.data[k]| ==>
        result.data[k][i] == TranslateCell(df.data[k][i], translate)
    {
      var translated := TranslateColumn(result.data[j], translate);
      result := result.(data := result.data[j := translated]);
    }
  }

  /** Every cell the translator does not see is unchanged: missing values, numbers, numeric strings. */
  lemma UntranslatedCellsKept(v: Value, translate: string -> string)
    requires !v.Str? || IsNumeric(v.s)
    ensures TranslateCell(v, translate) == v
  {
  }

  // ----------------------------------------------------------------- translate_tables

  /** The index of the last `c` in `s` (`str.rfind`), or -1. */
  function LastIndexOf(s: string, c: char): (i: int)
    ensures -1 <= i < |s|
    decreases |s|
  {
    if s == [] then -1
    else if s[|s| - 1] == c then |s| - 1
    else LastIndexOf(s[..|s| - 1], c)
  }

  /** The index found holds `c`, and no later position does. */
  lemma {:induction false} LastIndexOfSpec(s: string, c: char)
    ensures var i := LastIndexOf(s, c);
      (i >= 0 ==> s[i] == c) && forall k :: i < k < |s| ==> s[k] != c
    decreases |s|
  {
    if s != [] && s[|s| - 1] != c {
      LastIndexOfSpec(s[..|s| - 1], c);
      var i := LastIndexOf(s, c);
      assert forall k :: i < k < |s| - 1 ==> s[k] == s[..|s| - 1][k];
    }
  }

  /** `PurePath.name`: the text after the last `/`. */
  function BaseName(path: string): string {
    path[LastIndexOf(path, '/') + 1..]
  }

  /** The name holds no `/`. */
  lemma BaseNameNoSlash(path: string)
    ensures NoSlash(BaseName(path))
  {
    var i := LastIndexOf(path, '/');
    LastIndexOfSpec(path, '/');
    forall k | 0 <= k < |BaseName(path)| ensures BaseName(path)[k] != '/' {
      assert BaseName(path)[k] == path[i + 1 + k];
    }
  }

  /** The name is the final piece of the path, cut just after its last `/` when there is one. */
  lemma BaseNameIsSuffix(path: string)
    ensures var n := |BaseName(path)|;
      n <= |path| && BaseName(path) == path[|path| - n..] && (n < |path| ==> path[|path| - n - 1] == '/')
  {
    LastIndexOfSpec(path, '/');
  }

  /** `PurePath.stem`: the name without its last suffix; a leading or trailing dot is no suffix. */
  function Stem(path: string): string {
    NameStem(BaseName(path))
  }

  /** The stem of a bare file name. */
  function NameStem(name: string): string {
    var i := LastIndexOf(name, '.');
    if 0 < i < |name| - 1 then name[..i] else name
  }

  /** Line 32: the translated file of `csvPath`. */
  function TranslatedPath(outputDir: string, csvPath: string): string {
    JoinPath(outputDir, Stem(csvPath) + "_translated.csv")
  }

  /** `s` holds no `/`: it names a file, not a directory path. */
  predicate NoSlash(s: string) {
    forall k :: 0 <= k < |s| ==> s[k] != '/'
  }

  /** A file written by the extraction step is translated under its own stem. */
  lemma TranslatedExtractedName(dir: string, outputDir: string, fileId: string, idx: nat)
    requires NoSlash(fileId)
    ensures TranslatedPath(outputDir, OutputPath(dir, fileId, idx))
         == JoinPath(outputDir, fileId + "_table_" + NatToString(idx) + "_translated.csv")
  {
    var b := fileId + "_table_" + NatToString(idx);
    var p := OutputPath(dir, fileId, idx);
    assert p == dir + "/" + (b + ".csv");
    assert NoSlash(b) by {
      var digits := NatToString(idx);
      forall k | 0 <= k < |b| ensures b[k] != '/' {
        if k < |fileId| {
          assert b[k] == fileId[k];
        } else if k < |fileId| + 7 {
          assert b[k] == "_table_"[k - |fileId|];
        } else {
          assert b[k] == digits[k - |fileId| - 7];
        }
      }
    }
    CsvNameNoSlash(b);
    BaseNameOfJoin(dir, b + ".csv");
    StemOfCsv(b);
    assert b + "_translated.csv" == fileId + "_table_" + NatToString(idx) + "_translated.csv";
  }

  lemma BaseNameOfJoin(dir: string, name: string)
    requires NoSlash(name)
    ensures BaseName(dir + "/" + name) == name
  {
    var p := dir + "/" + name;
    assert p[|dir|] == '/';
    assert forall k :: |dir| < k < |p| ==> p[k] == name[k - |dir| - 1];
    LastIndexOfSpec(p, '/');
    assert LastIndexOf(p, '/') == |dir|;
    assert p[|dir| + 1..] == name;
  }

  lemma CsvNameNoSlash(b: string)
    requires NoSlash(b)
    ensures NoSlash(b + ".csv")
  {
    var name := b + ".csv";
    forall k | 0 <= k < |name| ensures name[k] != '/' {
      if k < |b| {
        assert name[k] == b[k];
      } else {
        assert name[k] == ".csv"[k - |b|];
      }
    }
  }

  lemma StemOfCsv(b: string)
    requires b != []
    ensures NameStem(b + ".csv") == b
  {
    var name := b + ".csv";
    var i := LastIndexOf(name, '.');
    LastIndexOfSpec(name, '.');
    assert name[|b|] == '.';
    assert forall k :: |b| < k < |name| ==> name[k] != '.';
    assert i == |b|;
    assert name[..i] == b;
  }

  /** Lines 27-34, one pass of the loop: read, translate, and name the output of one file. */
  method TranslateFile(csvPath: string, outputDir: string, readCsv: string -> Frame,
                       translate: string -> string)
    returns (outputPath: string, translatedDf: Frame)
    ensures outputPath == TranslatedPath(outputDir, csvPath)
    ensures translatedDf == TranslatedFrame(readCsv(csvPath), translate)
  {
    var df := readCsv(csvPath);
    translatedDf := TranslateDataFrame(df, translate);
    TranslatedFrameUnique(translatedDf, df, translate);
    outputPath := JoinPath(outputDir, Stem(csvPath) + "_translated.csv");
  }

  /** `translate_tables` (lines 14-36): one translated frame and one name per input file, in order. */
  method TranslateTables(csvFiles: seq<string>, outputDir: string, readCsv: string -> Frame,
                         translate: string -> string)
    returns (translatedFiles: seq<string>, frames: seq<Frame>)
    ensures |translatedFiles| == |csvFiles| == |frames|
    ensures forall k :: 0 <= k < |csvFiles| ==> translatedFiles[k] == TranslatedPath(outputDir, csvFiles[k])
    ensures forall k :: 0 <= k < |csvFiles| ==> frames[k] == TranslatedFrame(readCsv(csvFiles[k]), translate)
  {
    translatedFiles := [];
    frames := [];
    for k := 0 to |csvFiles|
      invariant |translatedFiles| == k == |frames|
      invariant forall m :: 0 <= m < k ==> translatedFiles[m] == TranslatedPath(outputDir, csvFiles[m])
      invariant forall m :: 0 <= m < k ==> frames[m] == TranslatedFrame(readCsv(csvFiles[m]), translate)
    {
      var outputPath, translatedDf := TranslateFile(csvFiles[k], outputDir, readCsv, translate);
      ghost var namesBefore, framesBefore := translatedFiles, frames;
      frames := frames + [translatedDf];
      translatedFiles := translatedFiles + [outputPath];
      assert forall m :: 0 <= m < k ==> translatedFiles[m] == namesBefore[m] && frames[m] == framesBefore[m];
      assert translatedFiles[k] == outputPath && frames[k] == translatedDf;
    }
  }
}
