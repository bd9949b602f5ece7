/** What the tool emits per subset file: `generateFileInfo` (app.js), the
    summary the results panel and the demo page are built from, and
    `generateCSS` (app.js and process-font.js), one `@font-face` rule per
    file. Each subset file is represented by its codepoints; the font bytes
    that travel with them play no part here. */
module Output {
  import opened Wrappers
  import opened Selection
  import opened UnicodeRange

  // ---------------------------------------------------------------------
  // File names

  /** `String(n)` for a natural number: decimal digits, no leading zero. */
  function Decimal(n: nat): (r: string)
    ensures r != [] && (|r| > 1 ==> r[0] != '0')
    ensures forall i :: 0 <= i < |r| ==> '0' <= r[i] <= '9'
    decreases n
  {
    if n < 10 then [('0' as int + n) as char] else Decimal(n / 10) + [('0' as int + n % 10) as char]
  }

  /** The number a string of decimal digits denotes. */
  function DecimalValue(s: string): nat
    requires forall i :: 0 <= i < |s| ==> '0' <= s[i] <= '9'
    decreases |s|
  {
    if s == [] then 0 else 10 * DecimalValue(s[..|s| - 1]) + (Last(s) as int - '0' as int)
  }

  lemma {:induction false} DecimalRoundTrip(n: nat)
    ensures DecimalValue(Decimal(n)) == n
    decreases n
  {
    if n >= 10 {
      var r := Decimal(n);
      DecimalRoundTrip(n / 10);
      assert r[..|r| - 1] == Decimal(n / 10);
    }
  }

  /** Different numbers are written differently. */
  lemma DecimalInjective(m: nat, n: nat)
    requires m != n
    ensures Decimal(m) != Decimal(n)
  {
    DecimalRoundTrip(m);
    DecimalRoundTrip(n);
  }

  /** `${fontFileName}-subset-${index + 1}`. */
  function SubsetName(fontFileName: string, index: nat): string
  {
    fontFileName + "-subset-" + Decimal(index + 1)
  }

  /** Two files of one run never share a name. */
  lemma SubsetNamesDistinct(fontFileName: string, i: nat, j: nat)
    requires i != j
    ensures SubsetName(fontFileName, i) != SubsetName(fontFileName, j)
  {
    var p := fontFileName + "-subset-";
    DecimalInjective(i + 1, j + 1);
    assert SubsetName(fontFileName, i)[|p|..] == Decimal(i + 1);
    assert SubsetName(fontFileName, j)[|p|..] == Decimal(j + 1);
  }

  // ---------------------------------------------------------------------
  // generateFileInfo

  datatype FileEntry = FileEntry(name: string, charCount: nat, unicodeRange: string)

  datatype FileInfo = FileInfo(fileCount: nat, totalChars: nat, files: seq<FileEntry>)

  /** The entry for the file at `index`. */
  function Entry(fontFileName: string, index: nat, codepoints: seq<int>): FileEntry
  {
    FileEntry(SubsetName(fontFileName, index), |codepoints|, UnicodeRangeText(codepoints))
  }

  /** One entry per file, in order, each named after its position and
      describing that file's codepoints; the total is the number of
      codepoints over all files. */
  method GenerateFileInfo(fontFileName: string, fontFiles: seq<seq<int>>) returns (info: FileInfo)
    ensures info.fileCount == |fontFiles|
    ensures info.totalChars == |Flatten(fontFiles)|
    ensures |info.files| == |fontFiles|
    ensures forall i :: 0 <= i < |fontFiles| ==> info.files[i] == Entry(fontFileName, i, fontFiles[i])
  {
    var totalChars := 0;
    var fileList: seq<FileEntry> := [];
    for index := 0 to |fontFiles|
      invariant totalChars == |Flatten(fontFiles[..index])|
      invariant |fileList| == index
      invariant forall i :: 0 <= i < index ==> fileList[i] == Entry(fontFileName, i, fontFiles[i])
    {
      var file := fontFiles[index];
      var charCount := |file|;
      FlattenPrefix(fontFiles, index);
      totalChars := totalChars + charCount;
      var unicodeRange := GenerateUnicodeRange(file);
      fileList := fileList + [FileEntry(SubsetName(fontFileName, index), charCount, unicodeRange)];
    }
    assert fontFiles[..|fontFiles|] == fontFiles;
    info := FileInfo(|fontFiles|, totalChars, fileList);
  }

  /** The entries' character counts add up to the total, and their names are
      pairwise distinct. */
  lemma FileInfoConsistent(fontFileName: string, fontFiles: seq<seq<int>>, info: FileInfo)
    requires |info.files| == |fontFiles| && info.totalChars == |Flatten(fontFiles)|
    requires forall i :: 0 <= i < |fontFiles| ==> info.files[i] == Entry(fontFileName, i, fontFiles[i])
    ensures info.totalChars == CountSum(info.files)
    ensures forall i, j :: 0 <= i < j < |info.files| ==> info.files[i].name != info.files[j].name
  {
    CountSumOfEntries(fontFileName, fontFiles, info.files);
    TotalLengthIsFlattenLength(fontFiles);
    forall i, j | 0 <= i < j < |info.files| ensures info.files[i].name != info.files[j].name {
      SubsetNamesDistinct(fontFileName, i, j);
    }
  }

  function CountSum(files: seq<FileEntry>): nat
    decreases |files|
  {
    if files == [] then 0 else files[0].charCount + CountSum(files[1..])
  }

  lemma {:induction false} CountSumOfEntries(fontFileName: string, fontFiles: seq<seq<int>>, files: seq<FileEntry>)
    requires |files| == |fontFiles|
    requires forall i :: 0 <= i < |files| ==> files[i].charCount == |fontFiles[i]|
    ensures CountSum(files) == TotalLength(fontFiles)
    decreases |files|
  {
    if files != [] {
      CountSumOfEntries(fontFileName, fontFiles[1..], files[1..]);
    }
  }

  // ---------------------------------------------------------------------
  // generateCSS

  /** `./fonts/${fontFileName}-subset-${index + 1}.${format}`. */
  function FontUrl(fontFileName: string, index: nat, format: string): string
  {
    "./fonts/" + SubsetName(fontFileName, index) + "." + format
  }

  /** The `@font-face` rule for one file. */
  function FaceRule(fontFamily: string, url: string, format: string, fontWeight: string,
                    fontStyle: string, unicodeRange: string): (r: string)
    ensures r != [] && r[0] == '@' && Last(r) == '}'
  {
    "@font-face {\n    font-family: '" + fontFamily + "';\n    src: url('" + url + "') format('"
      + format + "');\n    font-weight: " + fontWeight + ";\n    font-style: " + fontStyle
      + ";\n    unicode-range: " + unicodeRange + ";\n    font-display: swap;\n}"
  }

  /** The rule for the file at `index`. */
  function Rule(fontFiles: seq<seq<int>>, index: nat, format: string, fontWeight: string,
                fontStyle: string, fontFamily: string, fontFileName: string): string
    requires index < |fontFiles|
  {
    FaceRule(fontFamily, FontUrl(fontFileName, index, format), format, fontWeight, fontStyle,
             UnicodeRangeText(fontFiles[index]))
  }

  /** One rule per file, in file order. */
  function Rules(fontFiles: seq<seq<int>>, format: string, fontWeight: string,
                 fontStyle: string, fontFamily: string, fontFileName: string): (rs: seq<string>)
    ensures |rs| == |fontFiles|
    ensures forall i :: 0 <= i < |rs| ==>
      rs[i] == Rule(fontFiles, i, format, fontWeight, fontStyle, fontFamily, fontFileName)
  {
    seq(|fontFiles|, i requires 0 <= i < |fontFiles| =>
      Rule(fontFiles, i, format, fontWeight, fontStyle, fontFamily, fontFileName))
  }

  /** Each rule is followed by a blank line and the whole text is trimmed: so
      the result is the rules separated by blank lines, with nothing before
      the first or after the last, and empty when there are no files. */
  method GenerateCss(fontFiles: seq<seq<int>>, format: string, fontWeight: string,
                     fontStyle: string, fontFamily: string, fontFileName: string) returns (css: string)
    ensures css == JoinWith(Rules(fontFiles, format, fontWeight, fontStyle, fontFamily, fontFileName), "\n\n")
  {
    ghost var rules := Rules(fontFiles, format, fontWeight, fontStyle, fontFamily, fontFileName);
    var text := "";
    for index := 0 to |fontFiles|
      invariant CssSoFar(rules, index, text)
    {
      var unicodeRange := GenerateUnicodeRange(fontFiles[index]);
      var rule := FaceRule(fontFamily, FontUrl(fontFileName, index, format), format,
                           fontWeight, fontStyle, unicodeRange);
      assert rule == rules[index];
      CssStep(rules, index, text);
      text := text + rule + "\n\n";
    }
    CssDone(rules, text);
    css := Trim(text);
  }

  /** The text after `index` rules: each followed by a blank line. */
  ghost predicate CssSoFar(rules: seq<string>, index: nat, text: string)
  {
    && index <= |rules|
    && (index == 0 ==> text == "")
    && (index > 0 ==> text == JoinWith(rules[..index], "\n\n") + "\n\n" && IsRuleText(JoinWith(rules[..index], "\n\n")))
  }

  lemma CssStep(rules: seq<string>, index: nat, text: string)
    requires index < |rules| && IsRuleText(rules[index]) && CssSoFar(rules, index, text)
    ensures CssSoFar(rules, index + 1, text + rules[index] + "\n\n")
  {
    assert rules[..index + 1] == rules[..index] + [rules[index]];
    if index > 0 {
      JoinWithSnoc(rules[..index], rules[index], "\n\n");
    }
  }

  lemma CssDone(rules: seq<string>, text: string)
    requires CssSoFar(rules, |rules|, text)
    ensures Trim(text) == JoinWith(rules, "\n\n")
  {
    assert rules[..|rules|] == rules;
    if rules != [] {
      TrimTrailingSpace(JoinWith(rules, "\n\n"), "\n\n");
    }
  }

  /** Text that starts with `@` and ends with `}`, as every rule does. */
  predicate IsRuleText(s: string)
  {
    s != [] && s[0] == '@' && Last(s) == '}'
  }

  lemma JoinWithSnoc(ps: seq<string>, x: string, sep: string)
    requires ps != []
    ensures JoinWith(ps + [x], sep) == JoinWith(ps, sep) + sep + x
    ensures IsRuleText(JoinWith(ps, sep)) && IsRuleText(x) ==> IsRuleText(JoinWith(ps + [x], sep))
    decreases |ps|
  {
    if |ps| > 1 {
      assert (ps + [x])[1..] == ps[1..] + [x];
      JoinWithSnoc(ps[1..], x, sep);
    }
  }

  /** Trimming text that ends in white space, after a non-space first and last
      character, removes exactly that white space. */
  lemma TrimTrailingSpace(a: string, ws: string)
    requires a != [] && !IsJsSpace(a[0]) && !IsJsSpace(Last(a))
    requires forall i :: 0 <= i < |ws| ==> IsJsSpace(ws[i])
    ensures Trim(a + ws) == a
  {
    var s := a + ws;
    var t := TrimStart(s);
    assert !IsJsSpace(s[0]);
    assert t == s;
    var r := TrimEnd(s);
    assert !IsJsSpace(s[|a| - 1]);
    assert |r| >= |a|;
    assert |r| <= |a|;
    assert r == s[..|a|] == a;
  }
}
