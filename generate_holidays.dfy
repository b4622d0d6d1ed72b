/**
 * scripts/generate-holidays.ts without its I/O: parsing the government's
 * holiday CSV (already decoded to text) into records and writing the two
 * JSON data files.
 *
 * A record's name is `undefined` when its line has no comma; here that is
 * None. A date field with fewer than two '/' makes `padStart` throw on
 * `undefined`; here the whole parse is then None.
 */
module GenerateHolidays {
  import opened Wrappers
  import opened Strings
  import opened Jst
  import opened Json
  import opened Calendar

  /** One record of the CSV: the date in 'YYYY-MM-DD' form and the name. */
  datatype CsvHoliday = CsvHoliday(date: string, name: Option<string>)

  /** WhiteSpace and LineTerminator of ECMA-262, the characters `trim` removes. */
  predicate IsWhiteSpace(c: char) {
    var n := c as int;
    n == 0x09 || n == 0x0A || n == 0x0B || n == 0x0C || n == 0x0D || n == 0x20 || n == 0xA0
    || n == 0x1680 || (0x2000 <= n <= 0x200A) || n == 0x2028 || n == 0x2029 || n == 0x202F
    || n == 0x205F || n == 0x3000 || n == 0xFEFF
  }

  /** Every character is white space. */
  predicate AllWhite(s: string) {
    forall i :: 0 <= i < |s| ==> IsWhiteSpace(s[i])
  }

  /** Nothing to trim: empty, or neither end is white space. */
  predicate Trimmed(s: string) {
    |s| == 0 || (!IsWhiteSpace(s[0]) && !IsWhiteSpace(s[|s| - 1]))
  }

  /** `trimStart`: s without its leading white space. */
  function TrimStart(s: string): (r: string)
    ensures |r| <= |s| && r == s[|s| - |r|..] && AllWhite(s[..|s| - |r|])
    ensures |r| > 0 ==> !IsWhiteSpace(r[0])
  {
    if |s| > 0 && IsWhiteSpace(s[0]) then TrimStart(s[1..]) else s
  }

  /** `trimEnd`: s without its trailing white space. */
  function TrimEnd(s: string): (r: string)
    ensures |r| <= |s| && r == s[..|r|] && AllWhite(s[|r|..])
    ensures |r| > 0 ==> !IsWhiteSpace(r[|r| - 1])
  {
    if |s| > 0 && IsWhiteSpace(s[|s| - 1]) then TrimEnd(s[..|s| - 1]) else s
  }

  /** `trim`: s without white space at either end. */
  function Trim(s: string): string {
    TrimEnd(TrimStart(s))
  }

  /** Leading white space before a string that does not start with it is exactly what trimStart removes. */
  lemma {:induction false} TrimStartOf(p: string, r: string)
    requires AllWhite(p) && (|r| == 0 || !IsWhiteSpace(r[0]))
    ensures TrimStart(p + r) == r
    decreases |p|
  {
    if |p| > 0 {
      assert (p + r)[1..] == p[1..] + r;
      TrimStartOf(p[1..], r);
    } else {
      assert p + r == r;
    }
  }

  /** Trailing white space after a string that does not end with it is exactly what trimEnd removes. */
  lemma {:induction false} TrimEndOf(r: string, q: string)
    requires AllWhite(q) && (|r| == 0 || !IsWhiteSpace(r[|r| - 1]))
    ensures TrimEnd(r + q) == r
    decreases |q|
  {
    if |q| > 0 {
      assert (r + q)[..|r + q| - 1] == r + q[..|q| - 1];
      TrimEndOf(r, q[..|q| - 1]);
    } else {
      assert r + q == r;
    }
  }

  /** trim removes exactly the white space around a trimmed core. */
  lemma TrimOf(p: string, r: string, q: string)
    requires AllWhite(p) && AllWhite(q) && Trimmed(r)
    ensures Trim(p + r + q) == r
  {
    if |r| == 0 {
      assert p + r + q == p + q;
      assert AllWhite(p + q);
      TrimStartOf(p + q, "");
      assert p + q + "" == p + q;
      TrimEndOf("", "");
    } else {
      assert p + r + q == p + (r + q);
      TrimStartOf(p, r + q);
      TrimEndOf(r, q);
    }
  }

  /** White space followed by white space is white space. */
  lemma AllWhiteConcat(a: string, b: string)
    requires AllWhite(a) && AllWhite(b)
    ensures AllWhite(a + b)
  {
    assert forall i :: 0 <= i < |a + b| ==> (a + b)[i] == if i < |a| then a[i] else b[i - |a|];
  }

  /** trimStart removes a white prefix: s == p + TrimStart(s). */
  lemma TrimStartSplit(s: string) returns (p: string)
    ensures AllWhite(p) && s == p + TrimStart(s)
  {
    var a := TrimStart(s);
    var k := |s| - |a|;
    p := s[..k];
    assert a == s[k..];
    assert s == p + s[k..];
  }

  /** trimEnd removes a white suffix: s == TrimEnd(s) + q. */
  lemma TrimEndSplit(s: string) returns (q: string)
    ensures AllWhite(q) && s == TrimEnd(s) + q
  {
    var r := TrimEnd(s);
    q := s[|r|..];
    assert s == s[..|r|] + s[|r|..];
  }

  /** Neither end of trim's result is white space. */
  lemma TrimTrimmed(s: string)
    ensures Trimmed(Trim(s))
  {
    var a := TrimStart(s);
    var r := TrimEnd(a);
    if |r| > 0 {
      assert r[0] == a[..|r|][0] == a[0];
    }
  }

  /** trim gives a trimmed core with only white space around it: s == p + Trim(s) + q. */
  lemma TrimSplit(s: string) returns (p: string, q: string)
    ensures Trimmed(Trim(s)) && AllWhite(p) && AllWhite(q)
    ensures s == p + Trim(s) + q
  {
    TrimTrimmed(s);
    p := TrimStartSplit(s);
    q := TrimEndSplit(TrimStart(s));
  }

  /** Appending white space does not change what trim keeps. */
  lemma TrimAppendWhite(s: string, w: string)
    requires AllWhite(w)
    ensures Trim(s + w) == Trim(s)
  {
    var p, q := TrimSplit(s);
    var r := Trim(s);
    assert s + w == p + r + (q + w);
    AllWhiteConcat(q, w);
    TrimOf(p, r, q + w);
  }

  /** A string of white space only trims to nothing, and nothing else does. */
  lemma TrimEmpty(s: string)
    ensures Trim(s) == "" <==> AllWhite(s)
  {
    var p, q := TrimSplit(s);
    if Trim(s) == "" {
      assert s == p + q;
      assert forall i :: 0 <= i < |s| ==> s[i] == if i < |p| then p[i] else q[i - |p|];
    }
    if AllWhite(s) {
      TrimOf(s, "", "");
      assert s + "" + "" == s;
    }
  }

  /** A trailing newline does not change what trim keeps. */
  lemma TrimTrailingNewline(s: string)
    ensures Trim(s + "\n") == Trim(s)
  {
    assert IsWhiteSpace('\n');
    TrimAppendWhite(s, "\n");
  }

  /** formatDate in the script: 'YYYY/M/D' as 'YYYY-MM-DD'; None where the source throws. */
  function FormatCsvDate(dateStr: string): (r: Option<string>)
    ensures r.None? <==> |Split(dateStr, '/')| < 3
  {
    var parts := Split(dateStr, '/');
    if |parts| < 3 then None
    else Some(parts[0] + "-" + PadStart2(parts[1]) + "-" + PadStart2(parts[2]))
  }

  /** A date field of three '/'-free parts. */
  lemma FormatCsvDateOf(y: string, m: string, d: string)
    requires '/' !in y && '/' !in m && '/' !in d
    ensures FormatCsvDate(y + "/" + m + "/" + d) == Some(y + "-" + PadStart2(m) + "-" + PadStart2(d))
  {
    SplitThree(y, m, d, '/');
  }

  /** A field with fewer than two '/' has no date: the source throws. */
  lemma CsvDateTooFewParts(y: string, m: string)
    requires '/' !in y && '/' !in m
    ensures FormatCsvDate(y + "/" + m) == None && FormatCsvDate(y) == None
  {
    SplitCons(y, '/', m);
    SplitNoSep(m, '/');
    SplitNoSep(y, '/');
  }

  /** Two-digit months and days stay as they are, a one-digit day is padded. */
  lemma CsvDateExamples(b: string, e: string)
    requires b == "2025/12/23" && e == "2025/10/1"
    ensures FormatCsvDate(b) == Some("2025-12-23")
    ensures FormatCsvDate(e) == Some("2025-10-01")
  {
    var y, one, ten, twelve, twentyThree := "2025", "1", "10", "12", "23";
    FormatCsvDateOf(y, twelve, twentyThree);
    assert b == y + "/" + twelve + "/" + twentyThree;
    assert y + "-" + PadStart2(twelve) + "-" + PadStart2(twentyThree) == "2025-12-23";
    FormatCsvDateOf(y, ten, one);
    assert e == y + "/" + ten + "/" + one;
    assert PadStart2(one) == "01";
    assert y + "-" + ten + "-" + "01" == "2025-10-01";
  }

  /** A '/' never occurs in the decimal text of an integer. */
  lemma NoSlashInDecimal(n: int)
    ensures '/' !in IntToDecimal(n)
  {
    if n < 0 {
      DigitsHaveNoSep(NatToDecimal(-n), '/');
      assert IntToDecimal(n) == "-" + NatToDecimal(-n);
    } else {
      DigitsHaveNoSep(NatToDecimal(n), '/');
    }
  }

  /**
   * The government's unpadded date reads as the date text the library uses
   * as a lookup key (formatDate in _internal/formatDate.ts): the generated
   * data and the library agree on every date.
   */
  lemma CsvDateIsIsoDate(c: Civil)
    requires c.month >= 0 && c.day >= 0
    ensures FormatCsvDate(IntToDecimal(c.year) + "/" + IntToDecimal(c.month) + "/" + IntToDecimal(c.day)) == Some(IsoDate(c))
  {
    NoSlashInDecimal(c.year);
    NoSlashInDecimal(c.month);
    NoSlashInDecimal(c.day);
    FormatCsvDateOf(IntToDecimal(c.year), IntToDecimal(c.month), IntToDecimal(c.day));
  }

  /** Fields after the third '/' are ignored. */
  lemma CsvDateExtraFields(y: string, m: string, d: string, extra: string)
    requires '/' !in y && '/' !in m && '/' !in d
    ensures FormatCsvDate(y + "/" + m + "/" + d + "/" + extra) == Some(y + "-" + PadStart2(m) + "-" + PadStart2(d))
  {
    var tail := Split(extra, '/');
    SplitCons(d, '/', extra);
    SplitCons(m, '/', d + "/" + extra);
    SplitCons(y, '/', m + "/" + d + "/" + extra);
    assert y + "/" + m + "/" + d + "/" + extra == y + "/" + (m + "/" + d + "/" + extra);
    assert m + "/" + d + "/" + extra == m + "/" + (d + "/" + extra);
    var parts := Split(y + "/" + m + "/" + d + "/" + extra, '/');
    assert parts == [y] + ([m] + ([d] + tail));
    assert parts[0] == y && parts[1] == m && parts[2] == d;
  }

  /** One data line: the first field as the date, the second, if any, as the name. */
  function ParseLine(line: string): (r: Option<CsvHoliday>)
    ensures r.Some? <==> FormatCsvDate(Split(line, ',')[0]).Some?
  {
    var fields := Split(line, ',');
    match FormatCsvDate(fields[0])
    case None => None
    case Some(date) => Some(CsvHoliday(date, if |fields| >= 2 then Some(fields[1]) else None))
  }

  /** Only the first two comma-separated fields of a line count. */
  lemma ParseLineTwoFields(a: string, b: string, rest: string)
    requires ',' !in a && ',' !in b
    ensures ParseLine(a + "," + b + "," + rest) == ParseLine(a + "," + b)
  {
    SplitCons(a, ',', b + "," + rest);
    SplitCons(b, ',', rest);
    SplitCons(a, ',', b);
    SplitNoSep(b, ',');
    assert a + "," + b + "," + rest == a + [','] + (b + [','] + rest);
  }

  /** A line 'date,name' is the record of that date and name. */
  lemma ParseRecordLine(date: string, name: string)
    requires ',' !in date && ',' !in name && FormatCsvDate(date).Some?
    ensures ParseLine(date + "," + name) == Some(CsvHoliday(FormatCsvDate(date).value, Some(name)))
  {
    SplitCons(date, ',', name);
    SplitNoSep(name, ',');
  }

  /** A line without a comma is a record whose name is undefined. */
  lemma ParseLineWithoutName(date: string)
    requires ',' !in date && FormatCsvDate(date).Some?
    ensures ParseLine(date) == Some(CsvHoliday(FormatCsvDate(date).value, None))
  {
    SplitNoSep(date, ',');
  }

  /** The lines whose trimmed text is not empty, in order. */
  function NonBlank(lines: seq<string>): (r: seq<string>)
    ensures |r| <= |lines|
    ensures forall l :: l in r ==> l in lines && Trim(l) != ""
  {
    if |lines| == 0 then []
    else if Trim(lines[0]) != "" then [lines[0]] + NonBlank(lines[1..])
    else NonBlank(lines[1..])
  }

  /** Filtering blank lines works line by line: filtering a concatenation concatenates the filtered parts. */
  lemma {:induction false} NonBlankAppend(a: seq<string>, b: seq<string>)
    ensures NonBlank(a + b) == NonBlank(a) + NonBlank(b)
    decreases |a|
  {
    if |a| > 0 {
      var ab := a + b;
      assert ab[0] == a[0] && ab[1..] == a[1..] + b;
      NonBlankAppend(a[1..], b);
      if Trim(a[0]) != "" {
        calc {
          NonBlank(ab);
          [a[0]] + NonBlank(a[1..] + b);
          [a[0]] + (NonBlank(a[1..]) + NonBlank(b));
          ([a[0]] + NonBlank(a[1..])) + NonBlank(b);
        }
      }
    } else {
      assert a + b == b;
    }
  }

  /** A line of white space only is dropped wherever it stands. */
  lemma BlankLineDropped(a: seq<string>, blank: string, b: seq<string>)
    requires AllWhite(blank)
    ensures NonBlank(a + [blank] + b) == NonBlank(a + b)
  {
    TrimEmpty(blank);
    NonBlankAppend(a + [blank], b);
    NonBlankAppend(a, [blank]);
    NonBlankAppend(a, b);
  }

  /** Every line parsed, in order; None when some line's date makes the source throw. */
  function ParseLines(lines: seq<string>): (r: Option<seq<CsvHoliday>>)
    ensures r.Some? <==> forall i :: 0 <= i < |lines| ==> ParseLine(lines[i]).Some?
    ensures r.Some? ==> |r.value| == |lines| && forall i :: 0 <= i < |lines| ==> r.value[i] == ParseLine(lines[i]).value
  {
    if |lines| == 0 then Some([])
    else
      match ParseLine(lines[0])
      case None => None
      case Some(h) =>
        var rest := ParseLines(lines[1..]);
        assert forall i :: 1 <= i < |lines| ==> lines[i] == lines[1..][i - 1];
        ConsOpt(h, rest)
  }

  /** parseCsv: trim, split into lines, drop the header, drop blank lines, parse each line. */
  function ParseCsv(csvText: string): Option<seq<CsvHoliday>> {
    var lines := Split(Trim(csvText), '\n');
    ParseLines(NonBlank(lines[1..]))
  }

  /** The first line is the header and is never parsed: the records come from the lines after it. */
  lemma HeaderDropped(csvText: string, header: string, body: string)
    requires Trim(csvText) == header + "\n" + body && '\n' !in header
    ensures ParseCsv(csvText) == ParseLines(NonBlank(Split(body, '\n')))
  {
    SplitCons(header, '\n', body);
  }

  /** A text without a line break is all header and gives no record. */
  lemma HeaderOnly(csvText: string)
    requires '\n' !in Trim(csvText)
    ensures ParseCsv(csvText) == Some([])
  {
    SplitNoSep(Trim(csvText), '\n');
  }

  /** A trailing newline changes nothing. */
  lemma TrailingNewlineIgnored(csvText: string)
    ensures ParseCsv(csvText + "\n") == ParseCsv(csvText)
  {
    TrimTrailingNewline(csvText);
  }

  /** A text line starting with a digit is not blank. */
  lemma NotBlank(line: string)
    requires |line| > 0 && IsDigit(line[0])
    ensures Trim(line) != ""
  {
    TrimEmpty(line);
    assert !IsWhiteSpace(line[0]);
  }

  /** A text whose first and last characters are not white space trims to itself. */
  lemma TrimOfTrimmed(s: string)
    requires Trimmed(s)
    ensures Trim(s) == s
  {
    TrimOf("", s, "");
    assert "" + s + "" == s;
  }

  /** The date field of the parser's tests: '2025/1/1' and '2025/1/13' read as '2025-01-01' and '2025-01-13'. */
  lemma JanuaryDates(date1: string, date13: string)
    requires date1 == "2025/1/1" && date13 == "2025/1/13"
    ensures FormatCsvDate(date1) == Some("2025-01-01") && FormatCsvDate(date13) == Some("2025-01-13")
    ensures ',' !in date1 && '\n' !in date1 && ',' !in date13 && '\n' !in date13
  {
    var y, one, thirteen := "2025", "1", "13";
    FormatCsvDateOf(y, one, one);
    assert date1 == y + "/" + one + "/" + one;
    assert PadStart2(one) == "01";
    assert y + "-" + "01" + "-" + "01" == "2025-01-01";
    FormatCsvDateOf(y, one, thirteen);
    assert date13 == y + "/" + one + "/" + thirteen;
    assert y + "-" + "01" + "-" + thirteen == "2025-01-13";
  }

  /** A record line 'date,name' with a date field starting with a digit: not blank, no line break. */
  lemma RecordLine(date: string, name: string)
    requires |date| > 0 && IsDigit(date[0]) && '\n' !in date && '\n' !in name
    ensures Trim(date + "," + name) != "" && '\n' !in date + "," + name
  {
    NotBlank(date + "," + name);
  }

  /** A file that starts and ends with other than white space is its own trimmed text. */
  lemma TrimmedFile(header: string, body: string)
    requires |header| > 0 && !IsWhiteSpace(header[0])
    requires |body| > 0 && !IsWhiteSpace(body[|body| - 1])
    ensures Trim(header + "\n" + body) == header + "\n" + body
  {
    var csv := header + "\n" + body;
    assert csv[0] == header[0] && csv[|csv| - 1] == body[|body| - 1];
    TrimOfTrimmed(csv);
  }

  /** Records from the lines after the header, blank lines dropped. */
  lemma FileRecords(header: string, body: string)
    requires |header| > 0 && !IsWhiteSpace(header[0]) && '\n' !in header
    requires |body| > 0 && !IsWhiteSpace(body[|body| - 1])
    ensures ParseCsv(header + "\n" + body) == ParseLines(NonBlank(Split(body, '\n')))
    ensures ParseCsv(header + "\n" + body + "\n") == ParseLines(NonBlank(Split(body, '\n')))
  {
    TrimmedFile(header, body);
    HeaderDropped(header + "\n" + body, header, body);
    TrailingNewlineIgnored(header + "\n" + body);
  }

  /** A single non-blank line is kept. */
  lemma NonBlankOne(line: string)
    requires Trim(line) != ""
    ensures NonBlank([line]) == [line]
  {
    assert [line][1..] == [];
  }

  /** A non-blank line that parses gives one record. */
  lemma ParseOneLine(line: string)
    requires Trim(line) != "" && ParseLine(line).Some?
    ensures ParseLines(NonBlank([line])) == Some([ParseLine(line).value])
  {
    NonBlankOne(line);
    var one := ParseLines([line]);
    assert one.Some? && one.value == [ParseLine(line).value];
  }

  /** Two non-blank lines that parse give one record each, in order. */
  lemma ParseTwoLines(line1: string, line2: string)
    requires Trim(line1) != "" && Trim(line2) != ""
    requires ParseLine(line1).Some? && ParseLine(line2).Some?
    ensures ParseLines(NonBlank([line1, line2])) == Some([ParseLine(line1).value, ParseLine(line2).value])
  {
    NonBlankOne(line1);
    NonBlankOne(line2);
    NonBlankAppend([line1], [line2]);
    assert [line1] + [line2] == [line1, line2];
    var two := ParseLines([line1, line2]);
    assert two.Some? && two.value == [ParseLine(line1).value, ParseLine(line2).value];
  }

  /** A file of a header and one record line gives that one record, with or without a trailing newline. */
  lemma ParseCsvOneRecord(header: string, date: string, name: string)
    requires |header| > 0 && !IsWhiteSpace(header[0]) && '\n' !in header
    requires |date| > 0 && IsDigit(date[0]) && ',' !in date && '\n' !in date && FormatCsvDate(date).Some?
    requires |name| > 0 && !IsWhiteSpace(name[|name| - 1]) && ',' !in name && '\n' !in name
    ensures ParseCsv(header + "\n" + (date + "," + name)) == Some([CsvHoliday(FormatCsvDate(date).value, Some(name))])
    ensures ParseCsv(header + "\n" + (date + "," + name) + "\n") == Some([CsvHoliday(FormatCsvDate(date).value, Some(name))])
  {
    var line := date + "," + name;
    RecordLine(date, name);
    assert line[|line| - 1] == name[|name| - 1];
    FileRecords(header, line);
    SplitNoSep(line, '\n');
    ParseRecordLine(date, name);
    ParseOneLine(line);
  }

  /** A file of a header and two record lines gives the two records in order. */
  lemma ParseCsvTwoRecords(header: string, date1: string, name1: string, date2: string, name2: string)
    requires |header| > 0 && !IsWhiteSpace(header[0]) && '\n' !in header
    requires |date1| > 0 && IsDigit(date1[0]) && ',' !in date1 && '\n' !in date1 && FormatCsvDate(date1).Some?
    requires |date2| > 0 && IsDigit(date2[0]) && ',' !in date2 && '\n' !in date2 && FormatCsvDate(date2).Some?
    requires ',' !in name1 && '\n' !in name1
    requires |name2| > 0 && !IsWhiteSpace(name2[|name2| - 1]) && ',' !in name2 && '\n' !in name2
    ensures ParseCsv(header + "\n" + (date1 + "," + name1 + "\n" + (date2 + "," + name2))) ==
      Some([CsvHoliday(FormatCsvDate(date1).value, Some(name1)), CsvHoliday(FormatCsvDate(date2).value, Some(name2))])
  {
    var line1, line2 := date1 + "," + name1, date2 + "," + name2;
    RecordLine(date1, name1);
    RecordLine(date2, name2);
    ParseRecordLine(date1, name1);
    ParseRecordLine(date2, name2);
    ParseTwoLines(line1, line2);
    SplitTwoLines(line1, line2);
    var body := line1 + "\n" + line2;
    assert body[|body| - 1] == name2[|name2| - 1];
    FileRecords(header, body);
  }

  /** Two lines joined by a line break split back into the two lines. */
  lemma SplitTwoLines(line1: string, line2: string)
    requires '\n' !in line1 && '\n' !in line2
    ensures Split(line1 + "\n" + line2, '\n') == [line1, line2]
  {
    SplitNoSep(line2, '\n');
    SplitCons(line1, '\n', line2);
  }

  /** Two lines with an empty line between them split into the two lines and the empty one. */
  lemma SplitBlankBetween(line1: string, line2: string)
    requires '\n' !in line1 && '\n' !in line2
    ensures Split(line1 + "\n" + ("\n" + line2), '\n') == [line1, "", line2]
  {
    var s := line1 + "\n" + ("\n" + line2);
    assert s == line1 + ['\n'] + "" + ['\n'] + line2;
    SplitThree(line1, "", line2, '\n');
  }

  /** An empty line between two lines is dropped. */
  lemma EmptyLineDropped(line1: string, line2: string)
    ensures NonBlank([line1, "", line2]) == NonBlank([line1, line2])
  {
    assert [line1, "", line2][1..] == ["", line2];
    assert ["", line2][1..] == [line2];
    assert [line1, line2][1..] == [line2];
    assert Trim("") == "";
  }

  /** A blank line between the two record lines is skipped. */
  lemma ParseCsvBlankLineSkipped(header: string, line1: string, line2: string)
    requires |header| > 0 && !IsWhiteSpace(header[0]) && '\n' !in header
    requires '\n' !in line1 && '\n' !in line2 && |line2| > 0 && !IsWhiteSpace(line2[|line2| - 1])
    ensures ParseCsv(header + "\n" + (line1 + "\n" + ("\n" + line2))) == ParseCsv(header + "\n" + (line1 + "\n" + line2))
  {
    SplitTwoLines(line1, line2);
    SplitBlankBetween(line1, line2);
    var body, gapped := line1 + "\n" + line2, line1 + "\n" + ("\n" + line2);
    assert body[|body| - 1] == line2[|line2| - 1];
    assert gapped[|gapped| - 1] == line2[|line2| - 1];
    FileRecords(header, body);
    FileRecords(header, gapped);
    EmptyLineDropped(line1, line2);
  }

  /** The dates of the records, in order. */
  function Dates(hs: seq<CsvHoliday>): (r: seq<string>)
    ensures |r| == |hs| && forall i :: 0 <= i < |hs| ==> r[i] == hs[i].date
  {
    seq(|hs|, i requires 0 <= i < |hs| => hs[i].date)
  }

  /** generateHolidayDatesJson: JSON.stringify of the dates. */
  function HolidayDatesJson(hs: seq<CsvHoliday>): string {
    StringifyArray(Dates(hs))
  }

  /** The dates file is valid JSON holding the record dates in input order; no records give '[]'. */
  lemma HolidayDatesJsonMeaning(hs: seq<CsvHoliday>)
    ensures ReadArray(HolidayDatesJson(hs)) == Some(Dates(hs))
    ensures |hs| == 0 ==> HolidayDatesJson(hs) == "[]"
  {
    ArrayRoundTrip(Dates(hs));
  }

  /** The dates file of one record: its date, quoted, in an array. */
  lemma HolidayDatesJsonOne(h: CsvHoliday)
    requires forall i :: 0 <= i < |h.date| ==> Unescaped(h.date[i])
    ensures HolidayDatesJson([h]) == "[" + ("\"" + h.date + "\"") + "]"
  {
    QuoteUnescaped(h.date);
    assert Dates([h]) == [h.date];
    assert QuoteAll([h.date]) == [Quote(h.date)];
  }

  /** The dates file of two records: their dates, quoted, in input order. */
  lemma HolidayDatesJsonTwo(h1: CsvHoliday, h2: CsvHoliday)
    requires forall i :: 0 <= i < |h1.date| ==> Unescaped(h1.date[i])
    requires forall i :: 0 <= i < |h2.date| ==> Unescaped(h2.date[i])
    ensures HolidayDatesJson([h1, h2]) == "[" + ("\"" + h1.date + "\"" + "," + ("\"" + h2.date + "\"")) + "]"
  {
    QuoteUnescaped(h1.date);
    QuoteUnescaped(h2.date);
    var quoted := [Quote(h1.date), Quote(h2.date)];
    assert Dates([h1, h2]) == [h1.date, h2.date];
    assert QuoteAll([h1.date, h2.date]) == quoted;
    assert quoted[1..] == [Quote(h2.date)];
    assert Join(quoted, ',') == Quote(h1.date) + "," + Quote(h2.date);
  }

  /** A JavaScript object's own properties in creation order, each with its value; `undefined` is None. */
  type Properties = seq<(string, Option<string>)>

  /** Keys(props) holds the property names, in order. */
  function Keys(props: Properties): (r: seq<string>)
    ensures |r| == |props| && forall i :: 0 <= i < |props| ==> r[i] == props[i].0
  {
    if |props| == 0 then [] else [props[0].0] + Keys(props[1..])
  }

  /** No name occurs twice, as in every JavaScript object. */
  predicate DistinctKeys(props: Properties) {
    forall i, j :: 0 <= i < j < |props| ==> props[i].0 != props[j].0
  }

  /** Where the property named k stands, or |props| when there is none. */
  function KeyIndex(props: Properties, k: string): (i: nat)
    ensures i <= |props|
    ensures i < |props| ==> props[i].0 == k
    ensures forall j :: 0 <= j < i ==> props[j].0 != k
  {
    if |props| == 0 then 0
    else if props[0].0 == k then 0
    else 1 + KeyIndex(props[1..], k)
  }

  /** Setting a property: an existing one keeps its place and takes the value, a new one goes last. */
  function SetProperty(props: Properties, k: string, v: Option<string>): (r: Properties)
    requires DistinctKeys(props)
    ensures DistinctKeys(r)
    ensures forall x :: x in Keys(r) <==> x in Keys(props) || x == k
    ensures k in Keys(props) ==> |r| == |props|
    ensures k !in Keys(props) ==> r == props + [(k, v)]
    ensures forall i :: 0 <= i < |props| && props[i].0 != k ==> r[i] == props[i]
    ensures forall i :: 0 <= i < |props| && props[i].0 == k ==> r[i] == (k, v)
  {
    var i := KeyIndex(props, k);
    if i < |props| then
      assert Keys(props[i := (k, v)]) == Keys(props);
      props[i := (k, v)]
    else
      assert Keys(props + [(k, v)]) == Keys(props) + [k];
      props + [(k, v)]
  }

  /** Object.fromEntries over (date, name) pairs, one after another. */
  function FromEntries(hs: seq<CsvHoliday>): (r: Properties)
    ensures DistinctKeys(r)
    decreases |hs|
  {
    if |hs| == 0 then []
    else SetProperty(FromEntries(hs[..|hs| - 1]), hs[|hs| - 1].date, hs[|hs| - 1].name)
  }

  /** The last name given for a date among the records, when one is. */
  function LastName(hs: seq<CsvHoliday>, k: string): Option<Option<string>>
    decreases |hs|
  {
    if |hs| == 0 then None
    else if hs[|hs| - 1].date == k then Some(hs[|hs| - 1].name)
    else LastName(hs[..|hs| - 1], k)
  }

  /** The object has each record's date once, and no other name. */
  lemma {:induction false} FromEntriesKeys(hs: seq<CsvHoliday>)
    ensures forall k :: k in Keys(FromEntries(hs)) <==> k in Dates(hs)
    decreases |hs|
  {
    if |hs| > 0 {
      var front := hs[..|hs| - 1];
      FromEntriesKeys(front);
      assert Dates(hs) == Dates(front) + [hs[|hs| - 1].date];
    }
  }

  /** Each date's value in the object is the name of the last record for that date. */
  lemma {:induction false} FromEntriesLast(hs: seq<CsvHoliday>)
    ensures forall i :: 0 <= i < |FromEntries(hs)| ==>
      LastName(hs, FromEntries(hs)[i].0) == Some(FromEntries(hs)[i].1)
    decreases |hs|
  {
    if |hs| > 0 {
      var front := hs[..|hs| - 1];
      var last := hs[|hs| - 1];
      FromEntriesLast(front);
      var before, after := FromEntries(front), FromEntries(hs);
      forall i | 0 <= i < |after|
        ensures LastName(hs, after[i].0) == Some(after[i].1)
      {
        if after[i].0 != last.date {
          assert i < |before| && after[i] == before[i];
        }
      }
    }
  }

  /** The (date, name) pairs of the records, in order. */
  function Entries(hs: seq<CsvHoliday>): (r: Properties)
    ensures |r| == |hs| && forall i :: 0 <= i < |hs| ==> r[i] == (hs[i].date, hs[i].name)
  {
    if |hs| == 0 then [] else Entries(hs[..|hs| - 1]) + [(hs[|hs| - 1].date, hs[|hs| - 1].name)]
  }

  /** No two records share a date. */
  predicate DistinctDates(hs: seq<CsvHoliday>) {
    forall i, j :: 0 <= i < j < |hs| ==> hs[i].date != hs[j].date
  }

  /** With distinct dates the object lists the records themselves, in input order. */
  lemma {:induction false} FromEntriesOfDistinct(hs: seq<CsvHoliday>)
    requires DistinctDates(hs)
    ensures FromEntries(hs) == Entries(hs)
    decreases |hs|
  {
    if |hs| > 0 {
      var front := hs[..|hs| - 1];
      var last := hs[|hs| - 1];
      FromEntriesOfDistinct(front);
      assert Keys(FromEntries(front)) == Dates(front);
      assert last.date !in Dates(front);
    }
  }

  /** JSON.stringify leaves out properties whose value is `undefined`. */
  function DefinedMembers(props: Properties): (r: seq<(string, string)>)
    ensures |r| <= |props|
  {
    if |props| == 0 then []
    else
      var rest := DefinedMembers(props[1..]);
      match props[0].1
      case None => rest
      case Some(v) => [(props[0].0, v)] + rest
  }

  /** Properties whose values are all defined are all written, in order. */
  lemma {:induction false} DefinedMembersAll(props: Properties)
    requires forall i :: 0 <= i < |props| ==> props[i].1.Some?
    ensures |DefinedMembers(props)| == |props|
    ensures forall i :: 0 <= i < |props| ==> DefinedMembers(props)[i] == (props[i].0, props[i].1.value)
    decreases |props|
  {
    if |props| > 0 {
      DefinedMembersAll(props[1..]);
    }
  }

  /** generateHolidayNamesJson: JSON.stringify(Object.fromEntries(date, name pairs)). */
  function HolidayNamesJson(hs: seq<CsvHoliday>): string {
    StringifyObject(DefinedMembers(FromEntries(hs)))
  }

  /** The names file is valid JSON holding the object's defined properties in order; no records give '{}'. */
  lemma HolidayNamesJsonMeaning(hs: seq<CsvHoliday>)
    ensures ReadObject(HolidayNamesJson(hs)) == Some(DefinedMembers(FromEntries(hs)))
    ensures |hs| == 0 ==> HolidayNamesJson(hs) == "{}"
  {
    ObjectRoundTrip(DefinedMembers(FromEntries(hs)));
  }

  /** With distinct dates and every name given, the names file maps each record's date to its name, in input order. */
  lemma HolidayNamesJsonOfDistinct(hs: seq<CsvHoliday>)
    requires DistinctDates(hs) && forall i :: 0 <= i < |hs| ==> hs[i].name.Some?
    ensures ReadObject(HolidayNamesJson(hs)).Some?
    ensures var ms := ReadObject(HolidayNamesJson(hs)).value;
      |ms| == |hs| && forall i :: 0 <= i < |hs| ==> ms[i] == (hs[i].date, hs[i].name.value)
  {
    HolidayNamesJsonMeaning(hs);
    FromEntriesOfDistinct(hs);
    DefinedMembersAll(Entries(hs));
  }

  /** One record with a name is one member. */
  lemma NamesOfOne(h: CsvHoliday)
    requires h.name.Some?
    ensures DefinedMembers(FromEntries([h])) == [(h.date, h.name.value)]
  {
    assert [h][..0] == [];
  }

  /** Two records with different dates and with names are two members, in order. */
  lemma NamesOfTwo(h1: CsvHoliday, h2: CsvHoliday)
    requires h1.date != h2.date && h1.name.Some? && h2.name.Some?
    ensures DefinedMembers(FromEntries([h1, h2])) == [(h1.date, h1.name.value), (h2.date, h2.name.value)]
  {
    EntriesOfTwo(h1, h2);
    var props := [(h1.date, h1.name), (h2.date, h2.name)];
    assert props[1..] == [(h2.date, h2.name)];
    assert props[1..][1..] == [];
  }

  /** Two records with different dates are two properties, in order. */
  lemma EntriesOfTwo(h1: CsvHoliday, h2: CsvHoliday)
    requires h1.date != h2.date
    ensures FromEntries([h1, h2]) == [(h1.date, h1.name), (h2.date, h2.name)]
  {
    assert [h1, h2][..1] == [h1];
    assert [h1][..0] == [];
    assert FromEntries([h1][..0]) == [];
    var props := FromEntries([h1]);
    assert [] + [(h1.date, h1.name)] == [(h1.date, h1.name)];
    assert props == [(h1.date, h1.name)];
    assert Keys(props) == [h1.date];
  }

  /** The names file of one named record: one member, date to name. */
  lemma HolidayNamesJsonOne(h: CsvHoliday)
    requires h.name.Some?
    requires forall i :: 0 <= i < |h.date| ==> Unescaped(h.date[i])
    requires forall i :: 0 <= i < |h.name.value| ==> Unescaped(h.name.value[i])
    ensures HolidayNamesJson([h]) == "{" + ("\"" + h.date + "\"" + ":" + ("\"" + h.name.value + "\"")) + "}"
  {
    QuoteUnescaped(h.date);
    QuoteUnescaped(h.name.value);
    NamesOfOne(h);
    assert MemberTexts([(h.date, h.name.value)]) == [Member((h.date, h.name.value))];
  }

  /** The names file of two named records with different dates: two members, in input order. */
  lemma HolidayNamesJsonTwo(h1: CsvHoliday, h2: CsvHoliday)
    requires h1.date != h2.date && h1.name.Some? && h2.name.Some?
    requires forall i :: 0 <= i < |h1.date| ==> Unescaped(h1.date[i])
    requires forall i :: 0 <= i < |h1.name.value| ==> Unescaped(h1.name.value[i])
    requires forall i :: 0 <= i < |h2.date| ==> Unescaped(h2.date[i])
    requires forall i :: 0 <= i < |h2.name.value| ==> Unescaped(h2.name.value[i])
    ensures HolidayNamesJson([h1, h2]) == "{" + (
      "\"" + h1.date + "\"" + ":" + ("\"" + h1.name.value + "\"") + "," +
      ("\"" + h2.date + "\"" + ":" + ("\"" + h2.name.value + "\""))) + "}"
  {
    QuoteUnescaped(h1.date);
    QuoteUnescaped(h1.name.value);
    QuoteUnescaped(h2.date);
    QuoteUnescaped(h2.name.value);
    NamesOfTwo(h1, h2);
    var m1, m2 := (h1.date, h1.name.value), (h2.date, h2.name.value);
    var texts := [Member(m1), Member(m2)];
    assert MemberTexts([m1, m2]) == texts;
    assert texts[1..] == [Member(m2)];
    assert Join(texts, ',') == Member(m1) + "," + Member(m2);
  }
}
