/** Row extraction (`parsing_country_values`, `cleaning_countries_values`,
    `parsing_country_data`): one country block is cut out of the page between
    two markers, the first `>...<` text of each of its lines is collected,
    the collected cells are coerced, and the row is accepted only for a
    country not seen before. The seen-set and the link map are threaded
    through as a `Registry` value. */
module Rows {
  import opened Common
  import opened PyStr
  import opened PyInt

  /** A cell after cleaning: element 0 stays text, later elements become
      `None`, an `int`, or the text handed to `float()`. */
  datatype Cell = Text(text: string) | Int(n: int) | Null | FloatText(text: string)

  /** The scraper's `countries_set` and `country_link_dict`. */
  datatype Registry = Registry(seen: set<string>, links: map<string, string>)

  /** What `parsing_country_data` returns, with the registry it leaves. */
  datatype Extracted = Extracted(row: seq<Cell>, reg: Registry)

  // ---------------------------------------------------------------------
  // One line
  // ---------------------------------------------------------------------

  /** The line holds a `>`, and a `<` at or after its first `>`. */
  predicate Tagged(line: string) {
    FindChar(line, '>');
    '>' in line && '<' in line[Find(line, ">")..]
  }

  /** `line[a + 1:a + line[a:].find('<')]`: the text after the `>` at `a` up
      to the next `<`, with Python's -1 and slice arithmetic. */
  function TextAfter(line: string, a: int): string {
    Slice(line, a + 1, a + Find(Suffix(line, a), "<"))
  }

  /** The value one line contributes, or `None` when the loop `continue`s.
      When the text right after the first `>` is empty, the value is read
      again after the second `>`. */
  function LineValue(line: string): Option<string>
  {
    var a := Find(line, ">");
    if a == -1 || Find(Suffix(line, a), "<") == -1 then None
    else if TextAfter(line, a) != "" then Some(TextAfter(line, a))
    else Some(TextAfter(line, FindFrom(line, ">", Find(line, ">") + 1)))
  }

  /** A line is skipped exactly when it is not tagged. */
  lemma SkippedIffUntagged(line: string)
    ensures LineValue(line).None? <==> !Tagged(line)
  {
    FindChar(line, '>');
    FindChar(Suffix(line, Find(line, ">")), '<');
  }

  /** The first occurrence of `c` in `x + [c] + y` when `x` has none. */
  lemma FindFirstChar(x: string, c: char, y: string)
    requires c !in x
    ensures Find(x + [c] + y, [c]) == |x|
  {
    assert x + [c] + y == x + ([c] + y);
    FindSkipFirst(x, [c] + y, [c]);
    FindPrefix([c] + y, [c]);
  }

  /** The text after a `>` at `|x|` up to a `<` that closes a `<`-free `mid`. */
  lemma TextAfterTag(x: string, mid: string, post: string)
    requires '<' !in mid
    ensures TextAfter(x + ">" + mid + "<" + post, |x|) == mid
    ensures Find(Suffix(x + ">" + mid + "<" + post, |x|), "<") == |mid| + 1
  {
    var line := x + ">" + mid + "<" + post;
    assert Find(Suffix(line, |x|), "<") == |mid| + 1 by {
      assert Suffix(line, |x|) == (">" + mid) + ['<'] + post;
      FindFirstChar(">" + mid, '<', post);
    }
    assert line[|x| + 1..|x| + |mid| + 1] == mid;
  }

  /** `pre>mid<post` with no `>` before the tag end and a non-empty `mid`
      free of `<`: the value is exactly `mid`, the text strictly between the
      first `>` and the next `<`. */
  lemma TagValue(pre: string, mid: string, post: string)
    requires '>' !in pre && '<' !in mid && mid != ""
    ensures LineValue(pre + ">" + mid + "<" + post) == Some(mid)
  {
    var line := pre + ">" + mid + "<" + post;
    assert Find(line, ">") == |pre| by {
      assert line == pre + ['>'] + (mid + "<" + post);
      FindFirstChar(pre, '>', mid + "<" + post);
    }
    TextAfterTag(pre, mid, post);
  }

  /** `pre><gap>mid<post`, the shape of a cell whose text sits inside a nested
      tag: the first `>...<` text is empty, so the value is read after the
      second `>`, and it is `mid`. */
  lemma NestedTagValue(pre: string, gap: string, mid: string, post: string)
    requires '>' !in pre && '>' !in gap && '<' !in mid
    ensures LineValue(pre + "><" + gap + ">" + mid + "<" + post) == Some(mid)
  {
    var line := pre + "><" + gap + ">" + mid + "<" + post;
    NestedSteps(line, pre, gap, mid, post);
  }

  /** The steps of reading `pre><gap>mid<post`: the first `>`, the empty text
      after it, the second `>`, and the text after that. */
  lemma NestedSteps(line: string, pre: string, gap: string, mid: string, post: string)
    requires '>' !in pre && '>' !in gap && '<' !in mid
    requires line == pre + "><" + gap + ">" + mid + "<" + post
    ensures LineValue(line) == Some(mid)
  {
    NestedFirst(line, pre, gap, mid, post);
    NestedSecond(line, pre, gap, mid, post);
    NestedText(line, pre, gap, mid, post);
    ReadAgain(line, |pre| + 2 + |gap|, mid);
  }

  lemma NestedFirst(line: string, pre: string, gap: string, mid: string, post: string)
    requires '>' !in pre && line == pre + "><" + gap + ">" + mid + "<" + post
    ensures Find(line, ">") == |pre|
    ensures TextAfter(line, |pre|) == ""
    ensures Find(Suffix(line, |pre|), "<") == 1
  {
    var rest := gap + ">" + mid + "<" + post;
    assert line == pre + ['>'] + ("<" + rest);
    FindFirstChar(pre, '>', "<" + rest);
    assert line == pre + ">" + "" + "<" + rest;
    TextAfterTag(pre, "", rest);
  }

  lemma NestedSecond(line: string, pre: string, gap: string, mid: string, post: string)
    requires '>' !in gap && line == pre + "><" + gap + ">" + mid + "<" + post
    ensures FindFrom(line, ">", |pre| + 1) == |pre| + 2 + |gap|
  {
    var rest := mid + "<" + post;
    assert line == pre + "><" + gap + ">" + rest;
    SecondTag(pre, gap, rest);
  }

  lemma NestedText(line: string, pre: string, gap: string, mid: string, post: string)
    requires '<' !in mid && line == pre + "><" + gap + ">" + mid + "<" + post
    ensures TextAfter(line, |pre| + 2 + |gap|) == mid
  {
    var x := pre + "><" + gap;
    assert line == x + ">" + mid + "<" + post;
    TextAfterTag(x, mid, post);
  }

  /** When the first `>...<` text is empty, the value is the text after the
      next `>`. */
  lemma ReadAgain(line: string, a2: int, mid: string)
    requires Find(line, ">") >= 0 && Find(Suffix(line, Find(line, ">")), "<") >= 0
    requires TextAfter(line, Find(line, ">")) == ""
    requires FindFrom(line, ">", Find(line, ">") + 1) == a2
    requires TextAfter(line, a2) == mid
    ensures LineValue(line) == Some(mid)
  {
  }

  /** In `pre><gap>rest`, the first `>` after the first one is the one
      ending `gap`. */
  lemma SecondTag(pre: string, gap: string, rest: string)
    requires '>' !in gap
    ensures FindFrom(pre + "><" + gap + ">" + rest, ">", |pre| + 1) == |pre| + 2 + |gap|
  {
    var line := pre + "><" + gap + ">" + rest;
    assert line[|pre| + 1..] == "<" + gap + ['>'] + rest;
    FindFirstChar("<" + gap, '>', rest);
  }

  /** A line whose first `>` has no `<` after it adds nothing. */
  lemma UntaggedLineSkipped(pre: string, rest: string)
    requires '>' !in pre && '<' !in rest
    ensures LineValue(pre + ">" + rest) == None
  {
    var line := pre + ">" + rest;
    assert Find(line, ">") == |pre| by {
      FindFirstChar(pre, '>', rest);
    }
    assert line[|pre|..] == ">" + rest;
  }

  /** A tagged line whose text after the first `>` is not empty contributes
      that text, which holds no `<`. */
  lemma FirstTagValue(line: string)
    requires Tagged(line) && TextAfter(line, Find(line, ">")) != ""
    ensures LineValue(line) == Some(TextAfter(line, Find(line, ">")))
    ensures '<' !in LineValue(line).value
  {
    SkippedIffUntagged(line);
    FindChar(line, '>');
    var a := Find(line, ">");
    var t := line[a..];
    FindChar(t, '<');
    var f := Find(t, "<");
    assert TextAfter(line, a) == t[1..f];
    assert t[1..f] == t[..f][1..];
  }

  // ---------------------------------------------------------------------
  // A block of lines
  // ---------------------------------------------------------------------

  /** The values the loop body appends for `lines`, in order. */
  function Values(lines: seq<string>): (r: seq<string>)
    ensures |r| <= |lines|
  {
    if |lines| == 0 then []
    else
      Values(lines[..|lines| - 1])
      + match LineValue(lines[|lines| - 1]) { case None => [] case Some(v) => [v] }
  }

  /** The `for line in lines` loop, appending to `row` as it goes. */
  function AppendValues(row: seq<string>, lines: seq<string>): (r: seq<string>)
    ensures |row| <= |r| <= |row| + |lines| && r[..|row|] == row
    decreases |lines|
  {
    if |lines| == 0 then row
    else
      var row' := match LineValue(lines[0]) { case None => row case Some(v) => row + [v] };
      AppendValues(row', lines[1..])
  }

  /** `parsing_country_values(row_list, list_block)`: the loop runs over
      `list_block[:-1]`. */
  function ParseCountryValues(row: seq<string>, block: seq<string>): (r: seq<string>)
    ensures |row| <= |r| && r[..|row|] == row
    ensures |r| <= |row| + (if |block| == 0 then 0 else |block| - 1)
  {
    AppendValues(row, Slice(block, 0, -1))
  }

  /** The loop appends exactly the values of the tagged lines, in order. */
  lemma {:induction false} AppendValuesIsValues(row: seq<string>, lines: seq<string>)
    ensures AppendValues(row, lines) == row + Values(lines)
    decreases |lines|
  {
    if |lines| > 0 {
      var row' := match LineValue(lines[0]) { case None => row case Some(v) => row + [v] };
      AppendValuesIsValues(row', lines[1..]);
      ValuesCons(lines);
    }
  }

  /** `Values` read from the front. */
  lemma {:induction false} ValuesCons(lines: seq<string>)
    requires |lines| > 0
    ensures Values(lines) == (match LineValue(lines[0]) { case None => [] case Some(v) => [v] }) + Values(lines[1..])
    decreases |lines|
  {
    if |lines| > 1 {
      var init := lines[..|lines| - 1];
      ValuesCons(init);
      assert init[1..] == lines[1..][..|lines[1..]| - 1];
      assert init[0] == lines[0];
    } else {
      assert lines[..0] == [];
      assert lines[1..] == [];
    }
  }

  /** The last line of the block is never read. */
  lemma LastLineIgnored(row: seq<string>, block: seq<string>, x: string, y: string)
    ensures ParseCountryValues(row, block + [x]) == ParseCountryValues(row, block + [y])
    ensures ParseCountryValues(row, block + [x]) == row + Values(block)
  {
    assert Slice(block + [x], 0, -1) == block;
    assert Slice(block + [y], 0, -1) == block;
    AppendValuesIsValues(row, block);
  }

  /** Lines that are all untagged add nothing. */
  lemma {:induction false} UntaggedLinesAddNothing(lines: seq<string>)
    requires forall k | 0 <= k < |lines| :: !Tagged(lines[k])
    ensures Values(lines) == []
    decreases |lines|
  {
    if |lines| > 0 {
      UntaggedLinesAddNothing(lines[..|lines| - 1]);
      SkippedIffUntagged(lines[|lines| - 1]);
    }
  }

  // ---------------------------------------------------------------------
  // Cleaning
  // ---------------------------------------------------------------------

  /** One iteration of `cleaning_countries_values` on a cell after index 0.
      `int()` failing is a `ValueError`; so is `float()` on a text holding a
      comma, which no float literal contains. */
  function CleanCell(s: string): Result<Cell>
  {
    if Strip(s) == "" || s == "N/A" then Ok(Null)
    else if Find(s, ".") == -1 then
      match ParseInt(RemoveChar(s, ',')) {
        case Some(v) => Ok(Int(v))
        case None => Err(NotAnInt(RemoveChar(s, ',')))
      }
    else if ',' in s then Err(NotAFloat(s))
    else Ok(FloatText(s))
  }

  /** Cleaning one cell fails only in `int()` on a text without `.`, or in
      `float()` on a text with both `.` and a comma. */
  lemma CleanCellFault(s: string)
    ensures CleanCell(s).Err? ==> CleanCell(s).fault.NotAnInt? || CleanCell(s).fault.NotAFloat?
    ensures CleanCell(s).Err? && CleanCell(s).fault.NotAnInt? ==> '.' !in s
    ensures CleanCell(s).Err? && CleanCell(s).fault.NotAFloat? ==> '.' in s && ',' in s
  {
    FindChar(s, '.');
  }

  /** A text with a `.` goes to `float()`, which raises when the text also
      holds a thousands separator, as in `'1,234.5'`. */
  lemma CleanCellDecimal(s: string)
    requires '.' in s
    ensures CleanCell(s) == if ',' in s then Err(NotAFloat(s)) else Ok(FloatText(s))
  {
    assert Strip(s) != "" by {
      StripEmptyIffBlank(s);
      var k :| 0 <= k < |s| && s[k] == '.';
    }
    assert s != "N/A" by {
      assert '.' !in "N/A";
    }
    FindChar(s, '.');
  }

  /** `'1,234.5'` raises, while `'12.5'` goes to `float()`. */
  lemma CleanCellDecimalExample()
    ensures CleanCell("1,234.5") == Err(NotAFloat("1,234.5"))
    ensures CleanCell("12.5") == Ok(FloatText("12.5"))
  {
    var t := "1,234.5";
    assert t[1] == ',' && t[5] == '.';
    CleanCellDecimal(t);
    var u := "12.5";
    assert u[2] == '.';
    assert ',' !in u;
    CleanCellDecimal(u);
  }

  /** A cell becomes `None` exactly when it is blank or `N/A`. */
  lemma CleanCellNull(s: string)
    ensures CleanCell(s) == Ok(Null) <==> IsBlank(s) || s == "N/A"
  {
    StripEmptyIffBlank(s);
  }

  /** Digits with thousands separators become the integer they spell. */
  lemma CleanCellDigits(s: string)
    requires DigitsAndCommas(s) && exists k :: 0 <= k < |s| && IsDigit(s[k])
    ensures AllDigits(RemoveChar(s, ',')) && CleanCell(s) == Ok(Int(Decimal(RemoveChar(s, ','))))
  {
    CommaGroupedInt(s);
    assert Strip(s) != "" by {
      var k :| 0 <= k < |s| && IsDigit(s[k]);
      DigitNotSpace(s[k]);
      StripEmptyIffBlank(s);
    }
    assert s != "N/A" by {
      assert IsDigit(s[0]) || s[0] == ',';
    }
    assert Find(s, ".") == -1 by {
      FindChar(s, '.');
      forall i | 0 <= i < |s|
        ensures s[i] != '.'
      {
        assert IsDigit(s[i]) || s[i] == ',';
      }
    }
  }

  /** `'1,234'` becomes 1234. */
  lemma CleanCellExample()
    ensures CleanCell("1,234") == Ok(Int(1234))
  {
    var s := "1,234";
    assert DigitsAndCommas(s) && IsDigit(s[0]);
    CleanCellDigits(s);
    assert RemoveChar(s, ',') == "1234" by {
      RemovedComma();
    }
    assert Decimal("1234") == 1234 by {
      DecimalExample();
    }
  }

  /** The cleaning loop over `cells` (the row after index 0), with the
      per-cell step as a parameter: the first cell that fails aborts it. */
  function CleanEach(cells: seq<string>, clean: string -> Result<Cell>): (r: Result<seq<Cell>>)
    ensures r.Ok? <==> forall k | 0 <= k < |cells| :: clean(cells[k]).Ok?
    ensures r.Ok? ==> |r.value| == |cells| && forall k | 0 <= k < |cells| :: clean(cells[k]) == Ok(r.value[k])
    ensures r.Err? ==> exists k | 0 <= k < |cells| :: clean(cells[k]) == Err(r.fault)
                         && forall j | 0 <= j < k :: clean(cells[j]).Ok?
    decreases |cells|
  {
    if |cells| == 0 then Ok([])
    else
      match clean(cells[0]) {
        case Err(f) => Err(f)
        case Ok(c) =>
          var rest := CleanEach(cells[1..], clean);
          if rest.Err? then
            FirstFaultShift(cells, clean, rest.fault);
            Err(rest.fault)
          else
            Ok([c] + rest.value)
      }
  }

  lemma FirstFaultShift(cells: seq<string>, clean: string -> Result<Cell>, f: Fault)
    requires |cells| > 0 && clean(cells[0]).Ok?
    requires exists k | 0 <= k < |cells[1..]| :: clean(cells[1..][k]) == Err(f)
               && forall j | 0 <= j < k :: clean(cells[1..][j]).Ok?
    ensures exists k | 0 <= k < |cells| :: clean(cells[k]) == Err(f)
              && forall j | 0 <= j < k :: clean(cells[j]).Ok?
  {
    var k :| 0 <= k < |cells[1..]| && clean(cells[1..][k]) == Err(f)
               && forall j | 0 <= j < k :: clean(cells[1..][j]).Ok?;
    assert clean(cells[k + 1]) == Err(f);
    forall j | 0 <= j < k + 1
      ensures clean(cells[j]).Ok?
    {
      if j > 0 {
        assert cells[j] == cells[1..][j - 1];
      }
    }
  }

  /** `cleaning_countries_values(row_list)` with the per-cell step `clean`:
      element 0 is kept as text and every later element is cleaned, the first
      failing cell aborting the row. */
  function CleanRowWith(row: seq<string>, clean: string -> Result<Cell>): (r: Result<seq<Cell>>)
    ensures r.Ok? <==> forall k | 1 <= k < |row| :: clean(row[k]).Ok?
    ensures r.Ok? ==> |r.value| == |row| && (|row| > 0 ==> r.value[0] == Text(row[0]))
    ensures r.Ok? ==> forall k | 1 <= k < |row| :: clean(row[k]) == Ok(r.value[k])
    ensures r.Err? ==> exists k | 1 <= k < |row| :: clean(row[k]) == Err(r.fault)
                         && forall j | 1 <= j < k :: clean(row[j]).Ok?
  {
    if |row| == 0 then Ok([])
    else
      var rest := CleanEach(row[1..], clean);
      TailIndexed(row);
      if rest.Err? then
        FirstFaultAfterHead(row, clean, rest.fault);
        Err(rest.fault)
      else
        Ok([Text(row[0])] + rest.value)
  }

  lemma TailIndexed(row: seq<string>)
    requires |row| > 0
    ensures forall k | 1 <= k < |row| :: row[k] == row[1..][k - 1]
  {
  }

  lemma FirstFaultAfterHead(row: seq<string>, clean: string -> Result<Cell>, f: Fault)
    requires |row| > 0
    requires exists k | 0 <= k < |row[1..]| :: clean(row[1..][k]) == Err(f)
               && forall j | 0 <= j < k :: clean(row[1..][j]).Ok?
    ensures exists k | 1 <= k < |row| :: clean(row[k]) == Err(f)
              && forall j | 1 <= j < k :: clean(row[j]).Ok?
  {
    var k :| 0 <= k < |row[1..]| && clean(row[1..][k]) == Err(f)
               && forall j | 0 <= j < k :: clean(row[1..][j]).Ok?;
    TailIndexed(row);
    assert clean(row[k + 1]) == Err(f);
  }

  /** `cleaning_countries_values(row_list)`: length and element 0 preserved,
      every later element cleaned; in the model only `int()` and `float()` on
      a comma-bearing decimal text make it fail. */
  function CleanRow(row: seq<string>): (r: Result<seq<Cell>>)
    ensures r.Ok? ==> |r.value| == |row| && (|row| > 0 ==> r.value[0] == Text(row[0]))
    ensures r.Ok? ==> forall k | 1 <= k < |row| :: CleanCell(row[k]) == Ok(r.value[k])
    ensures r.Err? ==> r.fault.NotAnInt? || r.fault.NotAFloat?
  {
    var r := CleanRowWith(row, CleanCell);
    if r.Err? then
      FaultIsCellFault(row, r.fault);
      r
    else r
  }

  lemma FaultIsCellFault(row: seq<string>, f: Fault)
    requires exists k | 1 <= k < |row| :: CleanCell(row[k]) == Err(f)
    ensures f.NotAnInt? || f.NotAFloat?
  {
    var k :| 1 <= k < |row| && CleanCell(row[k]) == Err(f);
    CleanCellFault(row[k]);
  }

  /** Cleaning succeeds exactly when no cell after index 0 fails, and a
      failure carries the fault of the first cell that fails. */
  lemma CleanRowFails(row: seq<string>)
    ensures CleanRow(row).Ok? <==> forall k | 1 <= k < |row| :: CleanCell(row[k]).Ok?
    ensures CleanRow(row).Err? ==> exists k | 1 <= k < |row| :: CleanCell(row[k]) == Err(CleanRow(row).fault)
                                     && forall j | 1 <= j < k :: CleanCell(row[j]).Ok?
  {
    var r := CleanRowWith(row, CleanCell);
    assert CleanRow(row) == r;
  }

  // ---------------------------------------------------------------------
  // One country block
  // ---------------------------------------------------------------------

  /** The detail-page link: from one character past the start marker up to
      the next `/`. */
  function LinkOf(start: string, text: string): (r: string)
    ensures '/' !in r
  {
    MarkerEnd(text, start);
    LinkAt(text, Find(text, start) + |start|)
  }

  /** The link after a marker that ends at `m`: `x` is one past the marker
      end and `e` is `m` plus the distance from `x` to the next `/`; the link
      is `text[x:e + 1]`. */
  function LinkAt(text: string, m: int): (r: string)
    requires m >= 0
    ensures '/' !in r
  {
    var x := m + 1;
    var e := m + Find(Suffix(text, x), "/");
    SliceBeforeChar(text, x, '/');
    Slice(text, x, e + 1)
  }

  /** The end of a found marker, or of nothing, is never before index 0: an
      empty marker is found at 0. */
  lemma MarkerEnd(text: string, start: string)
    ensures Find(text, start) + |start| >= 0
  {
    if |start| == 0 {
      assert MatchAt(text, start, 0);
    }
  }

  /** The text from `x` up to the next `c` holds no `c`. */
  lemma SliceBeforeChar(t: string, x: int, c: char)
    requires x >= 1
    ensures c !in Slice(t, x, x + Find(Suffix(t, x), [c]))
  {
    if x <= |t| {
      SliceToChar(t, x, c);
    }
  }

  /** From `x`, the slice up to the next `c` is the text before that `c`, or
      nothing when no `c` follows. */
  lemma SliceToChar(t: string, x: int, c: char)
    requires 1 <= x <= |t|
    ensures Find(t[x..], [c]) >= 0 ==> Slice(t, x, x + Find(Suffix(t, x), [c])) == t[x..x + Find(t[x..], [c])]
    ensures Find(t[x..], [c]) == -1 ==> Slice(t, x, x + Find(Suffix(t, x), [c])) == []
    ensures c !in Slice(t, x, x + Find(Suffix(t, x), [c]))
  {
    var u := t[x..];
    assert Suffix(t, x) == u;
    var f := Find(u, [c]);
    FindChar(u, c);
    if f >= 0 {
      assert Slice(t, x, x + f) == t[x..x + f];
      DropTake(t, x, f);
    } else {
      assert Slice(t, x, x - 1) == [];
    }
  }

  /** `t[x..x + f]` is the first `f` elements of `t[x..]`. */
  lemma DropTake(t: string, x: int, f: int)
    requires 0 <= x && 0 <= f && x + f <= |t|
    ensures t[x..x + f] == t[x..][..f]
  {
  }

  /** When a `/` follows the marker end `m`, the link is the text between
      them. */
  lemma LinkAtFound(text: string, m: int)
    requires 0 <= m && m + 1 <= |text| && Find(text[m + 1..], "/") >= 0
    ensures LinkAt(text, m) == text[m + 1..m + 1 + Find(text[m + 1..], "/")]
  {
    SliceToChar(text, m + 1, '/');
  }

  /** The lines of the country block: from the start marker up to the end
      marker, split on newlines. */
  function BlockLines(start: string, end: string, text: string): (r: seq<string>)
    ensures |r| >= 1
  {
    var block := Suffix(text, Find(text, start));
    Split(Slice(block, 0, Find(block, end)), "\n")
  }

  /** The raw row `parsing_country_values` builds for a block. */
  function RawRow(start: string, end: string, text: string): seq<string> {
    ParseCountryValues([], BlockLines(start, end, text))
  }

  /** The registry after accepting `name` with `link`. */
  function Register(reg: Registry, name: string, link: string): Registry {
    Registry(reg.seen + {name}, reg.links[name := link])
  }

  /** The acceptance promise of `parsing_country_data`: the row's identity was
      new, is now registered with a `/`-free link, and passed the allow-list. */
  predicate Accepted(before: Registry, out: Extracted, link: string, fetch: seq<string>) {
    && |out.row| > 0
    && out.row[0].Text?
    && var name := out.row[0].text;
    && name !in before.seen
    && out.reg.seen == before.seen + {name}
    && out.reg.links == before.links[name := link]
    && '/' !in out.reg.links[name]
    && (|fetch| > 0 ==> name in fetch)
  }

  /** `parsing_country_data(starting_line, ending_line, text,
      countries_fetch_list, countries_set, country_link_dict)`. */
  function ParseCountryData(start: string, end: string, text: string,
                            fetch: seq<string>, reg: Registry): (r: Result<Extracted>)
    ensures r == Err(EmptyRow) <==> RawRow(start, end, text) == []
    ensures r.Ok? && r.value.row == [] ==> r.value.reg == reg
    ensures r.Ok? && r.value.row != [] ==> Accepted(reg, r.value, LinkOf(start, text), fetch)
    ensures r.Ok? ==> (|RawRow(start, end, text)| > 0 &&
              var name := RawRow(start, end, text)[0];
              (r.value.row == [] <==> (|fetch| > 0 && name !in fetch) || name in reg.seen))
    ensures r.Ok? <==> RawRow(start, end, text) != [] && CleanRow(RawRow(start, end, text)).Ok?
    ensures RawRow(start, end, text) != [] && CleanRow(RawRow(start, end, text)).Err? ==>
              r == Err(CleanRow(RawRow(start, end, text)).fault)
    ensures r.Ok? && r.value.row != [] ==>
              CleanRow(RawRow(start, end, text)) == Ok(r.value.row) && r.value.row[0] == Text(RawRow(start, end, text)[0])
  {
    var link := LinkOf(start, text);
    var values := RawRow(start, end, text);
    match CleanRow(values) {
      case Err(f) => Err(f)
      case Ok(row) =>
        if |values| == 0 then Err(EmptyRow)
        else
          var country := values[0];
          if |fetch| > 0 && country !in fetch then Ok(Extracted([], reg))
          else if country in reg.seen then Ok(Extracted([], reg))
          else Ok(Extracted(row, Register(reg, country, link)))
    }
  }

  /** A page without the start marker does not yield "no records": `text[-1:]`
      is one character at most, the block is empty, and `row_list[0]` raises. */
  lemma MissingStartFaults(start: string, end: string, text: string, fetch: seq<string>, reg: Registry)
    requires Find(text, start) == -1
    ensures ParseCountryData(start, end, text, fetch, reg) == Err(EmptyRow)
  {
    var block := Suffix(text, -1);
    assert |block| <= 1;
    var e := Find(block, end);
    assert Slice(block, 0, e) == "" by {
      if e >= 0 {
        assert MatchAt(block, end, e);
        if |end| == 0 {
          assert MatchAt(block, end, 0);
        }
      }
    }
    assert BlockLines(start, end, text) == [""] by {
      assert Find("", "\n") == -1 by {
        assert !Occurs("", "\n");
      }
    }
    assert Slice([""], 0, -1) == [];
  }

  /** The step-1 `parsing_country_data`: the same extraction written inline,
      without an allow-list. */
  function ParseCountryDataStep1(start: string, end: string, text: string, reg: Registry): (r: Result<Extracted>)
    ensures r.Ok? && r.value.row == [] ==> r.value.reg == reg
    ensures r.Ok? && r.value.row != [] ==> Accepted(reg, r.value, LinkOf(start, text), [])
    ensures r.Ok? ==> (|RawRow(start, end, text)| > 0 &&
              (r.value.row == [] <==> RawRow(start, end, text)[0] in reg.seen))
    ensures r.Ok? <==> RawRow(start, end, text) != [] && CleanRow(RawRow(start, end, text)).Ok?
    ensures RawRow(start, end, text) != [] && CleanRow(RawRow(start, end, text)).Err? ==>
              r == Err(CleanRow(RawRow(start, end, text)).fault)
    ensures r.Ok? && r.value.row != [] ==>
              CleanRow(RawRow(start, end, text)) == Ok(r.value.row) && r.value.row[0] == Text(RawRow(start, end, text)[0])
  {
    var link := LinkOf(start, text);
    var values := RawRow(start, end, text);
    match CleanRow(values) {
      case Err(f) => Err(f)
      case Ok(row) =>
        if |values| == 0 then Err(EmptyRow)
        else if values[0] in reg.seen then Ok(Extracted([], reg))
        else Ok(Extracted(row, Register(reg, values[0], link)))
    }
  }

  /** The step-1 extractor is the later one with an empty allow-list. */
  lemma Step1Agrees(start: string, end: string, text: string, reg: Registry)
    ensures ParseCountryDataStep1(start, end, text, reg) == ParseCountryData(start, end, text, [], reg)
  {
  }
}
