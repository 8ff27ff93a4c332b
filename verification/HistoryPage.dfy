/** The page layout `parsing_country_history` is written for: each graph name
    is followed by its own `categories: [...]` and `data: [...]` arrays, and
    the graphs come in the order the loop visits them. On such a page the
    cursor, carried from one graph's `data: [` to the next name, makes every
    graph read its own arrays. */
module HistoryPage {
  import opened PyStr
  import opened History

  /** One graph's script text: free text, the graph name, free text, the
      categories array of quoted dates, free text, and the data array. */
  datatype Chart = Chart(lead: string, gap: string, dates: seq<string>, gap2: string, values: seq<string>)

  function DatesText(ch: Chart): string {
    Join(ch.dates, DATE_SEP)
  }

  function ValuesText(ch: Chart): string {
    Join(ch.values, ",")
  }

  /** The text from the data marker on, followed by `rest`. */
  function DataFrom(ch: Chart, rest: string): string {
    DATA + (ValuesText(ch) + ("]" + rest))
  }

  /** The text from the categories marker on, followed by `rest`. */
  function CategoriesFrom(ch: Chart, rest: string): string {
    CATEGORIES + ("\"" + (DatesText(ch) + ("\"]" + (ch.gap2 + DataFrom(ch, rest)))))
  }

  /** The chart of graph `name`, followed by `rest`. */
  function ChartFrom(name: string, ch: Chart, rest: string): string {
    ch.lead + (name + (ch.gap + CategoriesFrom(ch, rest)))
  }

  /** The text between the categories marker and the data marker. */
  function BeforeData(ch: Chart): string {
    CATEGORIES + "\"" + DatesText(ch) + "\"]" + ch.gap2
  }

  /** A chart the array searches read as intended: neither marker occurs
      before its own copy, the dates hold no quote or `]`, the values no comma
      or `]`. */
  ghost predicate ChartOk(name: string, ch: Chart) {
    && |name| > 0
    && !Occurs(name + ch.gap, CATEGORIES)
    && |ch.dates| >= 1 && (forall k | 0 <= k < |ch.dates| :: '"' !in ch.dates[k] && ']' !in ch.dates[k])
    && !Occurs(BeforeData(ch), DATA)
    && |ch.values| >= 1 && (forall k | 0 <= k < |ch.values| :: ',' !in ch.values[k] && ']' !in ch.values[k])
  }

  /** The charts of `names`, in order, followed by `rest`. */
  function Page(names: seq<string>, charts: seq<Chart>, rest: string): string
    requires |names| == |charts|
    decreases |names|
  {
    if |names| == 0 then rest
    else ChartFrom(names[0], charts[0], Page(names[1..], charts[1..], rest))
  }

  /** The text the cursor passes over between the previous chart's data
      marker and the next chart: the previous data array. */
  function DataArray(ch: Chart): string {
    DATA + ValuesText(ch) + "]"
  }

  /** `w` holds, at every index, the arrays of the chart at that index: what
      the walk reads when every graph reads its own chart. */
  ghost predicate ReadsOwn(w: seq<Arrays>, charts: seq<Chart>) {
    && |w| == |charts|
    && forall k | 0 <= k < |w| :: w[k] == Present(DatesText(charts[k]), ValuesText(charts[k]))
  }

  lemma ConsOwn(w: seq<Arrays>, t: seq<Arrays>, charts: seq<Chart>)
    requires |charts| > 0 && w == [Present(DatesText(charts[0]), ValuesText(charts[0]))] + t
    requires ReadsOwn(t, charts[1..])
    ensures ReadsOwn(w, charts)
  {
    forall k | 0 < k < |w| ensures w[k] == Present(DatesText(charts[k]), ValuesText(charts[k])) {
      assert w[k] == t[k - 1] && charts[1..][k - 1] == charts[k];
    }
  }

  /** The name search from the text `pre` lands on the chart's own name: the
      name does not occur before its own copy, nor in one that starts before
      it and runs into it. */
  ghost predicate NameFirst(pre: string, name: string, ch: Chart) {
    |name| > 0 && !Occurs(pre + ch.lead + name[..|name| - 1], name)
  }

  /** Charts laid out for the walk: each is well formed for its name, and each
      name after the first is found first in its own chart when searched from
      the data array just before it. */
  ghost predicate Laid(names: seq<string>, charts: seq<Chart>) {
    && |names| == |charts|
    && (forall k | 0 <= k < |names| :: ChartOk(names[k], charts[k]))
    && (forall k | 0 < k < |names| :: NameFirst(DataArray(charts[k - 1]), names[k], charts[k]))
  }

  /** A whole page laid out for the walk: also the first name is found first
      in its own chart, searched from the start of the page. */
  ghost predicate LaidPage(names: seq<string>, charts: seq<Chart>) {
    Laid(names, charts) && (|names| > 0 ==> NameFirst("", names[0], charts[0]))
  }

  lemma TailLaid(names: seq<string>, charts: seq<Chart>)
    requires Laid(names, charts) && |names| > 0
    ensures Laid(names[1..], charts[1..])
  {
    forall k | 0 <= k < |names| - 1 ensures ChartOk(names[1..][k], charts[1..][k]) {
      assert names[1..][k] == names[k + 1] && charts[1..][k] == charts[k + 1];
    }
    forall k | 0 < k < |names| - 1
      ensures NameFirst(DataArray(charts[1..][k - 1]), names[1..][k], charts[1..][k])
    {
      assert names[1..][k] == names[k + 1] && charts[1..][k - 1] == charts[k];
    }
  }

  lemma PageCons(names: seq<string>, charts: seq<Chart>, rest: string)
    requires |names| == |charts| && |names| > 0
    ensures Page(names, charts, rest) == ChartFrom(names[0], charts[0], Page(names[1..], charts[1..], rest))
  {
  }

  lemma WalkCons(txt: string, cursor: int, names: seq<string>)
    requires |names| > 0
    ensures Walk(txt, cursor, names)
         == [Step(txt, cursor, names[0]).arrays] + Walk(txt, Step(txt, cursor, names[0]).cursor, names[1..])
  {
  }

  lemma DataFromSplit(ch: Chart, rest: string)
    ensures DataFrom(ch, rest) == DataArray(ch) + rest
  {
  }

  /** On a page of laid-out charts, each graph reads its own arrays, whatever
      came before the cursor. */
  lemma {:induction false} WalkPage(txt: string, cursor: int, pre: string, names: seq<string>,
                                    charts: seq<Chart>, rest: string)
    requires Laid(names, charts)
    requires 0 <= cursor <= |txt| && txt[cursor..] == pre + Page(names, charts, rest)
    requires |names| > 0 ==> NameFirst(pre, names[0], charts[0])
    ensures ReadsOwn(Walk(txt, cursor, names), charts)
    decreases |names|
  {
    if |names| > 0 {
      var rest' := Page(names[1..], charts[1..], rest);
      PageCons(names, charts, rest);
      var c := StepChart(txt, cursor, pre, names[0], charts[0], rest');
      DataFromSplit(charts[0], rest');
      TailLaid(names, charts);
      WalkPage(txt, c, DataArray(charts[0]), names[1..], charts[1..], rest);
      WalkCons(txt, cursor, names);
      ConsOwn(Walk(txt, cursor, names), Walk(txt, c, names[1..]), charts);
    }
  }

  /** One iteration over a well-formed chart reads its arrays and leaves the
      cursor on its data marker. */
  lemma StepChart(txt: string, cursor: int, pre: string, name: string, ch: Chart, rest: string)
    returns (c: int)
    requires 0 <= cursor <= |txt| && txt[cursor..] == pre + ChartFrom(name, ch, rest)
    requires ChartOk(name, ch) && NameFirst(pre, name, ch)
    ensures Step(txt, cursor, name) == Found(Present(DatesText(ch), ValuesText(ch)), c)
    ensures 0 <= c <= |txt| && txt[c..] == DataFrom(ch, rest)
  {
    var at := NameMark(txt, cursor, pre, ch.lead, name, ch.gap + CategoriesFrom(ch, rest));
    NameOccurs(txt, at, name, ch.gap + CategoriesFrom(ch, rest));
    StepAt(txt, cursor, name, at);
    ArraysAt(txt, at, name, ch, rest);
    c := ReadArrays(txt, at).cursor;
  }

  /** The name search lands on the chart's own name, which follows `pre`
      and the chart's lead text, when it does not occur earlier. */
  lemma NameMark(txt: string, cursor: int, pre: string, lead: string, name: string, after: string)
    returns (at: int)
    requires 0 <= cursor <= |txt| && txt[cursor..] == pre + (lead + (name + after))
    requires |name| > 0 && !Occurs(pre + lead + name[..|name| - 1], name)
    ensures at == Offset(txt, cursor, name)
    ensures 0 <= at <= |txt| && txt[at..] == name + after
  {
    var a1 := |pre| + |lead|;
    NameSearch(txt[cursor..], pre, lead, name, after);
    at := cursor + a1;
    MarkAt(txt, cursor, name, a1, name + after);
  }

  lemma StepAt(txt: string, cursor: int, name: string, at: int)
    requires Find(txt, name) != -1 && at == Offset(txt, cursor, name)
    ensures Step(txt, cursor, name) == ReadArrays(txt, at)
  {
  }

  /** A text holding `name` at `at` holds it somewhere. */
  lemma NameOccurs(txt: string, at: int, name: string, after: string)
    requires 0 <= at <= |txt| && txt[at..] == name + after
    ensures Find(txt, name) != -1
  {
    assert txt[at..at + |name|] == txt[at..][..|name|];
    assert MatchAt(txt, name, at);
  }

  /** A search that finds `p` at `k` in the suffix moves `k` ahead. */
  lemma Moved(txt: string, start: int, p: string, k: int)
    requires 0 <= start <= |txt| && Find(txt[start..], p) == k
    ensures Offset(txt, start, p) == start + k
  {
  }

  /** The searches of `ReadArrays` from the graph name on. */
  lemma ArraysAt(txt: string, at: int, name: string, ch: Chart, rest: string)
    requires 0 <= at <= |txt| && txt[at..] == name + (ch.gap + CategoriesFrom(ch, rest))
    requires ChartOk(name, ch)
    ensures ReadArrays(txt, at).arrays == Present(DatesText(ch), ValuesText(ch))
    ensures 0 <= ReadArrays(txt, at).cursor <= |txt|
    ensures txt[ReadArrays(txt, at).cursor..] == DataFrom(ch, rest)
  {
    var s2 := CategoriesMark(txt, at, name, ch, rest);
    var s3 := DataMark(txt, s2, ch, rest);
    DatesAtChart(txt, s2, ch, rest);
    ValuesAtChart(txt, s3, ch, rest);
  }

  /** The categories search lands on the chart's own marker. */
  lemma CategoriesMark(txt: string, at: int, name: string, ch: Chart, rest: string) returns (s2: int)
    requires 0 <= at <= |txt| && txt[at..] == name + (ch.gap + CategoriesFrom(ch, rest))
    requires !Occurs(name + ch.gap, CATEGORIES)
    ensures s2 == Offset(txt, at, CATEGORIES)
    ensures 0 <= s2 <= |txt| && txt[s2..] == CategoriesFrom(ch, rest)
  {
    CategoriesSearch(txt[at..], name, ch, rest);
    s2 := at + |name| + |ch.gap|;
    MarkAt(txt, at, CATEGORIES, |name| + |ch.gap|, CategoriesFrom(ch, rest));
  }

  /** The data search from the categories marker lands on the chart's own
      data marker. */
  lemma DataMark(txt: string, s2: int, ch: Chart, rest: string) returns (s3: int)
    requires 0 <= s2 <= |txt| && txt[s2..] == CategoriesFrom(ch, rest)
    requires !Occurs(BeforeData(ch), DATA)
    ensures s3 == Offset(txt, s2, DATA)
    ensures 0 <= s3 <= |txt| && txt[s3..] == DataFrom(ch, rest)
  {
    DataSearch(txt[s2..], ch, rest);
    s3 := s2 + |BeforeData(ch)|;
    MarkAt(txt, s2, DATA, |BeforeData(ch)|, DataFrom(ch, rest));
  }

  /** A search from `s` that finds `p` at `b` in the suffix moves the cursor
      to `s + b`, where the text `tail` begins. */
  lemma MarkAt(txt: string, s: int, p: string, b: int, tail: string)
    requires 0 <= s <= |txt| && Find(txt[s..], p) == b && 0 <= b
    requires txt[s..][b..] == tail
    ensures Offset(txt, s, p) == s + b
    ensures 0 <= s + b <= |txt| && txt[s + b..] == tail
  {
    Moved(txt, s, p, b);
    Drop(txt, s, b);
  }

  /** The dates text read at the categories marker is the chart's. */
  lemma DatesAtChart(txt: string, s2: int, ch: Chart, rest: string)
    requires 0 <= s2 <= |txt| && txt[s2..] == CategoriesFrom(ch, rest)
    requires forall k | 0 <= k < |ch.dates| :: ']' !in ch.dates[k]
    ensures DatesAt(txt, s2) == DatesText(ch)
  {
    DatesAtArray(txt, s2, ch.dates, ch.gap2 + DataFrom(ch, rest));
  }

  /** Over a categories array of quoted dates free of `]`, the dates text is
      the dates joined by `","`, whatever follows the array. */
  lemma DatesAtArray(txt: string, s2: int, dates: seq<string>, tail: string)
    requires 0 <= s2 <= |txt| && txt[s2..] == CATEGORIES + ("\"" + (Join(dates, DATE_SEP) + ("\"]" + tail)))
    requires forall k | 0 <= k < |dates| :: ']' !in dates[k]
    ensures DatesAt(txt, s2) == Join(dates, DATE_SEP)
  {
    DatesClose(txt[s2..], dates, tail);
    DatesAtFound(txt, s2, Join(dates, DATE_SEP));
  }

  /** The dates text is the `j` the closing `]` ends. */
  lemma DatesAtFound(txt: string, s2: int, j: string)
    requires 0 <= s2 <= |txt| && Find(txt[s2..], "]") == 15 + |j|
    requires 14 + |j| <= |txt| - s2 && txt[s2..][14..14 + |j|] == j
    ensures DatesAt(txt, s2) == j
  {
    MarkerLengths();
    Moved(txt, s2, "]", 15 + |j|);
    SliceOfDrop(txt, s2, 14, 14 + |j|);
  }

  /** For example, the array `categories: ["Feb 15","Feb 16"]` yields the
      dates `Feb 15` and `Feb 16`. */
  lemma DatesExample(txt: string, s2: int, tail: string)
    requires 0 <= s2 <= |txt| && txt[s2..] == "categories: [\"Feb 15\",\"Feb 16\"]" + tail
    ensures Split(DatesAt(txt, s2), DATE_SEP) == ["Feb 15", "Feb 16"]
  {
    ExampleArray(tail);
    DatesAtArray(txt, s2, ["Feb 15", "Feb 16"], tail);
    ExampleSplit();
  }

  /** The example's array is the categories marker around the joined dates. */
  lemma ExampleArray(tail: string)
    ensures "categories: [\"Feb 15\",\"Feb 16\"]" + tail
         == CATEGORIES + ("\"" + (Join(["Feb 15", "Feb 16"], DATE_SEP) + ("\"]" + tail)))
  {
    assert Join(["Feb 15", "Feb 16"], DATE_SEP) == "Feb 15\",\"Feb 16";
  }

  /** The example's dates split back apart. */
  lemma ExampleSplit()
    ensures Split(Join(["Feb 15", "Feb 16"], DATE_SEP), DATE_SEP) == ["Feb 15", "Feb 16"]
  {
    var dates := ["Feb 15", "Feb 16"];
    assert forall k | 0 <= k < |dates| :: DATE_SEP[0] !in dates[k];
    SplitJoin(dates, DATE_SEP);
  }

  /** The values text read at the data marker is the chart's. */
  lemma ValuesAtChart(txt: string, s3: int, ch: Chart, rest: string)
    requires 0 <= s3 <= |txt| && txt[s3..] == DataFrom(ch, rest)
    requires forall k | 0 <= k < |ch.values| :: ']' !in ch.values[k]
    ensures ValuesAt(txt, s3) == ValuesText(ch)
  {
    DataClose(txt[s3..], ch, rest);
    ValuesAtFound(txt, s3, ValuesText(ch));
  }

  /** The values text is the `v` the closing `]` ends. */
  lemma ValuesAtFound(txt: string, s3: int, v: string)
    requires 0 <= s3 <= |txt| && Find(txt[s3..], "]") == 7 + |v|
    requires 7 + |v| <= |txt| - s3 && txt[s3..][7..7 + |v|] == v
    ensures ValuesAt(txt, s3) == v
  {
    MarkerLengths();
    Moved(txt, s3, "]", 7 + |v|);
    SliceOfDrop(txt, s3, 7, 7 + |v|);
  }

  /** A slice of a suffix is a slice of the whole. */
  lemma SliceOfDrop(s: string, a: nat, i: nat, j: nat)
    requires a <= |s| && i <= j <= |s| - a
    ensures s[a + i..a + j] == s[a..][i..j]
  {
  }

  /** Dropping twice is dropping once. */
  lemma Drop(s: string, a: nat, b: nat)
    requires a + b <= |s|
    ensures s[a..][b..] == s[a + b..]
  {
  }

  lemma NameSearch(u: string, pre: string, lead: string, name: string, after: string)
    requires u == pre + (lead + (name + after))
    requires |name| > 0 && !Occurs(pre + lead + name[..|name| - 1], name)
    ensures Find(u, name) == |pre| + |lead|
    ensures u[|pre| + |lead|..] == name + after
  {
    var t := name + after;
    assert u == (pre + lead) + t;
    assert t[..|name|] == name;
    FindFirstMatch(pre + lead, t, name);
  }

  lemma CategoriesSearch(v: string, name: string, ch: Chart, rest: string)
    requires v == name + (ch.gap + CategoriesFrom(ch, rest))
    requires !Occurs(name + ch.gap, CATEGORIES)
    ensures Find(v, CATEGORIES) == |name| + |ch.gap|
    ensures v[|name| + |ch.gap|..] == CategoriesFrom(ch, rest)
  {
    var w := CategoriesFrom(ch, rest);
    assert v == (name + ch.gap) + w;
    assert CATEGORIES[|CATEGORIES| - 1] !in CATEGORIES[..|CATEGORIES| - 1];
    FindAfterClean(name + ch.gap, w, CATEGORIES);
  }

  /** No piece and no separator holds `c`, so the join does not. */
  lemma {:induction false} JoinAvoids(xs: seq<string>, sep: string, c: char)
    requires c !in sep && forall k | 0 <= k < |xs| :: c !in xs[k]
    ensures c !in Join(xs, sep)
    decreases |xs|
  {
    if |xs| > 1 {
      assert forall k | 0 <= k < |xs[1..]| :: c !in xs[1..][k] by {
        forall k | 0 <= k < |xs[1..]| ensures c !in xs[1..][k] {
          assert xs[1..][k] == xs[k + 1];
        }
      }
      JoinAvoids(xs[1..], sep, c);
    }
  }

  /** The first `]` after the categories marker closes the dates. */
  lemma DatesClose(w: string, dates: seq<string>, tail: string)
    requires w == CATEGORIES + ("\"" + (Join(dates, DATE_SEP) + ("\"]" + tail)))
    requires forall k | 0 <= k < |dates| :: ']' !in dates[k]
    ensures Find(w, "]") == 15 + |Join(dates, DATE_SEP)|
    ensures w[14..14 + |Join(dates, DATE_SEP)|] == Join(dates, DATE_SEP)
  {
    MarkerLengths();
    var j := Join(dates, DATE_SEP);
    JoinAvoids(dates, DATE_SEP, ']');
    var x := CATEGORIES + "\"" + j + "\"";
    var t := "]" + tail;
    assert w == x + t;
    FindSkipFirst(x, t, "]");
    FindPrefix(t, "]");
    assert w[14..14 + |j|] == x[14..14 + |j|];
  }

  /** The first data marker after the categories marker is the chart's own. */
  lemma DataSearch(w: string, ch: Chart, rest: string)
    requires w == CategoriesFrom(ch, rest)
    requires !Occurs(BeforeData(ch), DATA)
    ensures Find(w, DATA) == |BeforeData(ch)|
    ensures w[|BeforeData(ch)|..] == DataFrom(ch, rest)
  {
    assert w == BeforeData(ch) + DataFrom(ch, rest);
    assert DATA[|DATA| - 1] !in DATA[..|DATA| - 1];
    FindAfterClean(BeforeData(ch), DataFrom(ch, rest), DATA);
  }

  /** The first `]` after the data marker closes the values. */
  lemma DataClose(z: string, ch: Chart, rest: string)
    requires z == DataFrom(ch, rest)
    requires forall k | 0 <= k < |ch.values| :: ']' !in ch.values[k]
    ensures Find(z, "]") == 7 + |ValuesText(ch)|
    ensures z[7..7 + |ValuesText(ch)|] == ValuesText(ch)
  {
    MarkerLengths();
    var v := ValuesText(ch);
    JoinAvoids(ch.values, ",", ']');
    var t := "]" + rest;
    assert z == (DATA + v) + t;
    FindSkipFirst(DATA + v, t, "]");
    FindPrefix(t, "]");
  }

  /** Each array text splits back into the chart's dates and values. */
  lemma ChartSeries(ch: Chart)
    requires |ch.dates| >= 1 && forall k | 0 <= k < |ch.dates| :: '"' !in ch.dates[k]
    requires |ch.values| >= 1 && forall k | 0 <= k < |ch.values| :: ',' !in ch.values[k]
    ensures Series(Present(DatesText(ch), ValuesText(ch))) == map["dates" := ch.dates, "instances" := ch.values]
  {
    SplitJoin(ch.dates, DATE_SEP);
    SplitJoin(ch.values, ",");
  }

  /** coronavirus_2.1.py's ordering: on a page holding the five graphs' charts
      in loop order, each graph's series is its own chart's dates and values. */
  lemma OrderedPage(txt: string, charts: seq<Chart>, rest: string)
    requires |charts| == |GRAPHS| && LaidPage(GRAPHS, charts) && txt == Page(GRAPHS, charts, rest)
    ensures forall k | 0 <= k < |GRAPHS| ::
              ParseHistory(txt)[GRAPHS[k]] == map["dates" := charts[k].dates, "instances" := charts[k].values]
  {
    WalkWhole(txt, GRAPHS, charts, rest);
    OwnPage(txt, charts);
  }

  /** The walk from the start of a page of laid-out charts. */
  lemma WalkWhole(txt: string, names: seq<string>, charts: seq<Chart>, rest: string)
    requires LaidPage(names, charts) && txt == Page(names, charts, rest)
    ensures ReadsOwn(Walk(txt, 0, names), charts)
  {
    Whole(txt);
    WalkPage(txt, 0, "", names, charts, rest);
  }

  lemma Whole(s: string)
    ensures s[0..] == "" + s
  {
  }

  lemma OwnPage(txt: string, charts: seq<Chart>)
    requires Laid(GRAPHS, charts) && ReadsOwn(Walk(txt, 0, GRAPHS), charts)
    ensures forall k | 0 <= k < |GRAPHS| ::
              ParseHistory(txt)[GRAPHS[k]] == map["dates" := charts[k].dates, "instances" := charts[k].values]
  {
    forall k | 0 <= k < |GRAPHS|
      ensures ParseHistory(txt)[GRAPHS[k]] == map["dates" := charts[k].dates, "instances" := charts[k].values]
    {
      OwnSeries(txt, charts[k], k);
    }
  }

  lemma OwnSeries(txt: string, ch: Chart, k: int)
    requires 0 <= k < |GRAPHS|
    requires Walk(txt, 0, GRAPHS)[k] == Present(DatesText(ch), ValuesText(ch))
    requires ChartOk(GRAPHS[k], ch)
    ensures ParseHistory(txt)[GRAPHS[k]] == map["dates" := ch.dates, "instances" := ch.values]
  {
    assert ParseHistory(txt)[GRAPHS[k]] == Series(Walk(txt, 0, GRAPHS)[k]);
    ChartSeries(ch);
  }
}
