/** Time-series extraction (`parsing_country_history`): a cursor walks a
    country page over five fixed graph names. For each name present anywhere
    in the page it moves to the name, then to the `categories: [` array of
    quoted dates after it and to the `data: [` array after that, and splits
    both array texts. */
module History {
  import opened PyStr

  /** The graphs, in the order the loop visits them. */
  const GRAPHS: seq<string> := ["Total Cases", "Daily New Cases", "Active Cases", "Total Deaths", "Daily Deaths"]

  const CATEGORIES: string := "categories: ["
  const DATA: string := "data: ["

  lemma MarkerLengths()
    ensures |CATEGORIES| == 13 && |DATA| == 7
  {
  }

  /** The separator between two quoted dates. */
  const DATE_SEP: string := "\",\""

  /** The two array texts read for one graph, or nothing when the graph name
      occurs nowhere in the page. */
  datatype Arrays = Absent | Present(dates: string, data: string)

  /** What one iteration reads, and where it leaves the cursor. */
  datatype Found = Found(arrays: Arrays, cursor: int)

  /** `start + txt[start:].find(p)`, the move every search of the loop makes. */
  function Offset(txt: string, start: int, p: string): int
  {
    start + Find(Suffix(txt, start), p)
  }

  /** One loop iteration from cursor `cursor`. The absence test searches the
      whole page; the move searches the text after the cursor. */
  function Step(txt: string, cursor: int, graph: string): Found
  {
    if Find(txt, graph) == -1 then Found(Absent, cursor)
    else ReadArrays(txt, Offset(txt, cursor, graph))
  }

  /** The rest of an iteration, from the index `at` where the graph name was
      taken to be: the categories marker after it, then the data marker after
      that, which is where the cursor stays. */
  function ReadArrays(txt: string, at: int): Found
  {
    var s2 := Offset(txt, at, CATEGORIES);
    var s3 := Offset(txt, s2, DATA);
    Found(Present(DatesAt(txt, s2), ValuesAt(txt, s3)), s3)
  }

  /** The dates text: from one character past `categories: [` to the
      character before the next `]`. */
  function DatesAt(txt: string, s2: int): string
  {
    Slice(txt, s2 + |CATEGORIES| + 1, Offset(txt, s2, "]") - 1)
  }

  /** The values text: from the end of `data: [` to the next `]`. */
  function ValuesAt(txt: string, s3: int): string
  {
    Slice(txt, s3 + |DATA|, Offset(txt, s3, "]"))
  }

  /** The arrays read for each graph in turn, the cursor carried along. */
  function Walk(txt: string, cursor: int, graphs: seq<string>): (r: seq<Arrays>)
    ensures |r| == |graphs|
    ensures forall k | 0 <= k < |graphs| :: r[k].Absent? <==> !Occurs(txt, graphs[k])
    decreases |graphs|
  {
    if |graphs| == 0 then []
    else
      var f := Step(txt, cursor, graphs[0]);
      var rest := Walk(txt, f.cursor, graphs[1..]);
      assert forall k | 1 <= k < |graphs| :: graphs[k] == graphs[1..][k - 1];
      [f.arrays] + rest
  }

  /** The dictionary built by assigning `values[k]` to `GRAPHS[k]` in loop
      order. */
  function Record<V>(values: seq<V>): map<string, V>
    requires |values| == |GRAPHS|
  {
    map[GRAPHS[0] := values[0], GRAPHS[1] := values[1], GRAPHS[2] := values[2],
        GRAPHS[3] := values[3], GRAPHS[4] := values[4]]
  }

  /** The keys are the five graph names, each holding the value assigned to it. */
  lemma RecordAt<V>(values: seq<V>)
    requires |values| == |GRAPHS|
    ensures Record(values).Keys == {"Total Cases", "Daily New Cases", "Active Cases", "Total Deaths", "Daily Deaths"}
    ensures forall k | 0 <= k < |GRAPHS| :: GRAPHS[k] in Record(values)
    ensures forall k | 0 <= k < |GRAPHS| :: Record(values)[GRAPHS[k]] == values[k]
  {
    var r := Record(values);
    forall k | 0 <= k < |GRAPHS| ensures r[GRAPHS[k]] == values[k] {
      if k == 0 {
      } else if k == 1 {
      } else if k == 2 {
      } else if k == 3 {
      } else {
      }
    }
  }

  /** The dictionary a present graph maps to in the later scripts. */
  function Series(a: Arrays): map<string, seq<string>>
  {
    match a
    case Absent => map[]
    case Present(dates, data) => map["dates" := Split(dates, DATE_SEP), "instances" := Split(data, ",")]
  }

  /** A found graph's dictionary: both keys, neither list empty. */
  predicate Filled(m: map<string, seq<string>>) {
    m.Keys == {"dates", "instances"} && |m["dates"]| >= 1 && |m["instances"]| >= 1
  }

  /** A found graph's step-1 pair: two lists, neither empty. */
  predicate PairFilled(p: seq<seq<string>>) {
    |p| == 2 && |p[0]| >= 1 && |p[1]| >= 1
  }

  /** What a graph maps to, by whether the graph was found. */
  lemma SeriesShape(a: Arrays)
    ensures Series(a) == map[] <==> a.Absent?
    ensures a.Present? ==> Filled(Series(a))
  {
    if a.Present? {
      assert "dates" in Series(a);
    }
  }

  /** `SeriesShape` for each graph of a walk over the page. */
  lemma WalkShapes(txt: string, w: seq<Arrays>)
    requires |w| == |GRAPHS|
    requires forall k | 0 <= k < |GRAPHS| :: w[k].Absent? <==> !Occurs(txt, GRAPHS[k])
    ensures forall k | 0 <= k < |GRAPHS| :: Series(w[k]) == map[] <==> !Occurs(txt, GRAPHS[k])
    ensures forall k | 0 <= k < |GRAPHS| && Occurs(txt, GRAPHS[k]) :: Filled(Series(w[k]))
  {
    forall k | 0 <= k < |GRAPHS| {
      SeriesShape(w[k]);
    }
  }

  /** What a graph maps to in the step-1 script, by whether it was found. */
  lemma PairShape(a: Arrays)
    ensures Pair(a) == [[]] <==> a.Absent?
    ensures a.Present? ==> PairFilled(Pair(a))
  {
  }

  /** `PairShape` for each graph of a walk over the page. */
  lemma WalkPairShapes(txt: string, w: seq<Arrays>)
    requires |w| == |GRAPHS|
    requires forall k | 0 <= k < |GRAPHS| :: w[k].Absent? <==> !Occurs(txt, GRAPHS[k])
    ensures forall k | 0 <= k < |GRAPHS| :: Pair(w[k]) == [[]] <==> !Occurs(txt, GRAPHS[k])
    ensures forall k | 0 <= k < |GRAPHS| && Occurs(txt, GRAPHS[k]) :: PairFilled(Pair(w[k]))
  {
    forall k | 0 <= k < |GRAPHS| {
      PairShape(w[k]);
    }
  }

  /** `parsing_country_history(txt)` of coronavirus_2.0.py, coronavirus.py and
      coronavirus_2.1.py: exactly the five graph keys; a graph absent from the
      whole page maps to an empty dictionary, a present one to its dates and
      instances, neither of them empty. */
  function ParseHistory(txt: string): (r: map<string, map<string, seq<string>>>)
    ensures r.Keys == {"Total Cases", "Daily New Cases", "Active Cases", "Total Deaths", "Daily Deaths"}
    ensures forall k | 0 <= k < |GRAPHS| :: GRAPHS[k] in r
    ensures forall k | 0 <= k < |GRAPHS| :: r[GRAPHS[k]] == map[] <==> !Occurs(txt, GRAPHS[k])
    ensures forall k | 0 <= k < |GRAPHS| && Occurs(txt, GRAPHS[k]) :: Filled(r[GRAPHS[k]])
  {
    var w := Walk(txt, 0, GRAPHS);
    WalkShapes(txt, w);
    SeriesOf(w)
  }

  /** Each graph's entry is the dictionary over the arrays the walk read. */
  lemma ParseHistoryAt(txt: string, k: int)
    requires 0 <= k < |GRAPHS|
    ensures ParseHistory(txt)[GRAPHS[k]] == Series(Walk(txt, 0, GRAPHS)[k])
  {
  }

  /** The per-graph dictionaries of a walk, in loop order. */
  function SeriesEach(w: seq<Arrays>): seq<map<string, seq<string>>>
  {
    seq(|w|, k requires 0 <= k < |w| => Series(w[k]))
  }

  /** The dictionary over the arrays read for the five graphs. */
  function SeriesOf(w: seq<Arrays>): (r: map<string, map<string, seq<string>>>)
    requires |w| == |GRAPHS|
    ensures r.Keys == {"Total Cases", "Daily New Cases", "Active Cases", "Total Deaths", "Daily Deaths"}
    ensures forall k | 0 <= k < |GRAPHS| :: GRAPHS[k] in r
    ensures forall k | 0 <= k < |GRAPHS| :: r[GRAPHS[k]] == Series(w[k])
  {
    RecordAt(SeriesEach(w));
    Record(SeriesEach(w))
  }

  /** coronavirus_3.0.py adds `if len(...) < 1` guards after both splits. */
  function SeriesGuarded(a: Arrays): map<string, seq<string>>
  {
    match a
    case Absent => map[]
    case Present(dates, data) =>
      var categories := Split(dates, DATE_SEP);
      var categories' := if |categories| < 1 then [] else categories;
      var values := Split(data, ",");
      var values' := if |values| < 1 then [] else values;
      map["dates" := categories', "instances" := values']
  }

  /** The guarded per-graph dictionaries of a walk. */
  function GuardedEach(w: seq<Arrays>): seq<map<string, seq<string>>>
  {
    seq(|w|, k requires 0 <= k < |w| => SeriesGuarded(w[k]))
  }

  /** `parsing_country_history(txt)` of coronavirus_3.0.py. */
  function ParseHistoryGuarded(txt: string): map<string, map<string, seq<string>>>
  {
    var w := Walk(txt, 0, GRAPHS);
    Record(GuardedEach(w))
  }

  /** The guards never fire, because `split` never returns an empty list: the
      guarded version computes exactly what the unguarded one does. */
  lemma GuardsNeverFire(txt: string)
    ensures ParseHistoryGuarded(txt) == ParseHistory(txt)
  {
    var w := Walk(txt, 0, GRAPHS);
    GuardsIdle(w);
  }

  /** The guarded version's shape: the five graph keys, an empty dictionary
      exactly for an absent graph, both lists non-empty for a present one. */
  lemma GuardedShape(txt: string)
    ensures ParseHistoryGuarded(txt).Keys == {"Total Cases", "Daily New Cases", "Active Cases", "Total Deaths", "Daily Deaths"}
    ensures forall k | 0 <= k < |GRAPHS| :: ParseHistoryGuarded(txt)[GRAPHS[k]] == map[] <==> !Occurs(txt, GRAPHS[k])
    ensures forall k | 0 <= k < |GRAPHS| && Occurs(txt, GRAPHS[k]) :: Filled(ParseHistoryGuarded(txt)[GRAPHS[k]])
  {
    GuardsNeverFire(txt);
  }

  /** In the guarded version too, a present graph has one more instance than
      its data text has commas. */
  lemma GuardedInstancesCount(txt: string, k: int)
    requires 0 <= k < |GRAPHS| && Occurs(txt, GRAPHS[k])
    ensures GRAPHS[k] in ParseHistoryGuarded(txt) && "instances" in ParseHistoryGuarded(txt)[GRAPHS[k]]
    ensures |ParseHistoryGuarded(txt)[GRAPHS[k]]["instances"]| == Count(Walk(txt, 0, GRAPHS)[k].data, ',') + 1
  {
    GuardsNeverFire(txt);
    InstancesCount(txt, k);
  }

  lemma GuardsIdle(w: seq<Arrays>)
    ensures GuardedEach(w) == SeriesEach(w)
  {
    forall k | 0 <= k < |w|
      ensures GuardedEach(w)[k] == SeriesEach(w)[k]
    {
      GuardIdle(w[k]);
    }
  }

  lemma GuardIdle(a: Arrays)
    ensures SeriesGuarded(a) == Series(a)
  {
    if a.Present? {
      assert |Split(a.dates, DATE_SEP)| >= 1 && |Split(a.data, ",")| >= 1;
    }
  }

  /** The list pair a graph maps to in the step-1 script. */
  function Pair(a: Arrays): seq<seq<string>>
  {
    match a
    case Absent => [[]]
    case Present(dates, data) => [Split(dates, DATE_SEP), Split(data, ",")]
  }

  /** The step-1 pairs of a walk, in loop order. */
  function PairEach(w: seq<Arrays>): seq<seq<seq<string>>>
  {
    seq(|w|, k requires 0 <= k < |w| => Pair(w[k]))
  }

  /** `parsing_country_history(txt)` of the step-1 script: an absent graph
      maps to `[[]]`, a present one to the two-element list `[dates, values]`,
      both non-empty. */
  function ParseHistoryPairs(txt: string): (r: map<string, seq<seq<string>>>)
    ensures r.Keys == {"Total Cases", "Daily New Cases", "Active Cases", "Total Deaths", "Daily Deaths"}
    ensures forall k | 0 <= k < |GRAPHS| :: GRAPHS[k] in r
    ensures forall k | 0 <= k < |GRAPHS| :: r[GRAPHS[k]] == [[]] <==> !Occurs(txt, GRAPHS[k])
    ensures forall k | 0 <= k < |GRAPHS| && Occurs(txt, GRAPHS[k]) :: PairFilled(r[GRAPHS[k]])
  {
    var w := Walk(txt, 0, GRAPHS);
    WalkPairShapes(txt, w);
    PairsOf(w)
  }

  /** The step-1 dictionary over the arrays read for the five graphs. */
  function PairsOf(w: seq<Arrays>): (r: map<string, seq<seq<string>>>)
    requires |w| == |GRAPHS|
    ensures r.Keys == {"Total Cases", "Daily New Cases", "Active Cases", "Total Deaths", "Daily Deaths"}
    ensures forall k | 0 <= k < |GRAPHS| :: GRAPHS[k] in r
    ensures forall k | 0 <= k < |GRAPHS| :: r[GRAPHS[k]] == Pair(w[k])
  {
    RecordAt(PairEach(w));
    Record(PairEach(w))
  }

  /** The step-1 pair of a present graph holds the same two lists as the later
      scripts' dictionary. */
  lemma PairsAgree(txt: string, k: int)
    requires 0 <= k < |GRAPHS| && Occurs(txt, GRAPHS[k])
    ensures ParseHistoryPairs(txt)[GRAPHS[k]]
         == [ParseHistory(txt)[GRAPHS[k]]["dates"], ParseHistory(txt)[GRAPHS[k]]["instances"]]
  {
    ParseHistoryAt(txt, k);
    ParseHistoryPairsAt(txt, k);
    PairOfSeries(Walk(txt, 0, GRAPHS)[k]);
  }

  lemma ParseHistoryPairsAt(txt: string, k: int)
    requires 0 <= k < |GRAPHS|
    ensures ParseHistoryPairs(txt)[GRAPHS[k]] == Pair(Walk(txt, 0, GRAPHS)[k])
  {
  }

  lemma PairOfSeries(a: Arrays)
    requires a.Present?
    ensures Pair(a) == [Series(a)["dates"], Series(a)["instances"]]
  {
  }

  /** A present graph has one more instance than its data text has commas. */
  lemma InstancesCount(txt: string, k: int)
    requires 0 <= k < |GRAPHS| && Occurs(txt, GRAPHS[k])
    ensures |ParseHistory(txt)[GRAPHS[k]]["instances"]| == Count(Walk(txt, 0, GRAPHS)[k].data, ',') + 1
  {
    var w := Walk(txt, 0, GRAPHS);
    ParseHistoryAt(txt, k);
    SplitCharCount(w[k].data, ',');
  }

  /** A graph name that occurs in the page but not after the cursor is taken
      to sit one character before the cursor: the arrays are then searched
      from there. */
  lemma RewindsByOne(txt: string, cursor: int, graph: string)
    requires 0 <= cursor <= |txt| && Occurs(txt, graph) && !Occurs(txt[cursor..], graph)
    ensures Step(txt, cursor, graph) == ReadArrays(txt, cursor - 1)
  {
  }
}
