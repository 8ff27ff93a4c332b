/** The overlapping window scan (`countries_to_list`, and the same loop in
    the step-1 script's `parsing_data`): the row extractor is fed the page
    suffixes `txt[i:]` for every `i` in `range(start, ending_index,
    block_size)`, where `start` is the first occurrence of the row marker;
    the collected list then loses its empty entries. */
module Scan {
  import opened Common
  import opened PyStr
  import opened Rows

  /** The markers, stride and bound of the scan. */
  datatype ScanConfig = ScanConfig(startCode: string, endCode: string, blockSize: int, endIndex: int)

  /** The values of the scraper's configuration. */
  const Configured := ScanConfig("<a class=\"mt_a\" href=\"country",
                                 "<td style=\"display:none\" data-continent",
                                 1024, 393000)

  /** The rows kept and the registry left by a scan. */
  datatype ScanOut = ScanOut(rows: seq<seq<Cell>>, reg: Registry)

  /** `range(start, stop, step)` for a positive step. */
  function Range(start: int, stop: int, step: int): (r: seq<int>)
    requires step > 0
    ensures |r| > 0 <==> start < stop
    ensures |r| > 0 ==> r[0] == start
    ensures forall k | 0 <= k < |r| :: start <= r[k] < stop
    decreases stop - start
  {
    if start >= stop then []
    else [start] + Range(start + step, stop, step)
  }

  /** The `k`-th element of `range(start, stop, step)` is `start + k * step`. */
  lemma {:induction false} RangeAt(start: int, stop: int, step: int, k: int)
    requires step > 0 && 0 <= k < |Range(start, stop, step)|
    ensures Range(start, stop, step)[k] == start + k * step
    decreases stop - start
  {
    if k > 0 {
      RangeAt(start + step, stop, step, k - 1);
    }
  }

  /** The range runs up to `stop`: one more step from its last element
      reaches or passes `stop`. */
  lemma {:induction false} RangeLast(start: int, stop: int, step: int)
    requires step > 0 && start < stop
    ensures Range(start, stop, step)[|Range(start, stop, step)| - 1] + step >= stop
    decreases stop - start
  {
    if start + step < stop {
      RangeLast(start + step, stop, step);
    }
  }

  /** `[x for x in xs if x != []]`. */
  function NonEmpty(xs: seq<seq<Cell>>): (r: seq<seq<Cell>>)
    ensures forall k | 0 <= k < |r| :: r[k] != []
    ensures |r| <= |xs|
  {
    if |xs| == 0 then []
    else
      var init := xs[..|xs| - 1];
      var last := xs[|xs| - 1];
      NonEmpty(init) + (if last == [] then [] else [last])
  }

  /** The kept rows are exactly the non-empty rows of the list. */
  lemma {:induction false} NonEmptyMembers(xs: seq<seq<Cell>>)
    ensures forall x :: x in NonEmpty(xs) <==> x in xs && x != []
    decreases |xs|
  {
    if |xs| > 0 {
      var init := xs[..|xs| - 1];
      var last := xs[|xs| - 1];
      assert xs == init + [last];
      NonEmptyMembers(init);
    }
  }

  /** One call of the row extractor: what it makes of a suffix of the page
      and the registry. */
  type RowReader = (string, Registry) -> Result<Extracted>

  /** `parsing_country_data` with the configured markers and allow-list. */
  function Parser(cfg: ScanConfig, fetch: seq<string>): RowReader {
    (t: string, g: Registry) => ParseCountryData(cfg.startCode, cfg.endCode, t, fetch, g)
  }

  /** The reference scan: `read` called on `txt[i:]` for each window index
      `i` in turn, the registry threaded through, each row appended to
      `list`; the first fault ends the scan. */
  function ScanWindows(read: RowReader, txt: string, windows: seq<int>,
                       list: seq<seq<Cell>>, reg: Registry): (r: Result<ScanOut>)
    ensures r.Ok? ==> |r.value.rows| == |list| + |windows| && r.value.rows[..|list|] == list
    decreases |windows|
  {
    if |windows| == 0 then Ok(ScanOut(list, reg))
    else
      match read(Suffix(txt, windows[0]), reg)
      case Err(f) => Err(f)
      case Ok(e) =>
        var r := ScanWindows(read, txt, windows[1..], list + [e.row], e.reg);
        assert r.Ok? ==> r.value.rows[..|list|] == (r.value.rows[..|list| + 1])[..|list|];
        r
  }

  /** The list comprehension dropping empty rows, applied to a finished scan. */
  function Kept(res: Result<ScanOut>): Result<ScanOut> {
    match res
    case Err(f) => Err(f)
    case Ok(out) => Ok(ScanOut(NonEmpty(out.rows), out.reg))
  }

  /** The window at `i` is the first of `range(i, stop, step)`; the scan goes
      on from the next one. */
  lemma WindowStep(read: RowReader, txt: string, i: int, stop: int, step: int,
                   list: seq<seq<Cell>>, reg: Registry)
    requires step > 0 && i < stop
    ensures ScanWindows(read, txt, Range(i, stop, step), list, reg)
         == match read(Suffix(txt, i), reg)
            case Err(f) => Err(f)
            case Ok(e) => ScanWindows(read, txt, Range(i + step, stop, step), list + [e.row], e.reg)
  {
    var w := Range(i, stop, step);
    assert w[0] == i && w[1..] == Range(i + step, stop, step);
  }

  /** A window whose call succeeds hands the scan on to the next window with
      the row appended and the registry updated. */
  lemma FoldStep(read: RowReader, txt: string, i: int, i': int, stop: int, step: int,
                 list: seq<seq<Cell>>, list': seq<seq<Cell>>, reg: Registry, reg': Registry)
    requires step > 0 && i < stop && i' == i + step
    requires read(Suffix(txt, i), reg).Ok?
    requires list' == list + [read(Suffix(txt, i), reg).value.row]
    requires reg' == read(Suffix(txt, i), reg).value.reg
    ensures ScanWindows(read, txt, Range(i, stop, step), list, reg)
         == ScanWindows(read, txt, Range(i', stop, step), list', reg')
  {
    WindowStep(read, txt, i, stop, step, list, reg);
  }

  /** With the configured bound and stride, the scan reads at most 384
      windows, wherever the start marker is. */
  lemma ConfiguredWindows(txt: string)
    ensures |Range(Find(txt, Configured.startCode), Configured.endIndex, Configured.blockSize)| <= 384
  {
    var start := Find(txt, Configured.startCode);
    var w := Range(start, Configured.endIndex, Configured.blockSize);
    if |w| > 0 {
      RangeAt(start, Configured.endIndex, Configured.blockSize, |w| - 1);
      assert start + (|w| - 1) * 1024 < 393000;
    }
  }

  /** Every row begins with its identity as text. */
  predicate Identified(rows: seq<seq<Cell>>) {
    forall k | 0 <= k < |rows| :: |rows[k]| > 0 && rows[k][0].Text?
  }

  /** The identities of `rows`. */
  function NamesOf(rows: seq<seq<Cell>>): set<string>
    requires Identified(rows)
  {
    set k | 0 <= k < |rows| :: rows[k][0].text
  }

  /** No identity occurs twice. */
  predicate DistinctNames(rows: seq<seq<Cell>>)
    requires Identified(rows)
  {
    forall i, j | 0 <= i < j < |rows| :: rows[i][0].text != rows[j][0].text
  }

  /** What the rows added by a scan promise about themselves and the
      registry they leave behind. */
  predicate ScanPromise(before: Registry, added: seq<seq<Cell>>, after: Registry, fetch: seq<string>) {
    && Identified(added)
    && DistinctNames(added)
    && (forall name | name in NamesOf(added) :: name !in before.seen)
    && after.seen == before.seen + NamesOf(added)
    && after.links.Keys == before.links.Keys + NamesOf(added)
    && (forall name | name in NamesOf(added) :: '/' !in after.links[name])
    && (forall name | name in before.links && name !in NamesOf(added) :: after.links[name] == before.links[name])
    && (|fetch| > 0 ==> forall name | name in NamesOf(added) :: name in fetch)
  }

  /** What the scan needs of one call on the suffix `t` with registry `g`:
      a rejection leaves the registry alone, an acceptance registers a new
      identity, and a suffix without the start marker faults. */
  predicate ReadContract(cfg: ScanConfig, fetch: seq<string>, t: string, g: Registry, o: Result<Extracted>) {
    && (o.Ok? && o.value.row == [] ==> o.value.reg == g)
    && (o.Ok? && o.value.row != [] ==> Accepted(g, o.value, LinkOf(cfg.startCode, t), fetch))
    && (Find(t, cfg.startCode) == -1 ==> o == Err(EmptyRow))
  }

  /** `parsing_country_data` meets what the scan needs of its extractor. */
  lemma ParserKeepsContract(cfg: ScanConfig, fetch: seq<string>)
    ensures forall t, g :: ReadContract(cfg, fetch, t, g, Parser(cfg, fetch)(t, g))
  {
    forall t, g ensures ReadContract(cfg, fetch, t, g, Parser(cfg, fetch)(t, g)) {
      if Find(t, cfg.startCode) == -1 {
        MissingStartFaults(cfg.startCode, cfg.endCode, t, fetch, g);
      }
    }
  }

  /** `countries_to_list(countries_fetch_list, country_list, txt, country_set,
      country_link_dict)`: a fault from any call aborts the scan; the result
      is the reference scan with the empty rows dropped. */
  method CountriesToList(cfg: ScanConfig, fetch: seq<string>, countryList: seq<seq<Cell>>,
                         txt: string, reg: Registry) returns (r: Result<ScanOut>)
    requires cfg.blockSize > 0
    ensures r.Ok? ==> forall k | 0 <= k < |r.value.rows| :: r.value.rows[k] != []
    ensures r.Ok? ==> |NonEmpty(countryList)| <= |r.value.rows|
                      && r.value.rows[..|NonEmpty(countryList)|] == NonEmpty(countryList)
    ensures r.Ok? ==> |r.value.rows| <= |NonEmpty(countryList)| + |Range(Find(txt, cfg.startCode), cfg.endIndex, cfg.blockSize)|
    ensures r.Ok? ==> ScanPromise(reg, r.value.rows[|NonEmpty(countryList)|..], r.value.reg, fetch)
    ensures Find(txt, cfg.startCode) == -1 && cfg.endIndex > -1 ==> r == Err(EmptyRow)
    ensures r == Kept(ScanWindows(Parser(cfg, fetch), txt, Range(Find(txt, cfg.startCode), cfg.endIndex, cfg.blockSize),
                                  countryList, reg))
  {
    ParserKeepsContract(cfg, fetch);
    r := ScanLoop(cfg, fetch, Parser(cfg, fetch), countryList, txt, reg);
  }

  /** The window loop of `countries_to_list` over any extractor that keeps
      `ReadContract`. */
  method ScanLoop(cfg: ScanConfig, fetch: seq<string>, read: RowReader, countryList: seq<seq<Cell>>,
                  txt: string, reg: Registry) returns (r: Result<ScanOut>)
    requires cfg.blockSize > 0
    requires forall t, g :: ReadContract(cfg, fetch, t, g, read(t, g))
    ensures r.Ok? ==> forall k | 0 <= k < |r.value.rows| :: r.value.rows[k] != []
    ensures r.Ok? ==> |NonEmpty(countryList)| <= |r.value.rows|
                      && r.value.rows[..|NonEmpty(countryList)|] == NonEmpty(countryList)
    ensures r.Ok? ==> |r.value.rows| <= |NonEmpty(countryList)| + |Range(Find(txt, cfg.startCode), cfg.endIndex, cfg.blockSize)|
    ensures r.Ok? ==> ScanPromise(reg, r.value.rows[|NonEmpty(countryList)|..], r.value.reg, fetch)
    ensures Find(txt, cfg.startCode) == -1 && cfg.endIndex > -1 ==> r == Err(EmptyRow)
    ensures r == Kept(ScanWindows(read, txt, Range(Find(txt, cfg.startCode), cfg.endIndex, cfg.blockSize),
                                  countryList, reg))
  {
    var start := Find(txt, cfg.startCode);
    ghost var missing := start == -1 && cfg.endIndex > -1;
    var list := countryList;
    var cur := reg;
    var i := start;
    ghost var added: seq<seq<Cell>> := [];
    while i < cfg.endIndex
      invariant |countryList| + |added| <= |list|
      invariant missing ==> i == -1 && cur == reg
      invariant NonEmpty(list) == NonEmpty(countryList) + added
      invariant ScanPromise(reg, added, cur, fetch)
      invariant ScanWindows(read, txt, Range(start, cfg.endIndex, cfg.blockSize), countryList, reg)
             == ScanWindows(read, txt, Range(i, cfg.endIndex, cfg.blockSize), list, cur)
      decreases cfg.endIndex - i
    {
      if missing {
        MissingStartInSuffix(txt, cfg.startCode);
      }
      var out := read(Suffix(txt, i), cur);
      assert ReadContract(cfg, fetch, Suffix(txt, i), cur, out);
      if out.Err? {
        WindowStep(read, txt, i, cfg.endIndex, cfg.blockSize, list, cur);
        return Err(out.fault);
      }
      ghost var (i0, list0, cur0) := (i, list, cur);
      added := Advance(cfg, fetch, txt, i, reg, cur, list, countryList, added, out.value);
      list := list + [out.value.row];
      cur := out.value.reg;
      i := i + cfg.blockSize;
      FoldStep(read, txt, i0, i, cfg.endIndex, cfg.blockSize, list0, list, cur0, cur);
    }
    assert ScanWindows(read, txt, Range(i, cfg.endIndex, cfg.blockSize), list, cur) == Ok(ScanOut(list, cur));
    ScanResult(countryList, list, added, reg, cur, fetch, |list| - |countryList|);
    r := Ok(ScanOut(NonEmpty(list), cur));
  }

  /** What the scan's final list promises, from the loop's invariants. */
  lemma ScanResult(countryList: seq<seq<Cell>>, list: seq<seq<Cell>>, added: seq<seq<Cell>>,
                   reg: Registry, cur: Registry, fetch: seq<string>, total: int)
    requires NonEmpty(list) == NonEmpty(countryList) + added
    requires ScanPromise(reg, added, cur, fetch)
    requires |added| <= total
    ensures |NonEmpty(countryList)| <= |NonEmpty(list)|
    ensures NonEmpty(list)[..|NonEmpty(countryList)|] == NonEmpty(countryList)
    ensures |NonEmpty(list)| <= |NonEmpty(countryList)| + total
    ensures ScanPromise(reg, NonEmpty(list)[|NonEmpty(countryList)|..], cur, fetch)
  {
    assert NonEmpty(list)[|NonEmpty(countryList)|..] == added;
  }

  /** One iteration of the scan that did not fault: with the window's row
      appended to the list, the kept rows and the promise are extended when
      the row is not empty. */
  lemma Advance(cfg: ScanConfig, fetch: seq<string>, txt: string, i: int, reg: Registry, cur: Registry,
                list: seq<seq<Cell>>, countryList: seq<seq<Cell>>, added: seq<seq<Cell>>, e: Extracted)
    returns (added': seq<seq<Cell>>)
    requires NonEmpty(list) == NonEmpty(countryList) + added
    requires ScanPromise(reg, added, cur, fetch)
    requires e.row == [] ==> e.reg == cur
    requires e.row != [] ==> Accepted(cur, e, LinkOf(cfg.startCode, Suffix(txt, i)), fetch)
    ensures NonEmpty(list + [e.row]) == NonEmpty(countryList) + added'
    ensures ScanPromise(reg, added', e.reg, fetch)
    ensures |added'| <= |added| + 1
  {
    ListGrows(list, countryList, added, e.row);
    added' := added;
    if e.row != [] {
      AddedKeepsPromise(reg, added, cur, e, fetch);
      added' := added + [e.row];
    }
  }

  /** Appending a row to the scanned list appends it to the kept rows exactly
      when it is not empty. */
  lemma ListGrows(list: seq<seq<Cell>>, countryList: seq<seq<Cell>>, added: seq<seq<Cell>>, row: seq<Cell>)
    requires NonEmpty(list) == NonEmpty(countryList) + added
    ensures NonEmpty(list + [row]) == NonEmpty(countryList) + (if row == [] then added else added + [row])
  {
    AppendNonEmpty(list, row);
  }

  /** A marker absent from the page is absent from the one-character suffix
      `txt[-1:]`. */
  lemma MissingStartInSuffix(txt: string, marker: string)
    requires Find(txt, marker) == -1
    ensures Find(Suffix(txt, -1), marker) == -1
  {
    if |txt| > 0 {
      MatchSuffix(txt, marker, |txt| - 1);
      assert Suffix(txt, -1) == txt[|txt| - 1..];
      forall i ensures !MatchAt(Suffix(txt, -1), marker, i) {
        if 0 <= i {
          assert !MatchAt(txt, marker, i + |txt| - 1);
        }
      }
    } else {
      assert Suffix(txt, -1) == txt;
    }
  }

  lemma AppendNonEmpty(xs: seq<seq<Cell>>, x: seq<Cell>)
    ensures NonEmpty(xs + [x]) == NonEmpty(xs) + (if x == [] then [] else [x])
  {
    assert (xs + [x])[..|xs|] == xs;
  }

  /** Accepting one more row keeps the scan's promise. */
  lemma AddedKeepsPromise(reg: Registry, added: seq<seq<Cell>>, cur: Registry, out: Extracted,
                          fetch: seq<string>)
    requires ScanPromise(reg, added, cur, fetch)
    requires exists link :: Accepted(cur, out, link, fetch)
    ensures ScanPromise(reg, added + [out.row], out.reg, fetch)
  {
    var rows := added + [out.row];
    var name := out.row[0].text;
    assert Identified(rows);
    assert NamesOf(rows) == NamesOf(added) + {name} by {
      forall n | n in NamesOf(rows)
        ensures n in NamesOf(added) + {name}
      {
        var k :| 0 <= k < |rows| && rows[k][0].text == n;
        if k < |added| {
          assert added[k][0].text == n;
        }
      }
      forall n | n in NamesOf(added) + {name}
        ensures n in NamesOf(rows)
      {
        if n == name {
          assert rows[|added|][0].text == n;
        } else {
          var k :| 0 <= k < |added| && added[k][0].text == n;
          assert rows[k][0].text == n;
        }
      }
    }
    assert DistinctNames(rows) by {
      forall i, j | 0 <= i < j < |rows|
        ensures rows[i][0].text != rows[j][0].text
      {
        if j == |added| {
          assert rows[i][0].text in NamesOf(added) by {
            assert added[i][0].text == rows[i][0].text;
          }
        } else {
          assert rows[i] == added[i] && rows[j] == added[j];
        }
      }
    }
  }

  /** The step-1 window loop (`parsing_data`, lines 213-219) starts from the
      list holding the column row and has no allow-list. Its extractor is
      the later one with an empty allow-list (`Step1Agrees`). */
  method Step1Scan(cfg: ScanConfig, columns: seq<string>, txt: string, reg: Registry)
    returns (r: Result<ScanOut>)
    requires cfg.blockSize > 0 && |columns| > 0
    ensures r.Ok? ==> forall k | 0 <= k < |r.value.rows| :: r.value.rows[k] != []
    ensures r.Ok? ==> |r.value.rows| >= 1 && r.value.rows[0] == Header(columns)
    ensures r.Ok? ==> ScanPromise(reg, r.value.rows[1..], r.value.reg, [])
    ensures r == Kept(ScanWindows(Parser(cfg, []), txt, Range(Find(txt, cfg.startCode), cfg.endIndex, cfg.blockSize),
                                  [Header(columns)], reg))
  {
    var header := Header(columns);
    assert NonEmpty([header]) == [header] by {
      assert [header][..0] == [];
    }
    r := CountriesToList(cfg, [], [header], txt, reg);
  }

  /** The column row as it sits in the step-1 list: plain text cells. */
  function Header(columns: seq<string>): (r: seq<Cell>)
    ensures |r| == |columns|
    ensures forall k | 0 <= k < |columns| :: r[k] == Text(columns[k])
  {
    seq(|columns|, k requires 0 <= k < |columns| => Text(columns[k]))
  }
}
