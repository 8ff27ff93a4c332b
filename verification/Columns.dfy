/** Column header extraction (`parsing_columns_data`): the table's column
    labels are read as successive single-quoted literals from the script
    region that starts at one marker and ends at the next occurrence of
    another, and are prefixed with the synthetic label "Country". */
module Columns {
  import opened PyStr

  /** The bounded region: from the first `startLine` up to the first
      `endLine` after it, with Python's -1 arithmetic when either is absent. */
  function Region(startLine: string, endLine: string, text: string): string
  {
    var a := Find(text, startLine);
    var b := Find(Suffix(text, a), endLine);
    Slice(text, a, a + b)
  }

  /** One loop iteration: the value between the next two quotes, and the code
      left after the closing quote. */
  function NextLiteral(code: string): (string, string)
  {
    var a := Find(code, "'");
    var b := Find(Suffix(code, a + 1), "'");
    (Slice(code, a + 1, a + b + 1), Suffix(code, a + b + 2))
  }

  /** The values appended by `count` iterations of the loop. One value is
      appended per iteration whatever the code holds. */
  function Literals(code: string, count: int): (r: seq<string>)
    ensures |r| == if count > 0 then count else 0
    decreases count
  {
    if count <= 0 then []
    else
      var next := NextLiteral(code);
      [next.0] + Literals(next.1, count - 1)
  }

  /** `parsing_columns_data(starting_line, ending_line, text, number_of_columns)`
      (default 14): never short, whatever the text contains. */
  function ParseColumns(startLine: string, endLine: string, text: string,
                        numberOfColumns: int): (r: seq<string>)
    ensures |r| == if numberOfColumns >= 1 then numberOfColumns else 1
    ensures r[0] == "Country"
  {
    ["Country"] + Literals(Region(startLine, endLine, text), numberOfColumns - 1)
  }

  /** The step-1 script's `parsing_columns_data`: the same loop run exactly
      13 times, so the result always has 14 labels. */
  function ParseColumnsStep1(startLine: string, endLine: string, text: string): (r: seq<string>)
    ensures |r| == 14 && r[0] == "Country"
  {
    ["Country"] + Literals(Region(startLine, endLine, text), 13)
  }

  /** A region made of quoted literals, each preceded by quote-free text:
      `seps[0] 'lits[0]' seps[1] 'lits[1]' ...`. */
  function Quoted(seps: seq<string>, lits: seq<string>): string
    requires |seps| == |lits|
  {
    if |lits| == 0 then ""
    else seps[0] + "'" + lits[0] + "'" + Quoted(seps[1..], lits[1..])
  }

  predicate QuoteFree(s: string) {
    '\'' !in s
  }

  /** One iteration over `sep 'lit' rest` yields `lit` and leaves `rest`. */
  lemma NextLiteralOfQuoted(sep: string, lit: string, rest: string)
    requires QuoteFree(sep) && QuoteFree(lit)
    ensures NextLiteral(sep + "'" + lit + "'" + rest) == (lit, rest)
  {
    var code := sep + "'" + lit + "'" + rest;
    QuotesOfLiteral(sep, lit, rest);
    var a := |sep|;
    var b := |lit|;
    assert Suffix(code, a + 1) == code[a + 1..];
    assert Slice(code, a + 1, a + b + 1) == lit;
    assert Suffix(code, a + b + 2) == rest;
  }

  /** Where the two quotes around `lit` are found. */
  lemma QuotesOfLiteral(sep: string, lit: string, rest: string)
    requires QuoteFree(sep) && QuoteFree(lit)
    ensures Find(sep + "'" + lit + "'" + rest, "'") == |sep|
    ensures Find((sep + "'" + lit + "'" + rest)[|sep| + 1..], "'") == |lit|
  {
    var code := sep + "'" + lit + "'" + rest;
    assert Find(code, "'") == |sep| by {
      QuoteAfter(sep, lit + "'" + rest);
      assert code == sep + "'" + (lit + "'" + rest);
    }
    assert Find(code[|sep| + 1..], "'") == |lit| by {
      assert code[|sep| + 1..] == lit + "'" + rest;
      QuoteAfter(lit, rest);
    }
  }

  /** In `x 'y` with a quote-free `x`, the first quote is at `|x|`. */
  lemma QuoteAfter(x: string, y: string)
    requires QuoteFree(x)
    ensures Find(x + "'" + y, "'") == |x|
  {
    assert x + "'" + y == x + ("'" + y);
    FindSkipFirst(x, "'" + y, "'");
    FindPrefix("'" + y, "'");
  }

  /** Over a region of consecutive quoted literals, the k-th appended value is
      the k-th literal. */
  lemma {:induction false} LiteralsOfQuoted(seps: seq<string>, lits: seq<string>, tail: string, k: int)
    requires |seps| == |lits|
    requires forall i | 0 <= i < |lits| :: QuoteFree(seps[i]) && QuoteFree(lits[i])
    requires 0 <= k <= |lits|
    ensures Literals(Quoted(seps, lits) + tail, k) == lits[..k]
    decreases k
  {
    if k > 0 {
      var rest := Quoted(seps[1..], lits[1..]) + tail;
      NextLiteralOfQuotedRegion(seps, lits, tail);
      LiteralsStep(Quoted(seps, lits) + tail, k);
      TailQuoteFree(seps, lits);
      LiteralsOfQuoted(seps[1..], lits[1..], tail, k - 1);
      PrefixCons(lits, k);
    }
  }

  /** The literals after the first are still quote-free. */
  lemma TailQuoteFree(seps: seq<string>, lits: seq<string>)
    requires |seps| == |lits| > 0
    requires forall i | 0 <= i < |lits| :: QuoteFree(seps[i]) && QuoteFree(lits[i])
    ensures forall i | 0 <= i < |lits[1..]| :: QuoteFree(seps[1..][i]) && QuoteFree(lits[1..][i])
  {
    forall i | 0 <= i < |lits[1..]| ensures QuoteFree(seps[1..][i]) && QuoteFree(lits[1..][i]) {
      assert seps[1..][i] == seps[i + 1] && lits[1..][i] == lits[i + 1];
    }
  }

  lemma PrefixCons<T>(xs: seq<T>, k: int)
    requires 0 < k <= |xs|
    ensures xs[..k] == [xs[0]] + xs[1..][..k - 1]
  {
  }

  /** One loop iteration, unfolded. */
  lemma LiteralsStep(code: string, k: int)
    requires k > 0
    ensures Literals(code, k) == [NextLiteral(code).0] + Literals(NextLiteral(code).1, k - 1)
  {
  }

  /** The first iteration over a quoted region reads its first literal. */
  lemma NextLiteralOfQuotedRegion(seps: seq<string>, lits: seq<string>, tail: string)
    requires |seps| == |lits| > 0
    requires QuoteFree(seps[0]) && QuoteFree(lits[0])
    ensures NextLiteral(Quoted(seps, lits) + tail) == (lits[0], Quoted(seps[1..], lits[1..]) + tail)
  {
    var rest := Quoted(seps[1..], lits[1..]) + tail;
    assert Quoted(seps, lits) + tail == seps[0] + "'" + lits[0] + "'" + rest;
    NextLiteralOfQuoted(seps[0], lits[0], rest);
  }

  /** When the bounded region holds at least `number_of_columns - 1` quoted
      literals, the result is "Country" followed by the first of them, and no
      label contains a quote. */
  lemma ColumnsOfQuotedRegion(startLine: string, endLine: string, text: string, numberOfColumns: int,
                              seps: seq<string>, lits: seq<string>, tail: string)
    requires |seps| == |lits|
    requires forall i | 0 <= i < |lits| :: QuoteFree(seps[i]) && QuoteFree(lits[i])
    requires Region(startLine, endLine, text) == Quoted(seps, lits) + tail
    requires 1 <= numberOfColumns <= |lits| + 1
    ensures ParseColumns(startLine, endLine, text, numberOfColumns) == ["Country"] + lits[..numberOfColumns - 1]
    ensures forall i | 1 <= i < numberOfColumns :: QuoteFree(ParseColumns(startLine, endLine, text, numberOfColumns)[i])
  {
    LiteralsOfQuoted(seps, lits, tail, numberOfColumns - 1);
  }
}
