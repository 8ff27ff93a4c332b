/** The Python string and list operations the scraper is built from, with
    CPython's semantics: `find` returns -1 when the substring is absent, slice
    bounds are clamped and negative bounds count from the end, and `split`
    always returns at least one piece. The -1 results of `find` flow straight
    into slice arithmetic in the scraper, so these rules carry behaviour. */
module PyStr {

  /** `p` occurs in `s` starting at index `i`. */
  predicate MatchAt<T(==)>(s: seq<T>, p: seq<T>, i: int) {
    0 <= i && i + |p| <= |s| && s[i..i + |p|] == p
  }

  /** `p` occurs somewhere in `s` (Python's `p in s`). */
  ghost predicate Occurs<T>(s: seq<T>, p: seq<T>) {
    exists i :: MatchAt(s, p, i)
  }

  /** `s.find(p)`: the lowest index at which `p` occurs, or -1. */
  function Find<T(==)>(s: seq<T>, p: seq<T>): (r: int)
    ensures -1 <= r <= |s|
    ensures r >= 0 ==> MatchAt(s, p, r)
    ensures r >= 0 ==> forall i | 0 <= i < r :: !MatchAt(s, p, i)
    ensures r == -1 <==> !Occurs(s, p)
  {
    FindSpec(s, p);
    Search(s, p)
  }

  /** The search itself: try index 0, then search the rest one index later. */
  function Search<T(==)>(s: seq<T>, p: seq<T>): int
    decreases |s|
  {
    if |p| <= |s| && s[..|p|] == p then 0
    else if |s| == 0 then -1
    else
      var k := Search(s[1..], p);
      if k == -1 then -1 else k + 1
  }

  /** The search finds the lowest index of a match, and -1 exactly when there
      is none. */
  lemma {:induction false} FindSpec<T>(s: seq<T>, p: seq<T>)
    ensures -1 <= Search(s, p) <= |s|
    ensures Search(s, p) >= 0 ==> MatchAt(s, p, Search(s, p))
    ensures Search(s, p) >= 0 ==> forall i | 0 <= i < Search(s, p) :: !MatchAt(s, p, i)
    ensures Search(s, p) == -1 <==> !Occurs(s, p)
    decreases |s|
  {
    if |p| <= |s| && s[..|p|] == p {
      assert MatchAt(s, p, 0);
    } else if |s| > 0 {
      assert !MatchAt(s, p, 0);
      FindSpec(s[1..], p);
      MatchSuffix(s, p, 1);
      var k := Search(s[1..], p);
      if k == -1 {
        forall i | 1 <= i
          ensures !MatchAt(s, p, i)
        {
          assert !MatchAt(s[1..], p, i - 1);
        }
      } else {
        assert MatchAt(s, p, k + 1);
      }
    }
  }

  /** Python's index normalisation for a slice bound over a length-`n`
      sequence: negative bounds count from the end, then clamp to `[0, n]`. */
  function Clamp(i: int, n: nat): (r: nat)
    ensures r <= n
    ensures 0 <= i <= n ==> r == i
    ensures i < 0 ==> r == if i + n < 0 then 0 else i + n
    ensures i > n ==> r == n
  {
    if i < 0 then (if i + n < 0 then 0 else i + n)
    else if i > n then n
    else i
  }

  /** `s[i:j]` for a string or a list. */
  function Slice<T>(s: seq<T>, i: int, j: int): (r: seq<T>)
    ensures 0 <= i <= j <= |s| ==> r == s[i..j]
    ensures j <= i && (0 <= j || i < 0) && (i <= |s| || j > |s|) ==> r == []
    ensures |r| <= |s|
  {
    var a := Clamp(i, |s|);
    var b := Clamp(j, |s|);
    if a < b then s[a..b] else []
  }

  /** `s[i:]`. */
  function Suffix<T>(s: seq<T>, i: int): (r: seq<T>)
    ensures 0 <= i <= |s| ==> r == s[i..]
    ensures i > |s| ==> r == []
    ensures i == -1 ==> r == if |s| == 0 then [] else [s[|s| - 1]]
  {
    Slice(s, i, |s|)
  }

  /** `s.find(p, start)`: CPython normalises `start` like a slice bound and
      returns -1 when `start` lies beyond the end. */
  function FindFrom<T(==)>(s: seq<T>, p: seq<T>, start: int): (r: int)
    ensures r == -1 || (Clamp(start, |s|) <= r && MatchAt(s, p, r))
    ensures r >= 0 ==> forall i | Clamp(start, |s|) <= i < r :: !MatchAt(s, p, i)
    ensures start <= |s| && r == -1 ==> forall i | Clamp(start, |s|) <= i :: !MatchAt(s, p, i)
  {
    if start > |s| then -1
    else
      MatchSuffix(s, p, Clamp(start, |s|));
      SearchFrom(s, p, start)
  }

  /** The search from `start`: a search of the suffix, shifted back. */
  function SearchFrom<T(==)>(s: seq<T>, p: seq<T>, start: int): int
    requires start <= |s|
  {
    var a := Clamp(start, |s|);
    var k := Find(s[a..], p);
    if k == -1 then -1 else a + k
  }

  /** A match in `s` at or after `a` is a match in `s[a..]`, `a` indices
      earlier. */
  lemma MatchSuffix<T>(s: seq<T>, p: seq<T>, a: nat)
    requires a <= |s|
    ensures forall i | a <= i :: MatchAt(s, p, i) <==> MatchAt(s[a..], p, i - a)
  {
    forall i | a <= i
      ensures MatchAt(s, p, i) <==> MatchAt(s[a..], p, i - a)
    {
      if i + |p| <= |s| {
        assert s[a..][i - a..i - a + |p|] == s[i..i + |p|];
      }
    }
  }

  /** `sep.join(xs)`, the inverse of `split`. */
  function Join(xs: seq<string>, sep: string): string
  {
    if |xs| == 0 then ""
    else if |xs| == 1 then xs[0]
    else xs[0] + sep + Join(xs[1..], sep)
  }

  /** `s.split(sep)` for a non-empty separator: cuts at the non-overlapping
      occurrences of `sep`, scanning left to right. */
  function Split(s: string, sep: string): (r: seq<string>)
    requires |sep| > 0
    ensures |r| >= 1
    ensures Join(r, sep) == s
    ensures forall k | 0 <= k < |r| :: !Occurs(r[k], sep)
  {
    SplitSpec(s, sep);
    Cuts(s, sep)
  }

  /** The cutting itself: the text before the first occurrence, then the cuts
      of the text after it. */
  function Cuts(s: string, sep: string): seq<string>
    requires |sep| > 0
    decreases |s|
  {
    var k := Find(s, sep);
    if k == -1 then [s]
    else [s[..k]] + Cuts(s[k + |sep|..], sep)
  }

  /** The cuts rejoin to the text, and no cut holds the separator. */
  lemma {:induction false} SplitSpec(s: string, sep: string)
    requires |sep| > 0
    ensures |Cuts(s, sep)| >= 1
    ensures Join(Cuts(s, sep), sep) == s
    ensures forall k | 0 <= k < |Cuts(s, sep)| :: !Occurs(Cuts(s, sep)[k], sep)
    decreases |s|
  {
    var k := Find(s, sep);
    if k != -1 {
      var rest := s[k + |sep|..];
      var tail := Cuts(rest, sep);
      SplitSpec(rest, sep);
      CutsFirst(s, sep, k);
      JoinCons(s[..k], tail, sep);
      CutAround(s, sep, k);
      PrefixBeforeFirstMatch(s, sep, k);
      forall j | 0 < j < |Cuts(s, sep)| ensures !Occurs(Cuts(s, sep)[j], sep) {
        assert Cuts(s, sep)[j] == tail[j - 1];
      }
    }
  }

  /** Joining a piece in front of at least one more. */
  lemma JoinCons(x: string, xs: seq<string>, sep: string)
    requires |xs| >= 1
    ensures Join([x] + xs, sep) == x + sep + Join(xs, sep)
  {
    assert ([x] + xs)[1..] == xs;
  }

  /** A text around a match of `p` at `k`. */
  lemma CutAround<T>(s: seq<T>, p: seq<T>, k: int)
    requires MatchAt(s, p, k)
    ensures s == s[..k] + p + s[k + |p|..]
  {
  }

  /** The text before the first occurrence of `p` contains no occurrence. */
  lemma PrefixBeforeFirstMatch<T>(s: seq<T>, p: seq<T>, k: nat)
    requires k <= |s| && |p| > 0
    requires forall i | 0 <= i < k :: !MatchAt(s, p, i)
    ensures !Occurs(s[..k], p)
  {
    forall i | MatchAt(s[..k], p, i)
      ensures false
    {
      assert s[..k][i..i + |p|] == s[i..i + |p|];
      assert MatchAt(s, p, i);
    }
  }

  /** Number of occurrences of `c` in `s`. */
  function Count(s: string, c: char): nat
  {
    if |s| == 0 then 0
    else Count(s[..|s| - 1], c) + (if s[|s| - 1] == c then 1 else 0)
  }

  /** Python's `str.isspace` for one character: the characters that
      `str.strip()` and `int()` remove. */
  predicate IsSpace(c: char) {
    c == ' ' || c == '\t' || c == '\n' || c == '\r' || c == '\U{0B}' || c == '\U{0C}'
    || ('\U{1C}' <= c <= '\U{1F}') || c == '\U{85}' || c == '\U{A0}' || c == '\U{1680}'
    || ('\U{2000}' <= c <= '\U{200A}') || c == '\U{2028}' || c == '\U{2029}'
    || c == '\U{202F}' || c == '\U{205F}' || c == '\U{3000}'
  }

  /** Every character of `s` is whitespace (vacuously so for ""). */
  predicate IsBlank(s: string) {
    forall k | 0 <= k < |s| :: IsSpace(s[k])
  }

  /** `s.lstrip()`. */
  function LStrip(s: string): (r: string)
    ensures |r| <= |s| && r == s[|s| - |r|..]
    ensures |r| > 0 ==> !IsSpace(r[0])
    ensures forall k | 0 <= k < |s| - |r| :: IsSpace(s[k])
  {
    LStripSpec(s);
    LStripped(s)
  }

  function LStripped(s: string): string
  {
    if |s| > 0 && IsSpace(s[0]) then LStripped(s[1..]) else s
  }

  lemma {:induction false} LStripSpec(s: string)
    ensures |LStripped(s)| <= |s| && LStripped(s) == s[|s| - |LStripped(s)|..]
    ensures |LStripped(s)| > 0 ==> !IsSpace(LStripped(s)[0])
    ensures forall k | 0 <= k < |s| - |LStripped(s)| :: IsSpace(s[k])
  {
    if |s| > 0 && IsSpace(s[0]) {
      LStripSpec(s[1..]);
      var r := LStripped(s[1..]);
      assert s[1..][|s| - 1 - |r|..] == s[|s| - |r|..];
    }
  }

  /** `s.rstrip()`. */
  function RStrip(s: string): (r: string)
    ensures |r| <= |s| && r == s[..|r|]
    ensures |r| > 0 ==> !IsSpace(r[|r| - 1])
    ensures forall k | |r| <= k < |s| :: IsSpace(s[k])
  {
    RStripSpec(s);
    RStripped(s)
  }

  function RStripped(s: string): string
  {
    if |s| > 0 && IsSpace(s[|s| - 1]) then RStripped(s[..|s| - 1]) else s
  }

  lemma {:induction false} RStripSpec(s: string)
    ensures |RStripped(s)| <= |s| && RStripped(s) == s[..|RStripped(s)|]
    ensures |RStripped(s)| > 0 ==> !IsSpace(RStripped(s)[|RStripped(s)| - 1])
    ensures forall k | |RStripped(s)| <= k < |s| :: IsSpace(s[k])
  {
    if |s| > 0 && IsSpace(s[|s| - 1]) {
      RStripSpec(s[..|s| - 1]);
      var r := RStripped(s[..|s| - 1]);
      assert s[..|s| - 1][..|r|] == s[..|r|];
    }
  }

  /** `s.strip()`. */
  function Strip(s: string): string
  {
    RStrip(LStrip(s))
  }

  /** `s.strip() == ''` exactly when `s` is all whitespace. */
  lemma StripEmptyIffBlank(s: string)
    ensures Strip(s) == "" <==> IsBlank(s)
  {
  }

  /** Stripping text without leading or trailing whitespace is the identity. */
  lemma StripUnspaced(s: string)
    requires forall k | 0 <= k < |s| :: !IsSpace(s[k])
    ensures Strip(s) == s
  {
  }

  /** `s.replace(c, '')` for a one-character `c`. */
  function RemoveChar(s: string, c: char): (r: string)
    ensures c !in r
    ensures |r| == |s| - Count(s, c)
    ensures forall d | d != c :: Count(r, d) == Count(s, d)
  {
    RemoveSpec(s, c);
    Removed(s, c)
  }

  function Removed(s: string, c: char): string
  {
    if |s| == 0 then ""
    else Removed(s[..|s| - 1], c) + (if s[|s| - 1] == c then "" else [s[|s| - 1]])
  }

  lemma {:induction false} RemoveSpec(s: string, c: char)
    ensures c !in Removed(s, c)
    ensures |Removed(s, c)| == |s| - Count(s, c)
    ensures forall d | d != c :: Count(Removed(s, c), d) == Count(s, d)
  {
    if |s| > 0 {
      var init := s[..|s| - 1];
      var x := s[|s| - 1];
      var kept := if x == c then "" else [x];
      assert Removed(s, c) == Removed(init, c) + kept;
      RemoveSpec(init, c);
      forall d | d != c ensures Count(Removed(s, c), d) == Count(s, d) {
        CountConcat(Removed(init, c), kept, d);
        CountSingle(x, d);
      }
    }
  }

  /** `Count` of a one-character string. */
  lemma CountSingle(x: char, d: char)
    ensures Count([x], d) == if x == d then 1 else 0
  {
    assert [x][..0] == [];
  }

  /** A text without `c` is unchanged by removing `c`. */
  lemma RemoveAbsent(s: string, c: char)
    requires c !in s
    ensures RemoveChar(s, c) == s
  {
    if |s| > 0 {
      var init := s[..|s| - 1];
      assert c !in init;
      RemoveAbsent(init, c);
      assert RemoveChar(s, c) == RemoveChar(init, c) + [s[|s| - 1]];
      InitLast(s);
    }
  }

  /** A non-empty sequence is its initial part followed by its last element. */
  lemma InitLast<T>(s: seq<T>)
    requires |s| > 0
    ensures s[..|s| - 1] + [s[|s| - 1]] == s
  {
  }

  /** No character of `x` equals the first character of `p`, so no occurrence
      of `p` can start inside `x`: searching `x + t` finds what searching `t`
      finds, `|x|` later. */
  lemma FindSkipFirst(x: string, t: string, p: string)
    requires |p| > 0 && p[0] !in x
    ensures Find(x + t, p) == if Find(t, p) == -1 then -1 else |x| + Find(t, p)
  {
    var s := x + t;
    forall i | 0 <= i < |x|
      ensures !MatchAt(s, p, i)
    {
      MatchChar(s, p, i, 0);
    }
    MatchSuffix(s, p, |x|);
    assert s[|x|..] == t;
    var k := Find(t, p);
    if k == -1 {
      forall i ensures !MatchAt(s, p, i) {
        if i >= |x| {
          assert !MatchAt(t, p, i - |x|);
        }
      }
    } else {
      assert MatchAt(s, p, |x| + k);
      forall i | 0 <= i < |x| + k
        ensures !MatchAt(s, p, i)
      {
        if i >= |x| {
          assert !MatchAt(t, p, i - |x|);
        }
      }
    }
  }

  /** Each character of a match equals the matched pattern's. */
  lemma MatchChar<T>(s: seq<T>, p: seq<T>, i: int, j: int)
    requires 0 <= j < |p|
    ensures MatchAt(s, p, i) ==> s[i + j] == p[j]
  {
    if MatchAt(s, p, i) {
      assert s[i..i + |p|][j] == s[i + j];
    }
  }

  /** `t` starts with `p`, `p` does not occur in `x`, and the last character
      of `p` does not occur earlier in `p`: no occurrence of `p` can begin in
      `x`, not even one running into `t`, so the first occurrence in `x + t`
      is the one at `|x|`. */
  lemma FindAfterClean(x: string, t: string, p: string)
    requires |p| > 0 && |p| <= |t| && t[..|p|] == p
    requires !Occurs(x, p) && p[|p| - 1] !in p[..|p| - 1]
    ensures Find(x + t, p) == |x|
  {
    var s := x + t;
    MatchAtJoin(x, t, p);
    var k := Find(s, p);
    if k < |x| {
      NoEarlyMatch(x, t, p, k);
    }
  }

  /** `t` starts with `p`, and `p` does not occur in `x` followed by all but
      the last character of `p`: every earlier occurrence would lie there, so
      the first occurrence in `x + t` is the one at `|x|`. */
  lemma FindFirstMatch(x: string, t: string, p: string)
    requires |p| > 0 && |p| <= |t| && t[..|p|] == p
    requires !Occurs(x + p[..|p| - 1], p)
    ensures Find(x + t, p) == |x|
  {
    var s := x + t;
    MatchAtJoin(x, t, p);
    var k := Find(s, p);
    if k < |x| {
      var y := x + p[..|p| - 1];
      assert s[..|y|] == y by {
        assert t[..|p| - 1] == p[..|p| - 1];
      }
      assert y[k..k + |p|] == s[k..k + |p|];
      assert MatchAt(y, p, k);
    }
  }

  lemma MatchAtJoin(x: string, t: string, p: string)
    requires |p| <= |t| && t[..|p|] == p
    ensures MatchAt(x + t, p, |x|)
  {
    assert (x + t)[|x|..|x| + |p|] == t[..|p|];
  }

  /** A match inside `x` is a match of `x` itself. */
  lemma InnerMatch(x: string, t: string, p: string, i: int)
    requires 0 <= i && i + |p| <= |x|
    ensures MatchAt(x + t, p, i) ==> MatchAt(x, p, i)
  {
    assert (x + t)[i..i + |p|] == x[i..i + |p|];
  }

  lemma NoEarlyMatch(x: string, t: string, p: string, i: int)
    requires |p| > 0 && |p| <= |t| && t[..|p|] == p
    requires !Occurs(x, p) && p[|p| - 1] !in p[..|p| - 1]
    requires 0 <= i < |x|
    ensures !MatchAt(x + t, p, i)
  {
    var s := x + t;
    var j := i + |p| - 1;
    MatchChar(s, p, i, |p| - 1);
    if j < |x| {
      InnerMatch(x, t, p, i);
    } else if j < |s| {
      var m := j - |x|;
      assert s[j] == t[m];
      assert t[m] == t[..|p|][m];
      assert p[..|p| - 1][m] == p[m];
    }
  }

  /** A text that starts with `p` has its first occurrence of `p` at 0. */
  lemma FindPrefix(t: string, p: string)
    requires |p| <= |t| && t[..|p|] == p
    ensures Find(t, p) == 0
  {
  }

  /** Splitting the join of pieces that avoid the separator's first character
      gives the pieces back. */
  lemma {:induction false} SplitJoin(xs: seq<string>, sep: string)
    requires |xs| >= 1 && |sep| > 0
    requires forall k | 0 <= k < |xs| :: sep[0] !in xs[k]
    ensures Split(Join(xs, sep), sep) == xs
    decreases |xs|
  {
    var x := xs[0];
    if |xs| == 1 {
      FindSkipFirst(x, "", sep);
      assert x + "" == x;
    } else {
      var rest := Join(xs[1..], sep);
      var s := x + (sep + rest);
      assert Join(xs, sep) == s;
      FindSkipFirst(x, sep + rest, sep);
      FindPrefix(sep + rest, sep);
      JoinParts(x, sep, rest);
      CutsFirst(s, sep, |x|);
      SplitJoin(xs[1..], sep);
      HeadTail(xs);
    }
  }

  /** The pieces of `x + sep + rest` around the separator. */
  lemma JoinParts(x: string, sep: string, rest: string)
    ensures (x + (sep + rest))[..|x|] == x
    ensures (x + (sep + rest))[|x| + |sep|..] == rest
  {
  }

  /** The cuts of a text whose first separator is at `k`. */
  lemma CutsFirst(s: string, sep: string, k: int)
    requires |sep| > 0 && Find(s, sep) == k >= 0
    ensures Cuts(s, sep) == [s[..k]] + Cuts(s[k + |sep|..], sep)
  {
  }

  /** A non-empty sequence is its head followed by its tail. */
  lemma HeadTail<T>(xs: seq<T>)
    requires |xs| > 0
    ensures [xs[0]] + xs[1..] == xs
  {
  }

  /** Splitting on one character yields one more piece than there are
      occurrences of that character. */
  lemma {:induction false} SplitCharCount(s: string, c: char)
    ensures |Split(s, [c])| == Count(s, c) + 1
    decreases |s|
  {
    var k := Find(s, [c]);
    if k == -1 {
      CountAbsent(s, c);
    } else {
      SplitAtFirstChar(s, c, k);
      SplitCharCount(s[k + 1..], c);
    }
  }

  /** One step of `SplitCharCount`: the first occurrence of `c` starts one
      piece and accounts for one occurrence. */
  lemma SplitAtFirstChar(s: string, c: char, k: int)
    requires k == Find(s, [c]) && k >= 0
    ensures k < |s|
    ensures |Split(s, [c])| == |Split(s[k + 1..], [c])| + 1
    ensures Count(s, c) == Count(s[k + 1..], c) + 1
  {
    FirstChar(s, c, k);
    CountAtFirst(s, c, k);
  }

  /** The count of `c` in a text whose first `c` sits at `k`. */
  lemma CountAtFirst(s: string, c: char, k: int)
    requires 0 <= k < |s| && s[k] == c && c !in s[..k]
    ensures Count(s, c) == Count(s[k + 1..], c) + 1
  {
    var rest := s[k + 1..];
    CountAbsent(s[..k], c);
    Cut(s, k);
    CountConcat(s[..k] + [c], rest, c);
    CountConcat(s[..k], [c], c);
    assert [c][..0] == "";
  }

  /** A text cut around its `k`-th character. */
  lemma Cut(s: string, k: int)
    requires 0 <= k < |s|
    ensures s == s[..k] + [s[k]] + s[k + 1..]
  {
  }

  /** A one-character pattern matches where that character sits. */
  lemma SingleMatch(s: string, c: char, i: int)
    requires 0 <= i < |s|
    ensures MatchAt(s, [c], i) <==> s[i] == c
  {
    assert s[i..i + 1] == [s[i]];
  }

  lemma NoOccursNoChar(s: string, c: char)
    requires !Occurs(s, [c])
    ensures c !in s
  {
    forall i | 0 <= i < |s|
      ensures s[i] != c
    {
      SingleMatch(s, c, i);
    }
  }

  lemma CountAbsent(s: string, c: char)
    requires !Occurs(s, [c]) || c !in s
    ensures Count(s, c) == 0
  {
    if Occurs(s, [c]) {
    } else {
      NoOccursNoChar(s, c);
    }
    if |s| > 0 {
      assert c !in s[..|s| - 1];
      CountAbsent(s[..|s| - 1], c);
    }
  }

  lemma {:induction false} CountConcat(a: string, b: string, c: char)
    ensures Count(a + b, c) == Count(a, c) + Count(b, c)
    decreases |b|
  {
    if |b| == 0 {
      assert a + b == a;
    } else {
      assert (a + b)[..|a + b| - 1] == a + b[..|b| - 1];
      CountConcat(a, b[..|b| - 1], c);
    }
  }

  /** For a one-character pattern, `find` gives the first index holding that
      character, and -1 exactly when the character is absent. */
  lemma FindChar(s: string, c: char)
    ensures Find(s, [c]) == -1 <==> c !in s
    ensures Find(s, [c]) >= 0 ==> Find(s, [c]) < |s| && s[Find(s, [c])] == c && c !in s[..Find(s, [c])]
  {
    if c in s {
      CharOccurs(s, c);
    }
    if Find(s, [c]) >= 0 {
      FirstChar(s, c, Find(s, [c]));
    }
  }

  lemma CharOccurs(s: string, c: char)
    requires c in s
    ensures Occurs(s, [c])
  {
    var i :| 0 <= i < |s| && s[i] == c;
    SingleMatch(s, c, i);
  }

  lemma FirstChar(s: string, c: char, k: int)
    requires k == Find(s, [c]) && k >= 0
    ensures k < |s| && s[k] == c && c !in s[..k]
  {
    SingleMatch(s, c, k);
    forall i | 0 <= i < k
      ensures s[i] != c
    {
      SingleMatch(s, c, i);
    }
    NotInPrefix(s, c, k);
  }

  /** A character absent from the first `k` positions is not in `s[..k]`. */
  lemma NotInPrefix(s: string, c: char, k: int)
    requires 0 <= k <= |s|
    requires forall i | 0 <= i < k :: s[i] != c
    ensures c !in s[..k]
  {
    forall i | 0 <= i < k
      ensures s[..k][i] != c
    {
    }
  }
}
