/**
 Python's `re.split(pattern, s)` for the two patterns the bot uses.

 `re.split` scans `s` from left to right; at each position it tries the pattern, and
 where it matches it cuts, skips the match and resumes scanning after it. Neither
 pattern here matches the empty string, so there are no empty matches to handle. The
 result is a list of spans of `s` (the pieces) separated by the matches.
 */
module ReSplit {
  import opened Text

  datatype Pattern =
    | SentenceBreak   // r'(?<=[.!?]) +'
    | QuestionBreak   // r'\?|\band\b' with re.IGNORECASE

  /** The piece `s[lo..hi]`. */
  datatype Span = Span(lo: nat, hi: nat)

  predicate IsTerminal(c: char) {
    c == '.' || c == '!' || c == '?'
  }

  /** End of the run of space characters (only ' ') that starts at `i`. */
  function SpaceRunEnd(s: string, i: nat): (j: nat)
    requires i <= |s|
    ensures i <= j <= |s|
    ensures forall k :: i <= k < j ==> s[k] == ' '
    ensures j == |s| || s[j] != ' '
    ensures forall c :: c in s[i..j] ==> c == ' '
    decreases |s| - i
  {
    if i < |s| && s[i] == ' ' then SpaceRunEnd(s, i + 1) else i
  }

  /** The regex assertion `\b` at position `i`. */
  predicate AtWordBoundary(s: string, i: nat)
    requires i <= |s|
  {
    (0 < i && IsWordChar(s[i - 1])) != (i < |s| && IsWordChar(s[i]))
  }

  /** `\band\b` under re.IGNORECASE matches at `i`. */
  predicate WholeWordAndAt(s: string, i: nat) {
    && i + 3 <= |s|
    && LowerChar(s[i]) == 'a' && LowerChar(s[i + 1]) == 'n' && LowerChar(s[i + 2]) == 'd'
    && AtWordBoundary(s, i) && AtWordBoundary(s, i + 3)
  }

  /** Length of the match of `p` that starts at `i`, or 0 when `p` does not match there. */
  function MatchLen(p: Pattern, s: string, i: nat): (n: nat)
    requires i < |s|
    ensures i + n <= |s|
  {
    match p
    case SentenceBreak =>
      // the look-behind needs one of . ! ? just before; ' +' is greedy
      if 0 < i && IsTerminal(s[i - 1]) && s[i] == ' ' then SpaceRunEnd(s, i) - i else 0
    case QuestionBreak =>
      // the alternatives are tried in order: '?' first, then a whole-word "and" in any case
      if s[i] == '?' then 1
      else if WholeWordAndAt(s, i) then 3
      else 0
  }

  /** The length of the match at every position of `s` (0 where there is none). A match
      depends only on `s` and its start, look-behind and `\b` included, so the scan can
      read it from this table. Its entries are read through `MatchTableAt`. */
  function MatchTable(p: Pattern, s: string): (m: seq<nat>)
    ensures |m| == |s| && Fits(m)
  {
    forall i | 0 <= i < |s| ensures i + MatchTableFrom(p, s, 0)[i] <= |s| {
      MatchTableFromAt(p, s, 0, i);
    }
    MatchTableFrom(p, s, 0)
  }

  function MatchTableFrom(p: Pattern, s: string, i: nat): (m: seq<nat>)
    requires i <= |s|
    ensures |m| == |s| - i
    decreases |s| - i
  {
    if i == |s| then [] else [MatchLen(p, s, i)] + MatchTableFrom(p, s, i + 1)
  }

  lemma {:induction false} MatchTableFromAt(p: Pattern, s: string, i: nat, j: nat)
    requires i <= j < |s|
    ensures MatchTableFrom(p, s, i)[j - i] == MatchLen(p, s, j)
    decreases j - i
  {
    var rest := MatchTableFrom(p, s, i + 1);
    assert MatchTableFrom(p, s, i) == [MatchLen(p, s, i)] + rest;
    if i < j {
      MatchTableFromAt(p, s, i + 1, j);
      assert rest[j - (i + 1)] == MatchLen(p, s, j);
    }
  }

  lemma MatchTableAt(p: Pattern, s: string, i: nat)
    requires i < |s|
    ensures MatchTable(p, s)[i] == MatchLen(p, s, i)
  {
    MatchTableFromAt(p, s, 0, i);
  }

  /** No match runs past the end of the text. */
  predicate Fits(m: seq<nat>) {
    forall i :: 0 <= i < |m| ==> i + m[i] <= |m|
  }

  /** Consecutive spans are separated by exactly one match. */
  ghost predicate Chained(m: seq<nat>, r: seq<Span>) {
    && (forall k :: 0 <= k < |r| ==> r[k].lo <= r[k].hi <= |m|)
    && (forall k :: 0 <= k < |r| - 1 ==> r[k].hi < |m| && m[r[k].hi] > 0)
    && (forall j, k :: 0 <= j < k < |r| && k == j + 1 ==> r[k].lo == r[j].hi + m[r[j].hi])
  }

  /** The spans cover the text from its start to its end, separated by matches. */
  ghost predicate Tiles(m: seq<nat>, r: seq<Span>) {
    |r| > 0 && r[0].lo == 0 && r[|r| - 1].hi == |m| && Chained(m, r)
  }

  /** No match starts inside a span. */
  ghost predicate NoMatchInside(m: seq<nat>, r: seq<Span>) {
    forall k, x :: 0 <= k < |r| && r[k].lo <= x < r[k].hi && x < |m| ==> m[x] == 0
  }

  lemma NoMatchCons(m: seq<nat>, first: Span, rest: seq<Span>)
    requires forall x :: first.lo <= x < first.hi && x < |m| ==> m[x] == 0
    requires NoMatchInside(m, rest)
    ensures NoMatchInside(m, [first] + rest)
  {
    var r := [first] + rest;
    forall k, x | 0 <= k < |r| && r[k].lo <= x < r[k].hi && x < |m| ensures m[x] == 0 {
      if k > 0 {
        assert r[k] == rest[k - 1];
      }
    }
  }

  /** The left-to-right scan: the current piece started at `start`, and positions
      `start..i` have been tried without a match. */
  function SpansFrom(m: seq<nat>, start: nat, i: nat): (r: seq<Span>)
    requires Fits(m) && start <= i <= |m|
    ensures |r| > 0 && r[0].lo == start && i <= r[0].hi
    decreases |m| - i
  {
    if i == |m| then [Span(start, |m|)]
    else if m[i] > 0 then [Span(start, i)] + SpansFrom(m, i + m[i], i + m[i])
    else SpansFrom(m, start, i + 1)
  }

  lemma ChainCons(m: seq<nat>, first: Span, rest: seq<Span>)
    requires Chained(m, rest) && rest != []
    requires first.lo <= first.hi < |m| && m[first.hi] > 0 && rest[0].lo == first.hi + m[first.hi]
    ensures Chained(m, [first] + rest)
  {
    var r := [first] + rest;
    assert forall k :: 1 <= k < |r| ==> r[k] == rest[k - 1];
    assert first.hi <= |m|;
    forall j, k | 0 <= j < k < |r| && k == j + 1 ensures r[k].lo == r[j].hi + m[r[j].hi] {
      if j > 0 {
        assert r[j] == rest[j - 1] && r[k] == rest[k - 1];
      }
    }
  }

  lemma {:induction false} SpansFromTiles(m: seq<nat>, start: nat, i: nat)
    requires Fits(m) && start <= i <= |m|
    ensures var r := SpansFrom(m, start, i); r[|r| - 1].hi == |m| && Chained(m, r)
    decreases |m| - i
  {
    if i < |m| {
      if m[i] > 0 {
        var j := i + m[i];
        var rest := SpansFrom(m, j, j);
        SpansFromTiles(m, j, j);
        ChainCons(m, Span(start, i), rest);
        assert SpansFrom(m, start, i) == [Span(start, i)] + rest;
        LastOfCons(Span(start, i), rest);
      } else {
        assert SpansFrom(m, start, i) == SpansFrom(m, start, i + 1);
        SpansFromTiles(m, start, i + 1);
      }
    } else {
      assert SpansFrom(m, start, i) == [Span(start, i)];
    }
  }

  lemma LastOfCons(first: Span, rest: seq<Span>)
    requires rest != []
    ensures var r := [first] + rest; r[|r| - 1] == rest[|rest| - 1]
  {
  }

  lemma {:induction false} SpansFromNoMatchInside(m: seq<nat>, start: nat, i: nat)
    requires Fits(m) && start <= i <= |m|
    requires forall x :: start <= x < i ==> m[x] == 0
    ensures NoMatchInside(m, SpansFrom(m, start, i))
    decreases |m| - i
  {
    if i < |m| {
      if m[i] > 0 {
        var j := i + m[i];
        SpansFromNoMatchInside(m, j, j);
        NoMatchCons(m, Span(start, i), SpansFrom(m, j, j));
      } else {
        SpansFromNoMatchInside(m, start, i + 1);
      }
    }
  }

  /** The spans of the pieces `re.split(p, s)` returns. */
  function Spans(p: Pattern, s: string): (r: seq<Span>)
    ensures Tiles(MatchTable(p, s), r) && NoMatchInside(MatchTable(p, s), r)
  {
    var m := MatchTable(p, s);
    SpansFromTiles(m, 0, 0);
    SpansFromNoMatchInside(m, 0, 0);
    SpansFrom(m, 0, 0)
  }

  /** Tiling the text with match-free spans separated by matches determines the spans:
      the left-to-right scan is the only split with these properties. */
  lemma SpansUnique(m: seq<nat>, r1: seq<Span>, r2: seq<Span>)
    requires Tiles(m, r1) && NoMatchInside(m, r1)
    requires Tiles(m, r2) && NoMatchInside(m, r2)
    ensures r1 == r2
  {
    SpansAgreeFrom(m, r1, r2, 0);
    assert r1 == r1[0..] && r2 == r2[0..];
  }

  lemma {:induction false} SpansAgreeFrom(m: seq<nat>, r1: seq<Span>, r2: seq<Span>, k: nat)
    requires Tiles(m, r1) && NoMatchInside(m, r1)
    requires Tiles(m, r2) && NoMatchInside(m, r2)
    requires k < |r1| && k < |r2| && r1[k].lo == r2[k].lo
    ensures r1[k..] == r2[k..]
    decreases |r1| - k
  {
    SpanEndsAgree(m, r1, r2, k);
    if k < |r1| - 1 {
      SpansAgreeFrom(m, r1, r2, k + 1);
      assert r1[k..] == [r1[k]] + r1[k + 1..];
      assert r2[k..] == [r2[k]] + r2[k + 1..];
    }
  }

  /** Two match-free tilings whose `k`-th spans start together end them together, and
      either both stop there or both go on to the same next start. */
  lemma SpanEndsAgree(m: seq<nat>, r1: seq<Span>, r2: seq<Span>, k: nat)
    requires Tiles(m, r1) && NoMatchInside(m, r1)
    requires Tiles(m, r2) && NoMatchInside(m, r2)
    requires k < |r1| && k < |r2| && r1[k].lo == r2[k].lo
    ensures r1[k] == r2[k] && (k == |r1| - 1 <==> k == |r2| - 1)
    ensures k < |r1| - 1 ==> r1[k + 1].lo == r2[k + 1].lo
  {
    var h1, h2 := r1[k].hi, r2[k].hi;
    assert h2 <= h1 by {
      if k < |r1| - 1 {
        assert m[h1] > 0;
        assert !(r2[k].lo <= h1 < r2[k].hi);
      }
    }
    assert h1 <= h2 by {
      if k < |r2| - 1 {
        assert m[h2] > 0;
        assert !(r1[k].lo <= h2 < r1[k].hi);
      }
    }
    assert (k == |r1| - 1) == (k == |r2| - 1) by {
      assert k < |r1| - 1 ==> h1 < |m|;
      assert k < |r2| - 1 ==> h2 < |m|;
    }
  }

  /** Every span lies inside a text of length `n`, and the spans come in order. */
  ghost predicate Ascending(r: seq<Span>, n: nat) {
    && (forall k :: 0 <= k < |r| ==> r[k].lo <= r[k].hi <= n)
    && (forall j, k :: 0 <= j < k < |r| && k == j + 1 ==> r[j].hi <= r[k].lo)
  }

  /** The text of each span. */
  function PiecesOf(s: string, r: seq<Span>): (ps: seq<string>)
    requires Ascending(r, |s|)
    ensures |ps| == |r|
    ensures forall k :: 0 <= k < |r| ==> ps[k] == s[r[k].lo..r[k].hi]
  {
    seq(|r|, k requires 0 <= k < |r| => s[r[k].lo..r[k].hi])
  }

  /** The text between each pair of consecutive spans. */
  function GapsOf(s: string, r: seq<Span>): (gs: seq<string>)
    requires Ascending(r, |s|) && |r| > 0
    ensures |gs| == |r| - 1
    ensures forall k :: 0 <= k < |r| - 1 ==> gs[k] == s[r[k].hi..r[k + 1].lo]
  {
    seq(|r| - 1, k requires 0 <= k < |r| - 1 => s[r[k].hi..r[k + 1].lo])
  }

  /** pieces[0] + seps[0] + pieces[1] + ... + pieces[n] */
  function Interleave(pieces: seq<string>, seps: seq<string>): string
    requires |pieces| == |seps| + 1
    decreases |seps|
  {
    if seps == [] then pieces[0] else pieces[0] + seps[0] + Interleave(pieces[1..], seps[1..])
  }

  lemma {:induction false} InterleaveFrom(s: string, r: seq<Span>, ps: seq<string>, gs: seq<string>, k: nat)
    requires Ascending(r, |s|) && k < |r| && r[|r| - 1].hi == |s|
    requires |ps| == |r| && |gs| == |r| - 1
    requires forall j :: 0 <= j < |r| ==> ps[j] == s[r[j].lo..r[j].hi]
    requires forall j :: 0 <= j < |r| - 1 ==> gs[j] == s[r[j].hi..r[j + 1].lo]
    ensures Interleave(ps[k..], gs[k..]) == s[r[k].lo..]
    decreases |r| - k
  {
    if k == |r| - 1 {
      assert gs[k..] == [];
    } else {
      InterleaveFrom(s, r, ps, gs, k + 1);
      var a, b, c := r[k].lo, r[k].hi, r[k + 1].lo;
      assert ps[k..][1..] == ps[k + 1..] && gs[k..][1..] == gs[k + 1..];
      assert Interleave(ps[k..], gs[k..]) == s[a..b] + s[b..c] + s[c..];
      SliceConcat(s, a, b, c);
    }
  }

  lemma SliceConcat(s: string, a: nat, b: nat, c: nat)
    requires a <= b <= c <= |s|
    ensures s[a..b] + s[b..c] + s[c..] == s[a..]
  {
    assert s[a..b] + s[b..c] == s[a..c];
  }

  lemma TilesAscending(m: seq<nat>, r: seq<Span>)
    requires Tiles(m, r)
    ensures Ascending(r, |m|)
  {
  }

  /** The strings `re.split(p, s)` returns. */
  function Pieces(p: Pattern, s: string): (ps: seq<string>)
  {
    TilesAscending(MatchTable(p, s), Spans(p, s));
    PiecesOf(s, Spans(p, s))
  }

  /** The matched separators `re.split` drops, one between each pair of pieces. */
  function Separators(p: Pattern, s: string): (seps: seq<string>)
  {
    TilesAscending(MatchTable(p, s), Spans(p, s));
    GapsOf(s, Spans(p, s))
  }

  /** The `k`-th separator is the match that ends the `k`-th piece. */
  lemma SeparatorIsMatch(p: Pattern, s: string, k: nat)
    requires k < |Separators(p, s)|
    ensures var r, h := Spans(p, s), Spans(p, s)[k].hi;
      && k + 1 < |r| && h < |s| && MatchLen(p, s, h) > 0
      && r[k + 1].lo == h + MatchLen(p, s, h)
      && Separators(p, s)[k] == s[h..r[k + 1].lo]
  {
    var r, m := Spans(p, s), MatchTable(p, s);
    TilesAscending(m, r);
    var h := r[k].hi;
    assert h < |m| && m[h] > 0;
    MatchTableAt(p, s, h);
    assert r[k + 1].lo == h + m[h];
    assert Separators(p, s) == GapsOf(s, r);
    assert GapsOf(s, r)[k] == s[h..r[k + 1].lo];
  }

  /** Each piece is the text of its span, and no match starts inside it. */
  lemma PieceHasNoMatch(p: Pattern, s: string, k: nat)
    requires k < |Pieces(p, s)|
    ensures var r := Spans(p, s);
      && r[k].lo <= r[k].hi <= |s|
      && Pieces(p, s)[k] == s[r[k].lo..r[k].hi]
      && InfixAt(Pieces(p, s)[k], s, r[k].lo)
      && forall x :: r[k].lo <= x < r[k].hi ==> MatchLen(p, s, x) == 0
  {
    var r, m := Spans(p, s), MatchTable(p, s);
    TilesAscending(m, r);
    forall x | r[k].lo <= x < r[k].hi ensures MatchLen(p, s, x) == 0 {
      assert m[x] == 0;
      MatchTableAt(p, s, x);
    }
  }

  /** What lies at the two ends of a piece: the start of the text or the end of a match
      before it, and the end of the text or the start of a match after it. */
  lemma PieceEdges(p: Pattern, s: string, k: nat)
    requires k < |Pieces(p, s)|
    ensures var r := Spans(p, s);
      && |Pieces(p, s)| == |r|
      && (k == 0 ==> r[k].lo == 0)
      && (k > 0 ==> r[k - 1].hi < |s| && MatchLen(p, s, r[k - 1].hi) > 0
                    && r[k].lo == r[k - 1].hi + MatchLen(p, s, r[k - 1].hi))
      && (k == |r| - 1 ==> r[k].hi == |s|)
      && (k < |r| - 1 ==> r[k].hi < |s| && MatchLen(p, s, r[k].hi) > 0)
  {
    var r, m := Spans(p, s), MatchTable(p, s);
    TilesAscending(m, r);
    if k > 0 {
      var h := r[k - 1].hi;
      assert h < |m| && m[h] > 0 && r[k].lo == h + m[h];
      MatchTableAt(p, s, h);
    }
    if k < |r| - 1 {
      assert r[k].hi < |m| && m[r[k].hi] > 0;
      MatchTableAt(p, s, r[k].hi);
    }
  }

  /** Where the pattern matches nowhere, `re.split` returns the whole text as one piece. */
  lemma NoMatchOnePiece(p: Pattern, s: string)
    requires forall i :: 0 <= i < |s| ==> MatchLen(p, s, i) == 0
    ensures Pieces(p, s) == [s]
  {
    var m, r := MatchTable(p, s), [Span(0, |s|)];
    forall x | 0 <= x < |s| ensures m[x] == 0 {
      MatchTableAt(p, s, x);
    }
    assert Tiles(m, r) && NoMatchInside(m, r);
    SpansUnique(m, Spans(p, s), r);
    assert s[0..|s|] == s;
  }

  /** Where the pattern matches at exactly one place, `re.split` returns the text before
      and the text after that match. */
  lemma OneMatchTwoPieces(p: Pattern, s: string, h: nat)
    requires h < |s| && MatchLen(p, s, h) > 0
    requires forall x :: 0 <= x < |s| && x != h ==> MatchLen(p, s, x) == 0
    ensures Pieces(p, s) == [s[..h], s[h + MatchLen(p, s, h)..]]
  {
    OneMatchSpans(p, s, h);
    TwoPiecesOf(s, h, h + MatchLen(p, s, h));
  }

  lemma OneMatchSpans(p: Pattern, s: string, h: nat)
    requires h < |s| && MatchLen(p, s, h) > 0
    requires forall x :: 0 <= x < |s| && x != h ==> MatchLen(p, s, x) == 0
    ensures Spans(p, s) == [Span(0, h), Span(h + MatchLen(p, s, h), |s|)]
  {
    OneMatchTable(p, s, h);
    TwoSpans(MatchTable(p, s), h, Spans(p, s));
  }

  lemma TwoPiecesOf(s: string, h: nat, e: nat)
    requires h <= e <= |s|
    ensures var r := [Span(0, h), Span(e, |s|)];
      Ascending(r, |s|) && PiecesOf(s, r) == [s[..h], s[e..]]
  {
    var r := [Span(0, h), Span(e, |s|)];
    assert PiecesOf(s, r)[0] == s[0..h] == s[..h];
    assert PiecesOf(s, r)[1] == s[e..|s|] == s[e..];
  }

  lemma OneMatchTable(p: Pattern, s: string, h: nat)
    requires h < |s|
    requires forall x :: 0 <= x < |s| && x != h ==> MatchLen(p, s, x) == 0
    ensures MatchTable(p, s)[h] == MatchLen(p, s, h)
    ensures forall x :: 0 <= x < |s| && x != h ==> MatchTable(p, s)[x] == 0
  {
    forall x | 0 <= x < |s| ensures MatchTable(p, s)[x] == MatchLen(p, s, x) {
      MatchTableAt(p, s, x);
    }
  }

  /** With a single match, at `h`, the only tiling is the text before and after it. */
  lemma TwoSpans(m: seq<nat>, h: nat, r: seq<Span>)
    requires Fits(m) && h < |m| && m[h] > 0
    requires forall x :: 0 <= x < |m| && x != h ==> m[x] == 0
    requires Tiles(m, r) && NoMatchInside(m, r)
    ensures r == [Span(0, h), Span(h + m[h], |m|)]
  {
    var r2 := [Span(0, h), Span(h + m[h], |m|)];
    assert Tiles(m, r2) && NoMatchInside(m, r2);
    SpansUnique(m, r, r2);
  }

  /** Putting the dropped separators back between the pieces restores the input. */
  lemma SplitRestores(p: Pattern, s: string)
    ensures |Pieces(p, s)| == |Separators(p, s)| + 1
    ensures Interleave(Pieces(p, s), Separators(p, s)) == s
  {
    var r := Spans(p, s);
    TilesAscending(MatchTable(p, s), r);
    InterleaveFrom(s, r, PiecesOf(s, r), GapsOf(s, r), 0);
    assert PiecesOf(s, r)[0..] == PiecesOf(s, r);
    assert GapsOf(s, r)[0..] == GapsOf(s, r);
  }
}
