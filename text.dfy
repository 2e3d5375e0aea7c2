/**
 Python `str` operations used by the bot, over an ASCII character model:
 `isspace`, `lower`, `capitalize`, `strip`, `split()` (no argument) and the
 `[s.strip() for s in xs if len(s.strip()) > n]` comprehension.
 */
module Text {

  /** Python's whitespace restricted to ASCII: space, \t \n \v \f \r (the range \t..\r) and the
      four information separators \x1c..\x1f, all of which `str.isspace` accepts. */
  predicate IsSpace(c: char) {
    c == ' ' || ('\t' <= c <= '\r') || ('\U{001C}' <= c <= '\U{001F}')
  }

  /** A word character for the regex `\b`: a letter, a digit or `_`. */
  predicate IsWordChar(c: char) {
    ('a' <= c <= 'z') || ('A' <= c <= 'Z') || ('0' <= c <= '9') || c == '_'
  }

  predicate IsUpper(c: char) { 'A' <= c <= 'Z' }

  predicate IsLower(c: char) { 'a' <= c <= 'z' }

  function LowerChar(c: char): (d: char)
    ensures !IsUpper(d)
    ensures !IsUpper(c) ==> d == c
    ensures IsSpace(d) == IsSpace(c) && IsWordChar(d) == IsWordChar(c)
  {
    if IsUpper(c) then (c as int + 32) as char else c
  }

  function UpperChar(c: char): (d: char)
    ensures !IsLower(d)
    ensures !IsLower(c) ==> d == c
    ensures IsSpace(d) == IsSpace(c) && IsWordChar(d) == IsWordChar(c)
  {
    if IsLower(c) then (c as int - 32) as char else c
  }

  /** Upper-casing a character depends only on its lower-case form. */
  lemma UpperOfLower(c: char)
    ensures UpperChar(LowerChar(c)) == UpperChar(c)
  {
  }

  /** `str.lower()` */
  function Lower(s: string): (r: string)
    ensures |r| == |s|
    ensures forall i :: 0 <= i < |s| ==> r[i] == LowerChar(s[i])
  {
    seq(|s|, i requires 0 <= i < |s| => LowerChar(s[i]))
  }

  /** `str.capitalize()`: the first character upper-cased, every other one lower-cased. */
  function Capitalize(s: string): (r: string)
    ensures |r| == |s|
    ensures |s| > 0 ==> r[0] == UpperChar(s[0])
    ensures forall i :: 0 < i < |s| ==> r[i] == LowerChar(s[i])
  {
    if s == [] then [] else [UpperChar(s[0])] + Lower(s[1..])
  }

  /** Capitalizing ignores the case the question was typed in. */
  lemma CapitalizeIgnoresCase(s: string, t: string)
    requires Lower(s) == Lower(t)
    ensures Capitalize(s) == Capitalize(t)
  {
    if s != [] {
      assert LowerChar(s[0]) == Lower(s)[0] == Lower(t)[0] == LowerChar(t[0]);
      UpperOfLower(s[0]);
      UpperOfLower(t[0]);
      forall i | 0 < i < |s| ensures Capitalize(s)[i] == Capitalize(t)[i] {
        assert Lower(s)[i] == Lower(t)[i];
      }
    }
  }

  /** Capitalizing twice is capitalizing once. */
  lemma CapitalizeIdempotent(s: string)
    ensures Capitalize(Capitalize(s)) == Capitalize(s)
  {
    var c := Capitalize(s);
    if s != [] {
      assert UpperChar(UpperChar(s[0])) == UpperChar(s[0]);
      forall i | 0 < i < |s| ensures Capitalize(c)[i] == c[i] {
        assert LowerChar(LowerChar(s[i])) == LowerChar(s[i]);
      }
    }
  }

  /** Every character of `s` is whitespace. */
  predicate IsBlank(s: string) {
    forall i :: 0 <= i < |s| ==> IsSpace(s[i])
  }

  /** `s` has no leading and no trailing whitespace. */
  predicate Stripped(s: string) {
    s == [] || (!IsSpace(s[0]) && !IsSpace(s[|s| - 1]))
  }

  /** Index of the first non-whitespace character at or after `i`, or `|s|`. */
  function SkipSpace(s: string, i: nat): (j: nat)
    requires i <= |s|
    ensures i <= j <= |s|
    ensures forall k :: i <= k < j ==> IsSpace(s[k])
    ensures j < |s| ==> !IsSpace(s[j])
    decreases |s| - i
  {
    if i < |s| && IsSpace(s[i]) then SkipSpace(s, i + 1) else i
  }

  /** Index just past the last non-whitespace character of `s[lo..j]`, or `lo`. */
  function SkipSpaceBack(s: string, lo: nat, j: nat): (k: nat)
    requires lo <= j <= |s|
    ensures lo <= k <= j
    ensures forall x :: k <= x < j ==> IsSpace(s[x])
    ensures k > lo ==> !IsSpace(s[k - 1])
    decreases j
  {
    if j > lo && IsSpace(s[j - 1]) then SkipSpaceBack(s, lo, j - 1) else j
  }

  /** Where the stripped text starts and ends. */
  function StripStart(s: string): nat { SkipSpace(s, 0) }

  function StripEnd(s: string): (e: nat)
    ensures StripStart(s) <= e <= |s|
  {
    SkipSpaceBack(s, StripStart(s), |s|)
  }

  /** `str.strip()`: drop the leading, then the trailing whitespace. */
  function Strip(s: string): (r: string)
    ensures Stripped(r)
    ensures r == [] <==> IsBlank(s)
    ensures InfixAt(r, s, StripStart(s))
  {
    var lo, hi := StripStart(s), StripEnd(s);
    assert lo < |s| ==> lo < hi;
    s[lo..hi]
  }

  /** `s` is its stripped form with blank padding on either side. */
  lemma StripPadding(s: string)
    ensures IsBlank(s[..StripStart(s)]) && IsBlank(s[StripEnd(s)..])
    ensures s == s[..StripStart(s)] + Strip(s) + s[StripEnd(s)..]
  {
    var lo, hi := StripStart(s), StripEnd(s);
    assert s == s[..lo] + s[lo..hi] + s[hi..];
  }

  /** `strip` returns exactly the part between blank padding, when that part is stripped. */
  lemma StripBetweenBlanks(w1: string, r: string, w2: string)
    requires IsBlank(w1) && IsBlank(w2) && Stripped(r)
    ensures Strip(w1 + r + w2) == r
  {
    var s := w1 + r + w2;
    if r == [] {
      assert IsBlank(s) by {
        forall i | 0 <= i < |s| ensures IsSpace(s[i]) {
          if i < |w1| { assert s[i] == w1[i]; } else { assert s[i] == w2[i - |w1|]; }
        }
      }
    } else {
      var a, b := |w1|, |w1| + |r|;
      assert s[a] == r[0] && s[b - 1] == r[|r| - 1];
      assert forall i :: 0 <= i < a ==> s[i] == w1[i];
      assert forall i :: b <= i < |s| ==> s[i] == w2[i - b];
      assert StripStart(s) == a;
      assert StripEnd(s) == b;
      assert s[a..b] == r;
    }
  }

  /** A string without surrounding whitespace is left alone by `strip`. */
  lemma StripStripped(s: string)
    requires Stripped(s)
    ensures Strip(s) == s
  {
    StripBetweenBlanks([], s, []);
    assert [] + s + [] == s;
  }

  /** `strip` is idempotent. */
  lemma StripIdempotent(s: string)
    ensures Strip(Strip(s)) == Strip(s)
  {
    StripStripped(Strip(s));
  }

  /** Whitespace added on either side does not change what `strip` returns. */
  lemma StripIgnoresPadding(w1: string, s: string, w2: string)
    requires IsBlank(w1) && IsBlank(w2)
    ensures Strip(w1 + s + w2) == Strip(s)
  {
    var u1, u2 := s[..StripStart(s)], s[StripEnd(s)..];
    StripPadding(s);
    BlankConcat(w1, u1);
    BlankConcat(u2, w2);
    var r := Strip(s);
    calc {
      w1 + s + w2;
      w1 + (u1 + r + u2) + w2;
      { ConcatAssoc(w1, u1, r, u2, w2); }
      (w1 + u1) + r + (u2 + w2);
    }
    StripBetweenBlanks(w1 + u1, Strip(s), u2 + w2);
  }

  lemma ConcatAssoc(a: string, b: string, c: string, d: string, e: string)
    ensures a + (b + c + d) + e == (a + b) + c + (d + e)
  {
  }

  lemma BlankConcat(a: string, b: string)
    requires IsBlank(a) && IsBlank(b)
    ensures IsBlank(a + b)
  {
    forall i | 0 <= i < |a + b| ensures IsSpace((a + b)[i]) {
      if i >= |a| { assert (a + b)[i] == b[i - |a|]; }
    }
  }

  /** `a` occurs in `b` starting at index `i`. */
  predicate InfixAt(a: string, b: string, i: nat) {
    i + |a| <= |b| && b[i..i + |a|] == a
  }

  /** `a` is a contiguous substring of `b`. */
  ghost predicate IsInfix(a: string, b: string) {
    exists i: nat :: InfixAt(a, b, i)
  }

  lemma InfixAtTrans(a: string, b: string, c: string, i: nat, j: nat)
    requires InfixAt(a, b, i) && InfixAt(b, c, j)
    ensures InfixAt(a, c, i + j)
  {
    forall k | 0 <= k < |a| ensures c[i + j + k] == a[k] {
      assert a[k] == b[i + k] == c[j + i + k];
    }
    assert c[i + j..i + j + |a|] == a;
  }

  /** End of the run of non-whitespace characters that starts at `i`. */
  function SkipToken(s: string, i: nat): (j: nat)
    requires i <= |s|
    ensures i <= j <= |s|
    ensures forall k :: i <= k < j ==> !IsSpace(s[k])
    ensures j < |s| ==> IsSpace(s[j])
    decreases |s| - i
  {
    if i < |s| && !IsSpace(s[i]) then SkipToken(s, i + 1) else i
  }

  /** `str.split()` with no separator: the maximal runs of non-whitespace characters of
      `s[i..]`, in order. */
  function WordsFrom(s: string, i: nat): seq<string>
    requires i <= |s|
    decreases |s| - i
  {
    var start := SkipSpace(s, i);
    if start == |s| then []
    else
      var end := SkipToken(s, start);
      [s[start..end]] + WordsFrom(s, end)
  }

  function Words(s: string): seq<string>
  {
    WordsFrom(s, 0)
  }

  /** `split()` returns the non-empty whitespace-free substrings of `s`, and nothing
      exactly when `s` is blank. The k-th word is the maximal non-whitespace run that
      starts at the k-th word start of `s`, so every run appears, once and in order. */
  lemma WordsAreTokens(s: string)
    ensures Words(s) == [] <==> IsBlank(s)
    ensures forall w :: w in Words(s) ==> w != [] && IsInfix(w, s) && forall k :: 0 <= k < |w| ==> !IsSpace(w[k])
    ensures |Words(s)| == |WordStarts(s)|
    ensures forall k :: 0 <= k < |WordStarts(s)| ==>
      WordStarts(s)[k] < |s| && Words(s)[k] == s[WordStarts(s)[k]..SkipToken(s, WordStarts(s)[k])]
  {
    WordsFromAreTokens(s, 0);
    WordsFromStarts(s, 0);
  }

  /** A word starts at `i`: a non-whitespace character at the start of `s` or right
      after whitespace. */
  predicate IsWordStart(s: string, i: int)
  {
    0 <= i < |s| && !IsSpace(s[i]) && (i == 0 || IsSpace(s[i - 1]))
  }

  /** The word starts of `s[i..]`, found position by position. */
  ghost function WordStartsFrom(s: string, i: nat): seq<nat>
    requires i <= |s|
    decreases |s| - i
  {
    if i == |s| then []
    else (if IsWordStart(s, i) then [i] else []) + WordStartsFrom(s, i + 1)
  }

  ghost function WordStarts(s: string): seq<nat>
  {
    WordStartsFrom(s, 0)
  }

  /** The word starts are listed in increasing order, and they are all of them. */
  lemma WordStartsExact(s: string)
    ensures forall k, l :: 0 <= k < l < |WordStarts(s)| ==> WordStarts(s)[k] < WordStarts(s)[l]
    ensures forall x :: x in WordStarts(s) <==> IsWordStart(s, x)
  {
    WordStartsFromExact(s, 0);
  }

  lemma {:induction false} WordStartsFromExact(s: string, i: nat)
    requires i <= |s|
    ensures forall k, l :: 0 <= k < l < |WordStartsFrom(s, i)| ==> WordStartsFrom(s, i)[k] < WordStartsFrom(s, i)[l]
    ensures forall x :: x in WordStartsFrom(s, i) <==> i <= x && IsWordStart(s, x)
    decreases |s| - i
  {
    if i < |s| {
      WordStartsFromExact(s, i + 1);
      var rest := WordStartsFrom(s, i + 1);
      if IsWordStart(s, i) {
        assert WordStartsFrom(s, i) == [i] + rest;
        forall k, l | 0 <= k < l < |[i] + rest| ensures ([i] + rest)[k] < ([i] + rest)[l] {
          if k == 0 { assert ([i] + rest)[l] == rest[l - 1]; assert rest[l - 1] in rest; }
        }
      } else {
        assert WordStartsFrom(s, i) == rest;
      }
    }
  }

  /** Positions in `[i, j)` that start no word leave the list of word starts unchanged. */
  lemma {:induction false} NoWordStartBetween(s: string, i: nat, j: nat)
    requires i <= j <= |s|
    requires forall x :: i <= x < j ==> !IsWordStart(s, x)
    ensures WordStartsFrom(s, i) == WordStartsFrom(s, j)
    decreases j - i
  {
    if i < j {
      NoWordStartBetween(s, i + 1, j);
    }
  }

  /** From a position that is not inside a word, `WordsFrom` yields the maximal run at each
      word start. */
  lemma {:induction false} WordsFromStarts(s: string, i: nat)
    requires i <= |s|
    requires i == 0 || i == |s| || IsSpace(s[i - 1]) || IsSpace(s[i])
    ensures |WordsFrom(s, i)| == |WordStartsFrom(s, i)|
    ensures forall k :: 0 <= k < |WordStartsFrom(s, i)| ==>
      WordStartsFrom(s, i)[k] < |s| &&
      WordsFrom(s, i)[k] == s[WordStartsFrom(s, i)[k]..SkipToken(s, WordStartsFrom(s, i)[k])]
    decreases |s| - i
  {
    var start := SkipSpace(s, i);
    if start < |s| {
      var end := SkipToken(s, start);
      var w := s[start..end];
      assert WordsFrom(s, i) == [w] + WordsFrom(s, end);
      assert IsWordStart(s, start);
      assert WordStartsFrom(s, start) == [start] + WordStartsFrom(s, start + 1);
      NoWordStartBetween(s, i, start);
      NoWordStartBetween(s, start + 1, end);
      assert WordStartsFrom(s, i) == [start] + WordStartsFrom(s, end);
      WordsFromStarts(s, end);
      WordAtStartCons(s, start, WordsFrom(s, end), WordStartsFrom(s, end), WordsFrom(s, i), WordStartsFrom(s, i));
    } else {
      NoWordStartBetween(s, i, start);
    }
  }

  /** Pairing each word with its start survives putting one more pair in front. */
  lemma WordAtStartCons(s: string, start: nat, ws: seq<string>, st: seq<nat>, ws': seq<string>, st': seq<nat>)
    requires start < |s| && |ws| == |st|
    requires forall k :: 0 <= k < |st| ==> st[k] < |s| && ws[k] == s[st[k]..SkipToken(s, st[k])]
    requires ws' == [s[start..SkipToken(s, start)]] + ws && st' == [start] + st
    ensures |ws'| == |st'|
    ensures forall k :: 0 <= k < |st'| ==> st'[k] < |s| && ws'[k] == s[st'[k]..SkipToken(s, st'[k])]
  {
  }

  lemma {:induction false} WordsFromAreTokens(s: string, i: nat)
    requires i <= |s|
    ensures WordsFrom(s, i) == [] <==> forall k :: i <= k < |s| ==> IsSpace(s[k])
    ensures forall w :: w in WordsFrom(s, i) ==>
      w != [] && IsInfix(w, s) && forall k :: 0 <= k < |w| ==> !IsSpace(w[k])
    decreases |s| - i
  {
    var start := SkipSpace(s, i);
    if start < |s| {
      var end := SkipToken(s, start);
      WordsFromAreTokens(s, end);
      var w := s[start..end];
      assert InfixAt(w, s, start);
      assert WordsFrom(s, i) == [w] + WordsFrom(s, end);
    }
  }

  /** `set(s.lower().split())` */
  function WordSet(s: string): set<string>
  {
    set w | w in Words(Lower(s))
  }

  /** `[x.strip() for x in xs if len(x.strip()) > minLength]` */
  function KeepStripped(xs: seq<string>, minLength: nat): (r: seq<string>)
    ensures |r| <= |xs|
    ensures forall y :: y in r ==> |y| > minLength && Stripped(y)
  {
    if xs == [] then []
    else
      var y := Strip(xs[0]);
      (if |y| > minLength then [y] else []) + KeepStripped(xs[1..], minLength)
  }

  /** The comprehension yields nothing exactly when no stripped element is long enough. */
  lemma {:induction false} KeepStrippedEmpty(xs: seq<string>, minLength: nat)
    ensures KeepStripped(xs, minLength) == [] <==> forall x :: x in xs ==> |Strip(x)| <= minLength
  {
    if xs != [] {
      KeepStrippedEmpty(xs[1..], minLength);
      assert forall x :: x in xs <==> x == xs[0] || x in xs[1..];
    }
  }

  /** The comprehension distributes over concatenation, so it keeps the input's order. */
  lemma {:induction false} KeepStrippedAppend(xs: seq<string>, ys: seq<string>, minLength: nat)
    ensures KeepStripped(xs + ys, minLength) == KeepStripped(xs, minLength) + KeepStripped(ys, minLength)
  {
    if xs != [] {
      assert (xs + ys)[0] == xs[0];
      assert (xs + ys)[1..] == xs[1..] + ys;
      KeepStrippedAppend(xs[1..], ys, minLength);
      var y := Strip(xs[0]);
      var h := if |y| > minLength then [y] else [];
      assert KeepStripped(xs + ys, minLength) == h + KeepStripped(xs[1..] + ys, minLength);
      assert KeepStripped(xs, minLength) == h + KeepStripped(xs[1..], minLength);
    } else {
      assert xs + ys == ys;
    }
  }

  /** Cutting the input in two cuts the output in two. */
  lemma {:induction false} KeepStrippedSplit(xs: seq<string>, n: nat, minLength: nat)
    requires n <= |xs|
    ensures KeepStripped(xs, minLength) == KeepStripped(xs[..n], minLength) + KeepStripped(xs[n..], minLength)
  {
    assert xs[..n] + xs[n..] == xs;
    KeepStrippedAppend(xs[..n], xs[n..], minLength);
  }

  lemma {:induction false} KeepStrippedPair(x: string, y: string, minLength: nat)
    ensures KeepStripped([x, y], minLength)
      == (if |Strip(x)| > minLength then [Strip(x)] else []) + (if |Strip(y)| > minLength then [Strip(y)] else [])
  {
    assert [x, y][1..] == [y];
    assert [y][1..] == [];
  }

  /** Each kept element is the stripped form of some input element. */
  lemma {:induction false} KeepStrippedFrom(xs: seq<string>, minLength: nat)
    ensures forall y :: y in KeepStripped(xs, minLength) ==> exists i :: 0 <= i < |xs| && y == Strip(xs[i])
  {
    if xs != [] {
      KeepStrippedFrom(xs[1..], minLength);
      forall y | y in KeepStripped(xs[1..], minLength) ensures exists i :: 0 <= i < |xs| && y == Strip(xs[i]) {
        var i :| 0 <= i < |xs[1..]| && y == Strip(xs[1..][i]);
        assert y == Strip(xs[i + 1]);
      }
    }
  }
}
