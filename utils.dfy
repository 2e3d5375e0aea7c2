/**
 The two text helpers of the bot: splitting one message into several questions, and
 wrapping a question and its answer in the HTML block the chat page shows.
 */
module Utils {
  import opened Text
  import opened ReSplit

  /** `split_multiple_questions`: cut at every `?` and at every whole-word "and" in any
      case, strip the fragments and drop the empty ones. */
  function SplitMultipleQuestions(text: string): seq<string>
  {
    KeepStripped(Pieces(QuestionBreak, text), 0)
  }

  /** Every fragment is a non-empty, stripped piece of the input lying between two
      delimiters, without a `?`; there are at most as many fragments as delimiters plus
      one. */
  lemma {:induction false} QuestionFragments(text: string)
    ensures var qs := SplitMultipleQuestions(text);
      && |qs| <= |Separators(QuestionBreak, text)| + 1
      && forall q :: q in qs ==>
           && q != [] && Stripped(q) && '?' !in q && IsInfix(q, text)
           && exists k :: 0 <= k < |Pieces(QuestionBreak, text)| && q == Strip(Pieces(QuestionBreak, text)[k])
  {
    var ps, r := Pieces(QuestionBreak, text), Spans(QuestionBreak, text);
    SplitRestores(QuestionBreak, text);
    KeepStrippedFrom(ps, 0);
    forall q | q in SplitMultipleQuestions(text) ensures '?' !in q && IsInfix(q, text) {
      var k :| 0 <= k < |ps| && q == Strip(ps[k]);
      FragmentHasNoBreak(text, k);
      NoMatchNoQuestionMark(q);
      PieceHasNoMatch(QuestionBreak, text, k);
      InfixAtTrans(q, ps[k], text, StripStart(ps[k]), r[k].lo);
    }
  }

  lemma {:induction false} NoMatchNoQuestionMark(q: string)
    requires forall i :: 0 <= i < |q| ==> MatchLen(QuestionBreak, q, i) == 0
    ensures '?' !in q
  {
    forall i | 0 <= i < |q| ensures q[i] != '?' {
      assert MatchLen(QuestionBreak, q, i) == 0;
    }
  }

  /** Fragments come out in the order of the pieces they are cut from: the fragments of
      the first `n` pieces come before those of the rest. */
  lemma {:induction false} QuestionsKeepOrder(text: string, n: nat)
    requires n <= |Pieces(QuestionBreak, text)|
    ensures var ps := Pieces(QuestionBreak, text);
      SplitMultipleQuestions(text) == KeepStripped(ps[..n], 0) + KeepStripped(ps[n..], 0)
  {
    KeepStrippedSplit(Pieces(QuestionBreak, text), n, 0);
  }

  /** A blank message holds no question. */
  lemma {:induction false} BlankHasNoQuestions(text: string)
    requires IsBlank(text)
    ensures SplitMultipleQuestions(text) == []
  {
    var ps, r := Pieces(QuestionBreak, text), Spans(QuestionBreak, text);
    forall x | x in ps ensures |Strip(x)| <= 0 {
      var k :| 0 <= k < |ps| && ps[k] == x;
      PieceHasNoMatch(QuestionBreak, text, k);
      InfixOfBlank(x, text, r[k].lo);
    }
    KeepStrippedEmpty(ps, 0);
  }

  lemma {:induction false} InfixOfBlank(x: string, text: string, lo: nat)
    requires InfixAt(x, text, lo) && IsBlank(text)
    ensures IsBlank(x)
  {
    forall i | 0 <= i < |x| ensures IsSpace(x[i]) {
      assert x[i] == text[lo + i];
    }
  }

  /** A message with no `?` and no whole-word "and" is one question: itself, stripped. */
  lemma {:induction false} NoDelimiterOneQuestion(text: string)
    requires '?' !in text
    requires forall i :: 0 <= i < |text| ==> !WholeWordAndAt(text, i)
    requires !IsBlank(text)
    ensures SplitMultipleQuestions(text) == [Strip(text)]
  {
    forall i | 0 <= i < |text| ensures MatchLen(QuestionBreak, text, i) == 0 {
      assert text[i] != '?' by {
        assert text[i] in text;
      }
    }
    NoMatchOneQuestion(text);
  }

  /** Where nothing matches, the only fragment is the stripped message. */
  lemma {:induction false} NoMatchOneQuestion(text: string)
    requires forall i :: 0 <= i < |text| ==> MatchLen(QuestionBreak, text, i) == 0
    requires !IsBlank(text)
    ensures SplitMultipleQuestions(text) == [Strip(text)]
  {
    NoMatchOnePiece(QuestionBreak, text);
    var ps := Pieces(QuestionBreak, text);
    assert ps[1..] == [];
    assert KeepStripped(ps, 0) == [Strip(text)] + KeepStripped([], 0);
  }

  /** Splitting a fragment again gives back just that fragment. */
  lemma {:induction false} SplitFragmentAgain(text: string, q: string)
    requires q in SplitMultipleQuestions(text)
    ensures SplitMultipleQuestions(q) == [q]
  {
    var ps := Pieces(QuestionBreak, text);
    KeepStrippedFrom(ps, 0);
    var k :| 0 <= k < |ps| && q == Strip(ps[k]);
    FragmentHasNoBreak(text, k);
    StripStripped(q);
    NoMatchOneQuestion(q);
  }

  /** No word runs across position `i` of `s`: the characters on both sides of it are
      not both word characters. */
  predicate NotInsideWord(s: string, i: nat) {
    !(0 < i < |s| && IsWordChar(s[i - 1]) && IsWordChar(s[i]))
  }

  /** No delimiter survives in a fragment. A whole-word "and" inside the stripped piece
      would also be one in the text, inside the piece, where the scan found none: at the
      piece's edges the text has whitespace, a `?`, or a word boundary that an "and"
      match ending or starting there guarantees. */
  lemma {:induction false} FragmentHasNoBreak(text: string, k: nat)
    requires k < |Pieces(QuestionBreak, text)|
    ensures var q := Strip(Pieces(QuestionBreak, text)[k]);
      forall i :: 0 <= i < |q| ==> MatchLen(QuestionBreak, q, i) == 0
  {
    var piece, r := Pieces(QuestionBreak, text)[k], Spans(QuestionBreak, text);
    PieceHasNoMatch(QuestionBreak, text, k);
    PieceEdges(QuestionBreak, text, k);
    var lo, hi := r[k].lo, r[k].hi;
    if k > 0 {
      AfterSeparator(text, r[k - 1].hi, lo);
    }
    if k < |r| - 1 {
      BeforeSeparator(text, hi);
    }
    StrippedFragment(text, piece, lo);
  }

  /** The stripped form of a match-free piece of the text whose edges lie outside words
      holds no delimiter. */
  lemma {:induction false} StrippedFragment(text: string, piece: string, lo: nat)
    requires InfixAt(piece, text, lo)
    requires forall x :: lo <= x < lo + |piece| ==> MatchLen(QuestionBreak, text, x) == 0
    requires NotInsideWord(text, lo) && NotInsideWord(text, lo + |piece|)
    ensures var q := Strip(piece);
      forall i :: 0 <= i < |q| ==> MatchLen(QuestionBreak, q, i) == 0
  {
    var q := Strip(piece);
    var a := lo + StripStart(piece);
    InfixAtTrans(q, piece, text, StripStart(piece), lo);
    StripKeepsWordEdges(text, piece, lo);
    forall i | 0 <= i < |q| ensures MatchLen(QuestionBreak, q, i) == 0 {
      NoMatchCarriesOver(text, q, a, i);
    }
  }

  /** A delimiter of a fragment whose edges lie outside words is one of the text too. */
  lemma {:induction false} NoMatchCarriesOver(text: string, q: string, a: nat, i: nat)
    requires InfixAt(q, text, a) && i < |q|
    requires NotInsideWord(text, a) && NotInsideWord(text, a + |q|)
    requires MatchLen(QuestionBreak, text, a + i) == 0
    ensures MatchLen(QuestionBreak, q, i) == 0
  {
    assert text[a + i] == q[i];
    if q[i] != '?' && WholeWordAndAt(q, i) {
      AndCarriesOver(text, q, a, i);
    }
  }

  /** Stripping a piece whose edges lie outside words leaves edges outside words: what
      the strip removes is whitespace. */
  lemma {:induction false} StripKeepsWordEdges(text: string, piece: string, lo: nat)
    requires InfixAt(piece, text, lo)
    requires NotInsideWord(text, lo) && NotInsideWord(text, lo + |piece|)
    ensures var a := lo + StripStart(piece);
      NotInsideWord(text, a) && NotInsideWord(text, a + |Strip(piece)|)
  {
    var st, e := StripStart(piece), StripEnd(piece);
    assert |Strip(piece)| == e - st;
    if st > 0 {
      assert IsSpace(piece[st - 1]) && text[lo + st - 1] == piece[st - 1];
    }
    if e < |piece| {
      assert IsSpace(piece[e]) && text[lo + e] == piece[e];
    }
  }

  /** A whole-word "and" of a fragment whose edges lie outside words is one of the text. */
  lemma {:induction false} AndCarriesOver(text: string, q: string, a: nat, i: nat)
    requires InfixAt(q, text, a) && WholeWordAndAt(q, i)
    requires NotInsideWord(text, a) && NotInsideWord(text, a + |q|)
    ensures WholeWordAndAt(text, a + i)
  {
    assert forall j :: 0 <= j < |q| ==> text[a + j] == q[j];
    assert IsWordChar(q[i]) && IsWordChar(q[i + 2]);
  }

  /** Right after a delimiter match no word runs on. */
  lemma {:induction false} AfterSeparator(text: string, h: nat, lo: nat)
    requires h < |text| && MatchLen(QuestionBreak, text, h) > 0 && lo == h + MatchLen(QuestionBreak, text, h)
    ensures NotInsideWord(text, lo)
  {
    if text[h] != '?' {
      assert WholeWordAndAt(text, h);
      assert AtWordBoundary(text, lo);
    }
  }

  /** Right before a delimiter match no word runs on. */
  lemma {:induction false} BeforeSeparator(text: string, hi: nat)
    requires hi < |text| && MatchLen(QuestionBreak, text, hi) > 0
    ensures NotInsideWord(text, hi)
  {
    if text[hi] != '?' {
      assert WholeWordAndAt(text, hi);
      assert AtWordBoundary(text, hi);
    }
  }

  /** "and" inside a word does not split, whatever its case: "band", "Android" and
      "andante" are one question each. */
  lemma {:induction false} AndEndingWordDoesNotSplit(text: string)
    requires text == "band"
    ensures SplitMultipleQuestions(text) == [text]
  {
    assert text[0] == 'b' && text[1] == 'a' && text[2] == 'n' && text[3] == 'd';
    InsideWordOneQuestion(text, 1);
  }

  lemma {:induction false} AndStartingWordDoesNotSplit(text: string)
    requires text == "Android"
    ensures SplitMultipleQuestions(text) == [text]
  {
    assert text[0] == 'A' && text[1] == 'n' && text[2] == 'd' && text[3] == 'r';
    assert text[4] == 'o' && text[5] == 'i' && text[6] == 'd';
    InsideWordOneQuestion(text, 0);
  }

  lemma {:induction false} AndPrefixDoesNotSplit(text: string)
    requires text == "andante"
    ensures SplitMultipleQuestions(text) == [text]
  {
    assert text[0] == 'a' && text[1] == 'n' && text[2] == 'd' && text[3] == 'a';
    assert text[4] == 'n' && text[5] == 't' && text[6] == 'e';
    InsideWordOneQuestion(text, 0);
  }

  /** A whole-word "and" splits, whatever its case: "tea AND cake", "tea And cake" and
      the other spellings all give "tea" and "cake". */
  lemma {:induction false} WholeWordAndSplits(andWord: string)
    requires |andWord| == 3 && LowerChar(andWord[0]) == 'a' && LowerChar(andWord[1]) == 'n' && LowerChar(andWord[2]) == 'd'
    ensures SplitMultipleQuestions("tea " + andWord + " cake") == ["tea", "cake"]
  {
    AndBetweenWords(andWord);
    StripTeaAndCake("tea ", " cake");
  }

  lemma {:induction false} AndBetweenWords(andWord: string)
    requires |andWord| == 3 && LowerChar(andWord[0]) == 'a' && LowerChar(andWord[1]) == 'n' && LowerChar(andWord[2]) == 'd'
    ensures Pieces(QuestionBreak, "tea " + andWord + " cake") == ["tea ", " cake"]
  {
    var text := "tea " + andWord + " cake";
    assert text[0] == 't' && text[1] == 'e' && text[2] == 'a' && text[3] == ' ';
    assert text[4] == andWord[0] && text[5] == andWord[1] && text[6] == andWord[2];
    assert text[7] == ' ' && text[8] == 'c' && text[9] == 'a' && text[10] == 'k' && text[11] == 'e';
    assert IsWordChar(text[4]) && IsWordChar(text[6]);
    assert MatchLen(QuestionBreak, text, 4) == 3;
    OneMatchTwoPieces(QuestionBreak, text, 4);
    assert text[..4] == "tea " && text[7..] == " cake";
  }

  lemma {:induction false} StripTeaAndCake(tea: string, cake: string)
    requires tea == "tea " && cake == " cake"
    ensures KeepStripped([tea, cake], 0) == ["tea", "cake"]
  {
    assert tea == "tea" + " " && cake == " " + "cake";
    StripWordThenSpace("tea");
    StripSpaceThenWord("cake");
    KeepStrippedPair(tea, cake, 0);
  }

  lemma {:induction false} StripWordThenSpace(w: string)
    requires w != [] && Stripped(w)
    ensures Strip(w + " ") == w
  {
    assert [] + w + " " == w + " ";
    StripBetweenBlanks([], w, " ");
  }

  lemma {:induction false} StripSpaceThenWord(w: string)
    requires w != [] && Stripped(w)
    ensures Strip(" " + w) == w
  {
    assert " " + w + [] == " " + w;
    StripBetweenBlanks(" ", w, []);
  }

  /** A stripped message without `?` whose only "and" (at `j`) runs on into a word is
      one question. */
  lemma {:induction false} InsideWordOneQuestion(text: string, j: nat)
    requires '?' !in text && text != [] && Stripped(text)
    requires j + 3 <= |text| && !(AtWordBoundary(text, j) && AtWordBoundary(text, j + 3))
    requires forall i :: 0 <= i < |text| && i != j ==>
      !(LowerChar(text[i]) == 'a' && i + 2 < |text| && LowerChar(text[i + 1]) == 'n' && LowerChar(text[i + 2]) == 'd')
    ensures SplitMultipleQuestions(text) == [text]
  {
    StripStripped(text);
    NoDelimiterOneQuestion(text);
  }

  const Prefix: string := "\n    <div class=\"qa-block\">\n        <div class=\"question-title\">\U{2753} "
  const Middle: string := "</div>\n        <div class=\"answer-content\">\n            "
  const Suffix: string := "\n        </div>\n    </div>\n    "

  /** `format_answer_clean`: the capitalized question and the stripped answer, in a
      fixed HTML block; neither is escaped. */
  function FormatAnswerClean(question: string, answer: string): string
  {
    Prefix + Capitalize(question) + Middle + Strip(answer) + Suffix
  }

  /** The block can be read back: cutting away the fixed text around them gives the
      capitalized question and the stripped answer, character for character, so markup
      in either reaches the page unescaped. */
  lemma {:induction false} FormatReadBack(question: string, answer: string)
    ensures var html := FormatAnswerClean(question, answer);
      var q0, a0 := |Prefix|, |Prefix| + |question| + |Middle|;
      && |html| == a0 + |Strip(answer)| + |Suffix|
      && html[..q0] == Prefix
      && html[q0..q0 + |question|] == Capitalize(question)
      && html[q0 + |question|..a0] == Middle
      && html[a0..a0 + |Strip(answer)|] == Strip(answer)
      && html[a0 + |Strip(answer)|..] == Suffix
  {
    FiveParts(Prefix, Capitalize(question), Middle, Strip(answer), Suffix);
  }

  /** Cutting a concatenation of five strings at the lengths of its parts. */
  lemma {:induction false} FiveParts(a: string, b: string, c: string, d: string, e: string)
    ensures var s := a + b + c + d + e;
      var i, j, k, l := |a|, |a| + |b|, |a| + |b| + |c|, |a| + |b| + |c| + |d|;
      && |s| == l + |e|
      && s[..i] == a && s[i..j] == b && s[j..k] == c && s[k..l] == d && s[l..] == e
  {
    var s := a + b + c + d + e;
    var i, j, k, l := |a|, |a| + |b|, |a| + |b| + |c|, |a| + |b| + |c| + |d|;
    assert s == (((a + b) + c) + d) + e;
    assert s[..l] == ((a + b) + c) + d;
    assert s[..k] == (a + b) + c;
    assert s[..j] == a + b;
    assert s[..i] == a;
    assert s[i..j] == s[..j][i..];
    assert s[j..k] == s[..k][j..];
    assert s[k..l] == s[..l][k..];
  }

  /** Two blocks with questions of the same length are equal only when their capitalized
      questions and stripped answers are. */
  lemma {:induction false} FormatInjective(q1: string, a1: string, q2: string, a2: string)
    requires |q1| == |q2|
    requires FormatAnswerClean(q1, a1) == FormatAnswerClean(q2, a2)
    ensures Capitalize(q1) == Capitalize(q2) && Strip(a1) == Strip(a2)
  {
    FormatReadBack(q1, a1);
    FormatReadBack(q2, a2);
  }

  /** Whitespace around the answer and the case the question was typed in do not show. */
  lemma {:induction false} FormatIgnoresPaddingAndCase(q1: string, q2: string, w1: string, answer: string, w2: string)
    requires Lower(q1) == Lower(q2) && IsBlank(w1) && IsBlank(w2)
    ensures FormatAnswerClean(q1, w1 + answer + w2) == FormatAnswerClean(q2, answer)
  {
    StripIgnoresPadding(w1, answer, w2);
    CapitalizeIgnoresCase(q1, q2);
  }
}
