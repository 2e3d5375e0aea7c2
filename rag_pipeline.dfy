/**
 The extractive answer selector of the bot (`generate_answer`): from the chunks the
 retriever returned, take the sentence that shares the most lower-case words with the
 question.
 */
module RagPipeline {
  import opened Text
  import opened ReSplit

  const NotFoundMessage: string := "Answer not found in the uploaded PDF."
  const NotClearMessage: string := "Relevant answer not clearly found."

  /** A sentence survives when it is longer than this after stripping. */
  const MinSentenceLength: nat := 20

  /** `" ".join(retrieved_chunks[:2])`: the first two chunks, joined by one space. */
  function Combine(chunks: seq<string>): string
  {
    if chunks == [] then [] else if |chunks| == 1 then chunks[0] else chunks[0] + " " + chunks[1]
  }

  /** `[s.strip() for s in re.split(r'(?<=[.!?]) +', text) if len(s.strip()) > 20]` */
  function Sentences(text: string): seq<string>
  {
    KeepStripped(Pieces(SentenceBreak, text), MinSentenceLength)
  }

  /** Each cut is a non-empty run of ' ' characters (no tab, no newline) that directly
      follows `.`, `!` or `?`, and the run is maximal: the text after it does not start
      with a space. */
  lemma SentenceCutsAfterPunctuation(text: string, k: nat)
    requires k < |Separators(SentenceBreak, text)|
    ensures var r, sep := Spans(SentenceBreak, text), Separators(SentenceBreak, text)[k];
      && 0 < r[k].hi && IsTerminal(text[r[k].hi - 1])
      && sep != [] && (forall c :: c in sep ==> c == ' ')
      && (r[k + 1].lo == |text| || text[r[k + 1].lo] != ' ')
  {
    SeparatorIsMatch(SentenceBreak, text, k);
    var r := Spans(SentenceBreak, text);
    var h := r[k].hi;
    assert r[k + 1].lo == SpaceRunEnd(text, h);
  }

  /** No piece contains a cut point: inside a piece, `.`, `!` and `?` are never directly
      followed by a space. */
  lemma SentencePiecesUncut(text: string, k: nat)
    requires k < |Pieces(SentenceBreak, text)|
    ensures var piece := Pieces(SentenceBreak, text)[k];
      forall j :: 0 < j < |piece| ==> !(IsTerminal(piece[j - 1]) && piece[j] == ' ')
  {
    PieceHasNoMatch(SentenceBreak, text, k);
    var r := Spans(SentenceBreak, text);
    var piece := Pieces(SentenceBreak, text)[k];
    forall j | 0 < j < |piece| ensures !(IsTerminal(piece[j - 1]) && piece[j] == ' ') {
      var x := r[k].lo + j;
      assert MatchLen(SentenceBreak, text, x) == 0;
      assert piece[j - 1] == text[x - 1] && piece[j] == text[x];
    }
  }

  /** Every surviving sentence is a contiguous part of the text it was cut from, has no
      surrounding whitespace and is longer than 20 characters. */
  lemma SentencesAreInfixes(text: string)
    ensures forall y :: y in Sentences(text) ==> IsInfix(y, text) && Stripped(y) && |y| > MinSentenceLength
  {
    var ps := Pieces(SentenceBreak, text);
    var r := Spans(SentenceBreak, text);
    KeepStrippedFrom(ps, MinSentenceLength);
    forall y | y in Sentences(text) ensures IsInfix(y, text) {
      var i :| 0 <= i < |ps| && y == Strip(ps[i]);
      PieceHasNoMatch(SentenceBreak, text, i);
      InfixAtTrans(y, ps[i], text, StripStart(ps[i]), r[i].lo);
    }
  }

  /** `len(question_words & set(sentence.lower().split()))` */
  function Overlap(questionWords: set<string>, sentence: string): nat
  {
    |questionWords * WordSet(sentence)|
  }

  /** The overlap of every sentence with the question, in order. */
  function Overlaps(questionWords: set<string>, sentences: seq<string>): (scores: seq<nat>)
    ensures |scores| == |sentences|
    ensures forall j :: 0 <= j < |sentences| ==> scores[j] == Overlap(questionWords, sentences[j])
  {
    seq(|sentences|, j requires 0 <= j < |sentences| => Overlap(questionWords, sentences[j]))
  }

  /** `k` holds a largest score, and every score before it is smaller. */
  predicate IsFirstMax(scores: seq<nat>, k: nat) {
    && k < |scores|
    && (forall j :: 0 <= j < |scores| ==> scores[j] <= scores[k])
    && (forall j :: 0 <= j < k ==> scores[j] < scores[k])
  }

  /** The first index of a largest score. */
  function FirstMax(scores: seq<nat>): (k: nat)
    requires scores != []
    ensures IsFirstMax(scores, k)
    decreases |scores|
  {
    if |scores| == 1 then 0
    else
      var k := 1 + FirstMax(scores[1..]);
      assert scores[k] == scores[1..][k - 1];
      assert forall j :: 1 <= j < |scores| ==> scores[j] == scores[1..][j - 1];
      if scores[0] >= scores[k] then 0 else k
  }

  /** At most one index is the first of a largest score. */
  lemma FirstMaxUnique(scores: seq<nat>, k: nat)
    requires IsFirstMax(scores, k)
    ensures FirstMax(scores) == k
  {
  }

  /** What `generate_answer(retrieved_chunks, question)` returns. When every sentence has
      overlap 0, the first sentence of largest overlap is the first sentence, which is the
      source's fallback. */
  function Answer(retrievedChunks: seq<string>, question: string): string
  {
    if retrievedChunks == [] then NotFoundMessage
    else
      var sentences := Sentences(Combine(retrievedChunks));
      if sentences == [] then NotClearMessage
      else sentences[FirstMax(Overlaps(WordSet(question), sentences))]
  }

  /** `generate_answer`: no chunks, no surviving sentence, or the sentence chosen by
      `SelectSentence`. */
  method GenerateAnswer(retrievedChunks: seq<string>, question: string) returns (answer: string)
    // Follows from the next clause; spelled out so the early return reads off the contract.
    ensures retrievedChunks == [] ==> answer == NotFoundMessage
    ensures answer == Answer(retrievedChunks, question)
  {
    if retrievedChunks == [] {
      return NotFoundMessage;
    }
    var combinedText := Combine(retrievedChunks);
    var sentences := Sentences(combinedText);
    if sentences == [] {
      return NotClearMessage;
    }
    var questionWords := WordSet(question);
    answer := SelectSentence(sentences, questionWords);
  }

  /** The loop of `generate_answer`: keep the first sentence whose overlap beats every
      earlier one, then fall back to the first sentence when none had any overlap. The
      result is the first sentence of largest overlap. */
  method SelectSentence(sentences: seq<string>, questionWords: set<string>) returns (answer: string)
    requires sentences != []
    requires forall s :: s in sentences ==> s != [] && Stripped(s)
    ensures answer == sentences[FirstMax(Overlaps(questionWords, sentences))]
  {
    ghost var scores := Overlaps(questionWords, sentences);
    var bestSentence := "";
    var maxOverlap := 0;
    ghost var best := 0;
    for i := 0 to |sentences|
      invariant maxOverlap == 0 ==> bestSentence == "" && best == 0
      invariant maxOverlap > 0 ==> best < i && bestSentence == sentences[best] && maxOverlap == scores[best]
      invariant forall j :: 0 <= j < i ==> scores[j] <= maxOverlap
      invariant forall j :: 0 <= j < best ==> scores[j] < maxOverlap
    {
      var overlap := Overlap(questionWords, sentences[i]);
      assert overlap == scores[i];
      if overlap > maxOverlap {
        maxOverlap := overlap;
        bestSentence := sentences[i];
        best := i;
      }
    }
    if bestSentence != "" {
      FirstMaxUnique(scores, best);
      assert sentences[best] in sentences;
      StripStripped(bestSentence);
      return Strip(bestSentence);
    }
    assert maxOverlap == 0;
    FirstMaxUnique(scores, 0);
    assert sentences[0] in sentences;
    StripStripped(sentences[0]);
    return Strip(sentences[0]);
  }

  /** Only the first two retrieved chunks matter: changing or adding chunks after them
      does not change the answer. */
  lemma AnswerIgnoresLaterChunks(chunks1: seq<string>, chunks2: seq<string>, question: string)
    requires |chunks1| >= 2 && |chunks2| >= 2
    requires chunks1[0] == chunks2[0] && chunks1[1] == chunks2[1]
    ensures Answer(chunks1, question) == Answer(chunks2, question)
  {
  }

  /** When no piece is longer than 20 characters after stripping, the answer is the
      "not clearly found" message. */
  lemma AnswerWhenNoSentenceSurvives(chunks: seq<string>, question: string)
    requires chunks != []
    requires forall piece :: piece in Pieces(SentenceBreak, Combine(chunks)) ==> |Strip(piece)| <= MinSentenceLength
    ensures Answer(chunks, question) == NotClearMessage
  {
    KeepStrippedEmpty(Pieces(SentenceBreak, Combine(chunks)), MinSentenceLength);
  }

  /** Otherwise the answer is one of the surviving sentences: a stripped, contiguous part
      of the first two chunks joined by a space, longer than 20 characters. */
  lemma AnswerIsSurvivingSentence(chunks: seq<string>, question: string)
    requires chunks != []
    requires exists piece :: piece in Pieces(SentenceBreak, Combine(chunks)) && |Strip(piece)| > MinSentenceLength
    ensures var answer := Answer(chunks, question);
      && answer in Sentences(Combine(chunks))
      && Stripped(answer) && |answer| > MinSentenceLength
      && IsInfix(answer, Combine(chunks))
  {
    KeepStrippedEmpty(Pieces(SentenceBreak, Combine(chunks)), MinSentenceLength);
    SentencesAreInfixes(Combine(chunks));
  }

  /** The answer's overlap with the question is at least that of every surviving sentence,
      and every sentence before it has a strictly smaller overlap: ties go to the earliest. */
  lemma AnswerIsFirstBest(chunks: seq<string>, question: string)
    requires chunks != [] && Sentences(Combine(chunks)) != []
    ensures var sentences, answer, words := Sentences(Combine(chunks)), Answer(chunks, question), WordSet(question);
      && (forall s :: s in sentences ==> Overlap(words, s) <= Overlap(words, answer))
      && exists k :: 0 <= k < |sentences| && sentences[k] == answer
           && forall j :: 0 <= j < k ==> Overlap(words, sentences[j]) < Overlap(words, answer)
  {
    var sentences, words := Sentences(Combine(chunks)), WordSet(question);
    FirstMaxOverlap(words, sentences);
    assert Answer(chunks, question) == sentences[FirstMax(Overlaps(words, sentences))];
  }

  /** The first largest score, read back as overlaps of sentences. */
  lemma FirstMaxOverlap(words: set<string>, sentences: seq<string>)
    requires sentences != []
    ensures var k := FirstMax(Overlaps(words, sentences));
      && (forall s :: s in sentences ==> Overlap(words, s) <= Overlap(words, sentences[k]))
      && forall j :: 0 <= j < k ==> Overlap(words, sentences[j]) < Overlap(words, sentences[k])
  {
    var scores := Overlaps(words, sentences);
    var k := FirstMax(scores);
    forall s | s in sentences ensures Overlap(words, s) <= Overlap(words, sentences[k]) {
      var j :| 0 <= j < |sentences| && sentences[j] == s;
      assert scores[j] <= scores[k];
    }
  }

  /** When no sentence shares a word with the question, the answer is the first one. */
  lemma AnswerFallsBackToFirstSentence(chunks: seq<string>, question: string)
    requires chunks != [] && Sentences(Combine(chunks)) != []
    requires forall s :: s in Sentences(Combine(chunks)) ==> Overlap(WordSet(question), s) == 0
    ensures Answer(chunks, question) == Sentences(Combine(chunks))[0]
  {
    var sentences, words := Sentences(Combine(chunks)), WordSet(question);
    FirstMaxNoOverlap(words, sentences);
    assert Answer(chunks, question) == sentences[FirstMax(Overlaps(words, sentences))];
  }

  lemma FirstMaxNoOverlap(words: set<string>, sentences: seq<string>)
    requires sentences != []
    requires forall s :: s in sentences ==> Overlap(words, s) == 0
    ensures FirstMax(Overlaps(words, sentences)) == 0
  {
    var scores := Overlaps(words, sentences);
    forall j | 0 <= j < |sentences| ensures scores[j] == 0 {
      assert sentences[j] in sentences;
    }
    FirstMaxUnique(scores, 0);
  }
}
