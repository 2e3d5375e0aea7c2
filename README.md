# rag-competitive-exam-bot: answer selection and question handling, in Dafny

The bot answers exam questions from an uploaded PDF. After retrieval, three pure-text steps
remain, and this project models and proves them:

- `generate_answer` (rag_pipeline.py) gets the retrieved chunks and a question. It joins the
  first two chunks with one space and cuts the text into sentences at the spaces after `.`,
  `!` or `?`. It keeps the stripped sentences longer than 20 characters. It returns the
  sentence whose lower-case word set shares the most words with the question's. The model
  is the method `RagPipeline.GenerateAnswer`. Its loop (`RagPipeline.SelectSentence`) is
  proved equal to the function `RagPipeline.Answer`, and the properties are proved about
  that function.
- `split_multiple_questions` (utils.py) cuts a message at every `?` and at every whole-word
  "and" in any case. It strips the fragments and drops the blank ones. The model is
  `Utils.SplitMultipleQuestions`.
- `format_answer_clean` (utils.py) puts the capitalized question and the stripped answer
  into a fixed HTML block. The model is `Utils.FormatAnswerClean`.

Modules:

- `Text` (text.dfy) holds the Python `str` operations used: `isspace`, `lower`,
  `capitalize`, `strip`, `split()`, and the `[s.strip() for s in xs if len(s.strip()) > n]`
  filter.
- `ReSplit` (resplit.dfy) holds `re.split` for the two patterns used.
  - `r'(?<=[.!?]) +'` is `SentenceBreak`.
  - `r'\?|\band\b'` with `re.IGNORECASE` is `QuestionBreak`.
  - The left-to-right scan is `SpansFrom`. It is proved to be the only tiling of the text
    into match-free pieces separated by single matches.
- `RagPipeline` (rag_pipeline.dfy) and `Utils` (utils.dfy) hold the three operations.

Characters are ASCII:

- Whitespace is ' ', `\t` to `\r`, and `\x1c` to `\x1f`, which are the ASCII characters
  `str.isspace` accepts.
- A word character for `\b` is a letter, a digit or `_`.
- `lower` and `capitalize` change only ASCII letters.

## Model

| member | source | states |
|---|---|---|
| RagPipeline.GenerateAnswer | rag_pipeline.py:64-103 | With no chunks the result is exactly "Answer not found in the uploaded PDF.". Otherwise it is `Answer`: "Relevant answer not clearly found." when no sentence survives, else the first surviving sentence of largest overlap. |
| RagPipeline.SelectSentence | rag_pipeline.py:86-103 | The loop replaces its pick only on a strictly greater overlap, and falls back to `sentences[0]` when no overlap is positive. It returns the sentence at the first index of largest overlap. |
| RagPipeline.FirstMax | rag_pipeline.py:91-97 | The chosen index has a largest score, and every earlier index has a strictly smaller one. |
| RagPipeline.AnswerIgnoresLaterChunks | rag_pipeline.py:74 | Two chunk lists that agree on their first two chunks give the same answer. |
| RagPipeline.AnswerWhenNoSentenceSurvives | rag_pipeline.py:77-83 | If no piece of the split is longer than 20 characters after stripping, the answer is "Relevant answer not clearly found.". |
| RagPipeline.AnswerIsSurvivingSentence | rag_pipeline.py:74-103 | Otherwise the answer is one of the surviving sentences. It is stripped, longer than 20 characters, and a contiguous substring of the first two chunks joined by one space. |
| RagPipeline.AnswerIsFirstBest | rag_pipeline.py:86-100 | The answer's overlap with the question is at least that of every surviving sentence. It occurs at an index before which every sentence has a strictly smaller overlap, so ties go to the earliest. |
| RagPipeline.AnswerFallsBackToFirstSentence | rag_pipeline.py:99-103 | When no surviving sentence shares a word with the question, the answer is the first surviving sentence. |
| RagPipeline.SentenceCutsAfterPunctuation | rag_pipeline.py:77 | Every removed separator is a non-empty run of ' ' only. It directly follows `.`, `!` or `?`, and is maximal: the next piece does not start with a space. |
| RagPipeline.SentencePiecesUncut | rag_pipeline.py:77 | Inside a piece, `.`, `!` and `?` are never followed directly by a space. So newlines, tabs and unpunctuated spaces never cut. |
| RagPipeline.SentencesAreInfixes | rag_pipeline.py:74-80 | Every surviving sentence is a contiguous substring of the combined text. It is stripped and longer than 20 characters. |
| ReSplit.SplitRestores | rag_pipeline.py:77 | There is one more piece than separators, and putting the separators back between the pieces restores the input. |
| ReSplit.Spans | utils.py:13 | The pieces of the left-to-right scan tile the text, consecutive pieces are separated by exactly one match, and no match starts inside a piece. |
| ReSplit.SpansUnique | utils.py:13 | These tiling properties determine the split: any two tilings with them are equal. |
| ReSplit.SeparatorIsMatch | utils.py:13 | The k-th separator is the match that starts where the k-th piece ends. |
| ReSplit.PieceHasNoMatch | rag_pipeline.py:77 | Each piece is the text of its span, and the pattern matches at no position inside it. |
| ReSplit.PieceEdges | utils.py:13 | A piece starts at the text's start or right after a match, and ends at the text's end or right before a match. |
| ReSplit.NoMatchOnePiece | utils.py:13 | Where the pattern matches nowhere, `re.split` returns the whole text as its only piece. |
| ReSplit.OneMatchTwoPieces | utils.py:13 | Where the pattern matches at exactly one place, the pieces are the text before and the text after that match. |
| ReSplit.SpaceRunEnd | rag_pipeline.py:77 | The greedy ` +` stops at the first character that is not ' ', and everything it consumes is ' '. |
| Text.Lower | rag_pipeline.py:86 | Same length, and every character is lower-cased. |
| Text.Capitalize | utils.py:24 | Same length. The first character is upper-cased and every later one lower-cased. |
| Text.CapitalizeIgnoresCase | utils.py:24 | Two questions equal up to case capitalize identically. |
| Text.CapitalizeIdempotent | utils.py:24 | Capitalizing twice is capitalizing once. |
| Text.Strip | rag_pipeline.py:80 | The result has no surrounding whitespace. It is empty exactly when the input is blank. It is the input's substring starting at the first non-whitespace character. |
| Text.StripPadding | rag_pipeline.py:80 | The input is its stripped form between two blank strings. |
| Text.StripIdempotent | rag_pipeline.py:100 | Stripping twice is stripping once, so the final `.strip()` leaves a surviving sentence unchanged. |
| Text.StripIgnoresPadding | utils.py:26 | Whitespace added around a string does not change its stripped form. |
| Text.WordsAreTokens | rag_pipeline.py:86 | `split()` returns non-empty substrings with no whitespace, and returns nothing exactly when the text is blank. There is one word per word start, and the k-th word is the maximal non-whitespace run beginning at the k-th word start. |
| Text.WordStartsExact | rag_pipeline.py:86 | The word starts are exactly the non-whitespace positions at the text's start or after whitespace, listed in increasing order. With `WordsAreTokens`, every maximal run is a word, once and in order. |
| Text.KeepStripped | rag_pipeline.py:80 | The filter keeps at most as many elements as it is given. Each kept element is stripped and longer than the bound. |
| Text.KeepStrippedEmpty | rag_pipeline.py:80-83 | The filter yields nothing exactly when no stripped element is longer than the bound. |
| Text.KeepStrippedAppend | utils.py:14 | The filter distributes over concatenation, so it keeps the input order. |
| Text.KeepStrippedFrom | utils.py:14 | Each kept element is the stripped form of some input element. |
| Utils.QuestionFragments | utils.py:13-14 | Each fragment is non-empty, stripped, and free of `?`. Each is a contiguous substring of the message and the stripped form of one piece between delimiters. There are at most as many fragments as delimiter matches plus one. |
| Utils.QuestionsKeepOrder | utils.py:14 | The fragments of the first n pieces come before those of the remaining pieces. |
| Utils.BlankHasNoQuestions | utils.py:13-14 | A blank message gives the empty list. |
| Utils.NoDelimiterOneQuestion | utils.py:13-14 | A non-blank message with no `?` and no whole-word "and" gives exactly one fragment: the stripped message. |
| Utils.SplitFragmentAgain | utils.py:13-14 | Splitting any returned fragment again gives the list holding just that fragment. |
| Utils.FragmentHasNoBreak | utils.py:13-14 | Neither delimiter matches anywhere in a stripped piece, the word boundaries at its edges included. |
| Utils.AndEndingWordDoesNotSplit | utils.py:13 | "band" is one question. |
| Utils.AndStartingWordDoesNotSplit | utils.py:13 | "Android" is one question. |
| Utils.AndPrefixDoesNotSplit | utils.py:13 | "andante" is one question. |
| Utils.WholeWordAndSplits | utils.py:13 | "tea AND cake", "tea And cake" and every other casing of the "and" give "tea" and "cake". |
| Utils.FormatReadBack | utils.py:22-29 | The block is the fixed prefix, the capitalized question, the fixed middle, the stripped answer and the fixed suffix, each read back at its offset. Markup in the question or answer is copied as it is, with no escaping. |
| Utils.FormatInjective | utils.py:22-29 | For questions of equal length, two equal blocks have equal capitalized questions and equal stripped answers. |
| Utils.FormatIgnoresPaddingAndCase | utils.py:22-29 | Whitespace around the answer and the case of the question do not change the block. |

## Left out

- app.py is not part of this model. It is Streamlit page setup, widgets, session state, and the per-question loop that calls the retriever.
- `process_pdf` (rag_pipeline.py:31-58) is left out. It does temporary-file I/O, parses the PDF, and chunks the text with LangChain's splitter, which is foreign code.
- `SimpleRetriever` (rag_pipeline.py:15-25) is left out. It uses TF-IDF vectors and cosine similarity in floating point, and `argsort` leaves the order of tied scores unspecified. The retrieved chunks are a parameter of `GenerateAnswer`.
- Characters are ASCII. Python's Unicode whitespace, such as U+00A0 or U+0085, and Unicode case mapping and `\b` are not modelled.
- The regular-expression engine is modelled only for the two patterns used, through their match functions.
- `GenerateAnswer`: the Python `for sentence in sentences` loop is an index loop. The word sets are the values of `WordSet`, not Python set objects.
- RagPipeline.AnswerWhenNoSentenceSurvives: only this direction holds. A chunk that contains the sentence "Relevant answer not clearly found." makes that sentence survive and be returned, so the message does not prove that nothing survived.
- Utils.FormatInjective: requires questions of equal length. Nothing is escaped, so a question that contains the fixed middle text can move the question/answer boundary. The lengths fix that boundary.
- Escaping: the formatter is meant to produce markup-safe output, with user text escaped or passed through a safe transform. The code does neither. It only capitalizes the question and strips the answer, and the model follows the code (`Utils.FormatReadBack`).
