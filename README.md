# AvaSharp learning dialogue, modelled in Dafny

AvaSharp is a small console program that learns questions and answers from
its user. Each pass of its main loop works in four steps:

1. It asks the stored question it considers most acute. That is the question
   asked most often relative to how many answers it already has.
2. It records the user's line as an answer to that question.
3. It treats the same line as the user's own question. It looks for a stored
   question whose words are similar enough.
4. On a match it counts one more asking and replies with a randomly drawn
   recorded answer. Without a match it stores the line as a new question and
   replies "I don't know."

This project models that core in Dafny and proves properties of the model.
It has five modules:

- `Entities` (`entities.dfy`) models the two records.
  - `Question` is a class, because its asked counter is raised in place.
  - `Answer` is a datatype, because an answer is never changed.
  - Both have their "empty" sentinels, with identifier -1.
- `Tokenizer` (`tokenizer.dfy`) models `BreakSentenceToWords`:
  - lower-casing;
  - the ordered chain of literal `Replace` calls, modelled as a left-to-right, non-overlapping substitution;
  - the split on `' '` that drops empty entries.
- `Similarity` (`similarity.dfy`) models `CompareSentences`.
  - The nested loops are proved against a recursive definition of the length-weighted overlap score.
  - The score's bounds and its threshold test are also proved there.
- `Selection` (`selection.dfy`) models `FindBestMatch`, `GetMostAcuteQuestion`, `GetQuestionAnswers`, `FindAnswer` and `IncrementQuestionCounter`.
  - Both scanning loops are proved against a single specification. `ArgMaxAbove` is the left-to-right scan that moves only on a strictly greater value above a floor.
  - The lemma `ArgMaxAboveCharacterized` identifies that scan as the first maximum above the floor, or -1 when nothing is above it.
- `Dialogue` (`dialogue.dfy`) models `Main`'s loop.
  - The class `Session` holds the two lists.
  - `Turn` is one pass of the loop.
  - `Run` is the loop over a finite sequence of input lines.
  - Each pass's effect is stated on a snapshot of the question list taken before it: what was stored, which counter went up, and which reply was given.
  - The "identifier equals position" numbering of both lists is proved to be kept.

Scores and priorities are exact rationals (`real`).

- The division `0/0`, which yields NaN for an input without words (one with no tokens, such as "?!"), is the score 0. NaN fails every `>` test it is put to, and so does 0 (both tests compare against values that are never below 0).
- `Counter / 0.1` is `10 * Counter`.
- Word lengths are UTF-16 lengths, as `string.Length` counts them: a character outside the Basic Multilingual Plane (an emoji, say) weighs 2 (`Utf16Length`).
- The random draw `rand.Next(n)` is `k % n` for a caller-supplied `k`, so every index is reachable.

An input with no word at all, say "?!", scores 0 against every stored question. It therefore never matches (`WordlessInputNeverMatches`), and each time it is given it is stored again as a new question.

`Responded`, the state a non-empty turn leaves, holds for every list. Where
identifiers are not positions (lists loaded from a file with other numbering),
the counter raised is that of the first question carrying the matched
identifier, as in the source; for numbered lists that is the matched question
itself (`NumberedMatch`). The `Question` objects of the list need not be
distinct: effects are stated per object (`RaisedOnce`), so a question object
that appears twice shows its raised counter at both positions.

## Model

| member | source | states |
|---|---|---|
| Entities.Question.Empty | AvaSharp/Program.cs:222-227 | the sentinel question has identifier -1, empty text and counter 0 |
| Entities.Question.constructor | AvaSharp/Program.cs:229-234 | a new question has the given identifier and text and has been asked once |
| Entities.Question.IncrementCounter | AvaSharp/Program.cs:236-239 | the counter goes up by exactly one; identifier and text are unchanged |
| Tokenizer.ToLower | AvaSharp/Program.cs:201 | definition without a contract: every character lower-cased by `LowerChar`; its properties are `ToLowerNoUpper` |
| Tokenizer.LowerChar | AvaSharp/Program.cs:201 | a lower-cased character is never upper-case; an upper-case letter moves to its lower-case, anything else is kept |
| Tokenizer.ToLowerNoUpper | AvaSharp/Program.cs:201 | lower-casing keeps the length and leaves no upper-case letter |
| Tokenizer.Replace | AvaSharp/Program.cs:202-209 | definition without a contract: the left-to-right, non-overlapping literal substitution; its properties are the `Replace...` lemmas and `DeletionIsWithout` |
| Tokenizer.ReplaceSkips | AvaSharp/Program.cs:202-209 | a prefix in which no occurrence of the pattern starts is copied unchanged, and the replacement continues on the rest |
| Tokenizer.ReplaceAtHead | AvaSharp/Program.cs:202-209 | an occurrence at the front is replaced, and the scan resumes right after it (no overlap) |
| Tokenizer.ReplaceAbsent | AvaSharp/Program.cs:202-209 | a text lacking one of the pattern's characters is not changed |
| Tokenizer.ReplaceChars | AvaSharp/Program.cs:202-209 | every character of a replaced text comes from the text or from the replacement |
| Tokenizer.DeletionIsWithout | AvaSharp/Program.cs:206-209 | replacing a one-character pattern by the empty string equals the reference deletion `Without` |
| Tokenizer.Without | AvaSharp/Program.cs:206-209 | deleting a character leaves none of it, adds no character, and does not lengthen the text |
| Tokenizer.StripPunctuationIsWithout | AvaSharp/Program.cs:206-209 | the four punctuation replacements delete every `?`, `!`, `,` and `.` |
| Tokenizer.Split | AvaSharp/Program.cs:210 | definition without a contract: split on `' '` dropping empty entries; its properties are the `Split...` lemmas |
| Tokenizer.Word | AvaSharp/Program.cs:210 | a word is the longest space-free prefix: it is a prefix, holds no space, and is followed by a space or the end |
| Tokenizer.SplitWordsAreClean | AvaSharp/Program.cs:210 | every entry of the split is non-empty, holds no space, and uses only characters of the text |
| Tokenizer.SplitJoin | AvaSharp/Program.cs:210 | splitting the words joined by single spaces gives the words back, for words that are non-empty and space-free |
| Tokenizer.SplitSpaces | AvaSharp/Program.cs:210 | leading spaces add no entry |
| Tokenizer.SplitWordThen | AvaSharp/Program.cs:210 | a word followed by the end or by a space becomes one entry, and splitting goes on after it |
| Tokenizer.SplitSpaced | AvaSharp/Program.cs:210 | words separated by runs of one or more spaces, with runs of any length before and after, split into exactly those words (the empty entries are removed) |
| Tokenizer.SplitKeepsNonSpaces | AvaSharp/Program.cs:210 | the entries of the split, concatenated, are exactly the non-space characters of the text, in order |
| Tokenizer.ExpandContractions | AvaSharp/Program.cs:202-205 | definition without a contract: the four contraction rewrites in their order; its properties are `ContractionOrderMatters` and `CantAtFront` |
| Tokenizer.StripPunctuation | AvaSharp/Program.cs:206-209 | definition without a contract: the four deletions in their order; its property is `StripPunctuationIsWithout` |
| Tokenizer.Normalize | AvaSharp/Program.cs:202-209 | definition without a contract: the contractions, then the punctuation; its property is `NormalizeChars` |
| Tokenizer.NormalizeChars | AvaSharp/Program.cs:202-209 | after the replacement chain, a character comes from the text or from the replacements, and it is none of the four punctuation marks |
| Tokenizer.BreakSentenceToWords | AvaSharp/Program.cs:198-211 | definition without a contract: lower-case, normalise, split; its properties are `TokensAreClean` and `BreakSentenceExample` |
| Tokenizer.TokensAreClean | AvaSharp/Program.cs:198-211 | every token is non-empty and holds no space, no `?`, `!`, `,`, `.` and no upper-case letter |
| Tokenizer.ContractionOrderMatters | AvaSharp/Program.cs:204-205 | "can't" becomes "cannot" because that rewrite runs before the `n't` rewrite; run first, the latter would give "ca not" |
| Tokenizer.CantAtFront | AvaSharp/Program.cs:202-205 | a leading "can't" followed by a tail without the characters r, v, c and the apostrophe expands to "cannot", and the tail is kept |
| Tokenizer.QuestionBangAtEnd | AvaSharp/Program.cs:206-209 | a trailing "?!" is deleted, and a rest holding none of `?`, `!`, `,` and `.` is kept |
| Tokenizer.BreakSentenceExample | AvaSharp/Program.cs:198-211 | "Can't do THIS?!" yields the tokens "cannot", "do", "this" |
| Similarity.Utf16Length | AvaSharp/Program.cs:184 | `string.Length` in UTF-16 code units lies between the number of characters and twice that |
| Similarity.Utf16LengthBmp | AvaSharp/Program.cs:184 | without characters beyond the Basic Multilingual Plane, the UTF-16 length is the number of characters |
| Similarity.TotalLength | AvaSharp/Program.cs:182-184 | definition without a contract: the sum of the UTF-16 lengths of the input words (`inputMaxScore`) |
| Similarity.WordMatch | AvaSharp/Program.cs:186-191 | definition without a contract: one input word's length once per equal sample word |
| Similarity.MatchWeight | AvaSharp/Program.cs:182-191 | definition without a contract: the sum of `WordMatch` over the input words (`matchScore`) |
| Similarity.Score | AvaSharp/Program.cs:194 | the score is never negative, and it is 0 (the NaN case) when the input has total length 0 |
| Similarity.CompareSentences | AvaSharp/Program.cs:176-195 | the nested loops compute the overlap score: matched length over total input length, lengths in UTF-16 code units |
| Similarity.WordMatchDistinct | AvaSharp/Program.cs:186-191 | against a sample without repeats, a word adds its length if it occurs in the sample and nothing otherwise |
| Similarity.WordMatchPresent | AvaSharp/Program.cs:186-191 | a word that occurs in the sample adds at least its length |
| Similarity.ScoreAtMostOne | AvaSharp/Program.cs:182-194 | against a sample whose words are pairwise distinct, the score is at most 1 |
| Similarity.ScoreCovered | AvaSharp/Program.cs:182-194 | when every input word occurs in the sample and the input's total length is positive, the score is at least 1 |
| Similarity.DuplicateSampleExceedsOne | AvaSharp/Program.cs:186-191 | a repeated sample word counts again: the input ["a"] against the sample ["a", "a"] scores 2 |
| Similarity.ScoreExample | AvaSharp/Program.cs:176-195 | "cannot do this" against "can you do this" scores 1/2 |
| Similarity.SupplementaryWeighsTwo | AvaSharp/Program.cs:184-194 | a word of two emoji weighs 4, so the input [that word, "a"] against the sample [that word] scores 4/5, above the threshold |
| Similarity.EmptyWordsMatchNothing | AvaSharp/Program.cs:182-192 | an input of total length 0 has matched length 0 |
| Similarity.AboveRatio | AvaSharp/Program.cs:161 | "the score is above n/d" is exactly the integer test `d * match > n * total`, the input of total length 0 (no words) included |
| Selection.Highest | AvaSharp/Program.cs:108-123 | the running best (`highestPriority`) is never below its start value, the floor |
| Selection.ArgMaxAbove | AvaSharp/Program.cs:157-167 | the scan returns -1 or an index, and its best value is the floor or the element at that index |
| Selection.ArgMaxAboveExtend | AvaSharp/Program.cs:161-166 | one more element: the scan moves to it exactly when it beats the best so far |
| Selection.ArgMaxAboveCharacterized | AvaSharp/Program.cs:153-167 | the scan returns -1 exactly when no element is above the floor, and otherwise the first index of a maximum, which is above the floor |
| Selection.ArgMaxAboveUnique | AvaSharp/Program.cs:153-167 | the first maximum above the floor is the only index the scan can return |
| Selection.GetQuestionAnswers | AvaSharp/Program.cs:143-146 | definition without a contract: the answers to the question, in list order; its properties are `GetQuestionAnswersMembers` and `GetQuestionAnswersAppend` |
| Selection.GetQuestionAnswersMembers | AvaSharp/Program.cs:143-146 | the filter keeps exactly the answers whose question identifier is the one asked for, and no more entries than the list holds |
| Selection.GetQuestionAnswersAppend | AvaSharp/Program.cs:143-146 | the filter keeps list order: filtering a concatenation concatenates the filtered parts |
| Selection.FindAnswer | AvaSharp/Program.cs:129-140 | the empty answer when no answer belongs to the question, and otherwise a recorded answer to that question, whatever the draw |
| Selection.FindAnswerReachesAll | AvaSharp/Program.cs:136 | every recorded answer to the question is returned by some draw |
| Selection.Priority | AvaSharp/Program.cs:116 | definition without a contract: the counter over the answer count, or over 0.1 without answers; its property is `PriorityMeaning` |
| Selection.PriorityMeaning | AvaSharp/Program.cs:116 | a priority is positive exactly when the counter is; an unanswered question weighs ten times its counter, an answered one its counter per answer |
| Selection.Priorities | AvaSharp/Program.cs:112-116 | one priority per question; what each one is, is `PrioritiesMeaning` |
| Selection.PrioritiesMeaning | AvaSharp/Program.cs:112-116 | question by question, the priority is positive exactly when the counter is, ten times the counter without answers, the counter per answer otherwise |
| Selection.MostAcuteIndex | AvaSharp/Program.cs:108-125 | the chosen index lies within a non-empty list |
| Selection.MostAcuteIndexCharacterized | AvaSharp/Program.cs:108-125 | index 0 when no priority is positive, and otherwise the first index of a maximal priority |
| Selection.AcuteStep | AvaSharp/Program.cs:118-122 | one step of the loop keeps `highestPriority` and `highestPriorityIndex` equal to the scan of the longer prefix |
| Selection.AcuteIndex | AvaSharp/Program.cs:102-126 | the chosen index of a non-empty question list lies within it |
| Selection.GetMostAcuteQuestion | AvaSharp/Program.cs:102-126 | the sentinel for an empty list, and otherwise the question at the most acute index |
| Selection.MatchScores | AvaSharp/Program.cs:159 | one score per stored question, in list order |
| Selection.MatchIndex | AvaSharp/Program.cs:149-173 | the matched position is -1 or the position of a stored question |
| Selection.MatchIndexCharacterized | AvaSharp/Program.cs:153-172 | no match exactly when no stored question scores above 0.75; otherwise the first question with the highest score, which is above 0.75 |
| Selection.BestMatchStep | AvaSharp/Program.cs:161-166 | one step of the loop keeps `bestMatchID` and `bestMatchScore` equal to the scan of the longer prefix |
| Selection.FindBestMatch | AvaSharp/Program.cs:149-173 | the sentinel when nothing matches, and otherwise the stored question at the matched position |
| Selection.KnownWordsAreRecognized | AvaSharp/Program.cs:149-173 | an input with at least one word always matches once a question with the same words is stored |
| Selection.WordlessInputNeverMatches | AvaSharp/Program.cs:161 | an input without words never matches any stored question |
| Selection.FirstIndex | AvaSharp/Program.cs:91-98 | -1 exactly when the value is absent, and otherwise the first index holding it |
| Selection.IncrementQuestionCounter | AvaSharp/Program.cs:89-99 | exactly the first question with the identifier has its counter raised by one; without one, nothing changes; no identifier or text changes |
| Dialogue.ReplyFor | AvaSharp/Program.cs:72-77 | "I don't know." exactly for an answer with a negative identifier (the empty answer among them), and otherwise the answer's text |
| Dialogue.NumberedMatch | AvaSharp/Program.cs:59-67 | in a list numbered by position, a matched question has a nonnegative identifier and is the first one carrying it, so it is the question counted |
| Dialogue.NumberedAnswers | AvaSharp/Program.cs:70-74 | with answers numbered by position, "I don't know." for a known question means it has no recorded answer |
| Dialogue.TurnsFrom | AvaSharp/Program.cs:38-49 | definition without a contract: how many lines the loop handles from line `t` on; its property is `TurnsFromMeaning` |
| Dialogue.TurnsFromMeaning | AvaSharp/Program.cs:38-49 | a run handles exactly the non-empty lines before the first empty one |
| Dialogue.Session.constructor | AvaSharp/Program.cs:34-36 | the session starts from the lists as loaded |
| Dialogue.Session.Store | AvaSharp/Program.cs:59-62 | the line is appended as a new question numbered by the old length and asked once; the old questions are untouched; the numbering is kept |
| Dialogue.Session.Recall | AvaSharp/Program.cs:64-78 | the list is unchanged; only the first question with the identifier is counted once more; the reply is the drawn answer; the numbering is kept |
| Dialogue.Session.Respond | AvaSharp/Program.cs:56-78 | no match (or a match with a negative identifier) stores the line; a match is counted and answered from the current answers |
| Dialogue.Session.Record | AvaSharp/Program.cs:52-53 | the answer list grows by one answer, numbered by the old length, exactly when a question was asked |
| Dialogue.Session.Turn | AvaSharp/Program.cs:41-78 | the question asked is the most acute one; an empty line quits and changes nothing; otherwise the line is recorded as its answer and then answered as a question; the lists only grow; the numbering is kept |
| Dialogue.Session.Run | AvaSharp/Program.cs:38-79 | the loop handles exactly the lines before the first empty one; the lists only grow; the numbering is kept |

## Left out

- Console input and output (`Console.ReadLine`, `Console.WriteLine`) are not modelled. The input line is a parameter, and the reply case (`Quit`, `Learned`, `Unanswered`, `Answered`) is a result.
- The end of input is not modelled: every line is a string. In the source, `ReadLine` then returns null, which is not the empty string (line 48). The null line may be recorded as an answer (line 53). Tokenizing it (line 56, reaching `ToLower` at line 201) throws a null reference exception. Nothing catches it, so the process ends before the lists are saved (lines 82-83).
- XML persistence through the external `NatiTools.xIO` library, and the `File.Exists` checks, are left out as file I/O and foreign calls. The session starts from arbitrary lists.
- `System.Random` is left out as a library generator. The turn takes the draw `k` as a parameter.
- IEEE-754 doubles are not modelled: no NaN, no rounding, no inexact `0.1`. Scores and priorities are exact rationals, and `0/0` is 0, which gives every comparison the same outcome as NaN does.
- Culture-sensitive `string.ToLower` is modelled for ASCII letters only. Other characters are kept as they are.
- The 32-bit integers (`Counter`, identifiers, `Count`) are unbounded in the model. Overflow after 2^31 askings or entries is not modelled.
- The `for (;;)` loop is modelled over a finite sequence of input lines (`Run`), not as an endless read loop.
