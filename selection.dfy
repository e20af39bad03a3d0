/**
  The selection policy: which question to ask next (`GetMostAcuteQuestion`),
  which stored question an input is (`FindBestMatch`), which recorded answer
  to give (`GetQuestionAnswers`, `FindAnswer`), and the raising of a
  question's asked counter (`IncrementQuestionCounter`).
 */
module Selection {
  import opened Entities
  import opened Tokenizer
  import opened Similarity

  /** A stored question matches only when its score is strictly above this. */
  const MatchScoreRequired: real := 0.75

  // ---------------------------------------------------------------------------
  // The first strict maximum above a floor
  // ---------------------------------------------------------------------------

  /** The largest of `floor` and the elements of `s`. */
  function Highest(s: seq<real>, floor: real): (h: real)
    ensures h >= floor
  {
    if s == [] then floor
    else
      var h := Highest(s[..|s| - 1], floor);
      if s[|s| - 1] > h then s[|s| - 1] else h
  }

  /**
    Scanning left to right and replacing the best only on a strictly greater
    element: the index where the scan ends, -1 when no element is above `floor`.
   */
  function ArgMaxAbove(s: seq<real>, floor: real): (r: int)
    ensures -1 <= r < |s|
    ensures Highest(s, floor) == if r == -1 then floor else s[r]
  {
    if s == [] then -1
    else if s[|s| - 1] > Highest(s[..|s| - 1], floor) then |s| - 1
    else ArgMaxAbove(s[..|s| - 1], floor)
  }

  /** One more element: the scan moves to it exactly when it beats the best so far. */
  lemma ArgMaxAboveExtend(s: seq<real>, floor: real, x: real)
    ensures var r := ArgMaxAbove(s + [x], floor);
      r == if x > Highest(s, floor) then |s| else ArgMaxAbove(s, floor)
  {
    assert (s + [x])[..|s|] == s;
  }

  /** `i` is the first index of a maximal element, and that element is above `floor`. */
  predicate IsFirstMaxAbove(s: seq<real>, floor: real, i: int)
  {
    && 0 <= i < |s|
    && s[i] > floor
    && (forall j :: 0 <= j < |s| ==> s[j] <= s[i])
    && (forall j :: 0 <= j < i ==> s[j] < s[i])
  }

  /** The scan finds nothing exactly when nothing is above the floor, and otherwise the first maximum. */
  lemma {:induction false} ArgMaxAboveCharacterized(s: seq<real>, floor: real)
    ensures ArgMaxAbove(s, floor) == -1 <==> forall j :: 0 <= j < |s| ==> s[j] <= floor
    ensures ArgMaxAbove(s, floor) != -1 ==> IsFirstMaxAbove(s, floor, ArgMaxAbove(s, floor))
    decreases |s|
  {
    if s != [] {
      var prev := s[..|s| - 1];
      ArgMaxAboveCharacterized(prev, floor);
      assert forall j :: 0 <= j < |prev| ==> prev[j] == s[j];
    }
  }

  /** The characterisation pins the scan's result down: a first maximum above the floor is what it returns. */
  lemma ArgMaxAboveUnique(s: seq<real>, floor: real, i: int)
    requires IsFirstMaxAbove(s, floor, i)
    ensures ArgMaxAbove(s, floor) == i
  {
    ArgMaxAboveCharacterized(s, floor);
  }

  // ---------------------------------------------------------------------------
  // Answers
  // ---------------------------------------------------------------------------

  /** `answers.FindAll(x => x.QuestionID == questionId)`, in list order. */
  function GetQuestionAnswers(questionId: int, answers: seq<Answer>): (found: seq<Answer>)
  {
    if answers == [] then []
    else
      (if answers[0].questionId == questionId then [answers[0]] else [])
      + GetQuestionAnswers(questionId, answers[1..])
  }

  /** The filter keeps exactly the answers to the question, and no more of them than there are answers. */
  lemma {:induction false} GetQuestionAnswersMembers(questionId: int, answers: seq<Answer>)
    ensures |GetQuestionAnswers(questionId, answers)| <= |answers|
    ensures forall a :: a in GetQuestionAnswers(questionId, answers) <==> a in answers && a.questionId == questionId
    decreases |answers|
  {
    if answers != [] {
      GetQuestionAnswersMembers(questionId, answers[1..]);
      assert answers == [answers[0]] + answers[1..];
    }
  }

  /** The filter keeps the order: filtering a concatenation is concatenating the filtered parts. */
  lemma {:induction false} GetQuestionAnswersAppend(questionId: int, xs: seq<Answer>, ys: seq<Answer>)
    ensures GetQuestionAnswers(questionId, xs + ys)
         == GetQuestionAnswers(questionId, xs) + GetQuestionAnswers(questionId, ys)
    decreases |xs|
  {
    if xs == [] {
      assert xs + ys == ys;
    } else {
      var head := if xs[0].questionId == questionId then [xs[0]] else [];
      assert (xs + ys)[0] == xs[0];
      assert (xs + ys)[1..] == xs[1..] + ys;
      GetQuestionAnswersAppend(questionId, xs[1..], ys);
      calc {
        GetQuestionAnswers(questionId, xs + ys);
        head + GetQuestionAnswers(questionId, xs[1..] + ys);
        head + (GetQuestionAnswers(questionId, xs[1..]) + GetQuestionAnswers(questionId, ys));
        (head + GetQuestionAnswers(questionId, xs[1..])) + GetQuestionAnswers(questionId, ys);
        GetQuestionAnswers(questionId, xs) + GetQuestionAnswers(questionId, ys);
      }
    }
  }

  /**
    `FindAnswer` with the random draw `rand.Next(n)` given as `k % n`: the
    `k`-th answer (cyclically) to the question, or the "no answer" value.
   */
  function FindAnswer(questionId: int, answers: seq<Answer>, k: nat): (r: Answer)
    ensures GetQuestionAnswers(questionId, answers) == [] ==> r == NoAnswer
    ensures GetQuestionAnswers(questionId, answers) != [] ==> r in answers && r.questionId == questionId
  {
    var found := GetQuestionAnswers(questionId, answers);
    GetQuestionAnswersMembers(questionId, answers);
    if |found| > 0 then found[k % |found|] else NoAnswer
  }

  lemma SmallModulo(j: nat, n: nat)
    requires j < n
    ensures j % n == j
  {
  }

  /** Every answer recorded for the question is what some draw returns. */
  lemma FindAnswerReachesAll(questionId: int, answers: seq<Answer>, a: Answer)
    requires a in answers && a.questionId == questionId
    ensures exists k: nat :: FindAnswer(questionId, answers, k) == a
  {
    var found := GetQuestionAnswers(questionId, answers);
    GetQuestionAnswersMembers(questionId, answers);
    assert a in found;
    var j :| 0 <= j < |found| && found[j] == a;
    SmallModulo(j, |found|);
    assert FindAnswer(questionId, answers, j) == a;
  }

  // ---------------------------------------------------------------------------
  // Which question to ask
  // ---------------------------------------------------------------------------

  /**
    `Counter / (answerCount == 0 ? 0.1 : answerCount)`, computed exactly: ten
    times the counter for an unanswered question, the counter per answer otherwise.
   */
  function Priority(counter: int, answerCount: nat): (p: real)
  {
    counter as real / (if answerCount == 0 then 0.1 else answerCount as real)
  }

  /** A question is positive exactly when it has been asked; it is weighted by ten while unanswered. */
  lemma PriorityMeaning(counter: int, answerCount: nat)
    ensures Priority(counter, answerCount) > 0.0 <==> counter > 0
    ensures answerCount == 0 ==> Priority(counter, answerCount) == 10.0 * counter as real
    ensures answerCount > 0 ==> Priority(counter, answerCount) * answerCount as real == counter as real
  {
  }

  /** The priority of each question, in list order. */
  function Priorities(ids: seq<int>, counters: seq<int>, answers: seq<Answer>): (p: seq<real>)
    requires |ids| == |counters|
    ensures |p| == |ids|
  {
    seq(|ids|, i requires 0 <= i < |ids| => Priority(counters[i], |GetQuestionAnswers(ids[i], answers)|))
  }

  /**
    Question by question: a priority is positive exactly when the counter is;
    an unanswered question weighs ten times its counter, an answered one its
    counter per answer.
   */
  lemma PrioritiesMeaning(ids: seq<int>, counters: seq<int>, answers: seq<Answer>)
    requires |ids| == |counters|
    ensures var p := Priorities(ids, counters, answers);
      forall i :: 0 <= i < |ids| ==>
        var found := GetQuestionAnswers(ids[i], answers);
        && (p[i] > 0.0 <==> counters[i] > 0)
        && (found == [] ==> p[i] == 10.0 * counters[i] as real)
        && (found != [] ==> p[i] * |found| as real == counters[i] as real)
  {
    forall i | 0 <= i < |ids| {
      PriorityMeaning(counters[i], |GetQuestionAnswers(ids[i], answers)|);
    }
  }

  /**
    The index `GetMostAcuteQuestion` settles on: the first index of the highest
    priority when some priority is positive, index 0 otherwise.
   */
  function MostAcuteIndex(p: seq<real>): (r: nat)
    ensures p != [] ==> r < |p|
  {
    var m := ArgMaxAbove(p, 0.0);
    if m == -1 then 0 else m
  }

  /** With no positive priority the first question is taken; otherwise the first of the highest. */
  lemma MostAcuteIndexCharacterized(p: seq<real>)
    ensures (forall i :: 0 <= i < |p| ==> p[i] <= 0.0) ==> MostAcuteIndex(p) == 0
    ensures (exists i :: 0 <= i < |p| && p[i] > 0.0) ==> IsFirstMaxAbove(p, 0.0, MostAcuteIndex(p))
  {
    ArgMaxAboveCharacterized(p, 0.0);
  }

  /** One step of the source's scan for the highest priority. */
  lemma AcuteStep(p: seq<real>, i: nat, highest: real, index: nat)
    requires i < |p|
    requires highest == Highest(p[..i], 0.0)
    requires index == if ArgMaxAbove(p[..i], 0.0) == -1 then 0 else ArgMaxAbove(p[..i], 0.0)
    ensures var beats := p[i] > highest;
      && (if beats then p[i] else highest) == Highest(p[..i + 1], 0.0)
      && (if beats then i else index)
         == if ArgMaxAbove(p[..i + 1], 0.0) == -1 then 0 else ArgMaxAbove(p[..i + 1], 0.0)
  {
    assert p[..i + 1] == p[..i] + [p[i]];
    ArgMaxAboveExtend(p[..i], 0.0, p[i]);
    assert (p[..i] + [p[i]])[..i] == p[..i];
  }

  /** The position of the most acute of the stored questions (0 when none is acute). */
  function AcuteIndex(questions: seq<Question>, answers: seq<Answer>): (r: nat)
    reads questions
    ensures questions != [] ==> r < |questions|
  {
    MostAcuteIndex(Priorities(Ids(questions), Counters(questions), answers))
  }

  /** `a` is the position `GetMostAcuteQuestion` picks among questions with these identifiers and counters. */
  predicate IsAcute(ids: seq<int>, counters: seq<int>, answers: seq<Answer>, a: int)
  {
    |ids| == |counters| && a == MostAcuteIndex(Priorities(ids, counters, answers))
  }

  method GetMostAcuteQuestion(questions: seq<Question>, answers: seq<Answer>) returns (q: Question)
    ensures questions == [] ==> q.id == -1 && q.text == "" && q.counter == 0
    ensures questions != [] ==> q == questions[AcuteIndex(questions, answers)]
  {
    if |questions| <= 0 {
      q := new Question.Empty();
      return;
    }
    ghost var p := Priorities(Ids(questions), Counters(questions), answers);
    var highestPriority := 0.0;
    var highestPriorityIndex := 0;
    for i := 0 to |questions|
      invariant highestPriority == Highest(p[..i], 0.0)
      invariant highestPriorityIndex == if ArgMaxAbove(p[..i], 0.0) == -1 then 0 else ArgMaxAbove(p[..i], 0.0)
    {
      var answerCount := |GetQuestionAnswers(questions[i].id, answers)|;
      var priority := Priority(questions[i].counter, answerCount);
      assert priority == p[i];
      AcuteStep(p, i, highestPriority, highestPriorityIndex);
      if priority > highestPriority {
        highestPriority := priority;
        highestPriorityIndex := i;
      }
    }
    assert p[..|questions|] == p;
    q := questions[highestPriorityIndex];
  }

  // ---------------------------------------------------------------------------
  // Which stored question an input is
  // ---------------------------------------------------------------------------

  /** The score of the input's words against each stored question's text. */
  function MatchScores(inputWords: seq<string>, texts: seq<string>): (s: seq<real>)
    ensures |s| == |texts|
  {
    seq(|texts|, i requires 0 <= i < |texts| => Score(inputWords, BreakSentenceToWords(texts[i])))
  }

  /** The position of the stored question the input is taken to be, or -1 when it is none. */
  function MatchIndex(input: string, texts: seq<string>): (r: int)
    ensures -1 <= r < |texts|
  {
    ArgMaxAbove(MatchScores(BreakSentenceToWords(input), texts), MatchScoreRequired)
  }

  /** `m` is the position `MatchIndex` picks for the input among the texts. */
  predicate IsMatch(input: string, texts: seq<string>, m: int)
  {
    m == MatchIndex(input, texts)
  }

  /**
    The index `FindBestMatch` settles on: -1 exactly when no stored text scores
    above the threshold, otherwise the first index of the highest score.
   */
  lemma MatchIndexCharacterized(input: string, texts: seq<string>)
    ensures var s := MatchScores(BreakSentenceToWords(input), texts);
      var m := MatchIndex(input, texts);
      && (m == -1 <==> forall i :: 0 <= i < |texts| ==> s[i] <= MatchScoreRequired)
      && (m != -1 ==> IsFirstMaxAbove(s, MatchScoreRequired, m))
  {
    ArgMaxAboveCharacterized(MatchScores(BreakSentenceToWords(input), texts), MatchScoreRequired);
  }

  /** One step of the source's scan keeps it equal to the scan of the longer prefix. */
  lemma BestMatchStep(s: seq<real>, i: nat, id: int, best: real)
    requires i < |s|
    requires id == ArgMaxAbove(s[..i], MatchScoreRequired)
    requires best == if id == -1 then 0.0 else s[id]
    ensures var beats := s[i] > MatchScoreRequired && s[i] > best;
      var id' := if beats then i else id;
      && id' == ArgMaxAbove(s[..i + 1], MatchScoreRequired)
      && (if beats then s[i] else best) == (if id' == -1 then 0.0 else s[id'])
  {
    assert s[..i + 1] == s[..i] + [s[i]];
    ArgMaxAboveExtend(s[..i], MatchScoreRequired, s[i]);
  }

  method FindBestMatch(input: string, questions: seq<Question>) returns (q: Question)
    ensures var m := MatchIndex(input, Texts(questions));
      && (m == -1 ==> q.id == -1 && q.text == "" && q.counter == 0)
      && (m != -1 ==> q == questions[m])
  {
    var wordsInput := BreakSentenceToWords(input);
    ghost var s := MatchScores(wordsInput, Texts(questions));
    var bestMatchID := -1;
    var bestMatchScore := 0.0;
    for i := 0 to |questions|
      invariant bestMatchID == ArgMaxAbove(s[..i], MatchScoreRequired)
      invariant bestMatchScore == if bestMatchID == -1 then 0.0 else s[bestMatchID]
    {
      var sampleScore := CompareSentences(wordsInput, BreakSentenceToWords(questions[i].text));
      assert sampleScore == s[i];
      BestMatchStep(s, i, bestMatchID, bestMatchScore);
      if sampleScore > MatchScoreRequired && sampleScore > bestMatchScore {
        bestMatchID := i;
        bestMatchScore := sampleScore;
      }
    }
    assert s[..|questions|] == s;
    if bestMatchID < 0 {
      q := new Question.Empty();
    } else {
      q := questions[bestMatchID];
    }
  }

  /**
    Once a question with the same words is stored, an input with at least
    one word is always recognised: its own text scores at least 1.
   */
  lemma KnownWordsAreRecognized(input: string, texts: seq<string>, i: int)
    requires 0 <= i < |texts|
    requires BreakSentenceToWords(texts[i]) == BreakSentenceToWords(input)
    requires BreakSentenceToWords(input) != []
    ensures MatchIndex(input, texts) != -1
  {
    var ws := BreakSentenceToWords(input);
    MatchIndexCharacterized(input, texts);
    SplitWordsAreClean(Normalize(ToLower(input)));
    assert TotalLength(ws) >= Utf16Length(ws[|ws| - 1]) >= |ws[|ws| - 1]| > 0;
    ScoreCovered(ws, ws);
    assert MatchScores(ws, texts)[i] > MatchScoreRequired;
  }

  /** An input without a single word ("?!", say) scores 0 against everything and never matches. */
  lemma WordlessInputNeverMatches(input: string, texts: seq<string>)
    requires BreakSentenceToWords(input) == []
    ensures MatchIndex(input, texts) == -1
  {
    MatchIndexCharacterized(input, texts);
  }

  // ---------------------------------------------------------------------------
  // Raising a question's counter
  // ---------------------------------------------------------------------------

  /** The first index holding `x`, -1 when there is none. */
  function FirstIndex(xs: seq<int>, x: int): (r: int)
    ensures -1 <= r < |xs|
    ensures r == -1 <==> x !in xs
    ensures r != -1 ==> xs[r] == x && x !in xs[..r]
  {
    if xs == [] then -1
    else if xs[0] == x then 0
    else
      var r := FirstIndex(xs[1..], x);
      if r == -1 then -1
      else
        assert xs[..r + 1] == [xs[0]] + xs[1..][..r];
        r + 1
  }

  /**
    `IncrementQuestionCounter`: the first question whose identifier is
    `questionId` has its counter raised by one; no other question object
    changes, and nothing changes when no identifier matches.
   */
  method IncrementQuestionCounter(questionId: int, questions: seq<Question>)
    modifies questions
    ensures forall q :: q in questions ==> q.id == old(q.id) && q.text == old(q.text)
    ensures var i := FirstIndex(old(Ids(questions)), questionId);
      && (i == -1 ==> forall q :: q in questions ==> q.counter == old(q.counter))
      && (i != -1 ==> questions[i].counter == old(questions[i].counter) + 1
                      && forall q :: q in questions && q != questions[i] ==> q.counter == old(q.counter))
  {
    for i := 0 to |questions|
      invariant forall j :: 0 <= j < i ==> questions[j].id != questionId
      invariant forall q :: q in questions ==> q.id == old(q.id) && q.text == old(q.text) && q.counter == old(q.counter)
    {
      if questions[i].id == questionId {
        questions[i].IncrementCounter();
        return;
      }
    }
  }
}
