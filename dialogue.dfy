/**
  One iteration of the learning dialogue, and the dialogue as a whole: ask
  the most acute question, record the user's input as its answer, then treat
  the same input as a question of the user's, either new (stored) or known
  (counted and answered from the recorded answers).
 */
module Dialogue {
  import opened Entities
  import opened Selection

  /** What the program does with one line of input. */
  datatype Reply =
    | Quit                    // the input is empty: the dialogue ends
    | Learned                 // the input is stored as a new question; "I don't know."
    | Unanswered              // the input is a known question without a usable answer; "I don't know."
    | Answered(text: string)  // the input is a known question; this is the answer given

  /** The reply for the answer drawn for a known question. */
  function ReplyFor(a: Answer): (r: Reply)
    ensures r.Unanswered? <==> a.id < 0
    ensures a.id >= 0 ==> r == Answered(a.text)
  {
    if a.id < 0 then Unanswered else Answered(a.text)
  }

  /** Every identifier is its position in the list. */
  predicate Numbered(ids: seq<int>)
  {
    forall i :: 0 <= i < |ids| ==> ids[i] == i
  }

  /** Every answer's identifier is its position in the list. */
  predicate AnswersNumbered(answers: seq<Answer>)
  {
    forall i :: 0 <= i < |answers| ==> answers[i].id == i
  }

  /**
    In a list numbered by position, the question at position `m` has a
    nonnegative identifier and is the first one carrying it, so a matched
    question is never stored again and is the one whose counter is raised.
   */
  lemma NumberedMatch(ids: seq<int>, m: int)
    requires Numbered(ids) && 0 <= m < |ids|
    ensures ids[m] >= 0
    ensures FirstIndex(ids, ids[m]) == m
  {
  }

  /** With answers numbered by position, "I don't know." for a known question means it has no recorded answer. */
  lemma NumberedAnswers(answers: seq<Answer>, questionId: int, k: nat)
    requires AnswersNumbered(answers)
    ensures FindAnswer(questionId, answers, k).id < 0 <==> GetQuestionAnswers(questionId, answers) == []
  {
  }

  /** How many lines a run over `inputs` handles from line `t` on: up to the first empty line, or to the end. */
  function TurnsFrom(inputs: seq<string>, t: nat): (n: nat)
    decreases |inputs| - t
  {
    if t >= |inputs| then |inputs|
    else if |inputs[t]| == 0 then t
    else TurnsFrom(inputs, t + 1)
  }

  /** From line `t` on, a run handles exactly the nonempty lines before the first empty one. */
  lemma {:induction false} TurnsFromMeaning(inputs: seq<string>, t: nat)
    requires t <= |inputs|
    ensures t <= TurnsFrom(inputs, t) <= |inputs|
    ensures forall u :: t <= u < TurnsFrom(inputs, t) ==> |inputs[u]| > 0
    ensures TurnsFrom(inputs, t) < |inputs| ==> |inputs[TurnsFrom(inputs, t)]| == 0
    decreases |inputs| - t
  {
    if t < |inputs| && |inputs[t]| > 0 {
      TurnsFromMeaning(inputs, t + 1);
    }
  }

  /** The question list and the fields of its questions at one moment. */
  datatype Snapshot = Snapshot(questions: seq<Question>, ids: seq<int>, texts: seq<string>, counters: seq<int>)

  /** The knowledge base of one session: the two append-only lists. */
  class Session {
    var questions: seq<Question>
    var answers: seq<Answer>

    /** Every identifier is its position in its list (what appending with `Count` as the identifier keeps). */
    predicate WellNumbered()
      reads this, questions
    {
      Numbered(Ids(questions)) && AnswersNumbered(answers)
    }

    /** A session over the lists as loaded, whatever they hold. */
    constructor (loadedQuestions: seq<Question>, loadedAnswers: seq<Answer>)
      ensures questions == loadedQuestions && answers == loadedAnswers
    {
      questions, answers := loadedQuestions, loadedAnswers;
    }

    /** The question list, and the fields of its questions, as they are now. */
    function Snap(): (snap: Snapshot)
      reads this`questions, questions
      ensures snap.questions == questions
    {
      Snapshot(questions, Ids(questions), Texts(questions), Counters(questions))
    }

    /** The input was appended to the list that was `before` as a new question, numbered by its position, asked once. */
    predicate Stored(before: Snapshot, input: string)
      reads this`questions, questions, before.questions
    {
      var n := |before.questions|;
      && Ids(before.questions) == before.ids
      && Texts(before.questions) == before.texts
      && Counters(before.questions) == before.counters
      && |questions| == n + 1
      && questions[..n] == before.questions
      && questions[n].id == n && questions[n].text == input && questions[n].counter == 1
    }

    /** The counter of the `j`-th question of `before` went up by one, and no other question's counter changed. */
    predicate RaisedOnce(before: Snapshot, j: int)
      reads before.questions
    {
      var n := |before.questions|;
      && 0 <= j < n && |before.counters| == n
      && before.questions[j].counter == before.counters[j] + 1
      && forall i :: 0 <= i < n && before.questions[i] != before.questions[j] ==>
           before.questions[i].counter == before.counters[i]
    }

    /**
      The list that was `before` is the same list of the same questions; the
      first one numbered `questionId` was counted once more, and the reply is
      the drawn answer to it.
     */
    predicate Recalled(before: Snapshot, questionId: int, k: nat, reply: Reply)
      reads this, questions, before.questions
    {
      var j := FirstIndex(before.ids, questionId);
      && questions == before.questions
      && Ids(questions) == before.ids
      && Texts(questions) == before.texts
      && (j == -1 ==> Counters(questions) == before.counters)
      && (j != -1 ==> RaisedOnce(before, j))
      && reply == ReplyFor(FindAnswer(questionId, answers, k))
    }

    /**
      The effect of treating `input` as the user's question when the question
      list was `before`: an input no stored question matches (or that matches a
      question with a negative identifier) is stored as a new question; a
      matched one is counted and answered from the current answers.
     */
    ghost predicate Responded(before: Snapshot, input: string, k: nat, reply: Reply)
      reads this, questions, before.questions
    {
      && |before.ids| == |before.texts|
      && forall m {:trigger IsMatch(input, before.texts, m)} :: IsMatch(input, before.texts, m) ==>
           if m == -1 || before.ids[m] < 0 then reply == Learned && Stored(before, input)
           else Recalled(before, before.ids[m], k, reply)
    }

    /** Stores the input as a new question, numbered by the list's length, asked once. */
    method Store(input: string)
      modifies this`questions
      ensures Stored(old(Snap()), input)
      ensures answers == old(answers)
      ensures old(questions) <= questions
      ensures forall i :: |old(questions)| <= i < |questions| ==> fresh(questions[i])
      ensures old(WellNumbered()) ==> WellNumbered()
    {
      var q := new Question(|questions|, input);
      questions := questions + [q];
      assert questions[..|old(questions)|] == old(questions);
    }

    /** Counts one more asking of a known question and draws one of its answers. */
    method Recall(questionId: int, k: nat) returns (reply: Reply)
      modifies questions
      ensures Recalled(old(Snap()), questionId, k, reply)
      ensures answers == old(answers) && questions == old(questions)
      ensures old(WellNumbered()) ==> WellNumbered()
    {
      ghost var before := Snap();
      IncrementQuestionCounter(questionId, questions);
      var answer := FindAnswer(questionId, answers, k);
      reply := ReplyFor(answer);
    }

    /** The user's line, taken as a question: stored when unknown, counted and answered when known. */
    method Respond(input: string, k: nat) returns (reply: Reply)
      modifies this`questions, questions
      ensures Responded(old(Snap()), input, k, reply)
      ensures reply != Quit
      ensures answers == old(answers)
      ensures old(questions) <= questions
      ensures forall i :: |old(questions)| <= i < |questions| ==> fresh(questions[i])
      ensures old(WellNumbered()) ==> WellNumbered()
    {
      var question := FindBestMatch(input, questions);
      if question.id < 0 {
        Store(input);
        reply := Learned;
      } else {
        reply := Recall(question.id, k);
      }
    }
  
    /** Records the input as a new answer, numbered by the list's length, when a question was asked. */
    method Record(askedId: int, input: string)
      modifies this`answers
      ensures answers == old(answers) + (if askedId >= 0 then [Answer(|old(answers)|, askedId, input)] else [])
      ensures old(WellNumbered()) ==> WellNumbered()
    {
      if askedId >= 0 {
        answers := answers + [Answer(|answers|, askedId, input)];
      }
    }

    /**
      One pass of the dialogue loop: ask the most acute question, stop on an
      empty line, otherwise record the line as the answer to the question asked
      (when one was asked) and then respond to it as the user's own question.
      `k` stands for the draw of the random generator.
     */
    method Turn(input: string, k: nat) returns (asked: Question, reply: Reply)
      modifies this, questions
      ensures reply == Quit <==> |input| == 0
      ensures old(questions) == [] ==> asked.id == -1 && asked.text == []
      // `a` is the old `AcuteIndex(questions, answers)`; quantifying over it keeps Priorities folded for callers
      ensures forall a {:trigger IsAcute(old(Ids(questions)), old(Counters(questions)), old(answers), a)} ::
        IsAcute(old(Ids(questions)), old(Counters(questions)), old(answers), a) && old(questions) != [] ==>
        var askedId := old(Ids(questions))[a];
        && asked == old(questions)[a]
        && (|input| > 0 ==>
              answers == old(answers) + (if askedId >= 0 then [Answer(|old(answers)|, askedId, input)] else []))
      ensures |input| > 0 ==>
        && (old(questions) == [] ==> answers == old(answers))
        && Responded(old(Snap()), input, k, reply)
      ensures |input| == 0 ==> answers == old(answers) && Snap() == old(Snap())
      ensures old(questions) <= questions && old(answers) <= answers
      ensures forall i :: |old(questions)| <= i < |questions| ==> fresh(questions[i])
      ensures old(WellNumbered()) ==> WellNumbered()
    {
      ghost var before := Snap();
      ghost var askedId := if questions == [] then -1 else questions[AcuteIndex(questions, answers)].id;
      asked := GetMostAcuteQuestion(questions, answers);
      assert asked.id == askedId;
      if |input| == 0 {
        reply := Quit;
        return;
      }
      Record(asked.id, input);
      assert Snap() == before;
      reply := Respond(input, k);
    }

    /**
      The dialogue over a finite run of input lines, `picks[t]` standing for
      the random draw of turn `t`: it goes on until the first empty line and
      returns how many lines were handled before it. The lists only grow, and
      the numbering invariant is kept.
     */
    method Run(inputs: seq<string>, picks: seq<nat>) returns (turns: nat)
      requires |picks| == |inputs|
      modifies this, questions
      ensures turns == TurnsFrom(inputs, 0)
      ensures old(questions) <= questions && old(answers) <= answers
      ensures old(WellNumbered()) ==> WellNumbered()
    {
      ghost var numbered := WellNumbered();
      turns := 0;
      while turns < |inputs|
        invariant turns <= |inputs|
        invariant TurnsFrom(inputs, turns) == TurnsFrom(inputs, 0)
        invariant old(questions) <= questions && old(answers) <= answers
        invariant forall i :: |old(questions)| <= i < |questions| ==> fresh(questions[i])
        invariant numbered ==> WellNumbered()
      {
        var asked, reply := Turn(inputs[turns], picks[turns]);
        if reply == Quit {
          return;
        }
        turns := turns + 1;
      }
    }
  }
}
