/**
  The two records of the knowledge base. A question is an object whose asked
  counter is raised in place; an answer is never changed once made, so it is
  a value.
 */
module Entities {

  /** A question the program has been asked, with how many times it has been asked. */
  class Question {
    var id: int
    var text: string
    var counter: int

    /** The "no question" object. */
    constructor Empty()
      ensures id == -1 && text == "" && counter == 0
    {
      id, text, counter := -1, "", 0;
    }

    /** A question seen for the first time: it has been asked once. */
    constructor (id: int, text: string)
      ensures this.id == id && this.text == text && counter == 1
    {
      this.id, this.text, counter := id, text, 1;
    }

    method IncrementCounter()
      modifies this
      ensures counter == old(counter) + 1
      ensures id == old(id) && text == old(text)
    {
      counter := counter + 1;
    }
  }

  /** A recorded answer to the question whose identifier is `questionId`. */
  datatype Answer = Answer(id: int, questionId: int, text: string)

  /** The "no answer" value. */
  const NoAnswer := Answer(-1, -1, "")

  /** The identifiers of the questions, in list order. */
  function Ids(qs: seq<Question>): (r: seq<int>)
    reads qs
    ensures |r| == |qs| && forall i :: 0 <= i < |qs| ==> r[i] == qs[i].id
  {
    seq(|qs|, i reads qs requires 0 <= i < |qs| => qs[i].id)
  }

  /** The texts of the questions, in list order. */
  function Texts(qs: seq<Question>): (r: seq<string>)
    reads qs
    ensures |r| == |qs| && forall i :: 0 <= i < |qs| ==> r[i] == qs[i].text
  {
    seq(|qs|, i reads qs requires 0 <= i < |qs| => qs[i].text)
  }

  /** The asked counters of the questions, in list order. */
  function Counters(qs: seq<Question>): (r: seq<int>)
    reads qs
    ensures |r| == |qs| && forall i :: 0 <= i < |qs| ==> r[i] == qs[i].counter
  {
    seq(|qs|, i reads qs requires 0 <= i < |qs| => qs[i].counter)
  }
}
