/**
  The similarity score of `CompareSentences`: a length-weighted lexical
  overlap. Every input word contributes its length to the total, and its
  length again to the match for EACH sample word equal to it.
 */
module Similarity {

  /** A character outside the Basic Multilingual Plane takes two UTF-16 code units. */
  predicate IsSupplementary(c: char) { c as int >= 0x1_0000 }

  /**
    `string.Length`: the number of UTF-16 code units, one per character of the
    Basic Multilingual Plane and two (a surrogate pair) per character beyond it.
   */
  function Utf16Length(w: string): (n: nat)
    ensures |w| <= n <= 2 * |w|
  {
    if w == [] then 0
    else Utf16Length(w[..|w| - 1]) + (if IsSupplementary(w[|w| - 1]) then 2 else 1)
  }

  /** Without supplementary characters, the UTF-16 length is the number of characters. */
  lemma {:induction false} Utf16LengthBmp(w: string)
    requires forall i :: 0 <= i < |w| ==> !IsSupplementary(w[i])
    ensures Utf16Length(w) == |w|
    decreases |w|
  {
    if w != [] {
      Utf16LengthBmp(w[..|w| - 1]);
    }
  }

  /** Sum of the lengths of the words. */
  function TotalLength(ws: seq<string>): (n: nat)
  {
    if ws == [] then 0 else TotalLength(ws[..|ws| - 1]) + Utf16Length(ws[|ws| - 1])
  }

  /** What one input word adds to the match: its length once per equal sample word. */
  function WordMatch(w: string, sample: seq<string>): (n: nat)
  {
    if sample == [] then 0
    else WordMatch(w, sample[..|sample| - 1]) + (if w == sample[|sample| - 1] then Utf16Length(w) else 0)
  }

  /** What the whole input adds to the match. */
  function MatchWeight(input: seq<string>, sample: seq<string>): (n: nat)
  {
    if input == [] then 0
    else MatchWeight(input[..|input| - 1], sample) + WordMatch(input[|input| - 1], sample)
  }

  /**
    The score `match / total`. When the total is 0 (no input words, or only
    empty ones), floating-point division gives NaN, which fails every `>`
    comparison the score is put to; the model defines that score as 0.0,
    which fails the same comparisons (`> 0.75` and `>` a best score that is
    never below 0).
   */
  function Score(input: seq<string>, sample: seq<string>): (r: real)
    ensures r >= 0.0
    ensures TotalLength(input) == 0 ==> r == 0.0
  {
    if TotalLength(input) == 0 then 0.0
    else MatchWeight(input, sample) as real / TotalLength(input) as real
  }

  /** `CompareSentences`: the nested loops that accumulate the total and the match. */
  method CompareSentences(inputWords: seq<string>, sampleWords: seq<string>) returns (score: real)
    ensures score == Score(inputWords, sampleWords)
  {
    var inputMaxScore: real := 0.0;
    var matchScore: real := 0.0;
    for i := 0 to |inputWords|
      invariant inputMaxScore == TotalLength(inputWords[..i]) as real
      invariant matchScore == MatchWeight(inputWords[..i], sampleWords) as real
    {
      assert inputWords[..i + 1][..i] == inputWords[..i];
      inputMaxScore := inputMaxScore + Utf16Length(inputWords[i]) as real;
      for j := 0 to |sampleWords|
        invariant matchScore == (MatchWeight(inputWords[..i], sampleWords) + WordMatch(inputWords[i], sampleWords[..j])) as real
      {
        assert sampleWords[..j + 1][..j] == sampleWords[..j];
        if inputWords[i] == sampleWords[j] {
          matchScore := matchScore + Utf16Length(inputWords[i]) as real;
        }
      }
      assert sampleWords[..|sampleWords|] == sampleWords;
    }
    assert inputWords[..|inputWords|] == inputWords;
    score := if inputMaxScore == 0.0 then 0.0 else matchScore / inputMaxScore;
  }

  // ---------------------------------------------------------------------------
  // Bounds
  // ---------------------------------------------------------------------------

  /** No word occurs twice. */
  predicate Distinct(ws: seq<string>)
  {
    forall i, j :: 0 <= i < j < |ws| ==> ws[i] != ws[j]
  }

  /** Against a sample without repeats, a word matches at most its own length. */
  lemma {:induction false} WordMatchDistinct(w: string, sample: seq<string>)
    requires Distinct(sample)
    ensures WordMatch(w, sample) <= Utf16Length(w)
    ensures WordMatch(w, sample) == (if w in sample then Utf16Length(w) else 0)
    decreases |sample|
  {
    if sample != [] {
      var prev := sample[..|sample| - 1];
      assert Distinct(prev);
      WordMatchDistinct(w, prev);
      if w == sample[|sample| - 1] {
        assert w !in prev;
      }
      assert sample == prev + [sample[|sample| - 1]];
    }
  }

  /** A word that is in the sample matches at least its own length. */
  lemma {:induction false} WordMatchPresent(w: string, sample: seq<string>)
    requires w in sample
    ensures WordMatch(w, sample) >= Utf16Length(w)
    decreases |sample|
  {
    var prev := sample[..|sample| - 1];
    assert sample == prev + [sample[|sample| - 1]];
    if w != sample[|sample| - 1] {
      WordMatchPresent(w, prev);
    }
  }

  lemma {:induction false} MatchWeightDistinct(input: seq<string>, sample: seq<string>)
    requires Distinct(sample)
    ensures MatchWeight(input, sample) <= TotalLength(input)
    decreases |input|
  {
    if input != [] {
      MatchWeightDistinct(input[..|input| - 1], sample);
      WordMatchDistinct(input[|input| - 1], sample);
    }
  }

  lemma {:induction false} MatchWeightCovered(input: seq<string>, sample: seq<string>)
    requires forall i :: 0 <= i < |input| ==> input[i] in sample
    ensures MatchWeight(input, sample) >= TotalLength(input)
    decreases |input|
  {
    if input != [] {
      MatchWeightCovered(input[..|input| - 1], sample);
      WordMatchPresent(input[|input| - 1], sample);
    }
  }

  /** Real-number facts about the ratio of two naturals. */
  lemma RatioVersusOne(m: nat, t: nat)
    requires t > 0
    ensures m <= t ==> m as real / t as real <= 1.0
    ensures m >= t ==> m as real / t as real >= 1.0
  {
    var q := m as real / t as real;
    assert q * t as real == m as real;
  }

  /** Against a sample whose words are pairwise distinct, the score is at most 1. */
  lemma ScoreAtMostOne(input: seq<string>, sample: seq<string>)
    requires Distinct(sample)
    ensures Score(input, sample) <= 1.0
  {
    MatchWeightDistinct(input, sample);
    if TotalLength(input) > 0 {
      RatioVersusOne(MatchWeight(input, sample), TotalLength(input));
    }
  }

  /** When every input word occurs in the sample (and the input is not empty), the score is at least 1. */
  lemma ScoreCovered(input: seq<string>, sample: seq<string>)
    requires TotalLength(input) > 0
    requires forall i :: 0 <= i < |input| ==> input[i] in sample
    ensures Score(input, sample) >= 1.0
  {
    MatchWeightCovered(input, sample);
    RatioVersusOne(MatchWeight(input, sample), TotalLength(input));
  }

  /**
    A repeated sample word adds the input word's length once per repeat, so
    the score can exceed 1: the input ["a"] against the sample ["a", "a"]
    scores 2.
   */
  lemma DuplicateSampleExceedsOne(input: seq<string>, sample: seq<string>)
    requires input == ["a"] && sample == ["a", "a"]
    ensures Score(input, sample) == 2.0
  {
    assert input[..0] == [] && sample[..1] == ["a"] && sample[..1][..0] == [];
    assert TotalLength(input) == 1;
    assert WordMatch("a", sample[..1]) == 1;
    assert WordMatch("a", sample) == 2;
    assert MatchWeight(input, sample) == 2;
  }

  /**
    Worked example: "cannot do this" against "can you do this" covers the
    lengths of "do" and "this", 6 of the 12 characters.
   */
  lemma ScoreExample(input: seq<string>, sample: seq<string>)
    requires input == ["cannot", "do", "this"] && sample == ["can", "you", "do", "this"]
    ensures Score(input, sample) == 0.5
  {
    Utf16LengthBmp("cannot");
    Utf16LengthBmp("do");
    Utf16LengthBmp("this");
    WordMatchDistinct("cannot", sample);
    WordMatchDistinct("do", sample);
    WordMatchDistinct("this", sample);
    var i1, i2 := input[..1], input[..2];
    assert i1 == ["cannot"] && i1[..0] == [] && i2 == ["cannot", "do"] && i2[..1] == i1;
    assert TotalLength(i1) == 6 && TotalLength(i2) == 8 && TotalLength(input) == 12;
    assert MatchWeight(i1, sample) == 0 && MatchWeight(i2, sample) == 2;
    assert MatchWeight(input, sample) == 6;
  }

  /**
    Lengths are UTF-16 lengths: the word made of two U+1F600 emoji weighs 4,
    so the input [that word, "a"] against the sample [that word] scores 4/5.
   */
  lemma SupplementaryWeighsTwo(input: seq<string>, sample: seq<string>)
    requires input == ["\U{1F600}\U{1F600}", "a"] && sample == ["\U{1F600}\U{1F600}"]
    ensures Score(input, sample) == 0.8
  {
    var w := input[0];
    assert w[..1][..0] == [] && w[..1] == ["\U{1F600}"[0]];
    assert Utf16Length(w[..1]) == 2;
    assert Utf16Length(w) == 4;
    assert Utf16Length("a") == 1 && "a"[..0] == [];
    assert input[..1] == [w] && input[..1][..0] == [];
    assert sample[..0] == [];
    assert WordMatch(w, sample) == 4 && WordMatch("a", sample) == 0;
    assert TotalLength(input[..1]) == 4 && MatchWeight(input[..1], sample) == 4;
    assert TotalLength(input) == 5;
    assert MatchWeight(input, sample) == 4;
  }

  // ---------------------------------------------------------------------------
  // The threshold test
  // ---------------------------------------------------------------------------

  lemma {:induction false} EmptyWordsMatchNothing(input: seq<string>, sample: seq<string>)
    requires TotalLength(input) == 0
    ensures MatchWeight(input, sample) == 0
    decreases |input|
  {
    if input != [] {
      EmptyWordsMatchNothing(input[..|input| - 1], sample);
      WordMatchOfEmpty(input[|input| - 1], sample);
    }
  }

  lemma {:induction false} WordMatchOfEmpty(w: string, sample: seq<string>)
    requires w == []
    ensures WordMatch(w, sample) == 0
    decreases |sample|
  {
    if sample != [] {
      WordMatchOfEmpty(w, sample[..|sample| - 1]);
    }
  }

  /** Comparing two fractions is comparing the cross products. */
  lemma CrossMultiply(m: nat, t: nat, n: nat, d: nat)
    requires t > 0 && d > 0
    ensures m as real / t as real > n as real / d as real <==> d * m > n * t
  {
    var x, y := m as real / t as real, n as real / d as real;
    assert x * t as real == m as real;
    assert y * d as real == n as real;
    var td := (t * d) as real;
    assert td > 0.0;
    assert (d * m) as real == x * td;
    assert (n * t) as real == y * td;
    if x > y {
      assert x * td > y * td;
    } else {
      assert x * td <= y * td;
    }
  }

  /**
    "The score is above a ratio n/d" is the integer test `d * match > n * total`,
    for every input, the empty one included.
   */
  lemma AboveRatio(input: seq<string>, sample: seq<string>, n: nat, d: nat)
    requires d > 0
    ensures Score(input, sample) > n as real / d as real
        <==> d * MatchWeight(input, sample) > n * TotalLength(input)
  {
    if TotalLength(input) == 0 {
      EmptyWordsMatchNothing(input, sample);
    } else {
      CrossMultiply(MatchWeight(input, sample), TotalLength(input), n, d);
    }
  }
}
