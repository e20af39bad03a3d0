/**
  The tokenizer of the learning dialogue: `BreakSentenceToWords` lower-cases a
  sentence, rewrites a fixed, ordered list of English contractions, deletes the
  punctuation marks `?`, `!`, `,` and `.`, and splits what is left on the single
  character ' ', dropping the empty entries.
 */
module Tokenizer {

  // ---------------------------------------------------------------------------
  // Lower-casing
  // ---------------------------------------------------------------------------

  predicate IsUpper(c: char) { 'A' <= c <= 'Z' }

  /** ASCII lower-casing of one character. */
  function LowerChar(c: char): (d: char)
    ensures !IsUpper(d)
    ensures IsUpper(c) ==> d as int == c as int + 32
    ensures !IsUpper(c) ==> d == c
  {
    if IsUpper(c) then (c as int + 32) as char else c
  }

  /** `string.ToLower`, character by character. */
  function ToLower(s: string): (r: string)
  {
    seq(|s|, i requires 0 <= i < |s| => LowerChar(s[i]))
  }

  /** Lower-casing keeps the length and leaves no upper-case letter. */
  lemma ToLowerNoUpper(s: string)
    ensures |ToLower(s)| == |s|
    ensures forall c :: c in ToLower(s) ==> !IsUpper(c)
  {
  }

  // ---------------------------------------------------------------------------
  // Literal replacement
  // ---------------------------------------------------------------------------

  /**
    `s.Replace(pat, rep)`: every occurrence of `pat`, found scanning from the
    left and never overlapping an earlier one, is replaced by `rep`. The
    pattern is never empty (the runtime rejects an empty one).
   */
  function Replace(s: string, pat: string, rep: string): (r: string)
    requires pat != []
    decreases |s|
  {
    if |s| < |pat| then s
    else if s[..|pat|] == pat then rep + Replace(s[|pat|..], pat, rep)
    else [s[0]] + Replace(s[1..], pat, rep)
  }

  /** `pat` occurs in `s` starting at index `i`. */
  predicate OccursAt(s: string, pat: string, i: nat)
  {
    i + |pat| <= |s| && s[i..i + |pat|] == pat
  }

  lemma OccursShift(s: string, pat: string, i: nat)
    requires s != []
    ensures OccursAt(s[1..], pat, i) == OccursAt(s, pat, i + 1)
  {
    if i + 1 + |pat| <= |s| {
      assert s[1..][i..i + |pat|] == s[i + 1..i + 1 + |pat|];
    }
  }

  lemma {:induction false} ReplaceSkipsPrefix(s: string, k: nat, pat: string, rep: string)
    requires pat != [] && k <= |s|
    requires forall i :: 0 <= i < k ==> !OccursAt(s, pat, i)
    ensures Replace(s, pat, rep) == s[..k] + Replace(s[k..], pat, rep)
    decreases k
  {
    if k > 0 {
      assert !OccursAt(s, pat, 0);
      forall i | 0 <= i < k - 1 ensures !OccursAt(s[1..], pat, i) {
        OccursShift(s, pat, i);
      }
      assert Replace(s, pat, rep) == [s[0]] + Replace(s[1..], pat, rep) by {
        if |s| < |pat| {
          assert s == [s[0]] + s[1..];
        }
      }
      ReplaceSkipsPrefix(s[1..], k - 1, pat, rep);
      assert s[1..][k - 1..] == s[k..];
      assert s[..k] == [s[0]] + s[1..][..k - 1];
    }
  }

  /** A prefix in which no occurrence of the pattern starts is copied unchanged. */
  lemma ReplaceSkips(a: string, b: string, pat: string, rep: string)
    requires pat != []
    requires forall i :: 0 <= i < |a| ==> !OccursAt(a + b, pat, i)
    ensures Replace(a + b, pat, rep) == a + Replace(b, pat, rep)
  {
    ReplaceSkipsPrefix(a + b, |a|, pat, rep);
    assert (a + b)[..|a|] == a && (a + b)[|a|..] == b;
  }

  /** An occurrence at the front is replaced, and the scan resumes after it. */
  lemma ReplaceAtHead(b: string, pat: string, rep: string)
    requires pat != []
    ensures Replace(pat + b, pat, rep) == rep + Replace(b, pat, rep)
  {
    assert (pat + b)[..|pat|] == pat;
    assert (pat + b)[|pat|..] == b;
  }

  /** No occurrence can start where the pattern's first character is absent. */
  lemma ReplaceSkipsHead(a: string, b: string, pat: string, rep: string)
    requires pat != [] && pat[0] !in a
    ensures Replace(a + b, pat, rep) == a + Replace(b, pat, rep)
  {
    assert forall i :: 0 <= i < |a| ==> !OccursAt(a + b, pat, i);
    ReplaceSkips(a, b, pat, rep);
  }

  /** A text lacking one of the pattern's characters is left as it is. */
  lemma ReplaceAbsent(s: string, pat: string, rep: string, c: char)
    requires c in pat && c !in s
    ensures Replace(s, pat, rep) == s
  {
    assert s + [] == s;
    assert forall i :: 0 <= i < |s| ==> !OccursAt(s + [], pat, i);
    ReplaceSkips(s, [], pat, rep);
  }

  /** Reference definition of deleting every occurrence of a character. */
  function Without(s: string, c: char): (r: string)
    ensures c !in r
    ensures forall d :: d in r ==> d in s
    ensures |r| <= |s|
  {
    if s == [] then []
    else if s[0] == c then Without(s[1..], c)
    else [s[0]] + Without(s[1..], c)
  }

  /** A replacement introduces no character that is neither in the text nor in the replacement. */
  lemma {:induction false} ReplaceChars(s: string, pat: string, rep: string, d: char)
    requires pat != []
    requires d in Replace(s, pat, rep)
    ensures d in s || d in rep
    decreases |s|
  {
    if |s| < |pat| {
    } else if s[..|pat|] == pat {
      if d !in rep {
        ReplaceChars(s[|pat|..], pat, rep, d);
      }
    } else {
      if d != s[0] {
        ReplaceChars(s[1..], pat, rep, d);
      }
    }
  }

  /** Replacing a one-character pattern by nothing is deleting that character. */
  lemma {:induction false} DeletionIsWithout(s: string, c: char)
    ensures Replace(s, [c], "") == Without(s, c)
    decreases |s|
  {
    if s != [] {
      DeletionIsWithout(s[1..], c);
      if s[..1] == [c] {
        assert s[0] == c;
      } else {
        assert s[0] != c;
      }
    }
  }

  // ---------------------------------------------------------------------------
  // Splitting on ' '
  // ---------------------------------------------------------------------------

  const Space: char := ' '

  /** The longest prefix of `s` holding no space. */
  function Word(s: string): (w: string)
    ensures |w| <= |s| && w == s[..|w|]
    ensures Space !in w
    ensures |w| < |s| ==> s[|w|] == Space
  {
    if s == [] || s[0] == Space then [] else [s[0]] + Word(s[1..])
  }

  /** `s.Split(new char[] { ' ' }, StringSplitOptions.RemoveEmptyEntries)`. */
  function Split(s: string): (ws: seq<string>)
    decreases |s|
  {
    if s == [] then []
    else if s[0] == Space then Split(s[1..])
    else
      var w := Word(s);
      [w] + Split(s[|w|..])
  }

  /** Every word is non-empty, holds no space, and holds only characters of the text. */
  lemma {:induction false} SplitWordsAreClean(s: string)
    ensures forall i :: 0 <= i < |Split(s)| ==> Split(s)[i] != [] && Space !in Split(s)[i]
    ensures forall i, d :: 0 <= i < |Split(s)| && d in Split(s)[i] ==> d in s
    decreases |s|
  {
    if s == [] {
    } else if s[0] == Space {
      SplitWordsAreClean(s[1..]);
      assert forall d :: d in s[1..] ==> d in s;
    } else {
      var w := Word(s);
      SplitWordsAreClean(s[|w|..]);
      assert forall d :: d in s[|w|..] ==> d in s;
      assert forall d :: d in w ==> d in s;
    }
  }

  /** A list of words fit to be joined by single spaces and split again. */
  predicate CleanWords(ws: seq<string>)
  {
    forall i :: 0 <= i < |ws| ==> ws[i] != [] && Space !in ws[i]
  }

  /** `string.Join(" ", ws)`. */
  function Join(ws: seq<string>): (r: string)
  {
    if ws == [] then []
    else if |ws| == 1 then ws[0]
    else ws[0] + [Space] + Join(ws[1..])
  }

  /** All the pieces in order, with nothing in between. */
  function Concat(ws: seq<string>): (r: string)
  {
    if ws == [] then [] else ws[0] + Concat(ws[1..])
  }

  lemma {:induction false} WordOfWord(w: string, rest: string)
    requires Space !in w
    requires rest == [] || rest[0] == Space
    ensures Word(w + rest) == w
    decreases |w|
  {
    if w != [] {
      assert (w + rest)[1..] == w[1..] + rest;
      WordOfWord(w[1..], rest);
    } else {
      assert w + rest == rest;
    }
  }

  /** A word followed by a space and more text splits into that word and the rest's words. */
  lemma SplitWordThenSpace(w: string, rest: string)
    requires w != [] && Space !in w
    ensures Split(w + [Space] + rest) == [w] + Split(rest)
  {
    var s := w + [Space] + rest;
    assert s == w + ([Space] + rest);
    WordOfWord(w, [Space] + rest);
    assert s[|w|..] == [Space] + rest;
    assert ([Space] + rest)[1..] == rest;
  }

  /** A single word splits into itself. */
  lemma SplitWord(w: string)
    requires w != [] && Space !in w
    ensures Split(w) == [w]
  {
    WordOfWord(w, []);
    assert w + [] == w;
    assert w[|w|..] == [];
  }

  /** Splitting undoes joining, for words that are non-empty and hold no space. */
  lemma {:induction false} SplitJoin(ws: seq<string>)
    requires CleanWords(ws)
    ensures Split(Join(ws)) == ws
    decreases |ws|
  {
    if |ws| == 1 {
      SplitWord(ws[0]);
    } else if |ws| > 1 {
      SplitWordThenSpace(ws[0], Join(ws[1..]));
      SplitJoin(ws[1..]);
      assert ws == [ws[0]] + ws[1..];
    }
  }

  /** `n` spaces. */
  function Spaces(n: nat): (r: string)
    ensures |r| == n
    ensures forall i :: 0 <= i < n ==> r[i] == Space
  {
    if n == 0 then [] else [Space] + Spaces(n - 1)
  }

  /** The words with `gaps[i]` spaces before word `i` and `gaps[|ws|]` spaces after the last one. */
  function Spaced(ws: seq<string>, gaps: seq<nat>): (r: string)
    requires |gaps| == |ws| + 1
  {
    if ws == [] then Spaces(gaps[0]) else Spaces(gaps[0]) + (ws[0] + Spaced(ws[1..], gaps[1..]))
  }

  /** Leading spaces are dropped. */
  lemma {:induction false} SplitSpaces(n: nat, t: string)
    ensures Split(Spaces(n) + t) == Split(t)
    decreases n
  {
    if n == 0 {
      assert Spaces(n) + t == t;
    } else {
      assert Spaces(n) + t == [Space] + (Spaces(n - 1) + t);
      SplitSpaces(n - 1, t);
    }
  }

  /** A word followed by the end or by a space is split off as an entry. */
  lemma SplitWordThen(w: string, rest: string)
    requires w != [] && Space !in w
    requires rest == [] || rest[0] == Space
    ensures Split(w + rest) == [w] + Split(rest)
  {
    WordOfWord(w, rest);
    assert (w + rest)[|w|..] == rest;
  }

  /**
    Splitting drops every empty entry: words separated by runs of one or
    more spaces, with runs of any length before and after, split into
    exactly those words.
   */
  lemma {:induction false} SplitSpaced(ws: seq<string>, gaps: seq<nat>)
    requires CleanWords(ws) && |gaps| == |ws| + 1
    requires forall i :: 0 < i < |ws| ==> gaps[i] > 0
    ensures Split(Spaced(ws, gaps)) == ws
    decreases |ws|
  {
    SplitSpaces(gaps[0], if ws == [] then [] else ws[0] + Spaced(ws[1..], gaps[1..]));
    if ws == [] {
      assert Spaces(gaps[0]) + [] == Spaces(gaps[0]);
    } else {
      var rest := Spaced(ws[1..], gaps[1..]);
      assert rest == [] || rest[0] == Space by {
        if ws[1..] != [] {
          assert gaps[1..][0] == gaps[1] > 0;
        }
      }
      SplitWordThen(ws[0], rest);
      SplitSpaced(ws[1..], gaps[1..]);
      assert ws == [ws[0]] + ws[1..];
    }
  }

  lemma {:induction false} WithoutAppend(a: string, b: string, c: char)
    ensures Without(a + b, c) == Without(a, c) + Without(b, c)
    decreases |a|
  {
    if a == [] {
      assert a + b == b;
    } else {
      assert (a + b)[0] == a[0];
      assert (a + b)[1..] == a[1..] + b;
      WithoutAppend(a[1..], b, c);
    }
  }

  lemma {:induction false} WithoutAbsent(s: string, c: char)
    requires c !in s
    ensures Without(s, c) == s
    decreases |s|
  {
    if s != [] {
      WithoutAbsent(s[1..], c);
    }
  }

  /** The words, put back together, are exactly the non-space characters of the text, in order. */
  lemma {:induction false} SplitKeepsNonSpaces(s: string)
    ensures Concat(Split(s)) == Without(s, Space)
    decreases |s|
  {
    if s == [] {
    } else if s[0] == Space {
      SplitKeepsNonSpaces(s[1..]);
    } else {
      var w := Word(s);
      var rest := s[|w|..];
      assert s == w + rest;
      SplitKeepsNonSpaces(rest);
      WithoutAppend(w, rest, Space);
      WithoutAbsent(w, Space);
    }
  }

  // ---------------------------------------------------------------------------
  // BreakSentenceToWords
  // ---------------------------------------------------------------------------

  /** The contraction rewrites, in their fixed order. */
  function ExpandContractions(s: string): (r: string)
  {
    Replace(Replace(Replace(Replace(s, "'re", " are"), "'ve", " have"), "can't", "cannot"), "n't", " not")
  }

  /** The deletion of the four punctuation marks, in their fixed order. */
  function StripPunctuation(s: string): (r: string)
  {
    Replace(Replace(Replace(Replace(s, "?", ""), "!", ""), ",", ""), ".", "")
  }

  /** The whole replacement chain: contractions first, then punctuation. */
  function Normalize(s: string): (r: string)
  {
    StripPunctuation(ExpandContractions(s))
  }

  function BreakSentenceToWords(sentence: string): (words: seq<string>)
  {
    Split(Normalize(ToLower(sentence)))
  }

  /** Stripping punctuation is deleting each of the four marks in turn. */
  lemma StripPunctuationIsWithout(s: string)
    ensures StripPunctuation(s) == Without(Without(Without(Without(s, '?'), '!'), ','), '.')
  {
    DeletionIsWithout(s, '?');
    DeletionIsWithout(Without(s, '?'), '!');
    DeletionIsWithout(Without(Without(s, '?'), '!'), ',');
    DeletionIsWithout(Without(Without(Without(s, '?'), '!'), ','), '.');
  }

  /** The characters a token may not hold. */
  predicate IsSeparator(c: char) { c == Space || c == '?' || c == '!' || c == ',' || c == '.' }

  lemma NormalizeChars(s: string, d: char)
    requires d in Normalize(s)
    ensures d in s || d in " are have cannot not"
    ensures d != '?' && d != '!' && d != ',' && d != '.'
  {
    var s1 := Replace(s, "'re", " are");
    var s2 := Replace(s1, "'ve", " have");
    var s3 := Replace(s2, "can't", "cannot");
    var s4 := ExpandContractions(s);
    StripPunctuationIsWithout(s4);
    ReplaceChars(s3, "n't", " not", d);
    if d in s3 {
      ReplaceChars(s2, "can't", "cannot", d);
      if d in s2 {
        ReplaceChars(s1, "'ve", " have", d);
        if d in s1 {
          ReplaceChars(s, "'re", " are", d);
        }
      }
    }
  }

  /**
    Every token is non-empty, holds no space and none of the deleted
    punctuation marks, and no upper-case letter.
   */
  lemma TokensAreClean(sentence: string)
    ensures forall i :: 0 <= i < |BreakSentenceToWords(sentence)| ==>
      var t := BreakSentenceToWords(sentence)[i];
      t != [] && forall d :: d in t ==> !IsSeparator(d) && !IsUpper(d)
  {
    var lower := ToLower(sentence);
    var ws := BreakSentenceToWords(sentence);
    SplitWordsAreClean(Normalize(lower));
    ToLowerNoUpper(sentence);
    forall i, d | 0 <= i < |ws| && d in ws[i]
      ensures !IsSeparator(d) && !IsUpper(d)
    {
      assert d in Normalize(lower);
      NormalizeChars(lower, d);
    }
  }

  // ---------------------------------------------------------------------------
  // Worked examples
  // ---------------------------------------------------------------------------

  lemma CantAtFront(t: string, cant: string, cannot: string)
    requires cant == "can't" && cannot == "cannot"
    requires 'r' !in t && 'v' !in t && 'c' !in t && '\'' !in t
    ensures ExpandContractions(cant + t) == cannot + t
  {
    ReplaceAbsent(cant + t, "'re", " are", 'r');
    ReplaceAbsent(cant + t, "'ve", " have", 'v');
    ReplaceAtHead(t, "can't", "cannot");
    ReplaceAbsent(t, "can't", "cannot", 'c');
    ReplaceAbsent(cannot + t, "n't", " not", '\'');
  }

  lemma QuestionBangAtEnd(w: string, qb: string)
    requires qb == "?!"
    requires '?' !in w && '!' !in w && ',' !in w && '.' !in w
    ensures StripPunctuation(w + qb) == w
  {
    ReplaceSkipsHead(w, qb, "?", "");
    assert qb == "?" + "!";
    ReplaceAtHead("!", "?", "");
    ReplaceAbsent("!", "?", "", '?');
    assert Replace(w + qb, "?", "") == w + "!";
    ReplaceSkipsHead(w, "!", "!", "");
    ReplaceAtHead([], "!", "");
    assert w + [] == w;
    assert Replace(w + "!", "!", "") == w;
    ReplaceAbsent(w, ",", "", ',');
    ReplaceAbsent(w, ".", "", '.');
  }

  /**
    "can't" becomes "cannot" only because its rewrite runs before the one of
    "n't": applied first, the latter would leave "ca not".
   */
  lemma ContractionOrderMatters(ca: string, cant: string, cannot: string)
    requires ca == "ca" && cant == ca + "n't" && cannot == "cannot"
    ensures ExpandContractions(cant) == cannot
    ensures Replace(cant, "n't", " not") == ca + " not"
  {
    CantAtFront([], cant, cannot);
    assert cant + [] == cant && cannot + [] == cannot;
    ReplaceAtHeadOf(ca, "n't", " not");
  }

  lemma ReplaceAtHeadOf(a: string, pat: string, rep: string)
    requires pat != [] && pat[0] !in a
    ensures Replace(a + pat, pat, rep) == a + rep
  {
    ReplaceSkipsHead(a, pat, pat, rep);
    ReplaceAtHead([], pat, rep);
    assert pat + [] == pat && rep + [] == rep;
  }

  lemma LowerExample(sentence: string, t: string)
    requires sentence == "Can't do THIS?!" && t == " do this"
    ensures ToLower(sentence) == "can't" + (t + "?!")
  {
  }

  lemma ExpandExample(t: string)
    requires t == " do this"
    ensures ExpandContractions("can't" + (t + "?!")) == "cannot" + (t + "?!")
  {
    CantAtFront(t + "?!", "can't", "cannot");
  }

  lemma NormalizeExample(t: string, w: string)
    requires t == " do this" && w == "cannot do this"
    ensures Normalize("can't" + (t + "?!")) == w
  {
    ExpandExample(t);
    assert "cannot" + (t + "?!") == w + "?!";
    QuestionBangAtEnd(w, "?!");
  }

  lemma SplitExample(w: string, ws: seq<string>)
    requires w == "cannot do this" && ws == ["cannot", "do", "this"]
    ensures Split(w) == ws
  {
    SplitJoin(ws);
    assert Join(ws[2..]) == "this";
    assert Join(ws[1..]) == "do this";
    assert Join(ws) == w;
  }

  /** The sentence "Can't do THIS?!" yields the tokens "cannot", "do", "this". */
  lemma BreakSentenceExample(sentence: string)
    requires sentence == "Can't do THIS?!"
    ensures BreakSentenceToWords(sentence) == ["cannot", "do", "this"]
  {
    LowerExample(sentence, " do this");
    NormalizeExample(" do this", "cannot do this");
    SplitExample("cannot do this", ["cannot", "do", "this"]);
  }
}
