/** Worked examples of guess normalisation: the spellings a solver might type
    for the same answer all reach one normal form. */
module GuessExamples {
  import opened GuessText

  /** A guess already in normal form is kept as it is. */
  lemma NormalizeKeepsCanonical()
    ensures Normalize("answer1") == "answer1"
  {
    assert IsCanonical("answer1");
    NormalizeFixedPoint("answer1");
  }

  /** Upper case is folded onto lower case. */
  lemma NormalizeFoldsCase()
    ensures Normalize("ANSWER1") == "answer1"
  {
    assert LowerAll("ANSWER1") == "answer1";
    NormalizeIgnoresCase("ANSWER1");
    NormalizeKeepsCanonical();
  }

  lemma NormalizeSeparators()
    ensures Normalize(" ") == "" && Normalize("!") == ""
  {
    assert StripNonAlnum(" ") == "";
    assert StripNonAlnum("!") == "";
  }

  lemma NormalizeDigit()
    ensures Normalize("1") == "1"
  {
    assert StripNonAlnum("1") == "1";
  }

  lemma NormalizeWord()
    ensures Normalize("Answer") == "answer"
  {
    assert LowerAll("Answer") == "answer";
    NormalizeIgnoresCase("Answer");
    assert IsCanonical("answer");
    NormalizeFixedPoint("answer");
  }

  lemma {:induction false} NormalizeJoin(a: string, b: string, c: string, d: string)
    ensures Normalize(a + b + c + d) == Normalize(a) + Normalize(b) + Normalize(c) + Normalize(d)
  {
    NormalizeConcat(a + b + c, d);
    NormalizeConcat(a + b, c);
    NormalizeConcat(a, b);
  }

  lemma SplitGuess()
    ensures "Answer 1!" == "Answer" + " " + "1" + "!"
  {
  }

  /** Spaces and punctuation are dropped. */
  lemma NormalizeDropsPunctuation()
    ensures Normalize("Answer 1!") == "answer1"
  {
    NormalizeSeparators();
    NormalizeDigit();
    NormalizeWord();
    SplitGuess();
    NormalizeJoin("Answer", " ", "1", "!");
  }
}
