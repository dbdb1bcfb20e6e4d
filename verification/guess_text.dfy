/** Guess normalisation (main.py, start of `process_guess`): every character
    outside [A-Za-z0-9] is removed, then the remainder is lower-cased. Since
    what remains is ASCII, lower-casing is the ASCII mapping A-Z to a-z. */
module GuessText {

  predicate IsAsciiAlnum(c: char) {
    ('A' <= c <= 'Z') || ('a' <= c <= 'z') || ('0' <= c <= '9')
  }

  /** The characters a normalised guess is made of: [a-z0-9]. */
  predicate IsCanonicalChar(c: char) {
    ('a' <= c <= 'z') || ('0' <= c <= '9')
  }

  predicate IsCanonical(s: string) {
    forall i :: 0 <= i < |s| ==> IsCanonicalChar(s[i])
  }

  function AsciiLower(c: char): (d: char)
    ensures IsAsciiAlnum(c) ==> IsCanonicalChar(d)
    ensures IsCanonicalChar(c) ==> d == c
  {
    if 'A' <= c <= 'Z' then (c as int - 'A' as int + 'a' as int) as char else c
  }

  /** The regular-expression substitution: drop every non-alphanumeric run.
      Every letter and digit is kept, as often as it occurs, and nothing
      else remains. */
  function StripNonAlnum(s: string): (r: string)
    ensures |r| <= |s|
    ensures forall i :: 0 <= i < |r| ==> IsAsciiAlnum(r[i])
    ensures forall c {:trigger multiset(r)[c]} :: IsAsciiAlnum(c) ==> multiset(r)[c] == multiset(s)[c]
  {
    if |s| == 0 then ""
    else
      assert s == [s[0]] + s[1..];
      if IsAsciiAlnum(s[0]) then [s[0]] + StripNonAlnum(s[1..])
      else StripNonAlnum(s[1..])
  }

  function LowerAll(s: string): (r: string)
    ensures |r| == |s|
  {
    seq(|s|, i requires 0 <= i < |s| => AsciiLower(s[i]))
  }

  /** The normalised form under which guesses are compared and logged. */
  function Normalize(raw: string): (g: string)
    ensures IsCanonical(g)
    ensures |g| <= |raw|
  {
    LowerAll(StripNonAlnum(raw))
  }

  /** A string is its own normal form exactly when it is already made of
      [a-z0-9] only. */
  lemma {:induction false} NormalizeFixedPoint(s: string)
    ensures Normalize(s) == s <==> IsCanonical(s)
  {
    if IsCanonical(s) {
      StripKeepsAlnum(s);
      assert LowerAll(s) == s;
    }
  }

  lemma {:induction false} StripKeepsAlnum(s: string)
    requires forall i :: 0 <= i < |s| ==> IsAsciiAlnum(s[i])
    ensures StripNonAlnum(s) == s
  {
    if |s| > 0 {
      StripKeepsAlnum(s[1..]);
    }
  }

  /** Normalising twice gives the same result as normalising once. */
  lemma NormalizeIdempotent(raw: string)
    ensures Normalize(Normalize(raw)) == Normalize(raw)
  {
    NormalizeFixedPoint(Normalize(raw));
  }

  /** Normalisation works character by character, so it distributes over
      concatenation: inserted punctuation never joins or splits a guess. */
  lemma {:induction false} NormalizeConcat(a: string, b: string)
    ensures Normalize(a + b) == Normalize(a) + Normalize(b)
  {
    StripConcat(a, b);
  }

  lemma {:induction false} StripConcat(a: string, b: string)
    ensures StripNonAlnum(a + b) == StripNonAlnum(a) + StripNonAlnum(b)
  {
    if |a| > 0 {
      assert (a + b)[1..] == a[1..] + b;
      StripConcat(a[1..], b);
    } else {
      assert a + b == b;
    }
  }

  /** Upper- and lower-case spellings of a guess are the same guess. */
  lemma {:induction false} NormalizeIgnoresCase(s: string)
    ensures Normalize(LowerAll(s)) == Normalize(s)
  {
    if |s| > 0 {
      assert s == [s[0]] + s[1..];
      assert LowerAll(s) == [AsciiLower(s[0])] + LowerAll(s[1..]);
      NormalizeConcat([s[0]], s[1..]);
      NormalizeConcat([AsciiLower(s[0])], LowerAll(s[1..]));
      NormalizeIgnoresCase(s[1..]);
    }
  }

  /** Normalisation of a single character: a letter or digit is kept,
      lower-cased; anything else is dropped. With `NormalizeConcat` this
      determines the normal form of every string. */
  lemma NormalizeChar(c: char)
    ensures Normalize([c]) == if IsAsciiAlnum(c) then [AsciiLower(c)] else []
  {
    assert [c][1..] == [];
  }

  /** A non-alphanumeric character anywhere in a guess makes no difference. */
  lemma NormalizeDropsNonAlnum(a: string, c: char, b: string)
    requires !IsAsciiAlnum(c)
    ensures Normalize(a + [c] + b) == Normalize(a + b)
  {
    NormalizeConcat(a + [c], b);
    NormalizeConcat(a, [c]);
    NormalizeChar(c);
    NormalizeConcat(a, b);
    assert Normalize(a) + [] == Normalize(a);
  }
}
