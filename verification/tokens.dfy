/** Join-token generation (main.py, `generate_random_string`).
    The source draws each character with `random.choice`; here the draws are
    an input: one index into the character bank per character. */
module Tokens {

  /** The character bank, ABCDEFGHJKLMNPQRSTUVWXYZabcdefghijkmnopqrstuvwxyz23456789,
      written as its runs of consecutive characters. It omits I, O, l, 0 and
      1, which are easily confused when a token is read or copied. */
  const Bank: string :=
    "ABCDEFGH" + "JKLMN" + "PQRSTUVWXYZ" + "abcdefghijk" + "mnopqrstuvwxyz" + "23456789"

  /** Default length of a token. */
  const TokenLength: nat := 8

  /** The characters the bank leaves out on purpose. */
  predicate IsAmbiguous(c: char) {
    c == 'I' || c == 'O' || c == 'l' || c == '0' || c == '1'
  }

  /** An independent description of the bank: ASCII letters and digits
      other than the ambiguous ones. */
  predicate IsBankChar(c: char) {
    && (('A' <= c <= 'Z') || ('a' <= c <= 'z') || ('0' <= c <= '9'))
    && !IsAmbiguous(c)
  }

  predicate ValidDraws(draws: seq<nat>) {
    && |draws| == TokenLength
    && forall i :: 0 <= i < |draws| ==> draws[i] < |Bank|
  }

  predicate IsToken(t: string) {
    && |t| == TokenLength
    && forall i :: 0 <= i < |t| ==> t[i] in Bank
  }

  /** Every character of the bank satisfies `IsBankChar`, and vice versa. */
  lemma BankCharacterised(c: char)
    ensures c in Bank <==> IsBankChar(c)
  {
    UpperRuns(c);
    LowerRuns(c);
    DigitRun(c);
    assert c in Bank <==>
      c in "ABCDEFGH" || c in "JKLMN" || c in "PQRSTUVWXYZ" ||
      c in "abcdefghijk" || c in "mnopqrstuvwxyz" || c in "23456789";
  }

  lemma UpperRuns(c: char)
    ensures c in "ABCDEFGH" <==> 'A' <= c <= 'H'
    ensures c in "JKLMN" <==> 'J' <= c <= 'N'
    ensures c in "PQRSTUVWXYZ" <==> 'P' <= c <= 'Z'
  {
  }

  lemma LowerRuns(c: char)
    ensures c in "abcdefghijk" <==> 'a' <= c <= 'k'
    ensures c in "mnopqrstuvwxyz" <==> 'm' <= c <= 'z'
  {
  }

  lemma DigitRun(c: char)
    ensures c in "23456789" <==> '2' <= c <= '9'
  {
  }

  /** The token built from `draws`: character `i` is `Bank[draws[i]]`. */
  function GenerateToken(draws: seq<nat>): (t: string)
    requires ValidDraws(draws)
    ensures IsToken(t)
    ensures forall i :: 0 <= i < |t| ==> IsBankChar(t[i]) && !IsAmbiguous(t[i])
  {
    var t := seq(|draws|, i requires 0 <= i < |draws| => Bank[draws[i]]);
    assert forall i :: 0 <= i < |t| ==> IsBankChar(t[i]) by {
      forall i | 0 <= i < |t| {
        BankCharacterised(t[i]);
      }
    }
    t
  }

  /** Position of `c` in `s`. */
  function IndexOf(c: char, s: string): (k: nat)
    requires c in s
    ensures k < |s| && s[k] == c
  {
    if s[0] == c then 0 else 1 + IndexOf(c, s[1..])
  }

  /** Every well-formed token is a possible output of the generator, so the
      generator's range is exactly the set of tokens. */
  lemma {:induction false} EveryTokenGenerable(t: string)
    requires IsToken(t)
    ensures exists draws :: ValidDraws(draws) && GenerateToken(draws) == t
  {
    var draws := seq(|t|, i requires 0 <= i < |t| => IndexOf(t[i], Bank));
    assert ValidDraws(draws);
    assert GenerateToken(draws) == t;
  }
}
