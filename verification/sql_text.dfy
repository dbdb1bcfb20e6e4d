/** SQL string constants, as the seed script writes its reply texts: a value
    between single quotes, with an embedded single quote written twice
    (section 4.1.2.1 of the PostgreSQL manual, "String Constants"). */
module SqlText {
  import opened Options

  const Apostrophe: char := '\''

  /** The body of the constant for `s`: every apostrophe doubled. */
  function Escape(s: string): (e: string)
    ensures |e| >= |s|
    ensures Apostrophe !in s ==> e == s
  {
    if |s| == 0 then ""
    else if s[0] == Apostrophe then [Apostrophe, Apostrophe] + Escape(s[1..])
    else [s[0]] + Escape(s[1..])
  }

  /** The string constant for `s`. */
  function Quote(s: string): string {
    [Apostrophe] + Escape(s) + [Apostrophe]
  }

  /** Lexes a string constant whose opening quote has been consumed: the
      value, and the text after the closing quote; `None` when the constant
      is never closed. A doubled apostrophe stands for one apostrophe; a
      single one closes the constant. */
  function ReadConstant(s: string): (r: Option<(string, string)>)
    ensures r.Some? ==> |r.value.1| < |s|
  {
    if |s| == 0 then None
    else if s[0] == Apostrophe then
      if |s| >= 2 && s[1] == Apostrophe then
        match ReadConstant(s[2..])
        case None => None
        case Some((v, rest)) => Some(([Apostrophe] + v, rest))
      else Some(("", s[1..]))
    else
      match ReadConstant(s[1..])
      case None => None
      case Some((v, rest)) => Some(([s[0]] + v, rest))
  }

  /** Quoting round-trips: lexing the constant for `v` gives back `v`, and
      stops right after its closing quote, whatever follows that is not
      another apostrophe. */
  lemma {:induction false} ReadQuoted(v: string, rest: string)
    requires |rest| == 0 || rest[0] != Apostrophe
    ensures ReadConstant(Escape(v) + [Apostrophe] + rest) == Some((v, rest))
  {
    var s := Escape(v) + [Apostrophe] + rest;
    if |v| == 0 {
      assert s == [Apostrophe] + rest;
      assert s[1..] == rest;
    } else if v[0] == Apostrophe {
      assert s == [Apostrophe, Apostrophe] + (Escape(v[1..]) + [Apostrophe] + rest);
      assert s[2..] == Escape(v[1..]) + [Apostrophe] + rest;
      ReadQuoted(v[1..], rest);
      assert [Apostrophe] + v[1..] == v;
    } else {
      assert s == [v[0]] + (Escape(v[1..]) + [Apostrophe] + rest);
      assert s[1..] == Escape(v[1..]) + [Apostrophe] + rest;
      ReadQuoted(v[1..], rest);
      assert [v[0]] + v[1..] == v;
    }
  }

  /** Text without apostrophes is read through unchanged. */
  lemma {:induction false} ReadPlainPrefix(a: string, s: string)
    requires Apostrophe !in a
    ensures ReadConstant(s).None? ==> ReadConstant(a + s).None?
    ensures ReadConstant(s).Some? ==>
      ReadConstant(a + s) == Some((a + ReadConstant(s).value.0, ReadConstant(s).value.1))
  {
    if |a| > 0 {
      assert (a + s)[0] == a[0];
      assert (a + s)[1..] == a[1..] + s;
      ReadPlainPrefix(a[1..], s);
      if ReadConstant(s).Some? {
        assert [a[0]] + (a[1..] + ReadConstant(s).value.0) == a + ReadConstant(s).value.0;
      }
    } else {
      assert a + s == s;
      if ReadConstant(s).Some? {
        assert a + ReadConstant(s).value.0 == ReadConstant(s).value.0;
      }
    }
  }

  lemma {:induction false} EscapeConcat(a: string, b: string)
    ensures Escape(a + b) == Escape(a) + Escape(b)
  {
    if |a| > 0 {
      assert (a + b)[0] == a[0];
      assert (a + b)[1..] == a[1..] + b;
      EscapeConcat(a[1..], b);
    } else {
      assert a + b == b;
    }
  }

  // ---------------------------------------------------------------------
  // The reply of the final puzzle's answer rule (db-creation.py, line 64)

  /** The reply text around its apostrophe: "Correct! You" and "ve finished
      the hunt!". */
  const ReplyHead: string := "Correct! You"
  const ReplyTail: string := "ve finished the hunt!"

  /** The reply text the seed evidently means: "Correct! You've finished the hunt!". */
  const FinalReply: string := ReplyHead + [Apostrophe] + ReplyTail

  /** The constant as the seed script writes it, after its opening quote:
      the apostrophe of "You've" is not doubled. */
  const FinalReplyAsWritten: string := ReplyHead + [Apostrophe] + ReplyTail + [Apostrophe]

  lemma ReplyPartsPlain()
    ensures Apostrophe !in ReplyHead && Apostrophe !in ReplyTail
    ensures |ReplyTail| > 0 && ReplyTail[0] == 'v'
  {
    assert ReplyHead == "Correct!" + " You";
    assert ReplyTail == "ve" + " finished" + " the" + " hunt!";
  }

  /** As written, the constant closes after "Correct! You" and the statement
      continues with `ve finished the hunt!'`, which is not SQL: the `INSERT`
      of the response rules fails. */
  lemma FinalReplyAsWrittenCloses()
    ensures ReadConstant(FinalReplyAsWritten) == Some((ReplyHead, ReplyTail + [Apostrophe]))
    ensures ReadConstant(FinalReplyAsWritten).value.0 != FinalReply
  {
    ReplyPartsPlain();
    var b := [Apostrophe] + ReplyTail + [Apostrophe];
    assert FinalReplyAsWritten == ReplyHead + b;
    assert b[1..] == ReplyTail + [Apostrophe];
    assert ReadConstant(b) == Some(("", ReplyTail + [Apostrophe]));
    ReadPlainPrefix(ReplyHead, b);
    assert ReplyHead + "" == ReplyHead;
  }

  lemma EscapeFinalReply()
    ensures Escape(FinalReply) == ReplyHead + [Apostrophe, Apostrophe] + ReplyTail
  {
    ReplyPartsPlain();
    var b := [Apostrophe] + ReplyTail;
    EscapeConcat(ReplyHead, b);
    assert ReplyHead + b == FinalReply;
    assert b[1..] == ReplyTail;
  }

  /** Quoted with the apostrophe doubled, the constant reads back as the
      intended reply. */
  lemma FinalReplyQuoted()
    ensures Quote(FinalReply) == [Apostrophe] + ReplyHead + [Apostrophe, Apostrophe] + ReplyTail + [Apostrophe]
    ensures ReadConstant(Escape(FinalReply) + [Apostrophe]) == Some((FinalReply, ""))
  {
    EscapeFinalReply();
    ReadQuotedAtEnd(FinalReply);
  }

  lemma ReadQuotedAtEnd(v: string)
    ensures ReadConstant(Escape(v) + [Apostrophe]) == Some((v, ""))
  {
    ReadQuoted(v, "");
    assert Escape(v) + [Apostrophe] + "" == Escape(v) + [Apostrophe];
  }
}
