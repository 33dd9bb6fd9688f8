/** The format that printer and parser share, pinned down by itself: the numerals, the
    largest number, and which word of a line is which. */
module NatsFormat {
  import opened Wrappers
  import opened NatsPackets
  import opened NatsParser
  import opened NatsRoundTrip

  // ------------------------------------------------------------------------ numbers

  /** 2 to the 32 times 2 to the 31. */
  const TWO_TO_63: nat := 0x1_0000_0000 * 0x8000_0000

  /** One more digit multiplies by ten and adds its place in "0123456789". */
  lemma ValueOfNext(s: string, d: nat)
    requires (forall c | c in s :: IsDigit(c)) && d < 10
    ensures IsDigit("0123456789"[d]) && forall c | c in s + ["0123456789"[d]] :: IsDigit(c)
    ensures Value(s + ["0123456789"[d]]) == 10 * Value(s) + d
  {
    assert (s + ["0123456789"[d]])[..|s|] == s;
  }

  /** A number that does not fit into 64 bits with a sign is read as the largest that does. */
  lemma ParsedNumber(s: string)
    requires AllDigits(s)
    ensures ParseInt(s) == if Value(s) < TWO_TO_63 then Value(s) else TWO_TO_63 - 1
  {
  }

  /** A number is printed in decimal digits, without a zero in front unless it is zero. */
  lemma {:induction false} PrintedNumber(n: nat)
    ensures AllDigits(Natural(n)) && Value(Natural(n)) == n
    ensures Natural(n)[0] == '0' ==> n == 0 && Natural(n) == "0"
  {
    NaturalRoundTrip(n);
    if n >= 10 {
      PrintedNumber(n / 10);
    }
  }

  // -------------------------------------------------------------------------- words

  /** Whatever comes before it in the line, an INFO line gives its last word. */
  lemma InfoIsLastWord(before: string, payload: string)
    requires payload != "" && NoSpace(payload)
    ensures InfoPattern(before + " " + payload + CRLF) == Some(payload)
  {
    LastWords(before, payload + CRLF);
    TokensOfLast(payload);
    EndsInCRLF(before + " " + payload);
    assert before + " " + payload + CRLF == before + " " + (payload + CRLF);
  }

  /** The words after a space are the last ones. */
  lemma {:induction false} LastWords(before: string, rest: string)
    ensures Tokens(before + " " + rest) == Tokens(before) + Tokens(rest)
  {
    if before == "" {
      assert "" + " " + rest == [' '] + rest;
      TokensAfterSpace(' ', rest);
    } else {
      var s := before + " " + rest;
      LastWords(before[1..], rest);
      assert s[0] == before[0] && s[1..] == before[1..] + " " + rest;
      if !IsSpace(before[0]) {
        FirstWord(before, rest);
      }
    }
  }

  /** A character before some words: part of the first one, or a word by itself. */
  function Prepend(c: char, glued: bool, words: seq<string>): seq<string> {
    if glued && words != [] then [[c] + words[0]] + words[1..] else [[c]] + words
  }

  lemma TokensOfNonSpace(s: string)
    requires s != "" && !IsSpace(s[0])
    ensures Tokens(s) == Prepend(s[0], |s| > 1 && !IsSpace(s[1]), Tokens(s[1..])) && Tokens(s) != []
  {
  }

  lemma PrependToMore(c: char, glued: bool, words: seq<string>, more: seq<string>)
    requires glued ==> words != []
    ensures Prepend(c, glued, words + more) == Prepend(c, glued, words) + more
  {
    if glued {
      assert (words + more)[0] == words[0] && (words + more)[1..] == words[1..] + more;
    }
  }

  lemma FirstWord(before: string, rest: string)
    requires before != "" && !IsSpace(before[0])
    requires Tokens(before[1..] + " " + rest) == Tokens(before[1..]) + Tokens(rest)
    ensures Tokens(before + " " + rest) == Tokens(before) + Tokens(rest)
  {
    var s := before + " " + rest;
    assert s[1..] == before[1..] + " " + rest && s[0] == before[0];
    var glued := |before| > 1 && !IsSpace(before[1]);
    assert glued <==> !IsSpace(s[1]);
    TokensOfNonSpace(s);
    TokensOfNonSpace(before);
    if glued {
      TokensOfNonSpace(before[1..]);
    }
    PrependToMore(before[0], glued, Tokens(before[1..]), Tokens(rest));
  }

  /** A MSG line with any number of words: the last is the length, and the two or three
      before it are subject, id and, if the word before the one before the length is a
      number, reply. */
  lemma MsgIsLastWords(before: string, subject: string, id: string, replyTo: string, length: string)
    requires subject != "" && NoSpace(subject) && AllDigits(id) && AllDigits(length)
    requires replyTo != "" && NoSpace(replyTo)
    ensures MsgPattern(before + " " + (subject + " " + id + " " + replyTo + " " + length + CRLF))
         == Some(MsgMatch(subject, id, replyTo, length))
  {
    var line := subject + " " + id + " " + replyTo + " " + length + CRLF;
    LastWords(before, line);
    MsgReplyTokens(subject, id, replyTo, length);
    EndsInCRLF(before + " " + (subject + " " + id + " " + replyTo + " " + length));
    assert before + " " + line == before + " " + (subject + " " + id + " " + replyTo + " " + length) + CRLF;
  }

  // ------------------------------------------------------------------------- packets

  /** What a message on the wire means, word by word: subject, id, reply if there is one,
      length, then that many bytes of payload. The numbers may have zeros in front. */
  lemma MsgOnTheWire(subject: string, id: string, replyTo: string, length: string, payload: string, rest: string)
    requires subject != "" && NoSpace(subject) && NoSpace(replyTo) && AllDigits(id) && AllDigits(length)
    requires ParseInt(length) == |payload|
    ensures ParseSpec("MSG " + subject + " " + id + " " + (if replyTo == "" then "" else replyTo + " ") + length +
                      CRLF + payload + CRLF + rest)
         == (Success(Msg(subject, ParseInt(id), replyTo, payload)), rest)
  {
    var words := subject + " " + id + " " + (if replyTo == "" then "" else replyTo + " ") + length;
    WireLine(subject, id, replyTo, length, words);
    var line := words + "\r";
    assert line + "\n" == words + CRLF;
    HeaderAndLine("MSG", ' ', line, payload + CRLF + rest);
    WirePayload(MsgMatch(subject, id, replyTo, length), payload, rest);
    WireRegroup(subject, id, if replyTo == "" then "" else replyTo + " ", length, payload, rest);
  }

  lemma WireLine(subject: string, id: string, replyTo: string, length: string, words: string)
    requires subject != "" && NoSpace(subject) && NoSpace(replyTo) && AllDigits(id) && AllDigits(length)
    requires words == subject + " " + id + " " + (if replyTo == "" then "" else replyTo + " ") + length
    ensures MsgPattern(words + CRLF) == Some(MsgMatch(subject, id, replyTo, length))
    ensures '\n' !in words
  {
    DigitsAreNoSpace(id);
    DigitsAreNoSpace(length);
    EndsInCRLF(words);
    if replyTo == "" {
      MsgTokens(subject, id, length);
      assert words == subject + " " + id + " " + length;
    } else {
      MsgReplyTokens(subject, id, replyTo, length);
      assert words == subject + " " + id + " " + replyTo + " " + length;
    }
    assert forall c | c in words :: c == ' ' || c in subject || c in id || c in replyTo || c in length;
  }

  lemma WirePayload(m: MsgMatch, payload: string, rest: string)
    requires AllDigits(m.subID) && AllDigits(m.length) && ParseInt(m.length) == |payload|
    ensures ParsePayload(m, payload + CRLF + rest)
         == (Success(Msg(m.subject, ParseInt(m.subID), m.replyTo, payload)), rest)
  {
    var s := payload + CRLF + rest;
    assert s[..|payload|] == payload && s[|payload|..] == "\r" + "\n" + rest;
    LineOf("\r", rest);
  }

  lemma WireRegroup(subject: string, id: string, reply: string, length: string, payload: string, rest: string)
    ensures "MSG " + subject + " " + id + " " + reply + length + CRLF + payload + CRLF + rest
         == "MSG" + [' '] + (subject + " " + id + " " + reply + length + "\r" + "\n" + (payload + CRLF + rest))
  {
  }

  // -------------------------------------------------------- which lines are refused

  lemma {:induction false} FirstQuoteIs(line: string)
    ensures FirstQuote(line).Some? <==> '\'' in line
    ensures var q := FirstQuote(line);
            q.Some? ==> q.value < |line| && line[q.value] == '\'' && '\'' !in line[..q.value]
  {
    if line != "" && line[0] != '\'' {
      FirstQuoteIs(line[1..]);
      var q := FirstQuote(line[1..]);
      if q.Some? {
        assert line[..q.value + 1] == [line[0]] + line[1..][..q.value];
      }
    }
  }

  predicate ClosesAt(line: string, j: nat) {
    j < |line| && line[j] == '\'' && IsTail(line[j + 1..])
  }

  lemma {:induction false} ClosingQuoteIs(line: string, end: nat)
    requires end <= |line|
    ensures ClosingQuote(line, end).None? ==> forall j: nat | j < end :: !ClosesAt(line, j)
    ensures var q := ClosingQuote(line, end);
            q.Some? ==>
              q.value < end && ClosesAt(line, q.value) && forall j: nat | q.value < j < end :: !ClosesAt(line, j)
  {
    if end > 0 && !ClosesAt(line, end - 1) {
      ClosingQuoteIs(line, end - 1);
    }
  }

  /** An error line is accepted exactly if it has two quotes with nothing but white space
      and the end of the line after the second; the message is all there is between the
      first quote and the last such one. */
  lemma ErrPatternIff(line: string)
    ensures ErrPattern(line).Some? <==>
            exists i: nat, j: nat :: i < j && i < |line| && line[i] == '\'' && ClosesAt(line, j)
    ensures ErrPattern(line).Some? ==>
              exists i: nat, j: nat ::
                && i < j && ClosesAt(line, j) && line[i] == '\'' && '\'' !in line[..i]
                && (forall k: nat | j < k < |line| :: !ClosesAt(line, k))
                && ErrPattern(line).value == line[i + 1..j]
  {
    FirstQuoteIs(line);
    ClosingQuoteIs(line, |line|);
    var first := FirstQuote(line);
    if first.Some? {
      assert forall k | 0 <= k < first.value :: line[k] == line[..first.value][k];
    }
  }

  lemma {:induction false} NoTokens(s: string)
    ensures Tokens(s) == [] <==> forall c | c in s :: IsSpace(c)
  {
    if s != "" {
      NoTokens(s[1..]);
      assert s == [s[0]] + s[1..];
    }
  }

  /** An INFO line is refused exactly if it does not end as a line should or has no word. */
  lemma InfoFailsIff(line: string)
    ensures InfoPattern(line).None? <==>
            !(|line| >= 2 && line[|line| - 2..] == "\r\n") || forall c | c in line :: IsSpace(c)
  {
    NoTokens(line);
  }

  predicate IsMsg(line: string, before: seq<string>, m: MsgMatch) {
    && AllDigits(m.subID) && AllDigits(m.length) && m.subject != ""
    && Tokens(line) == before + [m.subject, m.subID] + (if m.replyTo == "" then [] else [m.replyTo]) + [m.length]
  }

  /** A MSG line is accepted exactly if it ends as a line should and its last words are a
      subject, a number, possibly a reply, and a number; where both readings are possible
      the one with the reply is taken. */
  lemma MsgPatternIff(line: string)
    ensures MsgPattern(line).Some? <==> EndsInTail(line) && exists before, m :: IsMsg(line, before, m)
    ensures MsgPattern(line).Some? ==>
              var m := MsgPattern(line).value;
              (exists before :: IsMsg(line, before, m)) &&
              (m.replyTo == "" ==> forall before, m' | IsMsg(line, before, m') :: m'.replyTo == "")
  {
    TokensAreWords(line);
    var t, n := Tokens(line), |Tokens(line)|;
    if MsgPattern(line).Some? {
      var m := MsgPattern(line).value;
      var before := if m.replyTo == "" then t[..n - 3] else t[..n - 4];
      assert m.replyTo == "" ==> t == before + [t[n - 3], t[n - 2]] + [] + [t[n - 1]];
      assert m.replyTo != "" ==> t == before + [t[n - 4], t[n - 3]] + [t[n - 2]] + [t[n - 1]];
      assert IsMsg(line, before, m);
    }
    forall before, m | IsMsg(line, before, m)
      ensures n >= 3 && t[n - 1] == m.length
      ensures if m.replyTo == "" then t[n - 2] == m.subID else n >= 4 && t[n - 3] == m.subID
    {
    }
  }

  lemma {:induction false} TokensAreWords(s: string)
    ensures forall k | 0 <= k < |Tokens(s)| :: Tokens(s)[k] != ""
  {
    if s != "" {
      TokensAreWords(s[1..]);
      if !IsSpace(s[0]) {
        TokensOfNonSpace(s);
      }
    }
  }
}
