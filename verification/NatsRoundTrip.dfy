/** Parsing what was printed: any stream of printed packets parses to those packets. */
module NatsRoundTrip {
  import opened Wrappers
  import opened NatsPackets
  import opened NatsParser

  predicate NoSpace(s: string) {
    forall c | c in s :: !IsSpace(c)
  }

  /** The packets whose fields the patterns can tell apart. The payload of a message is
      arbitrary; it is counted, not delimited. */
  predicate Encodable(p: Packet) {
    match p
    case Err(message) => '\n' !in message
    case Info(payload) => payload != "" && NoSpace(payload)
    case Msg(subject, subID, replyTo, payload) =>
      && subject != "" && NoSpace(subject) && NoSpace(replyTo)
      && 0 <= subID <= MAX_INT64 && |payload| <= MAX_INT64
    case _ => true
  }

  // ------------------------------------------------------------------------ readers

  lemma {:induction false} WordOf(w: string, c: char, rest: string)
    requires (forall i | 0 <= i < |w| :: !EndsWord(w[i])) && EndsWord(c)
    ensures Word(w + [c] + rest) == Some((w, rest))
  {
    var s := w + [c] + rest;
    if w == "" {
      assert s[0] == c && s[1..] == rest;
    } else {
      WordOf(w[1..], c, rest);
      assert s[0] == w[0] && s[1..] == w[1..] + [c] + rest;
      assert [w[0]] + w[1..] == w;
    }
  }

  lemma {:induction false} LineOf(l: string, rest: string)
    requires '\n' !in l
    ensures Line(l + "\n" + rest) == (l + "\n", rest)
  {
    var s := l + "\n" + rest;
    if l == "" {
      assert s[0] == '\n' && s[1..] == rest;
      assert l + "\n" == ['\n'];
    } else {
      LineOf(l[1..], rest);
      assert s[0] == l[0] && s[1..] == l[1..] + "\n" + rest;
      assert [l[0]] + (l[1..] + "\n") == l + "\n";
    }
  }

  // ------------------------------------------------------------------------- tokens

  lemma {:induction false} TokensOfWord(w: string, rest: string)
    requires w != "" && (forall i | 0 <= i < |w| :: !IsSpace(w[i])) && (rest == "" || IsSpace(rest[0]))
    ensures Tokens(w + rest) == [w] + Tokens(rest)
  {
    var s := w + rest;
    assert s[0] == w[0] && s[1..] == w[1..] + rest;
    if |w| == 1 {
      assert w[1..] + rest == rest;
      assert rest != "" ==> s[1] == rest[0];
      assert w == [w[0]];
    } else {
      TokensOfWord(w[1..], rest);
      assert s[1] == w[1];
      assert ([w[1..]] + Tokens(rest))[1..] == Tokens(rest);
      assert [w[0]] + w[1..] == w;
    }
  }

  lemma TokensAfterSpace(c: char, rest: string)
    requires IsSpace(c)
    ensures Tokens([c] + rest) == Tokens(rest)
  {
    assert ([c] + rest)[1..] == rest;
  }

  lemma TokensOfEnd()
    ensures Tokens(CRLF) == []
  {
    TokensAfterSpace('\r', "\n");
    TokensAfterSpace('\n', "");
    assert CRLF == ['\r'] + "\n" && "\n" == ['\n'] + "";
  }

  lemma TokensOfLast(w: string)
    requires w != "" && NoSpace(w)
    ensures Tokens(w + CRLF) == [w]
  {
    TokensOfWord(w, CRLF);
    TokensOfEnd();
  }

  lemma TokensOfNext(w: string, rest: string)
    requires w != "" && NoSpace(w)
    ensures Tokens(w + " " + rest) == [w] + Tokens(rest)
  {
    assert w + " " + rest == w + ([' '] + rest);
    TokensOfWord(w, [' '] + rest);
    TokensAfterSpace(' ', rest);
  }

  // ------------------------------------------------------------------------ numbers

  lemma {:induction false} NaturalRoundTrip(n: nat)
    ensures AllDigits(Natural(n)) && Value(Natural(n)) == n
  {
    var s := Natural(n);
    if n < 10 {
      assert s[..0] == "";
    } else {
      NaturalRoundTrip(n / 10);
      assert s[..|s| - 1] == Natural(n / 10);
    }
  }

  lemma DigitsAreNoSpace(s: string)
    requires AllDigits(s)
    ensures NoSpace(s)
  {
  }

  // ----------------------------------------------------------------------- patterns

  lemma ErrOf(message: string)
    ensures ErrPattern("'" + message + "'" + CRLF) == Some(message)
  {
    var line := "'" + message + "'" + CRLF;
    var q := |message| + 1;
    assert line[0] == '\'' && line[q] == '\'' && line[q + 1..] == CRLF;
    assert line[q + 1] == '\r' && line[q + 2] == '\n' && |line| == q + 3;
    NoQuoteHere(line, q + 3);
    NoQuoteHere(line, q + 2);
    QuoteHere(line, q + 1);
    assert line[1..q] == message;
  }

  lemma NoQuoteHere(line: string, end: nat)
    requires 0 < end <= |line| && line[end - 1] != '\''
    ensures ClosingQuote(line, end) == ClosingQuote(line, end - 1)
  {
  }

  lemma QuoteHere(line: string, end: nat)
    requires 0 < end <= |line| && line[end - 1] == '\'' && line[end..] == CRLF
    ensures ClosingQuote(line, end) == Some(end - 1)
  {
    assert line[end..][|line[end..]| - 2..] == CRLF;
  }

  lemma InfoOf(payload: string)
    requires payload != "" && NoSpace(payload)
    ensures InfoPattern(payload + CRLF) == Some(payload)
  {
    TokensOfLast(payload);
    EndsInCRLF(payload);
  }

  lemma EndsInCRLF(s: string)
    ensures EndsInTail(s + CRLF)
  {
    assert (s + CRLF)[|s|..] == CRLF;
  }

  lemma MsgTokens(subject: string, id: string, len: string)
    requires subject != "" && NoSpace(subject) && AllDigits(id) && AllDigits(len)
    ensures Tokens(subject + " " + id + " " + len + CRLF) == [subject, id, len]
  {
    DigitsAreNoSpace(id);
    DigitsAreNoSpace(len);
    TokensOfLast(len);
    TokensOfNext(id, len + CRLF);
    TokensOfNext(subject, id + " " + (len + CRLF));
    assert subject + " " + id + " " + len + CRLF == subject + " " + (id + " " + (len + CRLF));
  }

  lemma MsgReplyTokens(subject: string, id: string, replyTo: string, len: string)
    requires subject != "" && NoSpace(subject) && replyTo != "" && NoSpace(replyTo) && AllDigits(id) && AllDigits(len)
    ensures Tokens(subject + " " + id + " " + replyTo + " " + len + CRLF) == [subject, id, replyTo, len]
  {
    DigitsAreNoSpace(id);
    DigitsAreNoSpace(len);
    TokensOfLast(len);
    TokensOfNext(replyTo, len + CRLF);
    TokensOfNext(id, replyTo + " " + (len + CRLF));
    TokensOfNext(subject, id + " " + (replyTo + " " + (len + CRLF)));
    RegroupReply(subject, id, replyTo, len);
  }

  lemma RegroupReply(subject: string, id: string, replyTo: string, len: string)
    ensures subject + " " + id + " " + replyTo + " " + len + CRLF
         == subject + " " + (id + " " + (replyTo + " " + (len + CRLF)))
  {
  }

  lemma MsgOf(subject: string, subID: nat, replyTo: string, length: nat)
    requires subject != "" && NoSpace(subject) && NoSpace(replyTo)
    ensures MsgPattern(MsgHeader(subject, subID, replyTo, length))
         == Some(MsgMatch(subject, Natural(subID), replyTo, Natural(length)))
  {
    var id, len := Natural(subID), Natural(length);
    NaturalRoundTrip(subID);
    NaturalRoundTrip(length);
    if replyTo == "" {
      MsgTokens(subject, id, len);
      EndsInCRLF(subject + " " + id + " " + len);
    } else {
      MsgReplyTokens(subject, id, replyTo, len);
      EndsInCRLF(subject + " " + id + " " + replyTo + " " + len);
    }
  }

  // ------------------------------------------------------------------- whole packets

  /** A header word, then a line without a newline inside, then whatever follows. */
  lemma HeaderAndLine(header: string, c: char, line: string, rest: string)
    requires (forall i | 0 <= i < |header| :: !EndsWord(header[i])) && EndsWord(c) && '\n' !in line
    ensures ParseSpec(header + [c] + (line + "\n" + rest)) == ParseBody(header, line + "\n" + rest)
    ensures Line(line + "\n" + rest) == (line + "\n", rest)
  {
    WordOf(header, c, line + "\n" + rest);
    LineOf(line, rest);
  }

  lemma BareRoundTrip(header: string, rest: string)
    requires header in {"PING", "PONG", "+OK"}
    ensures ParseSpec(header + CRLF + rest)
         == (Success(if header == "PING" then Ping else if header == "PONG" then Pong else Ok), rest)
  {
    HeaderAndLine(header, '\r', "", rest);
    assert header + CRLF + rest == header + ['\r'] + ("" + "\n" + rest);
  }

  lemma ErrRoundTrip(message: string, rest: string)
    requires '\n' !in message
    ensures ParseSpec("-ERR '" + message + "'" + CRLF + rest) == (Success(Err(message)), rest)
  {
    var line := "'" + message + "'" + "\r";
    HeaderAndLine("-ERR", ' ', line, rest);
    assert line + "\n" == "'" + message + "'" + CRLF;
    ErrOf(message);
    ErrRegroup(message, rest);
  }

  lemma ErrRegroup(message: string, rest: string)
    ensures "-ERR '" + message + "'" + CRLF + rest == "-ERR" + [' '] + ("'" + message + "'" + "\r" + "\n" + rest)
  {
  }

  lemma InfoRoundTrip(payload: string, rest: string)
    requires payload != "" && NoSpace(payload)
    ensures ParseSpec("INFO " + payload + CRLF + rest) == (Success(Info(payload)), rest)
  {
    var line := payload + "\r";
    HeaderAndLine("INFO", ' ', line, rest);
    assert line + "\n" == payload + CRLF;
    InfoOf(payload);
    assert "INFO " + payload + CRLF + rest == "INFO" + [' '] + (line + "\n" + rest);
  }

  /** The header of a message without its newline. */
  lemma MsgLine(subject: string, subID: nat, replyTo: string, length: nat) returns (line: string)
    requires NoSpace(subject) && NoSpace(replyTo)
    ensures MsgHeader(subject, subID, replyTo, length) == line + "\n" && '\n' !in line
  {
    var id, len := Natural(subID), Natural(length);
    NaturalRoundTrip(subID);
    NaturalRoundTrip(length);
    DigitsAreNoSpace(id);
    DigitsAreNoSpace(len);
    var words := if replyTo != "" then subject + " " + id + " " + replyTo + " " + len
        else subject + " " + id + " " + len;
    line := words + "\r";
    assert line + "\n" == words + CRLF;
    assert forall c | c in words :: c == ' ' || c in subject || c in id || c in replyTo || c in len;
  }

  lemma PayloadRoundTrip(m: MsgMatch, payload: string, rest: string)
    requires AllDigits(m.subID) && Value(m.subID) <= MAX_INT64
    requires AllDigits(m.length) && Value(m.length) == |payload| <= MAX_INT64
    ensures ParsePayload(m, payload + CRLF + rest)
         == (Success(Msg(m.subject, Value(m.subID), m.replyTo, payload)), rest)
  {
    var s := payload + CRLF + rest;
    assert s[..|payload|] == payload && s[|payload|..] == "\r" + "\n" + rest;
    LineOf("\r", rest);
  }

  lemma MsgBody(m: MsgMatch, line: string, payload: string, rest: string)
    requires '\n' !in line && MsgPattern(line + "\n") == Some(m)
    requires Value(m.subID) <= MAX_INT64 && Value(m.length) == |payload| <= MAX_INT64
    ensures ParseSpec("MSG" + [' '] + (line + "\n" + (payload + CRLF + rest)))
         == (Success(Msg(m.subject, Value(m.subID), m.replyTo, payload)), rest)
  {
    MsgMatchDigits(line + "\n");
    HeaderAndLine("MSG", ' ', line, payload + CRLF + rest);
    PayloadRoundTrip(m, payload, rest);
  }

  lemma MsgRoundTrip(subject: string, subID: nat, replyTo: string, payload: string, rest: string)
    requires subject != "" && NoSpace(subject) && NoSpace(replyTo) && subID <= MAX_INT64 && |payload| <= MAX_INT64
    ensures ParseSpec("MSG " + MsgHeader(subject, subID, replyTo, |payload|) + payload + CRLF + rest)
         == (Success(Msg(subject, subID, replyTo, payload)), rest)
  {
    var line := MsgLine(subject, subID, replyTo, |payload|);
    var header := MsgHeader(subject, subID, replyTo, |payload|);
    MsgOf(subject, subID, replyTo, |payload|);
    NaturalRoundTrip(subID);
    NaturalRoundTrip(|payload|);
    MsgBody(MsgMatch(subject, Natural(subID), replyTo, Natural(|payload|)), line, payload, rest);
    Regroup(header, payload, rest);
  }

  lemma Regroup(header: string, payload: string, rest: string)
    ensures "MSG " + header + payload + CRLF + rest == "MSG" + [' '] + (header + (payload + CRLF + rest))
  {
  }

  /** Parsing a printed packet returns it and consumes exactly its bytes. */
  lemma PacketRoundTrip(p: Packet, rest: string)
    requires Encodable(p)
    ensures ParseSpec(Encode(p) + rest) == (Success(p), rest)
  {
    match p
    case Ping => BareRoundTrip("PING", rest);
    case Pong => BareRoundTrip("PONG", rest);
    case Ok => BareRoundTrip("+OK", rest);
    case Err(message) => ErrRoundTrip(message, rest);
    case Info(payload) => InfoRoundTrip(payload, rest);
    case Msg(subject, subID, replyTo, payload) => MsgRoundTrip(subject, subID, replyTo, payload, rest);
  }

  /** The packets of a stream, up to the first that does not parse. */
  function ParseAll(s: string): (seq<Packet>, string)
    decreases |s|
  {
    var (p, rest) := ParseSpec(s);
    if p.Success? && |rest| < |s| then
      var (ps, last) := ParseAll(rest);
      ([p.value] + ps, last)
    else ([], s)
  }

  /** A stream of printed packets parses to these packets and nothing is left. */
  lemma {:induction false} StreamRoundTrip(ps: seq<Packet>)
    requires forall i | 0 <= i < |ps| :: Encodable(ps[i])
    ensures ParseAll(EncodeAll(ps)) == (ps, "")
  {
    if ps != [] {
      StreamRoundTrip(ps[1..]);
      PacketRoundTrip(ps[0], EncodeAll(ps[1..]));
      assert [ps[0]] + ps[1..] == ps;
    } else {
      assert Word("") == None;
    }
  }

  // ------------------------------------------------------- what a parser can return

  predicate NewlineOnlyLast(line: string) {
    forall i | 0 <= i < |line| - 1 :: line[i] != '\n'
  }

  lemma {:induction false} NewlineEndsLine(s: string)
    ensures NewlineOnlyLast(Line(s).0)
  {
    if s != "" && s[0] != '\n' {
      NewlineEndsLine(s[1..]);
      LongerLine(s[0], Line(s[1..]).0);
    }
  }

  lemma LongerLine(c: char, line: string)
    requires c != '\n' && NewlineOnlyLast(line)
    ensures NewlineOnlyLast([c] + line)
  {
    forall i | 0 <= i < |[c] + line| - 1
      ensures ([c] + line)[i] != '\n'
    {
      if i > 0 {
        assert ([c] + line)[i] == line[i - 1];
      }
    }
  }

  lemma {:induction false} TailAfterQuote(line: string, end: nat)
    requires end <= |line|
    ensures ClosingQuote(line, end).Some? ==> ClosingQuote(line, end).value + 3 <= |line|
  {
    if end > 0 {
      TailAfterQuote(line, end - 1);
      assert IsTail(line[end..]) ==> |line| - end >= 2;
    }
  }

  lemma {:induction false} TokensAreWords(line: string)
    ensures forall i | 0 <= i < |Tokens(line)| :: Tokens(line)[i] != "" && NoSpace(Tokens(line)[i])
  {
    if line != "" {
      TokensAreWords(line[1..]);
    }
  }

  /** Whatever the stream holds, a parser returns no packet with fields that the printed
      form cannot carry. */
  lemma ParsedIsEncodable(s: string)
    ensures ParseSpec(s).0.Success? ==> Encodable(ParseSpec(s).0.value)
  {
    if Word(s).Some? {
      var (header, ahead) := Word(s).value;
      BodyIsEncodable(header, ahead);
    }
  }

  lemma BodyIsEncodable(header: string, ahead: string)
    ensures ParseBody(header, ahead).0.Success? ==> Encodable(ParseBody(header, ahead).0.value)
  {
    var (line, rest) := Line(ahead);
    if header == "-ERR" {
      NewlineEndsLine(ahead);
      ErrIsEncodable(line);
    } else if header == "INFO" {
      TokensAreWords(line);
    } else if header == "MSG" {
      TokensAreWords(line);
      if MsgPattern(line).Some? {
        MsgIsEncodable(MsgPattern(line).value, rest);
      }
    }
  }

  lemma ErrIsEncodable(line: string)
    requires NewlineOnlyLast(line)
    ensures ErrPattern(line).Some? ==> '\n' !in ErrPattern(line).value
  {
    TailAfterQuote(line, |line|);
    if ErrPattern(line).Some? {
      var first, last := FirstQuote(line).value, ClosingQuote(line, |line|).value;
      var message := line[first + 1..last];
      forall i | 0 <= i < |message|
        ensures message[i] != '\n'
      {
        assert message[i] == line[first + 1 + i];
      }
    }
  }

  lemma MsgIsEncodable(m: MsgMatch, rest: string)
    requires m.subject != "" && NoSpace(m.subject) && NoSpace(m.replyTo)
    ensures ParsePayload(m, rest).0.Success? ==> Encodable(ParsePayload(m, rest).0.value)
  {
  }

  /** A packet survives printing and parsing if and only if it is one of the encodable ones. */
  lemma RoundTripIff(p: Packet)
    ensures Encodable(p) <==> forall rest: string :: ParseSpec(Encode(p) + rest) == (Success(p), rest)
  {
    if Encodable(p) {
      forall rest: string
        ensures ParseSpec(Encode(p) + rest) == (Success(p), rest)
      {
        PacketRoundTrip(p, rest);
      }
    } else {
      ParsedIsEncodable(Encode(p) + "");
      assert ParseSpec(Encode(p) + "") != (Success(p), "");
    }
  }

  /** Printing a parsed packet and parsing it again returns the same packet. */
  lemma ReparsedIsSame(s: string, rest: string)
    requires ParseSpec(s).0.Success?
    ensures ParseSpec(Encode(ParseSpec(s).0.value) + rest) == (ParseSpec(s).0, rest)
  {
    ParsedIsEncodable(s);
    PacketRoundTrip(ParseSpec(s).0.value, rest);
  }
}
