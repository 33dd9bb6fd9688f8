/** The parser of NATS packets: what it reads from a stream, as functions of the bytes
    ahead, and the reader that consumes them. */
module NatsParser {
  import opened Wrappers
  import opened NatsPackets

  datatype Error = EndOfStream | UnknownHeader | Malformed

  /** The white space of the header reader, and that of the patterns. */
  predicate EndsWord(c: char) {
    c == ' ' || c == '\t' || c == '\r' || c == '\n'
  }

  predicate IsSpace(c: char) {
    EndsWord(c) || c == '\U{0C}'
  }

  predicate IsDigit(c: char) {
    '0' <= c <= '9'
  }

  predicate AllDigits(s: string) {
    s != "" && forall c | c in s :: IsDigit(c)
  }

  // ------------------------------------------------------------------ reading ahead

  /** The word before the next word end, and what follows the latter. */
  function Word(s: string): Option<(string, string)> {
    if s == "" then None
    else if EndsWord(s[0]) then Some(("", s[1..]))
    else
      match Word(s[1..])
      case None => None
      case Some((word, rest)) => Some(([s[0]] + word, rest))
  }

  /** The bytes up to and including the next newline, or all there are. */
  function Line(s: string): (string, string) {
    if s == "" then ("", "")
    else if s[0] == '\n' then ([s[0]], s[1..])
    else var (line, rest) := Line(s[1..]); ([s[0]] + line, rest)
  }

  // ---------------------------------------------------------------------- patterns

  /** White space that ends in a carriage return and a newline. */
  predicate IsTail(s: string) {
    |s| >= 2 && s[|s| - 2..] == CRLF && forall c | c in s :: IsSpace(c)
  }

  /** The position of the first quote. */
  function FirstQuote(line: string): Option<nat> {
    if line == "" then None
    else if line[0] == '\'' then Some(0)
    else match FirstQuote(line[1..]) case None => None case Some(i) => Some(i + 1)
  }

  /** The position of the last quote that only a tail follows. */
  function ClosingQuote(line: string, end: nat): Option<nat>
    requires end <= |line|
  {
    if end == 0 then None
    else if line[end - 1] == '\'' && IsTail(line[end..]) then Some(end - 1)
    else ClosingQuote(line, end - 1)
  }

  /** What the pattern of an error packet captures: the greedy group runs from the first
      quote to the last one before the end of the line. */
  function ErrPattern(line: string): Option<string> {
    var first, last := FirstQuote(line), ClosingQuote(line, |line|);
    if first.Some? && last.Some? && first.value < last.value && last.value < |line|
    then Some(line[first.value + 1..last.value]) else None
  }

  /** The words of a line, and whether a tail follows the last one. */
  function Tokens(line: string): seq<string> {
    if line == "" then []
    else if IsSpace(line[0]) then Tokens(line[1..])
    else
      var rest := Tokens(line[1..]);
      if |line| > 1 && !IsSpace(line[1]) && rest != [] then [[line[0]] + rest[0]] + rest[1..]
      else [[line[0]]] + rest
  }

  predicate EndsInTail(line: string) {
    |line| >= 2 && line[|line| - 2..] == CRLF
  }

  /** The unanchored pattern of an info packet captures the last word. */
  function InfoPattern(line: string): Option<string> {
    var tokens := Tokens(line);
    if EndsInTail(line) && tokens != [] then Some(tokens[|tokens| - 1]) else None
  }

  datatype MsgMatch = MsgMatch(subject: string, subID: string, replyTo: string, length: string)

  /** The unanchored pattern of a message: the leftmost match takes the last four words if
      it can, else the last three. */
  function MsgPattern(line: string): Option<MsgMatch> {
    var t := Tokens(line);
    var n := |t|;
    if !EndsInTail(line) || n < 3 || !AllDigits(t[n - 1]) then None
    else if n >= 4 && AllDigits(t[n - 3]) then Some(MsgMatch(t[n - 4], t[n - 3], t[n - 2], t[n - 1]))
    else if AllDigits(t[n - 2]) then Some(MsgMatch(t[n - 3], t[n - 2], "", t[n - 1]))
    else None
  }

  // ------------------------------------------------------------------------ numbers

  const MAX_INT64: int := 0x7FFF_FFFF_FFFF_FFFF

  function DigitValue(c: char): nat
    requires IsDigit(c)
  {
    c as int - '0' as int
  }

  function Value(s: string): nat
    requires forall c | c in s :: IsDigit(c)
  {
    if s == "" then 0 else 10 * Value(s[..|s| - 1]) + DigitValue(s[|s| - 1])
  }

  /** ParseInt with its error dropped: too large a number becomes the largest one. */
  function ParseInt(s: string): int
    requires AllDigits(s)
  {
    if Value(s) > MAX_INT64 then MAX_INT64 else Value(s)
  }

  // ------------------------------------------------------------------------ parsing

  /** The packet or error that Parse returns, and the bytes then ahead. */
  function ParseSpec(s: string): (Result<Packet, Error>, string) {
    match Word(s)
    case None => (Failure(EndOfStream), "")
    case Some((header, ahead)) => ParseBody(header, ahead)
  }

  function ParseBody(header: string, s: string): (Result<Packet, Error>, string) {
    var (line, rest) := Line(s);
    if header == "PING" then (Success(Ping), rest)
    else if header == "PONG" then (Success(Pong), rest)
    else if header == "+OK" then (Success(Ok), rest)
    else if header == "-ERR" then
      (match ErrPattern(line) case None => Failure(Malformed) case Some(m) => Success(Err(m)), rest)
    else if header == "INFO" then
      (match InfoPattern(line) case None => Failure(Malformed) case Some(m) => Success(Info(m)), rest)
    else if header == "MSG" then
      match MsgPattern(line)
      case None => (Failure(Malformed), rest)
      case Some(m) => ParsePayload(m, rest)
    else (Failure(UnknownHeader), s)
  }

  lemma MsgMatchDigits(line: string)
    ensures MsgPattern(line).Some? ==>
        AllDigits(MsgPattern(line).value.subID) && AllDigits(MsgPattern(line).value.length)
  {
  }

  function ParsePayload(m: MsgMatch, s: string): (Result<Packet, Error>, string) {
    if !AllDigits(m.length) || !AllDigits(m.subID) || ParseInt(m.length) > |s| then (Failure(EndOfStream), "")
    else
      var n := ParseInt(m.length);
      (Success(Msg(m.subject, ParseInt(m.subID), m.replyTo, s[..n])), Line(s[n..]).1)
  }

  /** The buffered reader that the parsers share. */
  class Reader {
    var ahead: string

    constructor (bytes: string)
      ensures ahead == bytes
    {
      ahead := bytes;
    }

    method ReadByte() returns (b: Option<char>)
      modifies this
      ensures old(ahead) == "" ==> b == None && ahead == ""
      ensures old(ahead) != "" ==> b == Some(old(ahead)[0]) && ahead == old(ahead)[1..]
    {
      if ahead == "" {
        return None;
      }
      b, ahead := Some(ahead[0]), ahead[1..];
    }

    method ReadLine() returns (line: string)
      modifies this
      ensures (line, ahead) == Line(old(ahead))
    {
      line := "";
      assert "" + Line(ahead).0 == Line(ahead).0;
      while ahead != ""
        invariant Line(old(ahead)) == (line + Line(ahead).0, Line(ahead).1)
        decreases |ahead|
      {
        var c := ahead[0];
        ghost var l := Line(ahead[1..]).0;
        assert c != '\n' ==> line + ([c] + l) == line + [c] + l;
        line, ahead := line + [c], ahead[1..];
        if c == '\n' {
          return;
        }
      }
      assert line + "" == line;
    }

    /** readWord: fails only if the stream ends first. */
    method ReadWord() returns (word: Option<string>)
      modifies this
      ensures match Word(old(ahead))
              case None => word == None && ahead == ""
              case Some((w, rest)) => word == Some(w) && ahead == rest
    {
      var buffer := "";
      while true
        invariant match Word(old(ahead))
                  case None => Word(ahead) == None
                  case Some((w, rest)) =>
                    Word(ahead).Some? && buffer + Word(ahead).value.0 == w && Word(ahead).value.1 == rest
        decreases |ahead|
      {
        ghost var before := ahead;
        var next := ReadByte();
        if next == None {
          return None;
        }
        if EndsWord(next.value) {
          assert buffer + "" == buffer;
          return Some(buffer);
        }
        if Word(ahead).Some? {
          assert buffer + ([next.value] + Word(ahead).value.0) == buffer + [next.value] + Word(ahead).value.0;
        }
        buffer := buffer + [next.value];
      }
    }

    /** Read hands over some of the bytes ahead, at least one and no more than asked for. */
    method Read(most: nat) returns (chunk: Option<string>)
      requires most > 0
      modifies this
      ensures old(ahead) == "" ==> chunk == None && ahead == ""
      ensures old(ahead) != "" ==> chunk.Some? && 0 < |chunk.value| <= most && chunk.value + ahead == old(ahead)
    {
      if ahead == "" {
        return None;
      }
      var n :| 0 < n <= most && n <= |ahead|;
      chunk, ahead := Some(ahead[..n]), ahead[n..];
    }

    /** readNBytes: whatever the chunks, the payload is the bytes ahead. */
    method ReadNBytes(payloadLen: nat) returns (payload: Option<string>)
      modifies this
      ensures payloadLen <= |old(ahead)| ==>
          payload == Some(old(ahead)[..payloadLen]) && ahead == old(ahead)[payloadLen..]
      ensures payloadLen > |old(ahead)| ==> payload == None && ahead == ""
    {
      var read := "";
      while |read| < payloadLen
        invariant |read| <= payloadLen && read + ahead == old(ahead)
        decreases payloadLen - |read|
      {
        var chunk := Read(payloadLen - |read|);
        if chunk == None {
          return None;
        }
        assert read + (chunk.value + ahead) == read + chunk.value + ahead;
        read := read + chunk.value;
      }
      assert old(ahead)[..payloadLen] == read && old(ahead)[payloadLen..] == ahead;
      payload := Some(read);
    }

    method Parse() returns (r: Result<Packet, Error>)
      modifies this
      ensures (r, ahead) == ParseSpec(old(ahead))
    {
      var word := ReadWord();
      if word == None {
        return Failure(EndOfStream);
      }
      var header := word.value;
      if header !in {"PING", "PONG", "+OK", "-ERR", "INFO", "MSG"} {
        return Failure(UnknownHeader);
      }
      var line := ReadLine();
      match header
      case "PING" => return Success(Ping);
      case "PONG" => return Success(Pong);
      case "+OK" => return Success(Ok);
      case "-ERR" =>
        var m := ErrPattern(line);
        return if m.None? then Failure(Malformed) else Success(Err(m.value));
      case "INFO" =>
        var m := InfoPattern(line);
        return if m.None? then Failure(Malformed) else Success(Info(m.value));
      case _ =>
        var m := MsgPattern(line);
        if m.None? {
          return Failure(Malformed);
        }
        MsgMatchDigits(line);
        var subID, payloadLen := ParseInt(m.value.subID), ParseInt(m.value.length);
        var payload := ReadNBytes(payloadLen);
        if payload.None? {
          return Failure(EndOfStream);
        }
        var newline := ReadLine();
        return Success(Msg(m.value.subject, subID, m.value.replyTo, payload.value));
    }
  }
}
