/** NATS packets as they are printed. A byte is modelled as a character. */
module NatsPackets {

  datatype Packet =
    | Ping
    | Pong
    | Ok
    | Err(message: string)
    | Info(payload: string)
    | Msg(subject: string, subID: int, replyTo: string, payload: string)

  const CRLF: string := "\r\n"

  function Digit(d: int): char
    requires 0 <= d < 10
  {
    "0123456789"[d]
  }

  /** The decimal digits of n, as %d prints them. */
  function Natural(n: nat): string {
    if n < 10 then [Digit(n)] else Natural(n / 10) + [Digit(n % 10)]
  }

  function Decimal(n: int): string {
    if n < 0 then "-" + Natural(-n) else Natural(n)
  }

  function MsgHeader(subject: string, subID: int, replyTo: string, length: nat): string {
    if replyTo != "" then subject + " " + Decimal(subID) + " " + replyTo + " " + Decimal(length) + CRLF
    else subject + " " + Decimal(subID) + " " + Decimal(length) + CRLF
  }

  function Encode(p: Packet): string {
    match p
    case Ping => "PING" + CRLF
    case Pong => "PONG" + CRLF
    case Ok => "+OK" + CRLF
    case Err(message) => "-ERR '" + message + "'" + CRLF
    case Info(payload) => "INFO " + payload + CRLF
    case Msg(subject, subID, replyTo, payload) =>
      "MSG " + MsgHeader(subject, subID, replyTo, |payload|) + payload + CRLF
  }

  function EncodeAll(ps: seq<Packet>): string {
    if ps == [] then "" else Encode(ps[0]) + EncodeAll(ps[1..])
  }
}
