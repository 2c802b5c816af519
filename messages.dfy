/**
 * The message record of the relay server and the small pieces of text the
 * server produces: the lower-case form used to compare senders, the
 * automatic greeting, and the two error texts.
 */
module Messages {

  /** A point in time. The server only stores timestamps and compares them with `>`. */
  type Timestamp = int

  /** One entry of the message log. */
  datatype Message = Message(
    id: int,
    playerName: string,
    text: string,
    timestamp: Timestamp,
    isAutoReply: bool)

  /** The two ways a request to the message log can be refused. */
  datatype Error = MissingFields | InvalidTimestamp

  /** The error text the server sends back for each refusal. */
  function ErrorText(e: Error): string
  {
    match e
    case MissingFields => "Missing required fields: player_name and message"
    case InvalidTimestamp => "Invalid timestamp format. Use ISO format (e.g., 2025-11-22T10:30:00)"
  }

  /** The sender name of every automatic reply. */
  const ServerName: string := "Server"

  predicate IsUpper(c: char)
  {
    'A' <= c <= 'Z'
  }

  /** Lower-cases one ASCII letter and leaves every other character alone. */
  function LowerChar(c: char): char
  {
    if IsUpper(c) then (c as int + 32) as char else c
  }

  /** The lower-case form of a sender name, used to compare names case-insensitively. */
  function Lower(s: string): (r: string)
    ensures |r| == |s|
    ensures forall i :: 0 <= i < |r| ==> !IsUpper(r[i])
    ensures forall i :: 0 <= i < |s| && !IsUpper(s[i]) ==> r[i] == s[i]
    ensures forall i :: 0 <= i < |s| && IsUpper(s[i]) ==> r[i] as int == s[i] as int + 32
  {
    seq(|s|, i requires 0 <= i < |s| => LowerChar(s[i]))
  }

  /** Lower-casing twice is lower-casing once: comparing lower-case forms is an equivalence. */
  lemma LowerIdempotent(s: string)
    ensures Lower(Lower(s)) == Lower(s)
  {
  }

  /** The text of the automatic reply to a player: "Hello <name>!". */
  function Greeting(name: string): (r: string)
    ensures |r| == |name| + 7
    ensures r[..6] == "Hello " && r[|r| - 1] == '!'
    ensures r[6..|r| - 1] == name
  {
    "Hello " + name + "!"
  }
}
