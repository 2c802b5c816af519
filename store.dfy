/**
 * The write side of the message log: the shared list of messages with its id
 * counter, appending with eviction of the oldest entry beyond the capacity,
 * clearing, and the send operation that appends a player's message and the
 * server's automatic reply.
 */
module Store {
  import opened Wrappers
  import opened Messages

  /** The capacity of the log. */
  const MaxMessages: nat := 1000

  function Min(a: int, b: int): int
  {
    if a < b then a else b
  }

  /**
   * The log after appending `m`: the new entry goes at the back and, when the
   * log then exceeds the capacity, the single oldest entry is dropped.
   */
  function Push(log: seq<Message>, m: Message): (r: seq<Message>)
    ensures |r| > 0 && r[|r| - 1] == m
    ensures |log| < MaxMessages ==> |r| == |log| + 1 && r[..|log|] == log
    ensures |log| >= MaxMessages ==> |r| == |log| && r[..|r| - 1] == log[1..]
    ensures |log| <= MaxMessages ==> |r| <= MaxMessages
  {
    var grown := log + [m];
    assert grown[..|log|] == log;
    if |grown| > MaxMessages then
      assert grown[1..][..|log| - 1] == log[1..];
      grown[1..]
    else grown
  }

  /** Ids strictly increase from the front of the log to the back. */
  ghost predicate IdsIncrease(log: seq<Message>)
  {
    forall i, j :: 0 <= i < j < |log| ==> log[i].id < log[j].id
  }

  /** Every id in the log lies between 1 and the counter. */
  ghost predicate IdsWithin(log: seq<Message>, counter: int)
  {
    forall i :: 0 <= i < |log| ==> 1 <= log[i].id <= counter
  }

  /** Appending an entry whose id is one past the counter keeps ids increasing and within the new counter, evicting or not. */
  lemma PushKeepsIdOrder(log: seq<Message>, counter: int, m: Message)
    requires IdsIncrease(log) && IdsWithin(log, counter)
    requires m.id == counter + 1 && counter >= 0
    ensures IdsIncrease(Push(log, m)) && IdsWithin(Push(log, m), counter + 1)
  {
    var grown := log + [m];
    assert IdsIncrease(grown);
    assert IdsWithin(grown, counter + 1);
  }

  /**
   * The exact shape of the log after any history of appends and clears since
   * the last clear: it holds the most recent min(counter, capacity) ids, one
   * after the other, ending with the counter.
   */
  ghost predicate RecentWindow(log: seq<Message>, counter: int)
  {
    |log| == Min(counter, MaxMessages) &&
    forall i :: 0 <= i < |log| ==> log[i].id == counter - |log| + 1 + i
  }

  /** The window shape implies the capacity bound and the id order of the log. */
  lemma RecentWindowOrdered(log: seq<Message>, counter: int)
    requires counter >= 0 && RecentWindow(log, counter)
    ensures |log| <= MaxMessages
    ensures IdsIncrease(log) && IdsWithin(log, counter)
  {
  }

  /** Appending the entry with the next id moves the window forward by one. */
  lemma PushKeepsRecentWindow(log: seq<Message>, counter: int, m: Message)
    requires counter >= 0 && RecentWindow(log, counter)
    requires m.id == counter + 1
    ensures RecentWindow(Push(log, m), counter + 1)
  {
    var r := Push(log, m);
    if |log| < MaxMessages {
      assert forall i :: 0 <= i < |log| ==> r[i] == log[i];
    } else {
      assert forall i :: 0 <= i < |r| - 1 ==> r[i] == log[i + 1];
    }
  }

  /** The log built by appending `ms` one after the other to an empty log. */
  ghost function Replay(ms: seq<Message>): seq<Message>
  {
    if ms == [] then [] else Push(Replay(ms[..|ms| - 1]), ms[|ms| - 1])
  }

  /** After any number of appends to an empty log, the log holds the most recent min(n, capacity) of them, in order. */
  lemma {:induction false} ReplayKeepsMostRecent(ms: seq<Message>)
    ensures Replay(ms) == ms[|ms| - Min(|ms|, MaxMessages)..]
  {
    if ms != [] {
      var init, last := ms[..|ms| - 1], ms[|ms| - 1];
      ReplayKeepsMostRecent(init);
      var prev := init[|init| - Min(|init|, MaxMessages)..];
      if |init| < MaxMessages {
        assert prev == init;
        assert init + [last] == ms;
      } else {
        assert prev + [last] == ms[|ms| - MaxMessages - 1..];
      }
    }
  }

  /**
   * n appends with ids 1..n to an empty log leave ids 1..n when n is within
   * the capacity, and ids n-999..n otherwise.
   */
  lemma NumberedReplay(ms: seq<Message>)
    requires forall i :: 0 <= i < |ms| ==> ms[i].id == i + 1
    ensures RecentWindow(Replay(ms), |ms|)
  {
    ReplayKeepsMostRecent(ms);
  }

  /** The two entries a successful send appends. */
  datatype Sent = Sent(user: Message, reply: Message)

  /** A send request carries both a player name and a message text. */
  predicate HasRequiredFields(data: Option<map<string, string>>)
  {
    data.Some? && "player_name" in data.value && "message" in data.value
  }

  /** The shared message log and its id counter. */
  class MessageLog {
    var messages: seq<Message>
    var counter: int

    ghost predicate Valid()
      reads this
    {
      counter >= 0 && RecentWindow(messages, counter)
    }

    /** The log as the server starts: empty, with the counter at 0. */
    constructor ()
      ensures Valid()
      ensures messages == [] && counter == 0
    {
      messages := [];
      counter := 0;
    }

    /**
     * Appends a message stamped `now` under the next id and returns it,
     * dropping the oldest entry when the log exceeds its capacity.
     */
    method Add(playerName: string, text: string, isAutoReply: bool, now: Timestamp) returns (m: Message)
      requires Valid()
      modifies this
      ensures Valid()
      ensures counter == old(counter) + 1
      ensures m == Message(counter, playerName, text, now, isAutoReply)
      ensures messages == Push(old(messages), m)
      ensures |messages| <= MaxMessages && messages[|messages| - 1] == m
      ensures IdsIncrease(messages) && IdsWithin(messages, counter)
    {
      counter := counter + 1;
      m := Message(counter, playerName, text, now, isAutoReply);
      messages := messages + [m];
      if |messages| > MaxMessages {
        messages := messages[1..];
      }
      PushKeepsRecentWindow(old(messages), old(counter), m);
      RecentWindowOrdered(messages, counter);
    }

    /** Empties the log and resets the counter to 0. */
    method Clear()
      requires Valid()
      modifies this
      ensures Valid()
      ensures messages == [] && counter == 0
    {
      messages := [];
      counter := 0;
    }

    /**
     * The send operation: refuses a request without both fields and leaves the
     * log alone; otherwise appends the player's message, then the server's
     * greeting to that player, flagged as an automatic reply.
     */
    method Send(data: Option<map<string, string>>, userTime: Timestamp, replyTime: Timestamp)
      returns (r: Result<Sent, Error>)
      requires Valid()
      modifies this
      ensures Valid()
      ensures r.Failure? <==> !HasRequiredFields(data)
      ensures r.Failure? ==>
                r.error == MissingFields && messages == old(messages) && counter == old(counter)
      ensures r.Success? ==>
                var name, text := data.value["player_name"], data.value["message"];
                r.value.user == Message(old(counter) + 1, name, text, userTime, false) &&
                r.value.reply == Message(old(counter) + 2, ServerName, Greeting(name), replyTime, true) &&
                counter == old(counter) + 2 &&
                messages == Push(Push(old(messages), r.value.user), r.value.reply)
    {
      if !HasRequiredFields(data) {
        return Failure(MissingFields);
      }
      var name := data.value["player_name"];
      var text := data.value["message"];
      var user := Add(name, text, false, userTime);
      var reply := Add(ServerName, Greeting(name), true, replyTime);
      r := Success(Sent(user, reply));
    }
  }

  /** A clear followed by an append hands out id 1 again. */
  method ClearThenAdd(log: MessageLog, playerName: string, text: string, now: Timestamp) returns (m: Message)
    requires log.Valid()
    modifies log
    ensures log.Valid()
    ensures m.id == 1 && log.messages == [m] && log.counter == 1
  {
    log.Clear();
    m := log.Add(playerName, text, false, now);
  }

  /** The send scenario for player "Bob" saying "hi": two consecutive ids, the reply "Hello Bob!" from "Server". */
  method SendScenario(log: MessageLog, userTime: Timestamp, replyTime: Timestamp) returns (r: Result<Sent, Error>)
    requires log.Valid()
    modifies log
    ensures r.Success?
    ensures r.value.user.playerName == "Bob" && r.value.user.text == "hi" && !r.value.user.isAutoReply
    ensures r.value.reply.playerName == "Server" && r.value.reply.text == "Hello Bob!" && r.value.reply.isAutoReply
    ensures r.value.reply.id == r.value.user.id + 1
  {
    r := log.Send(Some(map["player_name" := "Bob", "message" := "hi"]), userTime, replyTime);
  }
}
