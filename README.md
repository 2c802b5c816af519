# Bounded message log of the relay server

This project models the core of a small chat relay server: a shared, in-memory
log of message records with an id counter and a capacity of 1000 entries.
Players post messages; the server appends each one and then appends an
automatic greeting from `"Server"`. Clients read the whole log, optionally
filtered to entries later than a timestamp and cut to the last `limit`
entries, or the entries of one sender, compared case-insensitively. A clear
empties the log and resets the counter.

Layout:

- `wrappers.dfy` (module `Wrappers`): `Option` and `Result`.
- `messages.dfy` (module `Messages`): the `Message` record, the two refusals
  (`MissingFields`, `InvalidTimestamp`) with their error texts, the lower-case
  form of a sender name, and the greeting text.
- `queries.dfy` (module `Queries`): the read side as functions of a snapshot of
  the log. It holds a generic `Filter` (a list comprehension with a condition),
  its characterisation by selected positions, the trailing-limit slice
  `s[-limit:]`, the list-all query and the list-by-player query.
- `store.dfy` (module `Store`): the write side. The class `MessageLog` holds the
  `messages` sequence and the `counter`, and has methods `Add`, `Clear` and
  `Send`. The function `Push` gives the log after one append, `Replay` gives it
  after a run of appends, and the lemmas state the capacity bound and the id
  order.

The object invariant `MessageLog.Valid()` is stronger than "bounded and ordered".
Since the last clear, the log holds exactly the most recent `min(counter, 1000)`
ids, one after another, ending with the counter (`RecentWindow`). The capacity
bound and the strictly increasing, counter-bounded ids follow from it
(`RecentWindowOrdered`).

Three points of the model follow directly from main.py:

- An empty `since` applies no filter, because main.py:84 tests the text for
  truthiness.
- Ids are unbounded integers, as in Python; no 64-bit bound is modelled.
- `add_message` returns the record it stored (main.py:33). Records are values
  in this model.

## Model

| member | source | states |
|---|---|---|
| `Messages.Lower` | main.py:113 | The lower-case form has the same length, contains no upper-case ASCII letter, and keeps every character that is not one. |
| `Messages.LowerIdempotent` | main.py:113 | Lower-casing twice equals lower-casing once. |
| `Messages.Greeting` | main.py:67 | The auto-reply text is "Hello ", then the player's name unchanged, then "!"; the name can be read back from it. |
| `Queries.Filter` | main.py:87-90 | The result is no longer than the log; each entry in it comes from the log and meets the condition; every log entry that meets the condition is in it. |
| `Queries.SelectedIndicesIncrease` | main.py:87-90 | The positions a comprehension keeps are positions of the log, in strictly increasing order. |
| `Queries.SelectedIndicesExact` | main.py:87-90 | A position is kept exactly when its entry meets the condition. |
| `Queries.FilterAtSelected` | main.py:87-90 | The k-th kept entry is the log entry at the k-th kept position. |
| `Queries.FilterSelects` | main.py:111-114 | A comprehension keeps exactly the entries that meet its condition, each once, in log order. |
| `Queries.FilterAgree` | main.py:111-114 | Two conditions that agree on every entry of the log keep the same entries. |
| `Queries.ApplyLimit` | main.py:97-98 | With a positive limit the result is the last min(limit, n) entries in their order; an absent, zero or negative limit returns the list unchanged. |
| `Queries.FilterSince` | main.py:84-95 | An absent or empty `since` keeps the whole log; a `since` that does not parse is refused with InvalidTimestamp; otherwise the result holds exactly the log entries strictly later than it. |
| `Queries.ListAll` | main.py:76-98 | Fails exactly when `since` is non-empty and does not parse, with InvalidTimestamp. Each entry returned comes from the log and is later than `since`. The result is the last min(limit, k) of the k entries that pass the `since` filter (the whole log when there is no `since`), in log order; with no positive limit it is all k of them. |
| `Queries.ListAllUnfiltered` | main.py:84-98 | With no `since`, or an empty one, and no positive limit, the whole log is returned unchanged. |
| `Queries.ListAllSinceExact` | main.py:84-98 | With a parsable `since` and no positive limit, the result is exactly the entries strictly later than `since`, each once and in log order. |
| `Queries.ListByPlayer` | main.py:106-117 | Every entry returned comes from the log and has a sender with the same lower-case form as the query. The result is the last min(limit, k) of the k matching entries, in log order; with no positive limit, every matching entry is returned. |
| `Queries.SameFoldSameAnswer` | main.py:110-117 | Two sender queries with the same lower-case form ("Alice", "ALICE") return identical lists under any limit. |
| `Queries.ListByPlayerExact` | main.py:110-117 | With no positive limit, the result is exactly the entries whose sender has the lower-case form of the query, each once and in log order. |
| `Store.Push` | main.py:28-31 | The new entry is last. Below the cap the log grows by one and keeps every earlier entry. At the cap exactly the front entry is dropped and the rest shift down unchanged. A log within the cap stays within it. |
| `Store.PushKeepsIdOrder` | main.py:20-31 | Appending the entry with id counter+1 keeps ids strictly increasing and within 1..counter+1, whether or not an entry is evicted. |
| `Store.RecentWindowOrdered` | main.py:15-31 | A log holding the most recent consecutive ids is within the capacity, and its ids strictly increase and are at most the counter. |
| `Store.PushKeepsRecentWindow` | main.py:20-31 | Appending the entry with the next id moves the window of the most recent min(counter, 1000) consecutive ids forward by one. |
| `Store.ReplayKeepsMostRecent` | main.py:17-33 | After any run of appends to an empty log, the log is the last min(n, 1000) appended entries, in order. |
| `Store.NumberedReplay` | main.py:17-33 | n appends with ids 1..n leave ids 1..n when n <= 1000, and ids n-999..n otherwise. |
| `Store.MessageLog.constructor` | main.py:11-13 | The log starts empty with the counter at 0. |
| `Store.MessageLog.Add` | main.py:17-33 | The counter goes up by one. The returned record has that id and the given name, text, time and auto-reply flag. The new log is `Push` of the old one, so the record is last, the log is within the cap and its ids increase up to the counter. |
| `Store.MessageLog.Clear` | main.py:126-131 | The log becomes empty and the counter 0. |
| `Store.MessageLog.Send` | main.py:52-68 | Fails exactly when the body is missing or lacks `player_name` or `message`, and then leaves log and counter untouched. Otherwise it appends the player's message (not an auto-reply) and then a "Server" reply "Hello <name>!" flagged as auto-reply. The two ids are the counter plus one and plus two, so they are consecutive when no other request appends in between. |
| `Store.ClearThenAdd` | main.py:20 | After a clear, the next append gets id 1 and is the only entry. |
| `Store.SendScenario` | main.py:62-68 | Sending "hi" as "Bob" yields Bob's non-auto-reply "hi" and the auto-reply "Hello Bob!" from "Server", whose id is one more than Bob's; in the server this holds when no other request appends in between. |

## Left out

- HTTP plumbing is not modelled: Flask routing, reading the JSON body and the query arguments, `jsonify`, status codes, CORS, the static page and the `/api` descriptor, and `app.run` (main.py:1-9, main.py:35-50, main.py:138-139).
- The response envelopes are not modelled: the `success` flag, `count` (always the length of the returned list) and the echoed `player_name`. `Messages.ErrorText` holds the two error texts.
- The lock and the copy-under-lock pattern are not modelled (main.py:12, main.py:19, main.py:81-82). The model is sequential. The queries are functions of a snapshot of `MessageLog.messages`.
- Timestamps are abstract integers. The clock `datetime.utcnow()` becomes a parameter of `Add` and `Send`. Stored timestamps are kept as values, not as ISO-8601 text parsed again at each query. Parsing `since` with `datetime.fromisoformat` becomes a given `parse` function. The model does not assume that timestamps grow with ids.
- A `since` with a UTC offset is not modelled. Comparing it with the naive stored timestamps raises TypeError, which the code does not catch.
- Messages.Lower: folds ASCII letters only. Python's Unicode `str.lower()` is not modelled. `SameFoldSameAnswer` holds for any fold.
- The `limit` argument arrives already converted. Text that is not an integer becomes absent, as `type=int` makes it.
- Store.MessageLog.Send: takes the request body as an optional map from strings to strings. It does not model non-object JSON bodies, or field values that are not strings (which the greeting would format with `str()`).
- Store.MessageLog.Send: is atomic in the model. In main.py each `add_message` takes the lock on its own (main.py:19, called from main.py:65 and again from main.py:68), so under a threaded server another request's append can fall between the player's message and the reply, and their ids are then not consecutive.
