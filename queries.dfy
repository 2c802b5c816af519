/**
 * The read side of the message log: the optional "later than" filter and the
 * trailing limit of the list-all query, and the case-insensitive sender
 * filter of the list-by-player query. Both queries work on a snapshot of the
 * log, so they are functions of that snapshot.
 */
module Queries {
  import opened Wrappers
  import opened Messages

  /** The entries of `s` that satisfy `p`, in their order in `s` (a list comprehension with a condition). */
  function Filter<T>(s: seq<T>, p: T -> bool): (r: seq<T>)
    ensures |r| <= |s|
    ensures forall i :: 0 <= i < |r| ==> r[i] in s && p(r[i])
    ensures forall i :: 0 <= i < |s| && p(s[i]) ==> s[i] in r
  {
    if s == [] then []
    else Filter(s[..|s| - 1], p) + (if p(s[|s| - 1]) then [s[|s| - 1]] else [])
  }

  /** The positions of `s` whose entry satisfies `p`, in increasing order. */
  function SelectedIndices<T>(s: seq<T>, p: T -> bool): seq<nat>
  {
    if s == [] then []
    else SelectedIndices(s[..|s| - 1], p) + (if p(s[|s| - 1]) then [|s| - 1] else [])
  }

  /** The selected positions are positions of `s`, in strictly increasing order. */
  lemma {:induction false} SelectedIndicesIncrease<T>(s: seq<T>, p: T -> bool)
    ensures forall k :: 0 <= k < |SelectedIndices(s, p)| ==> SelectedIndices(s, p)[k] < |s|
    ensures forall k, l :: 0 <= k < l < |SelectedIndices(s, p)| ==>
              SelectedIndices(s, p)[k] < SelectedIndices(s, p)[l]
  {
    if s != [] {
      SelectedIndicesIncrease(s[..|s| - 1], p);
    }
  }

  /** A position is selected exactly when its entry satisfies `p`. */
  lemma {:induction false} SelectedIndicesExact<T>(s: seq<T>, p: T -> bool)
    ensures forall i :: 0 <= i < |s| ==> (i in SelectedIndices(s, p) <==> p(s[i]))
  {
    if s != [] {
      var init := s[..|s| - 1];
      SelectedIndicesExact(init, p);
      SelectedIndicesIncrease(init, p);
      assert forall i :: 0 <= i < |init| ==> s[i] == init[i];
      assert |s| - 1 !in SelectedIndices(init, p);
    }
  }

  /** The k-th entry Filter keeps is the entry at the k-th selected position. */
  lemma {:induction false} FilterAtSelected<T>(s: seq<T>, p: T -> bool)
    ensures |SelectedIndices(s, p)| == |Filter(s, p)|
    ensures forall k :: 0 <= k < |SelectedIndices(s, p)| ==>
              SelectedIndices(s, p)[k] < |s| && Filter(s, p)[k] == s[SelectedIndices(s, p)[k]]
  {
    if s != [] {
      var init := s[..|s| - 1];
      FilterAtSelected(init, p);
      assert forall i :: 0 <= i < |init| ==> s[i] == init[i];
    }
  }

  /**
   * Filter keeps exactly the entries that satisfy `p`, once each and in their
   * original order: its k-th entry is the entry of `s` at the k-th selected
   * position, the selected positions increase, and a position is selected
   * exactly when its entry satisfies `p`.
   */
  lemma FilterSelects<T>(s: seq<T>, p: T -> bool)
    ensures |SelectedIndices(s, p)| == |Filter(s, p)|
    ensures forall k :: 0 <= k < |SelectedIndices(s, p)| ==>
              SelectedIndices(s, p)[k] < |s| && Filter(s, p)[k] == s[SelectedIndices(s, p)[k]]
    ensures forall k, l :: 0 <= k < l < |SelectedIndices(s, p)| ==>
              SelectedIndices(s, p)[k] < SelectedIndices(s, p)[l]
    ensures forall i :: 0 <= i < |s| ==> (i in SelectedIndices(s, p) <==> p(s[i]))
  {
    SelectedIndicesIncrease(s, p);
    SelectedIndicesExact(s, p);
    FilterAtSelected(s, p);
  }

  /** Two conditions that agree on every entry select the same entries. */
  lemma {:induction false} FilterAgree<T>(s: seq<T>, p: T -> bool, q: T -> bool)
    requires forall i :: 0 <= i < |s| ==> p(s[i]) == q(s[i])
    ensures Filter(s, p) == Filter(s, q)
  {
    if s != [] {
      assert forall i :: 0 <= i < |s| - 1 ==> s[..|s| - 1][i] == s[i];
      FilterAgree(s[..|s| - 1], p, q);
    }
  }

  /** How many of `n` entries the trailing limit keeps. */
  function Limited(n: nat, limit: Option<int>): nat
  {
    if limit.Some? && limit.value > 0 && limit.value < n then limit.value else n
  }

  /**
   * The optional trailing limit: with a positive `limit` the result is Python's
   * slice `s[-limit:]`, whose start is clamped to 0 when `limit` exceeds the
   * length; an absent, zero or negative limit leaves the list alone.
   */
  function ApplyLimit<T>(s: seq<T>, limit: Option<int>): (r: seq<T>)
    ensures |r| == Limited(|s|, limit)
    ensures !(limit.Some? && limit.value > 0) ==> r == s
    ensures r == s[|s| - |r|..]
  {
    if limit.Some? && limit.value > 0 then
      var start := |s| - limit.value;
      if start < 0 then s else s[start..]
    else s
  }

  /** The condition of the "since" filter: strictly later than `t`. */
  function After(t: Timestamp): Message -> bool
  {
    (m: Message) => m.timestamp > t
  }

  /**
   * The "since" stage of the list-all query. An absent or empty `since` applies
   * no filter; otherwise `since` is parsed with `parse` (the ISO-8601 parser),
   * and a text that does not parse is refused.
   */
  function FilterSince(log: seq<Message>, since: Option<string>, parse: string -> Option<Timestamp>)
    : (r: Result<seq<Message>, Error>)
    ensures r.Failure? <==> since.Some? && since.value != "" && parse(since.value).None?
    ensures r.Failure? ==> r.error == InvalidTimestamp
    ensures r.Success? && (since.None? || since.value == "") ==> r.value == log
    ensures r.Success? && since.Some? && since.value != "" ==>
              forall m :: m in r.value <==> m in log && m.timestamp > parse(since.value).value
  {
    if since.Some? && since.value != "" then
      match parse(since.value)
      case None => Failure(InvalidTimestamp)
      case Some(t) => Success(Filter(log, After(t)))
    else Success(log)
  }

  /** The list-all query: the "since" filter, then the trailing limit. */
  function ListAll(log: seq<Message>, since: Option<string>, parse: string -> Option<Timestamp>, limit: Option<int>)
    : (r: Result<seq<Message>, Error>)
    ensures r.Failure? <==> since.Some? && since.value != "" && parse(since.value).None?
    ensures r.Failure? ==> r.error == InvalidTimestamp
    ensures r.Success? ==> forall m :: m in r.value ==> m in log
    ensures r.Success? && since.Some? && since.value != "" ==>
              forall m :: m in r.value ==> m.timestamp > parse(since.value).value
    ensures r.Success? && (since.None? || since.value == "") ==>
              |r.value| == Limited(|log|, limit) && r.value == log[|log| - |r.value|..]
    ensures r.Success? && since.Some? && since.value != "" ==>
              |r.value| == Limited(|Filter(log, After(parse(since.value).value))|, limit) &&
              r.value == Filter(log, After(parse(since.value).value))
                           [|Filter(log, After(parse(since.value).value))| - |r.value|..]
  {
    match FilterSince(log, since, parse)
    case Failure(e) => Failure(e)
    case Success(filtered) => Success(ApplyLimit(filtered, limit))
  }

  /** With no filter and no limit the list-all query returns the whole log. */
  lemma ListAllUnfiltered(log: seq<Message>, parse: string -> Option<Timestamp>, limit: Option<int>)
    requires !(limit.Some? && limit.value > 0)
    ensures ListAll(log, None, parse, limit) == Success(log)
    ensures ListAll(log, Some(""), parse, limit) == Success(log)
  {
  }

  /**
   * With a `since` that parses to `t` and no limit, the list-all query returns
   * exactly the entries later than `t`, each once and in log order.
   */
  lemma ListAllSinceExact(log: seq<Message>, since: string, parse: string -> Option<Timestamp>, limit: Option<int>)
    requires since != "" && parse(since).Some?
    requires !(limit.Some? && limit.value > 0)
    ensures ListAll(log, Some(since), parse, limit).Success?
    ensures var r := ListAll(log, Some(since), parse, limit).value;
            var ix := SelectedIndices(log, After(parse(since).value));
            |r| == |ix| &&
            (forall k :: 0 <= k < |ix| ==> ix[k] < |log| && r[k] == log[ix[k]]) &&
            (forall k, l :: 0 <= k < l < |ix| ==> ix[k] < ix[l]) &&
            (forall i :: 0 <= i < |log| ==> (i in ix <==> log[i].timestamp > parse(since).value))
  {
    FilterSelects(log, After(parse(since).value));
  }

  /** The condition of the sender filter: same lower-case form as `name`. */
  function SentBy(name: string): Message -> bool
  {
    (m: Message) => Lower(m.playerName) == Lower(name)
  }

  /** The list-by-player query: the case-insensitive sender filter, then the trailing limit. */
  function ListByPlayer(log: seq<Message>, name: string, limit: Option<int>): (r: seq<Message>)
    ensures forall m :: m in r ==> m in log && Lower(m.playerName) == Lower(name)
    ensures !(limit.Some? && limit.value > 0) ==>
              forall m :: m in log && Lower(m.playerName) == Lower(name) ==> m in r
    ensures |r| == Limited(|Filter(log, SentBy(name))|, limit)
    ensures |r| <= |Filter(log, SentBy(name))| &&
            r == Filter(log, SentBy(name))[|Filter(log, SentBy(name))| - |r|..]
  {
    ApplyLimit(Filter(log, SentBy(name)), limit)
  }

  /** Two names with the same lower-case form ("Alice", "ALICE") get identical answers. */
  lemma SameFoldSameAnswer(log: seq<Message>, a: string, b: string, limit: Option<int>)
    requires Lower(a) == Lower(b)
    ensures ListByPlayer(log, a, limit) == ListByPlayer(log, b, limit)
  {
    FilterAgree(log, SentBy(a), SentBy(b));
  }

  /**
   * With no limit the list-by-player query returns exactly the entries whose
   * sender has the lower-case form of `name`, each once and in log order.
   */
  lemma ListByPlayerExact(log: seq<Message>, name: string, limit: Option<int>)
    requires !(limit.Some? && limit.value > 0)
    ensures var r := ListByPlayer(log, name, limit);
            var ix := SelectedIndices(log, SentBy(name));
            |r| == |ix| &&
            (forall k :: 0 <= k < |ix| ==> ix[k] < |log| && r[k] == log[ix[k]]) &&
            (forall k, l :: 0 <= k < l < |ix| ==> ix[k] < ix[l]) &&
            (forall i :: 0 <= i < |log| ==> (i in ix <==> Lower(log[i].playerName) == Lower(name)))
  {
    FilterSelects(log, SentBy(name));
  }
}
