/** A bounded table of byte strings: what `heapless::Vec` gives both tables. */
module Entries {
  import opened Wrappers
  import opened Bytes

  /** `swap_remove`: the last entry takes the place of the one removed. */
  function SwapRemove(s: seq<bytes>, i: nat): (r: seq<bytes>)
    requires i < |s|
    ensures |r| == |s| - 1
  {
    s[i := s[|s| - 1]][..|s| - 1]
  }

  /** The first place where `x` stands. */
  function Position(s: seq<bytes>, x: bytes): (p: Option<nat>)
    ensures p.Some? ==> p.value < |s| && s[p.value] == x && forall j :: 0 <= j < p.value ==> s[j] != x
    ensures p.None? ==> x !in s
  {
    if s == [] then None
    else if s[0] == x then Some(0)
    else
      match Position(s[1..], x)
      case None => None
      case Some(i) => Some(i + 1)
  }

  function Removed(s: seq<bytes>, x: bytes): (r: seq<bytes>)
    ensures |r| <= |s|
  {
    match Position(s, x)
    case None => s
    case Some(i) => SwapRemove(s, i)
  }

  lemma SwapRemoveMultiset(s: seq<bytes>, i: nat)
    requires i < |s|
    ensures multiset(SwapRemove(s, i)) == multiset(s) - multiset{s[i]}
  {
    var last := s[|s| - 1];
    assert s == s[..|s| - 1] + [last];
    if i == |s| - 1 {
      assert SwapRemove(s, i) == s[..|s| - 1];
    } else {
      var r := s[..|s| - 1];
      assert r == r[..i] + [s[i]] + r[i + 1..];
      assert SwapRemove(s, i) == r[..i] + [last] + r[i + 1..];
    }
  }

  /** Despite the reordering, exactly one occurrence goes, and only if there is one. */
  lemma RemovedMultiset(s: seq<bytes>, x: bytes)
    ensures multiset(Removed(s, x)) == multiset(s) - multiset{x}
  {
    match Position(s, x)
    case None => assert x !in multiset(s);
    case Some(i) => SwapRemoveMultiset(s, i);
  }

  method FindPosition(s: seq<bytes>, x: bytes) returns (p: Option<nat>)
    ensures p == Position(s, x)
  {
    for i := 0 to |s|
      invariant forall j :: 0 <= j < i ==> s[j] != x
    {
      if s[i] == x {
        PositionIs(s, x, i);
        return Some(i);
      }
    }
    return None;
  }

  lemma PositionIs(s: seq<bytes>, x: bytes, i: nat)
    requires i < |s| && s[i] == x && forall j :: 0 <= j < i ==> s[j] != x
    ensures Position(s, x) == Some(i)
  {
    assert s[i] in s;
  }
}

/** The subscriptions of one SUB peer. */
module SubTable {
  import opened Wrappers
  import opened Bytes
  import opened Entries

  datatype SubError = TableFull | PrefixTooLong

  /** Additive: a duplicate is one more entry. A refused subscription changes nothing. */
  function Subscribed(maxEntries: nat, maxPrefix: nat, t: seq<bytes>, prefix: bytes)
    : (seq<bytes>, Result<(), SubError>)
  {
    if |prefix| > maxPrefix then (t, Err(PrefixTooLong))
    else if |t| >= maxEntries then (t, Err(TableFull))
    else (t + [prefix], Ok(()))
  }

  ghost predicate Matches(t: seq<bytes>, topic: bytes) {
    exists e :: e in t && e <= topic
  }

  /** A bounded bag that a subscription is added to, with the reason when it is not: too long, or else no room. */
  lemma SubscribedIsBag(maxEntries: nat, maxPrefix: nat, t: seq<bytes>, prefix: bytes)
    ensures var (t', r) := Subscribed(maxEntries, maxPrefix, t, prefix);
            && (r == Err(PrefixTooLong) <==> |prefix| > maxPrefix)
            && (r == Err(TableFull) <==> |prefix| <= maxPrefix && |multiset(t)| >= maxEntries)
            && multiset(t') == multiset(t) + (if r.Ok? then multiset{prefix} else multiset{})
  {}

  lemma MatchesByMultiset(t: seq<bytes>, u: seq<bytes>, topic: bytes)
    requires multiset(t) == multiset(u)
    ensures Matches(t, topic) <==> Matches(u, topic)
  {
    assert forall e :: e in t <==> e in multiset(t);
    assert forall e :: e in u <==> e in multiset(u);
  }

  /** Some prefix of the topic has an entry. */
  lemma MatchesIsPrefixCount(t: seq<bytes>, topic: bytes)
    ensures Matches(t, topic) <==> exists k :: 0 <= k <= |topic| && multiset(t)[topic[..k]] > 0
  {
    if Matches(t, topic) {
      var e :| e in t && e <= topic;
      assert topic[..|e|] == e && e in multiset(t);
    }
    if k :| 0 <= k <= |topic| && multiset(t)[topic[..k]] > 0 {
      var e := topic[..k];
      assert e in t && e <= topic;
    }
  }

  class SubTable {
    const maxEntries: nat
    const maxPrefix: nat
    var entries: seq<bytes>

    constructor (maxEntries: nat, maxPrefix: nat)
      ensures this.maxEntries == maxEntries && this.maxPrefix == maxPrefix && entries == []
    {
      this.maxEntries, this.maxPrefix, entries := maxEntries, maxPrefix, [];
    }

    method Subscribe(prefix: bytes) returns (r: Result<(), SubError>)
      modifies this
      ensures (entries, r) == Subscribed(maxEntries, maxPrefix, old(entries), prefix)
      ensures multiset(entries) == if r.Ok? then multiset(old(entries)) + multiset{prefix} else multiset(old(entries))
    {
      if |prefix| > maxPrefix {
        return Err(PrefixTooLong);
      }
      if |entries| >= maxEntries {
        return Err(TableFull);
      }
      entries := entries + [prefix];
      return Ok(());
    }

    method Cancel(prefix: bytes)
      modifies this
      ensures entries == Removed(old(entries), prefix)
      ensures multiset(entries) == multiset(old(entries)) - multiset{prefix}
    {
      RemovedMultiset(entries, prefix);
      var pos := FindPosition(entries, prefix);
      if pos.Some? {
        entries := SwapRemove(entries, pos.value);
      }
    }

    method IsMatch(topic: bytes) returns (found: bool)
      ensures found <==> Matches(entries, topic)
    {
      for i := 0 to |entries|
        invariant forall j :: 0 <= j < i ==> !(entries[j] <= topic)
      {
        if entries[i] <= topic {
          assert entries[i] in entries;
          return true;
        }
      }
      return false;
    }
  }
}
