/** The groups one DISH peer has joined. */
module GroupTable {
  import opened Wrappers
  import opened Bytes
  import opened Entries

  datatype GroupError = TableFull | GroupTooLong

  /** Idempotent: a group already there succeeds, even in a full table. */
  function Joined(maxEntries: nat, maxGroup: nat, t: seq<bytes>, group: bytes): (seq<bytes>, Result<(), GroupError>) {
    if |group| > maxGroup then (t, Err(GroupTooLong))
    else if group in t then (t, Ok(()))
    else if |t| >= maxEntries then (t, Err(TableFull))
    else (t + [group], Ok(()))
  }

  ghost predicate Distinct(t: seq<bytes>) {
    forall i, j :: 0 <= i < j < |t| ==> t[i] != t[j]
  }

  function Members(t: seq<bytes>): set<bytes> {
    set e | e in t
  }

  /** The bounded set a join adds to. */
  function SetJoined(maxEntries: nat, maxGroup: nat, s: set<bytes>, group: bytes)
    : (set<bytes>, Result<(), GroupError>)
  {
    if |group| > maxGroup then (s, Err(GroupTooLong))
    else if group !in s && |s| >= maxEntries then (s, Err(TableFull))
    else (s + {group}, Ok(()))
  }

  lemma {:induction false} DistinctSize(t: seq<bytes>)
    requires Distinct(t)
    ensures |Members(t)| == |t|
  {
    if t != [] {
      var u := t[..|t| - 1];
      DistinctSize(u);
      assert t == u + [t[|t| - 1]];
      assert Members(t) == Members(u) + {t[|t| - 1]};
    }
  }

  lemma JoinedIsSet(maxEntries: nat, maxGroup: nat, t: seq<bytes>, group: bytes)
    requires Distinct(t)
    ensures var (t', r) := Joined(maxEntries, maxGroup, t, group);
            Distinct(t') && (Members(t'), r) == SetJoined(maxEntries, maxGroup, Members(t), group)
  {
    DistinctSize(t);
    assert Members(t + [group]) == Members(t) + {group};
    if group in t {
      assert Members(t) + {group} == Members(t);
    }
  }

  lemma LeftIsSet(t: seq<bytes>, group: bytes)
    requires Distinct(t)
    ensures var t' := Removed(t, group);
            Distinct(t') && Members(t') == Members(t) - {group} && group !in t'
  {
    match Position(t, group)
    case None =>
    case Some(p) =>
      var t' := Removed(t, group);
      var last := |t| - 1;
      assert forall i :: 0 <= i < |t'| ==> t'[i] == if i == p then t[last] else t[i];
      forall e ensures e in Members(t') <==> e in Members(t) - {group} {
        if e in t && e != group {
          var k :| 0 <= k < |t| && t[k] == e;
          assert t'[if k == last then p else k] == e;
        }
      }
  }

  class GroupTable {
    const maxEntries: nat
    const maxGroup: nat
    var entries: seq<bytes>

    constructor (maxEntries: nat, maxGroup: nat)
      ensures this.maxEntries == maxEntries && this.maxGroup == maxGroup && entries == []
    {
      this.maxEntries, this.maxGroup, entries := maxEntries, maxGroup, [];
    }

    method Join(group: bytes) returns (r: Result<(), GroupError>)
      modifies this
      ensures (entries, r) == Joined(maxEntries, maxGroup, old(entries), group)
      ensures old(Distinct(entries)) ==> Distinct(entries)
    {
      if |group| > maxGroup {
        return Err(GroupTooLong);
      }
      for i := 0 to |entries|
        invariant group !in entries[..i]
      {
        if entries[i] == group {
          return Ok(());
        }
      }
      assert entries[..|entries|] == entries;
      if |entries| >= maxEntries {
        return Err(TableFull);
      }
      entries := entries + [group];
      return Ok(());
    }

    method Leave(group: bytes)
      modifies this
      ensures entries == Removed(old(entries), group)
      ensures old(Distinct(entries)) ==> Distinct(entries) && Members(entries) == Members(old(entries)) - {group}
    {
      if Distinct(entries) {
        LeftIsSet(entries, group);
      }
      var pos := FindPosition(entries, group);
      if pos.Some? {
        entries := SwapRemove(entries, pos.value);
      }
    }

    method IsMatch(group: bytes) returns (found: bool)
      ensures found <==> group in entries
    {
      for i := 0 to |entries|
        invariant group !in entries[..i]
      {
        if entries[i] == group {
          return true;
        }
      }
      assert entries[..|entries|] == entries;
      return false;
    }
  }
}
