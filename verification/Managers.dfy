/**
 The vectors behind the registries as their owners edit them, one caller at a time: the logger
 registry of quill/include/quill/core/LoggerManager.h, and the context registry of
 quill/include/quill/core/ThreadContextManager.h with the backend's sweep over it.
 */
module Managers {
  import opened Containers
  import opened Names
  import opened ThreadContexts

  // ---- Loggers ---------------------------------------------------------------------------------

  datatype Entry = Entry(name: string, valid: bool)

  datatype Creation = Created | Existing | AlreadyExists | PendingRemoval

  function EntryNames(entries: seq<Entry>): (r: seq<string>)
    ensures |r| == |entries| && forall i :: 0 <= i < |entries| ==> r[i] == entries[i].name
  {
    seq(|entries|, i requires 0 <= i < |entries| => entries[i].name)
  }

  /**
   A sweep over the entries, each with the answer its emptiness check would get: invalid entries
   found with nothing pending go, everything else stays.
   */
  function Kept(entries: seq<Entry>, empties: seq<bool>): seq<Entry>
    requires |empties| == |entries|
  {
    if entries == [] then [] else
      var n := |entries| - 1;
      Kept(entries[..n], empties[..n]) + (if !entries[n].valid && empties[n] then [] else [entries[n]])
  }

  function Gone(entries: seq<Entry>, empties: seq<bool>): seq<string>
    requires |empties| == |entries|
  {
    if entries == [] then [] else
      var n := |entries| - 1;
      Gone(entries[..n], empties[..n]) + (if !entries[n].valid && empties[n] then [entries[n].name] else [])
  }

  predicate AnyInvalid(entries: seq<Entry>) {
    exists i :: 0 <= i < |entries| && !entries[i].valid
  }

  lemma SweepNext(entries: seq<Entry>, empties: seq<bool>, n: nat)
    requires |empties| == |entries| && n < |entries|
    ensures var goes := !entries[n].valid && empties[n];
            && Kept(entries[..n + 1], empties[..n + 1]) == Kept(entries[..n], empties[..n]) + (if goes then [] else [entries[n]])
            && Gone(entries[..n + 1], empties[..n + 1]) == Gone(entries[..n], empties[..n]) + (if goes then [entries[n].name] else [])
            && entries[n..] == [entries[n]] + entries[n + 1..]
  {
    assert entries[..n + 1][..n] == entries[..n] && empties[..n + 1][..n] == empties[..n];
  }

  /** In a sorted vector the last name stands nowhere else. */
  lemma LastIsNew(entries: seq<Entry>)
    requires entries != [] && Sorted(EntryNames(entries))
    ensures var n := |entries| - 1;
            && Sorted(EntryNames(entries[..n])) && entries[n] !in entries[..n] && entries[n].name !in EntryNames(entries[..n])
  {
    hide Less;
    var n := |entries| - 1;
    var names := EntryNames(entries);
    assert EntryNames(entries[..n]) == names[..n];
    LessIrreflexive(names[n]);
    forall k | 0 <= k < n ensures names[k] != names[n] { assert Less(names[k], names[n]); }
    assert forall k :: 0 <= k < n ==> entries[..n][k].name == names[k];
  }

  /** Names being distinct, a sweep removes exactly the invalid loggers found with nothing pending. */
  lemma {:induction false} KeptExact(entries: seq<Entry>, empties: seq<bool>, i: nat)
    requires |empties| == |entries| && i < |entries| && Sorted(EntryNames(entries))
    ensures entries[i] in Kept(entries, empties) <==> entries[i].valid || !empties[i]
    decreases |entries|
  {
    hide Sorted, EntryNames;
    var n := |entries| - 1;
    LastIsNew(entries);
    KeptMembers(entries[..n], empties[..n], entries[n]);
    if i < n {
      KeptExact(entries[..n], empties[..n], i);
      assert entries[i] == entries[..n][i] && entries[i] != entries[n];
    }
  }

  /** And it reports exactly those. */
  lemma {:induction false} GoneExact(entries: seq<Entry>, empties: seq<bool>, i: nat)
    requires |empties| == |entries| && i < |entries| && Sorted(EntryNames(entries))
    ensures entries[i].name in Gone(entries, empties) <==> !entries[i].valid && empties[i]
    ensures forall x :: x in Gone(entries, empties) ==> x in EntryNames(entries)
    decreases |entries|
  {
    hide Sorted;
    var n := |entries| - 1;
    LastIsNew(entries);
    assert EntryNames(entries) == EntryNames(entries[..n]) + [entries[n].name];
    hide EntryNames;
    if n > 0 { GoneExact(entries[..n], empties[..n], if i < n then i else 0); }
    if i < n { assert entries[i] == entries[..n][i] && entries[i].name in EntryNames(entries[..n]); }
  }

  /** A sweep invents nothing and never removes a valid logger. */
  lemma {:induction false} KeptMembers(entries: seq<Entry>, empties: seq<bool>, e: Entry)
    requires |empties| == |entries|
    ensures e in Kept(entries, empties) ==> e in entries
    ensures e.valid && e in entries ==> e in Kept(entries, empties)
  {
    if entries == [] {
    } else {
      var n := |entries| - 1;
      KeptMembers(entries[..n], empties[..n], e);
      assert entries == entries[..n] + [entries[n]];
    }
  }

  lemma {:induction false} KeptSorted(entries: seq<Entry>, empties: seq<bool>)
    requires |empties| == |entries| && Sorted(EntryNames(entries))
    ensures Sorted(EntryNames(Kept(entries, empties)))
  {
    hide Less;
    if entries == [] {
    } else {
      var n := |entries| - 1;
      assert EntryNames(entries[..n]) == EntryNames(entries)[..n];
      KeptSorted(entries[..n], empties[..n]);
      var kept := Kept(entries[..n], empties[..n]);
      forall k | 0 <= k < |kept| ensures Less(kept[k].name, entries[n].name) {
        KeptMembers(entries[..n], empties[..n], kept[k]);
        var j :| 0 <= j < n && entries[j] == kept[k];
        assert Less(EntryNames(entries)[j], EntryNames(entries)[n]);
      }
      SortedAppend(kept, entries[n]);
    }
  }

  lemma SortedAppend(kept: seq<Entry>, e: Entry)
    requires Sorted(EntryNames(kept)) && forall k :: 0 <= k < |kept| ==> Less(kept[k].name, e.name)
    ensures Sorted(EntryNames(kept + [e])) && kept + [] == kept
  {
    hide Less;
    var names := EntryNames(kept + [e]);
    forall i, j | 0 <= i < j < |names| ensures Less(names[i], names[j]) {
      if j < |kept| { assert Less(EntryNames(kept)[i], EntryNames(kept)[j]); }
    }
  }

  class LoggerManager {
    var loggers: seq<Entry>
    var hasInvalidated: bool

    ghost predicate Valid()
      reads this
    {
      Sorted(EntryNames(loggers)) && (AnyInvalid(loggers) ==> hasInvalidated)
    }

    constructor ()
      ensures Valid() && loggers == [] && !hasInvalidated
    {
      loggers, hasInvalidated := [], false;
    }

    /** `get_logger`: the index of a valid logger of this name, if there is one. */
    method GetLogger(name: string) returns (found: bool, index: nat)
      requires Valid()
      ensures found <==> Entry(name, true) in loggers
      ensures found ==> index < |loggers| && loggers[index] == Entry(name, true)
    {
      hide LowerBound, Less;
      index := LowerBound(EntryNames(loggers), name);
      found := index < |loggers| && loggers[index].name == name && loggers[index].valid;
      FoundIff(EntryNames(loggers), name);
      if Entry(name, true) in loggers {
        var k :| 0 <= k < |loggers| && loggers[k] == Entry(name, true);
        assert EntryNames(loggers)[k] == name;
        LessIrreflexive(name);
      }
    }

    /** `create_logger` and `create_or_get_logger`: a name pending removal cannot be created again. */
    method Create(name: string, orGet: bool) returns (r: Creation)
      requires Valid()
      modifies this
      ensures Valid() && hasInvalidated == old(hasInvalidated)
      ensures r.Created? <==> name !in EntryNames(old(loggers))
      ensures r.PendingRemoval? <==> Entry(name, false) in old(loggers)
      ensures r.Existing? || r.AlreadyExists? <==> Entry(name, true) in old(loggers)
      ensures r.Existing? ==> orGet
      ensures r.AlreadyExists? ==> !orGet
      ensures !r.Created? ==> loggers == old(loggers)
      ensures r.Created? ==>
                exists i :: 0 <= i <= |old(loggers)| && loggers == old(loggers)[..i] + [Entry(name, true)] + old(loggers)[i..]
    {
      hide LowerBound, Less, AnyInvalid, Sorted;
      var i := LowerBound(EntryNames(loggers), name);
      FoundIff(EntryNames(loggers), name);
      NameOfEntry(loggers, name);
      if i < |loggers| && loggers[i].name == name {
        assert loggers[i] in loggers;
        OneEntry(loggers, i);
        if !loggers[i].valid { return PendingRemoval; }
        return if orGet then Existing else AlreadyExists;
      }
      InsertSorted(EntryNames(loggers), name);
      InsertEntry(loggers, i, Entry(name, true));
      loggers := loggers[..i] + [Entry(name, true)] + loggers[i..];
      r := Created;
    }

    /** `remove_logger`: marks the logger, then raises the flag. */
    method Remove(index: nat)
      requires Valid() && index < |loggers|
      modifies this
      ensures Valid() && hasInvalidated && loggers == old(loggers)[index := old(loggers)[index].(valid := false)]
    {
      hide Less;
      ghost var names := EntryNames(loggers);
      loggers := loggers[index := loggers[index].(valid := false)];
      assert EntryNames(loggers) == names;
      hasInvalidated := true;
    }

    /**
     `cleanup_invalidated_loggers`: takes the flag, sweeps the vector erasing in place, and raises
     the flag again for every invalid logger it has to leave. `empties` are the answers of the
     emptiness check for each logger.
     */
    method CleanupInvalidated(empties: seq<bool>) returns (removed: seq<string>)
      requires Valid() && |empties| == |loggers|
      modifies this
      ensures Valid()
      ensures if old(hasInvalidated) then loggers == Kept(old(loggers), empties) && removed == Gone(old(loggers), empties)
              else loggers == old(loggers) && removed == []
      ensures hasInvalidated <==> AnyInvalid(loggers)
    {
      hide Kept, Gone, Less, Sorted, AnyInvalid, Swept;
      removed := [];
      var flag := hasInvalidated;
      hasInvalidated := false;
      if !flag { return; }
      ghost var was, kept, rest := loggers, [], loggers;
      var n := 0;
      var it := 0;
      SweepEnd(was, empties, 0, kept, removed, rest);
      while it < |loggers|
        invariant it == |kept| && loggers == kept + rest && |rest| == |was| - n
        invariant 0 <= n <= |was| && Swept(was, empties, n, kept, removed, rest)
        invariant hasInvalidated <==> AnyInvalid(kept)
        decreases |was| - n
      {
        SweepTurn(was, empties, n, kept, removed, rest);
        SweepInvalid(kept, rest[0]);
        DropAt(kept, rest);
        if !loggers[it].valid {
          if !empties[n] {
            it := it + 1;
            hasInvalidated := true;
            kept := kept + [rest[0]];
          } else {
            removed := removed + [loggers[it].name];
            loggers := loggers[..it] + loggers[it + 1..];
          }
        } else {
          it := it + 1;
          kept := kept + [rest[0]];
        }
        rest := rest[1..];
        n := n + 1;
      }
      SweepEnd(was, empties, n, kept, removed, rest);
      KeptSorted(was, empties);
    }
  }

  /** The state of a sweep after n entries. */
  ghost predicate Swept(was: seq<Entry>, empties: seq<bool>, n: nat, kept: seq<Entry>, gone: seq<string>, rest: seq<Entry>)
    requires |empties| == |was| && n <= |was|
  {
    kept == Kept(was[..n], empties[..n]) && gone == Gone(was[..n], empties[..n]) && rest == was[n..]
  }

  lemma SweepTurn(was: seq<Entry>, empties: seq<bool>, n: nat, kept: seq<Entry>, gone: seq<string>, rest: seq<Entry>)
    requires |empties| == |was| && n <= |was| && rest != [] && |rest| == |was| - n && Swept(was, empties, n, kept, gone, rest)
    ensures !rest[0].valid && empties[n] ==> Swept(was, empties, n + 1, kept, gone + [rest[0].name], rest[1..])
    ensures rest[0].valid || !empties[n] ==> Swept(was, empties, n + 1, kept + [rest[0]], gone, rest[1..])
  {
    hide Kept, Gone;
    SweepNext(was, empties, n);
    assert kept + [] == kept && gone + [] == gone;
  }

  lemma SweepEnd(was: seq<Entry>, empties: seq<bool>, n: nat, kept: seq<Entry>, gone: seq<string>, rest: seq<Entry>)
    requires |empties| == |was| && n <= |was|
    ensures Swept(was, empties, 0, [], [], was) && [] + was == was && !AnyInvalid([])
    ensures n == |was| && rest == [] && Swept(was, empties, n, kept, gone, rest) ==>
              kept + rest == Kept(was, empties) && gone == Gone(was, empties) && kept == Kept(was, empties)
  {
    assert was[..|was|] == was && empties[..|was|] == empties;
  }

  lemma SweepInvalid(kept: seq<Entry>, e: Entry)
    ensures AnyInvalid(kept + [e]) <==> AnyInvalid(kept) || !e.valid
    ensures kept + [] == kept
  {
    if AnyInvalid(kept) {
      var i :| 0 <= i < |kept| && !kept[i].valid;
      assert !(kept + [e])[i].valid;
    }
    if !e.valid { assert !(kept + [e])[|kept|].valid; }
  }

  lemma DropAt(kept: seq<Entry>, rest: seq<Entry>)
    requires rest != []
    ensures var s := kept + rest;
            s[|kept|] == rest[0] && s[..|kept|] + s[|kept| + 1..] == kept + rest[1..] && s == (kept + [rest[0]]) + rest[1..]
  {}

  lemma NameOfEntry(entries: seq<Entry>, name: string)
    ensures name in EntryNames(entries) <==> Entry(name, true) in entries || Entry(name, false) in entries
  {
    if name in EntryNames(entries) {
      var k :| 0 <= k < |entries| && EntryNames(entries)[k] == name;
      assert entries[k] in entries;
    }
    if Entry(name, true) in entries {
      var k :| 0 <= k < |entries| && entries[k] == Entry(name, true);
      assert EntryNames(entries)[k] == name;
    }
    if Entry(name, false) in entries {
      var k :| 0 <= k < |entries| && entries[k] == Entry(name, false);
      assert EntryNames(entries)[k] == name;
    }
  }

  /** In a sorted registry a name has one entry. */
  lemma OneEntry(entries: seq<Entry>, i: nat)
    requires Sorted(EntryNames(entries)) && i < |entries|
    ensures Entry(entries[i].name, !entries[i].valid) !in entries
  {
    hide Less;
    var other := Entry(entries[i].name, !entries[i].valid);
    if other in entries {
      var k :| 0 <= k < |entries| && entries[k] == other;
      LessIrreflexive(EntryNames(entries)[i]);
    }
  }

  lemma InsertEntry(entries: seq<Entry>, i: nat, e: Entry)
    requires i <= |entries| && e.valid && i == LowerBound(EntryNames(entries), e.name)
    ensures var s := entries[..i] + [e] + entries[i..];
            && EntryNames(s) == Inserted(EntryNames(entries), e.name)
            && (AnyInvalid(s) ==> AnyInvalid(entries))
  {
    hide LowerBound, AnyInvalid;
    assert EntryNames(entries[..i] + [e] + entries[i..]) == Inserted(EntryNames(entries), e.name);
    if AnyInvalid(entries[..i] + [e] + entries[i..]) { InsertInvalid(entries, i, e); }
  }

  lemma InsertInvalid(entries: seq<Entry>, i: nat, e: Entry)
    requires i <= |entries| && e.valid && AnyInvalid(entries[..i] + [e] + entries[i..])
    ensures AnyInvalid(entries)
  {
    var s := entries[..i] + [e] + entries[i..];
    var k :| 0 <= k < |s| && !s[k].valid;
    assert s[k] == entries[if k < i then k else k - 1];
  }

  // ---- Thread contexts -------------------------------------------------------------------------

  predicate Distinct(s: seq<nat>) {
    forall i, j :: 0 <= i < j < |s| ==> s[i] != s[j]
  }

  lemma WithoutAbsent(s: seq<nat>, d: nat)
    requires d !in s
    ensures Without(s, d) == s
  {}

  /** Erasing the position of an element leaves the list without it. */
  lemma {:induction false} ErasedIsWithout(s: seq<nat>, i: nat)
    requires Distinct(s) && i < |s|
    ensures s[..i] + s[i + 1..] == Without(s, s[i])
  {
    hide Without, Distinct;
    FirstOf(s, s[i]);
    if i == 0 {
      WithoutAbsent(s[1..], s[0]);
      assert s[..0] + s[1..] == s[1..];
    } else {
      ErasedIsWithout(s[1..], i - 1);
      SkipFirst(s, i);
    }
  }

  lemma SkipFirst(s: seq<nat>, i: nat)
    requires 0 < i < |s|
    ensures s[i] in s[1..] && s[1..][i - 1] == s[i]
    ensures s[..i] + s[i + 1..] == [s[0]] + (s[1..][..i - 1] + s[1..][i..])
  {
    assert s[1..][i - 1] == s[i];
  }

  lemma FirstOf(s: seq<nat>, d: nat)
    requires Distinct(s) && s != []
    ensures s[0] !in s[1..] && Distinct(s[1..])
    ensures Without(s, d) == if s[0] == d then Without(s[1..], d) else [s[0]] + Without(s[1..], d)
  {}

  lemma ErasedDistinct(s: seq<nat>, i: nat)
    requires Distinct(s) && i < |s|
    ensures Distinct(s[..i] + s[i + 1..])
  {}

  class ThreadContextManager {
    var contexts: seq<nat>
    var flag: bool
    var invalidCount: int

    /** `remove_shared_invalidated_thread_context`: finds the context, erases it, counts it off. */
    method RemoveShared(c: nat)
      requires c in contexts && Distinct(contexts) && 0 <= invalidCount < UINT32
      modifies this`contexts, this`invalidCount
      ensures contexts == Without(old(contexts), c) && Distinct(contexts)
      ensures invalidCount == Decrement(old(invalidCount)) && 0 <= invalidCount < UINT32
    {
      hide Without;
      var it := 0;
      ghost var at :| 0 <= at < |contexts| && contexts[at] == c;
      while contexts[it] != c
        invariant it <= at
        decreases at - it
      {
        it := it + 1;
      }
      ErasedIsWithout(contexts, it);
      ErasedDistinct(contexts, it);
      contexts := contexts[..it] + contexts[it + 1..];
      invalidCount := if invalidCount == 0 then UINT32 - 1 else invalidCount - 1;
    }
  }

  /** Invalid, with nothing queued and nothing buffered. */
  predicate Removable(c: Ctx) {
    Invalid(c) && c.queue == [] && c.buf == []
  }

  /** The first removable context of the cache, as std::find_if finds it. */
  method FindRemovable(ctxs: seq<Ctx>, cache: seq<nat>) returns (i: nat)
    requires forall k :: 0 <= k < |cache| ==> cache[k] < |ctxs|
    ensures i <= |cache| && forall k :: 0 <= k < i ==> !Removable(ctxs[cache[k]])
    ensures i < |cache| ==> Removable(ctxs[cache[i]])
  {
    i := 0;
    while i < |cache| && !Removable(ctxs[cache[i]])
      invariant i <= |cache| && forall k :: 0 <= k < i ==> !Removable(ctxs[cache[k]])
    {
      i := i + 1;
    }
  }

  /**
   `_cleanup_invalidated_thread_contexts` while no frontend moves: it ends, no cached context is
   removable any more, those that were not stay cached and registered, and none other is touched.
   */
  method CleanupContexts(manager: ThreadContextManager, ctxs: seq<Ctx>, cache: seq<nat>) returns (left: seq<nat>)
    requires Distinct(cache) && Distinct(manager.contexts) && 0 <= manager.invalidCount < UINT32
    requires forall k :: 0 <= k < |cache| ==> cache[k] < |ctxs|
    requires forall c :: c in cache ==> c in manager.contexts
    modifies manager
    ensures old(manager.invalidCount) == 0 ==> left == cache && manager.contexts == old(manager.contexts)
    ensures old(manager.invalidCount) != 0 ==>
              (forall c :: c in left <==> c in cache && c < |ctxs| && !Removable(ctxs[c])) &&
              (forall c :: c in manager.contexts <==> c in old(manager.contexts) && !(c in cache && c < |ctxs| && Removable(ctxs[c])))
    ensures forall c :: c in left ==> c in manager.contexts
  {
    hide Removable, Distinct, Without;
    left := cache;
    if manager.invalidCount == 0 { return; }
    var i := FindRemovable(ctxs, left);
    while i < |left|
      invariant Distinct(left) && Distinct(manager.contexts) && 0 <= manager.invalidCount < UINT32
      invariant forall k :: 0 <= k < |left| ==> left[k] < |ctxs|
      invariant 0 <= i <= |left| && forall k :: 0 <= k < i ==> !Removable(ctxs[left[k]])
      invariant i < |left| ==> Removable(ctxs[left[i]])
      invariant forall c :: c in left ==> c in cache && c in manager.contexts
      invariant forall c :: c in cache && c !in left ==> Removable(ctxs[c])
      invariant forall c :: c in manager.contexts <==> c in old(manager.contexts) && (c in cache ==> c in left)
      decreases |left|
    {
      var c := left[i];
      manager.RemoveShared(c);
      ErasedIsWithout(left, i);
      ErasedDistinct(left, i);
      left := left[..i] + left[i + 1..];
      assert forall k :: 0 <= k < |left| ==> left[k] in left;
      i := FindRemovable(ctxs, left);
    }
  }
}
