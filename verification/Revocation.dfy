/** What a revocation achieves when it runs beside other handlers: status writes are
    last-writer-wins, and a revoke knows only the indices recorded when it read the list. */
module Revocation {
  import opened Bytes
  import opened Stores
  import opened Lifecycle

  // ---------- the status of an entry is the last one written ----------

  /** Event k writes this status to an entry that exists. */
  ghost predicate Sets(events: seq<Event>, k: nat, category: string, idx: nat, status: bv8) {
    && k < |events| && HasEntry(After(events, k).statuses, category, idx)
    && WriteOf(After(events, k), events[k]) == Some(EntryWrite(category, idx, status))
  }

  /** No event from k to n writes the entry. */
  ghost predicate Unwritten(events: seq<Event>, k: nat, n: nat, category: string, idx: nat) {
    forall j: nat, status | k <= j < n :: !Sets(events, j, category, idx, status)
  }

  /** Event k is the last before n to write the entry, with this status. */
  ghost predicate LastSet(events: seq<Event>, k: nat, n: nat, category: string, idx: nat, status: bv8) {
    k < n && Sets(events, k, category, idx, status) && Unwritten(events, k + 1, n, category, idx)
  }

  lemma NextStatus(events: seq<Event>, n: nat, category: string, idx: nat)
    requires n < |events| && HasEntry(After(events, n).statuses, category, idx)
    ensures HasEntry(After(events, n + 1).statuses, category, idx)
    ensures if status :| Sets(events, n, category, idx, status)
            then After(events, n + 1).statuses[category][idx] == status
            else After(events, n + 1).statuses[category][idx] == After(events, n).statuses[category][idx]
  {
    hide Next, WriteOf, EntriesMatchCounter, OwnedInRange, OwnedOnce;
    var s, e := After(events, n), events[n];
    EveryRun(events, n);
    NextKeepsEntry(s, e, category, idx);
    if Writes(s, e, category, idx) {
      assert Sets(events, n, category, idx, WriteOf(s, e).value.status);
    }
  }

  lemma NewEntryIsValid(s: State, e: Event, category: string, idx: nat)
    requires !HasEntry(s.statuses, category, idx) && HasEntry(Next(s, e).statuses, category, idx)
    ensures Next(s, e).statuses[category][idx] == STATUS_VALID
  {
  }

  /** A new entry is valid, and writes to it so far have found nothing. */
  lemma NothingBefore(events: seq<Event>, n: nat, category: string, idx: nat)
    requires n < |events| && !HasEntry(After(events, n).statuses, category, idx)
    ensures Unwritten(events, 0, n + 1, category, idx)
    ensures HasEntry(After(events, n + 1).statuses, category, idx) ==>
              After(events, n + 1).statuses[category][idx] == STATUS_VALID
  {
    hide WriteOf, Next, HasEntry;
    forall j: nat | j <= n ensures !HasEntry(After(events, j).statuses, category, idx) {
      if HasEntry(After(events, j).statuses, category, idx) {
        ReferenceStays(events, j, n, category, idx);
        assert false;
      }
    }
    if HasEntry(After(events, n + 1).statuses, category, idx) {
      NewEntryIsValid(After(events, n), events[n], category, idx);
    }
    HasEntryIsPresence(After(events, n + 1).statuses, category, idx);
  }

  /** Main result: in every interleaving an entry holds the status that was last written
      to it, and is valid if none was: a later suspension replaces a revocation. */
  lemma {:induction false} StatusIsLastSet(events: seq<Event>, n: nat, category: string, idx: nat)
    requires n <= |events| && HasEntry(After(events, n).statuses, category, idx)
    ensures (exists k: nat :: LastSet(events, k, n, category, idx, After(events, n).statuses[category][idx]))
         || (Unwritten(events, 0, n, category, idx) && After(events, n).statuses[category][idx] == STATUS_VALID)
  {
    hide Next, Sets;
    var i: nat := n - 1;
    if !HasEntry(After(events, i).statuses, category, idx) {
      NothingBefore(events, i, category, idx);
    } else {
      NextStatus(events, i, category, idx);
      var now := After(events, n).statuses[category][idx];
      if Sets(events, i, category, idx, now) {
        assert LastSet(events, i, n, category, idx, now);
      } else {
        assert forall status :: !Sets(events, i, category, idx, status);
        StatusIsLastSet(events, i, category, idx);
        if k: nat :| LastSet(events, k, i, category, idx, now) {
          assert LastSet(events, k, n, category, idx, now);
        }
      }
    }
  }

  /** Main result: a revocation stands exactly when nothing is written to its entry
      afterwards, or the last thing written is a revocation again. */
  lemma RevocationStands(events: seq<Event>, k: nat, n: nat, category: string, idx: nat)
    requires k < n <= |events| && Sets(events, k, category, idx, STATUS_INVALID)
    ensures HasEntry(After(events, n).statuses, category, idx)
    ensures After(events, n).statuses[category][idx] == STATUS_INVALID <==>
              Unwritten(events, k + 1, n, category, idx)
              || exists j | k < j < n :: LastSet(events, j, n, category, idx, STATUS_INVALID)
  {
    hide After;
    ReferenceStays(events, k, n, category, idx);
    StatusIsLastSet(events, n, category, idx);
    var now := After(events, n).statuses[category][idx];
    var j: nat :| LastSet(events, j, n, category, idx, now);
  }

  /** Revoking or suspending a client with one entry. */
  lemma OneEntry(s: State, h: nat, client: string, status: bv8)
    requires h !in s.setting && At(s.clientIndices, Join(client, "ka")) == [0] && HasEntry(s.statuses, "ka", 0)
    ensures var t := Next(s, BeginSet(h, client, WKA, status));
            && t == s.(setting := t.setting) && t.setting.Keys == s.setting.Keys + {h}
            && WriteOf(t, SetNext(h)) == Some(EntryWrite("ka", 0, status))
            && var u := Next(t, SetNext(h));
               && u == s.(setting := u.setting, statuses := WithStatus(s.statuses, "ka", 0, status))
               && u.setting.Keys == t.setting.Keys && HasEntry(u.statuses, "ka", 0) && u.statuses["ka"][0] == status
  {
  }

  lemma AfterStep(events: seq<Event>, n: nat)
    requires n < |events|
    ensures After(events, n + 1) == Next(After(events, n), events[n])
  {
  }

  /** One attestation issued to a client. */
  lemma OneIssued(events: seq<Event>, client: string)
    requires |events| >= 2 && events[0] == Allocate(0, client, WKA) && events[1] == RecordOwner(0)
    ensures var s := After(events, 2);
            s.setting == map[] && At(s.clientIndices, Join(client, "ka")) == [0] && HasEntry(s.statuses, "ka", 0)
  {
    AfterStep(events, 0);
    AfterStep(events, 1);
  }

  /** A client is revoked and then suspended: its entry ends suspended. */
  lemma SuspensionReplacesRevocation(client: string)
    ensures var events := [
              Allocate(0, client, WKA), RecordOwner(0),
              BeginSet(1, client, WKA, STATUS_INVALID), SetNext(1),
              BeginSet(2, client, WKA, STATUS_SUSPENDED), SetNext(2)];
            && Sets(events, 3, "ka", 0, STATUS_INVALID)
            && HasEntry(After(events, 6).statuses, "ka", 0)
            && After(events, 6).statuses["ka"][0] == STATUS_SUSPENDED
  {
    hide After, Next, WriteOf, WithStatus;
    var events := [
      Allocate(0, client, WKA), RecordOwner(0),
      BeginSet(1, client, WKA, STATUS_INVALID), SetNext(1),
      BeginSet(2, client, WKA, STATUS_SUSPENDED), SetNext(2)];
    OneIssued(events, client);
    OneEntry(After(events, 2), 1, client, STATUS_INVALID);
    AfterStep(events, 2);
    AfterStep(events, 3);
    OneEntry(After(events, 4), 2, client, STATUS_SUSPENDED);
    AfterStep(events, 4);
    AfterStep(events, 5);
  }

  // ---------- published statuses ----------

  /** The statuses that handlers and the admin interface write. */
  predicate Writable(e: Event) {
    e.BeginSet? || e.AdminSet? ==> e.status <= STATUS_SUSPENDED
  }

  lemma NextSetting(s: State, e: Event, h: nat)
    requires h in Next(s, e).setting
    ensures if h in s.setting then Next(s, e).setting[h].status == s.setting[h].status
            else e.BeginSet? && Next(s, e).setting[h].status == e.status
  {
    hide Applied, WriteOf, WithNewEntry;
  }

  lemma {:induction false} SettingInRange(events: seq<Event>, n: nat, h: nat)
    requires n <= |events| && forall e | e in events :: Writable(e)
    requires h in After(events, n).setting
    ensures After(events, n).setting[h].status <= STATUS_SUSPENDED
  {
    hide Next;
    NextSetting(After(events, n - 1), events[n - 1], h);
    if h in After(events, n - 1).setting {
      SettingInRange(events, n - 1, h);
    } else {
      assert Writable(events[n - 1]);
    }
  }

  lemma LowBits(status: bv8)
    requires status <= STATUS_SUSPENDED
    ensures status & 3 == status
  {
  }

  /** In every run a stored status is 0, 1 or 2, so its two published bits are all of it. */
  lemma StatusInRange(events: seq<Event>, n: nat, category: string, idx: nat)
    requires n <= |events| && forall e | e in events :: Writable(e)
    requires HasEntry(After(events, n).statuses, category, idx)
    ensures After(events, n).statuses[category][idx] <= STATUS_SUSPENDED
    ensures After(events, n).statuses[category][idx] & 3 == After(events, n).statuses[category][idx]
  {
    hide After, Next;
    StatusIsLastSet(events, n, category, idx);
    var now := After(events, n).statuses[category][idx];
    if k: nat :| LastSet(events, k, n, category, idx, now) {
      assert Writable(events[k]);
      if events[k].SetNext? {
        SettingInRange(events, k, events[k].handler);
      }
    }
    LowBits(now);
  }

  // ---------- a revoke beside other handlers ----------

  /** Handler h fetched the client's list at event i and is still in its loop at n. */
  ghost predicate LoopOpen(events: seq<Event>, i: nat, n: nat, h: nat, client: string, a: Attestation, status: bv8) {
    && i < n <= |events| && events[i] == BeginSet(h, client, a, status) && h !in After(events, i).setting
    && forall k | i < k <= n :: h in After(events, k).setting
  }

  /** The client's list for an attestation after n events. */
  function ListAt(events: seq<Event>, n: nat, client: string, a: Attestation): seq<nat>
    requires n <= |events|
  {
    At(After(events, n).clientIndices, Join(client, CategoryOf(a)))
  }

  /** Event k is a write of this entry by handler h. */
  ghost predicate WrittenBy(events: seq<Event>, k: nat, h: nat, category: string, idx: nat, status: bv8) {
    k < |events| && events[k] == SetNext(h) && Sets(events, k, category, idx, status)
  }

  /** Handler h has written this entry between events i and n. */
  ghost predicate WrittenIn(events: seq<Event>, i: nat, n: nat, h: nat, category: string, idx: nat, status: bv8) {
    exists k: nat | i < k < n :: WrittenBy(events, k, h, category, idx, status)
  }

  /** Of the fetched list, handler h has written so far exactly the first `done` entries. */
  ghost predicate Progress(
      events: seq<Event>, i: nat, n: nat, h: nat, a: Attestation, status: bv8, list: seq<nat>, done: nat)
  {
    && done <= |list|
    && (forall j | 0 <= j < done :: WrittenIn(events, i, n, h, CategoryOf(a), list[j], status))
    && (forall category, idx, other | WrittenIn(events, i, n, h, category, idx, other) ::
          category == CategoryOf(a) && idx in list[..done])
  }

  /** One more event adds what it writes itself. */
  lemma WrittenGrows(
      events: seq<Event>, i: nat, n: nat, h: nat, category: string, idx: nat, status: bv8)
    requires i < n < |events|
    ensures WrittenIn(events, i, n + 1, h, category, idx, status) <==>
              WrittenIn(events, i, n, h, category, idx, status) || WrittenBy(events, n, h, category, idx, status)
  {
    hide WrittenBy;
    if k: nat :| i < k < n && WrittenBy(events, k, h, category, idx, status) {
      assert WrittenIn(events, i, n + 1, h, category, idx, status);
    }
  }

  /** Every fetched index has an entry, then and later. */
  lemma ListedHasEntry(events: seq<Event>, i: nat, n: nat, client: string, a: Attestation, j: nat)
    requires i <= n <= |events| && j < |ListAt(events, i, client, a)|
    ensures HasEntry(After(events, n).statuses, CategoryOf(a), ListAt(events, i, client, a)[j])
  {
    hide After, HasEntry, OwnedOnce;
    EveryRun(events, i);
    var idx := ListAt(events, i, client, a)[j];
    assert Owns(After(events, i), client, a, j, idx);
    ReferenceStays(events, i, n, CategoryOf(a), idx);
  }

  /** What one step does to a handler's loop. */
  lemma LoopStep(s: State, e: Event, h: nat)
    requires h in s.setting && h in Next(s, e).setting
    ensures var l, l' := s.setting[h], Next(s, e).setting[h];
            if e == SetNext(h) then
              && l.done < |l.indices| && l' == l.(done := l.done + 1)
              && WriteOf(s, e) == Some(EntryWrite(CategoryOf(l.attestation), l.indices[l.done], l.status))
            else l' == l
  {
  }

  lemma ProgressStep(
      events: seq<Event>, i: nat, n: nat, h: nat, a: Attestation, status: bv8, list: seq<nat>, done: nat)
    requires i < n < |events| && done < |list| && Progress(events, i, n, h, a, status, list, done)
    requires WrittenBy(events, n, h, CategoryOf(a), list[done], status)
    ensures Progress(events, i, n + 1, h, a, status, list, done + 1)
  {
    var m := n + 1;
    forall category, idx, other
      ensures WrittenIn(events, i, m, h, category, idx, other) <==>
                WrittenIn(events, i, n, h, category, idx, other)
                || (category == CategoryOf(a) && idx == list[done] && other == status)
    {
      WrittenGrows(events, i, n, h, category, idx, other);
      OneWrite(events, n, h, category, idx, other, CategoryOf(a), list[done], status);
    }
    hide WrittenIn, WrittenBy;
    assert list[..done + 1] == list[..done] + [list[done]];
  }

  lemma OneWrite(
      events: seq<Event>, n: nat, h: nat, category: string, idx: nat, status: bv8, c: string, i: nat, s: bv8)
    requires WrittenBy(events, n, h, c, i, s)
    ensures WrittenBy(events, n, h, category, idx, status) ==> category == c && idx == i && status == s
  {
  }

  lemma LoopStarts(events: seq<Event>, i: nat, h: nat, client: string, a: Attestation, status: bv8)
    requires i < |events| && events[i] == BeginSet(h, client, a, status) && h !in After(events, i).setting
    ensures var list := ListAt(events, i, client, a);
            && After(events, i + 1).setting[h] == Setting(a, status, list, 0)
            && Progress(events, i, i + 1, h, a, status, list, 0)
  {
    hide WrittenBy;
  }

  lemma NowWritten(events: seq<Event>, n: nat, h: nat, category: string, idx: nat, status: bv8)
    requires n < |events| && events[n] == SetNext(h) && HasEntry(After(events, n).statuses, category, idx)
    requires WriteOf(After(events, n), events[n]) == Some(EntryWrite(category, idx, status))
    ensures WrittenBy(events, n, h, category, idx, status)
  {
  }

  lemma ProgressKept(
      events: seq<Event>, i: nat, n: nat, h: nat, a: Attestation, status: bv8, list: seq<nat>, done: nat)
    requires i < n < |events| && events[n] != SetNext(h) && Progress(events, i, n, h, a, status, list, done)
    ensures Progress(events, i, n + 1, h, a, status, list, done)
  {
    var m := n + 1;
    forall category, idx, other
      ensures WrittenIn(events, i, m, h, category, idx, other) <==>
                WrittenIn(events, i, n, h, category, idx, other)
    {
      WrittenGrows(events, i, n, h, category, idx, other);
    }
    hide WrittenIn, Sets;
  }

  lemma LoopNext(
      events: seq<Event>, i: nat, n: nat, h: nat, client: string, a: Attestation, status: bv8, done: nat)
    requires i < n < |events| && h in After(events, n).setting && h in Next(After(events, n), events[n]).setting
    requires var list := ListAt(events, i, client, a);
             && After(events, n).setting[h] == Setting(a, status, list, done)
             && Progress(events, i, n, h, a, status, list, done)
    ensures var l, list := Next(After(events, n), events[n]).setting[h], ListAt(events, i, client, a);
            l == Setting(a, status, list, l.done) && Progress(events, i, n + 1, h, a, status, list, l.done)
  {
    hide After, Next, Progress, WrittenIn, WrittenBy, WriteOf, HasEntry, ListAt;
    var list := ListAt(events, i, client, a);
    LoopStep(After(events, n), events[n], h);
    if events[n] == SetNext(h) {
      ListedHasEntry(events, i, n, client, a, done);
      NowWritten(events, n, h, CategoryOf(a), list[done], status);
      ProgressStep(events, i, n, h, a, status, list, done);
    } else {
      ProgressKept(events, i, n, h, a, status, list, done);
    }
  }

  /** The loop works on the list as it was fetched, whatever runs beside it. */
  lemma {:induction false} LoopWrites(
      events: seq<Event>, i: nat, n: nat, h: nat, client: string, a: Attestation, status: bv8)
    requires n <= |events| && LoopOpen(events, i, n, h, client, a, status)
    ensures var l, list := After(events, n).setting[h], ListAt(events, i, client, a);
            l == Setting(a, status, list, l.done) && Progress(events, i, n, h, a, status, list, l.done)
  {
    hide Progress, Next, ListAt;
    if n == i + 1 {
      LoopStarts(events, i, h, client, a, status);
    } else {
      LoopWrites(events, i, n - 1, h, client, a, status);
      assert h in After(events, n).setting;
      LoopNext(events, i, n - 1, h, client, a, status, After(events, n - 1).setting[h].done);
    }
  }

  /** Some handler has allocated the index for this client and has yet to record it. */
  ghost predicate NotYetRecorded(s: State, client: string, a: Attestation, idx: nat) {
    exists h :: h in s.pending && s.pending[h] == Pending(client, a, idx)
  }

  lemma ListIsOwned(events: seq<Event>, n: nat, client: string, a: Attestation, idx: nat)
    requires n <= |events|
    ensures idx in ListAt(events, n, client, a) <==> exists j: nat :: Owns(After(events, n), client, a, j, idx)
  {
    hide After;
    if idx in ListAt(events, n, client, a) {
      var j: nat :| j < |ListAt(events, n, client, a)| && ListAt(events, n, client, a)[j] == idx;
      assert Owns(After(events, n), client, a, j, idx);
    }
  }

  lemma RecordedIsNotPending(events: seq<Event>, n: nat, client: string, a: Attestation, idx: nat)
    requires n <= |events| && idx in ListAt(events, n, client, a)
    ensures !NotYetRecorded(After(events, n), client, a, idx)
  {
    hide After, Owns, ListAt, EntriesMatchCounter, OwnedInRange;
    EveryRun(events, n);
    ListIsOwned(events, n, client, a, idx);
  }

  /** An index recorded or pending after a step was so before it, or had no entry. */
  lemma KnownBefore(s: State, e: Event, client: string, a: Attestation, j: nat, idx: nat)
    requires EntriesMatchCounter(s)
    requires Owns(Next(s, e), client, a, j, idx) || NotYetRecorded(Next(s, e), client, a, idx)
    ensures || Owns(s, client, a, j, idx) || NotYetRecorded(s, client, a, idx)
            || !HasEntry(s.statuses, CategoryOf(a), idx)
  {
    NextOwns(s, e, client, a, j, idx);
    hide Owns, WithNewEntry, Applied, WriteOf;
    if e.RecordOwner? && e.handler in s.pending && s.pending[e.handler] == Pending(client, a, idx) {
      assert NotYetRecorded(s, client, a, idx);
    }
  }

  /** An index that came to be recorded later was pending, or not there yet. */
  lemma {:induction false} KnownSince(
      events: seq<Event>, i: nat, n: nat, client: string, a: Attestation, j: nat, idx: nat)
    requires i <= n <= |events|
    requires Owns(After(events, n), client, a, j, idx) || NotYetRecorded(After(events, n), client, a, idx)
    ensures || Owns(After(events, i), client, a, j, idx) || NotYetRecorded(After(events, i), client, a, idx)
            || !HasEntry(After(events, i).statuses, CategoryOf(a), idx)
  {
    hide Owns, NotYetRecorded, HasEntry, Next, OwnedInRange, OwnedOnce, EntriesMatchCounter;
    if i < n {
      EveryRun(events, n - 1);
      KnownBefore(After(events, n - 1), events[n - 1], client, a, j, idx);
      if !HasEntry(After(events, n - 1).statuses, CategoryOf(a), idx) {
        if HasEntry(After(events, i).statuses, CategoryOf(a), idx) {
          ReferenceStays(events, i, n - 1, CategoryOf(a), idx);
          assert false;
        }
      } else {
        KnownSince(events, i, n - 1, client, a, j, idx);
      }
    }
  }

  /** Main result: a revoke or suspend whose loop has come to its end has written, among
      the indices then recorded for the client, exactly those recorded when it fetched the
      list. What it missed was allocated but not yet recorded at that moment, or not yet
      allocated. */
  lemma RevokeMisses(
      events: seq<Event>, i: nat, n: nat, h: nat, client: string, a: Attestation, status: bv8, idx: nat)
    requires n <= |events| && LoopOpen(events, i, n, h, client, a, status)
    requires After(events, n).setting[h].done == |After(events, n).setting[h].indices|
    requires idx in ListAt(events, n, client, a)
    ensures WrittenIn(events, i, n, h, CategoryOf(a), idx, status) <==> idx in ListAt(events, i, client, a)
    ensures idx !in ListAt(events, i, client, a) <==>
              NotYetRecorded(After(events, i), client, a, idx)
              || !HasEntry(After(events, i).statuses, CategoryOf(a), idx)
  {
    hide WrittenIn, After, HasEntry;
    var list := ListAt(events, i, client, a);
    LoopWrites(events, i, n, h, client, a, status);
    assert list[..|list|] == list;
    if idx in list {
      var j: nat :| j < |list| && list[j] == idx;
      ListedHasEntry(events, i, i, client, a, j);
      RecordedIsNotPending(events, i, client, a, idx);
    } else {
      ListIsOwned(events, n, client, a, idx);
      var j: nat :| Owns(After(events, n), client, a, j, idx);
      KnownSince(events, i, n, client, a, j, idx);
      ListIsOwned(events, i, client, a, idx);
    }
  }

  /** An index allocated when the client was revoked, but recorded just afterwards: the
      revoke finishes without it and it stays valid. */
  lemma RevokeMissesPending(client: string)
    ensures var events := [Allocate(0, client, WKA), BeginSet(1, client, WKA, STATUS_INVALID), RecordOwner(0)];
            && LoopOpen(events, 1, 3, 1, client, WKA, STATUS_INVALID)
            && After(events, 3).setting[1].done == |After(events, 3).setting[1].indices|
            && 0 in ListAt(events, 3, client, WKA)
            && HasEntry(After(events, 3).statuses, "ka", 0) && After(events, 3).statuses["ka"][0] == STATUS_VALID
  {
    var events := [Allocate(0, client, WKA), BeginSet(1, client, WKA, STATUS_INVALID), RecordOwner(0)];
    assert After(events, 1) == Next(After(events, 0), events[0]);
    assert After(events, 2) == Next(After(events, 1), events[1]);
    assert After(events, 3) == Next(After(events, 2), events[2]);
    assert ListAt(events, 3, client, WKA) == [0];
  }
}
