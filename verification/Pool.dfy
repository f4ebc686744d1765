/** The client pool: clients by key, dropped when idle or when the pool exceeds its capacity. */
module Pool {
  import opened Results
  import opened PoolRuns

  class Entry {
    /** The client, by the number the factory gave it. */
    const client: nat

    var activeRequests: int

    var activedAt: int

    constructor (client: nat, now: int)
      ensures this.client == client && activeRequests == 0 && activedAt == now
    {
      this.client, activeRequests, activedAt := client, 0, now;
    }
  }

  lemma OnlyRetained<E>(before: State<E>, clients: map<string, E>, now: int, limits: Limits)
    requires now - before.cleanupAt >= limits.idleTimeout / 2
    requires clients.Keys <= before.clients.Keys
    requires forall key | key in clients :: clients[key] == before.clients[key]
    requires forall key | key in before.clients :: key in clients <==> Retained(before, before.clients[key], now, limits)
    ensures Cleanup(before, now, limits) == State(clients, before.activity, now)
  {
  }

  class Pool {
    const limits: Limits

    var clients: map<string, Entry>

    var cleanupAt: int

    /** Every entry ever handed out, in the pool or not. */
    ghost var known: set<Entry>

    ghost predicate Valid()
      reads this
    {
      forall key | key in clients :: clients[key] in known
    }

    /** What the pool holds, as the runs see it. */
    ghost function View(): State<Entry>
      reads this, known
    {
      State(clients, map e | e in known :: Activity(e.activeRequests, e.activedAt), cleanupAt)
    }

    constructor (limits: Limits, now: int)
      ensures Valid() && this.limits == limits && known == {}
      ensures View() == State(map[], map[], now)
    {
      this.limits, clients, cleanupAt, known := limits, map[], now, {};
    }

    method CleanupIdleEntries(now: int)
      requires Valid()
      modifies this`clients, this`cleanupAt
      ensures Valid()
      ensures View() == Cleanup(old(View()), now, limits)
      ensures now - old(cleanupAt) < limits.idleTimeout / 2 ==> clients == old(clients) && cleanupAt == old(cleanupAt)
      ensures now - old(cleanupAt) >= limits.idleTimeout / 2 ==>
                && cleanupAt == now
                && (forall key | key in clients :: key in old(clients) && clients[key] == old(clients)[key])
                && (forall key | key in old(clients) :: key in clients <==>
                      var entry := old(clients)[key];
                      entry.activeRequests > 0 || (|old(clients)| <= limits.capacity && now - entry.activedAt <= limits.idleTimeout))
    {
      if now - cleanupAt < limits.idleTimeout / 2 {
        return;
      }
      var exceedsCapacity := |clients| > limits.capacity;
      var keys := clients.Keys;
      ghost var before := View();
      while keys != {}
        invariant keys <= clients.Keys <= before.clients.Keys
        invariant forall key | key in clients :: clients[key] == before.clients[key]
        invariant forall key | key in before.clients && key !in keys ::
                    key in clients <==> Retained(before, before.clients[key], now, limits)
        invariant cleanupAt == old(cleanupAt)
        decreases |keys|
      {
        var key :| key in keys;
        keys := keys - {key};
        var entry := clients[key];
        assert before.activity[entry] == Activity(entry.activeRequests, entry.activedAt);
        var isRecent := now - entry.activedAt <= limits.idleTimeout;
        if !(entry.activeRequests > 0 || (!exceedsCapacity && isRecent)) {
          clients := clients - {key};
        }
      }
      cleanupAt := now;
      OnlyRetained(before, clients, now, limits);
    }

    /**
     Gets the entry of the key or makes one; `made` is the client the factory makes, none when
     it fails. The clock is read for the cleanup and again to hand the entry out.
     */
    method Get(key: string, made: Option<nat>, cleanupNow: int, now: int) returns (entry: Option<Entry>)
      requires Valid()
      modifies this, known
      ensures Valid() && fresh(known - old(known)) && old(known) <= known
      ensures entry.Some? ==> entry.value in known
      ensures entry == Answer(old(View()), PoolRuns.Get(key, cleanupNow, now, entry), limits)
      ensures View() == Next(old(View()), PoolRuns.Get(key, cleanupNow, now, entry), limits)
      ensures key !in Cleanup(old(View()), cleanupNow, limits).clients ==>
                if made.None? then entry.None? else entry.Some? && fresh(entry.value) && entry.value.client == made.value
      ensures entry.Some? ==> key in clients && clients[key] == entry.value && entry.value.activedAt == now
    {
      CleanupIdleEntries(cleanupNow);
      if key in clients {
        var found := clients[key];
        found.activedAt := now;
        return Some(found);
      }
      if made.None? {
        return None;
      }
      var e := new Entry(made.value, now);
      clients := clients[key := e];
      known := known + {e};
      entry := Some(e);
    }

    /** Removes the entry of the key unless it has active requests. */
    method RemoveEntry(key: string)
      requires Valid()
      modifies this`clients
      ensures Valid() && View() == Next(old(View()), PoolRuns.Remove(key), limits)
      ensures key in clients <==> key in old(clients) && old(clients)[key].activeRequests > 0
      ensures clients - {key} == old(clients) - {key}
    {
      if key in clients && !(clients[key].activeRequests > 0) {
        clients := clients - {key};
      }
    }

    method ClearAll()
      requires Valid()
      modifies this`clients
      ensures Valid() && View() == Next(old(View()), PoolRuns.Clear, limits)
      ensures clients == map[]
    {
      clients := map[];
    }

    /** Counts a request on the entry, in the pool or not. */
    method AcquireGuard(entry: Entry)
      requires Valid() && entry in known
      modifies entry`activeRequests
      ensures Valid() && View() == Next(old(View()), PoolRuns.Acquire(entry), limits)
      ensures entry.activeRequests == old(entry.activeRequests) + 1
    {
      entry.activeRequests := entry.activeRequests + 1;
    }

    /** Ends a request counted on the entry. */
    method DoneGuard(entry: Entry)
      requires Valid() && entry in known
      modifies entry`activeRequests
      ensures Valid() && View() == Next(old(View()), PoolRuns.Done(entry), limits)
      ensures entry.activeRequests == old(entry.activeRequests) - 1
    {
      entry.activeRequests := entry.activeRequests - 1;
    }
  }
}
