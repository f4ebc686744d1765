/**
 What the operations of the client pool do, one by one and over whole runs. An entry keeps
 its identity of type `E` after it has left the pool, since a request may still hold it.
 */
module PoolRuns {
  import opened Results

  datatype Limits = Limits(capacity: nat, idleTimeout: nat)

  /** The requests active on an entry, and when it was last handed out. */
  datatype Activity = Activity(requests: int, at: int)

  datatype State<!E> = State(clients: map<string, E>, activity: map<E, Activity>, cleanupAt: int)

  /** `Get` reads the clock for the cleanup and again when it hands out the entry; `made` is a new entry if one is needed and can be made. */
  datatype Operation<!E> =
    | Get(key: string, cleanupNow: int, now: int, made: Option<E>)
    | Remove(key: string)
    | Clear
    | Acquire(entry: E)
    | Done(entry: E)

  function ActivityOf<E>(state: State<E>, entry: E): Activity {
    if entry in state.activity then state.activity[entry] else Activity(0, 0)
  }

  predicate Busy<E>(state: State<E>, entry: E) {
    ActivityOf(state, entry).requests > 0
  }

  predicate Retained<E>(state: State<E>, entry: E, now: int, limits: Limits) {
    Busy(state, entry) || (|state.clients| <= limits.capacity && now - ActivityOf(state, entry).at <= limits.idleTimeout)
  }

  function Cleanup<E>(state: State<E>, now: int, limits: Limits): State<E> {
    if now - state.cleanupAt < limits.idleTimeout / 2 then state else
      state.(clients := map key | key in state.clients && Retained(state, state.clients[key], now, limits) :: state.clients[key],
             cleanupAt := now)
  }

  function Touch<E>(state: State<E>, entry: E, now: int): State<E> {
    state.(activity := state.activity[entry := ActivityOf(state, entry).(at := now)])
  }

  function Next<E>(state: State<E>, operation: Operation<E>, limits: Limits): State<E> {
    match operation
    case Get(key, cleanupNow, now, made) =>
      var cleaned := Cleanup(state, cleanupNow, limits);
      if key in cleaned.clients then Touch(cleaned, cleaned.clients[key], now)
      else if made.None? then cleaned
      else cleaned.(clients := cleaned.clients[key := made.value],
                    activity := cleaned.activity[made.value := Activity(0, now)])
    case Remove(key) =>
      if key in state.clients && !Busy(state, state.clients[key]) then state.(clients := state.clients - {key}) else state
    case Clear => state.(clients := map[])
    case Acquire(entry) =>
      state.(activity := state.activity[entry := ActivityOf(state, entry).(requests := ActivityOf(state, entry).requests + 1)])
    case Done(entry) =>
      state.(activity := state.activity[entry := ActivityOf(state, entry).(requests := ActivityOf(state, entry).requests - 1)])
  }

  /** The entry a `Get` hands out. */
  function Answer<E>(state: State<E>, operation: Operation<E>, limits: Limits): Option<E>
    requires operation.Get?
  {
    var cleaned := Cleanup(state, operation.cleanupNow, limits);
    if operation.key in cleaned.clients then Some(cleaned.clients[operation.key]) else operation.made
  }

  /** Whether the factory runs for `key`. */
  predicate Makes<E>(state: State<E>, operation: Operation<E>, key: string, limits: Limits) {
    operation.Get? && operation.key == key && key !in Cleanup(state, operation.cleanupNow, limits).clients
  }

  /** Removing a key drops its entry unless a request is active on it, clearing drops all, and neither does anything else. */
  lemma RemovedAndCleared<E>(state: State<E>, key: string, limits: Limits)
    ensures
      var after := Next(state, Remove(key), limits);
      && (key in after.clients <==> key in state.clients && ActivityOf(state, state.clients[key]).requests > 0)
      && (forall k | k != key :: k in after.clients <==> k in state.clients)
      && (forall k | k in after.clients :: after.clients[k] == state.clients[k])
      && after.activity == state.activity && after.cleanupAt == state.cleanupAt
    ensures
      var after := Next(state, Clear, limits);
      after.clients == map[] && after.activity == state.activity && after.cleanupAt == state.cleanupAt
  {
  }

  // ---------- A client in steady use is made once ----------

  /** The clock never runs backwards. */
  ghost predicate Ordered<E>(operations: seq<Operation<E>>, since: int) {
    operations == [] ||
    if operations[0].Get? then
      since <= operations[0].cleanupNow <= operations[0].now && Ordered(operations[1..], operations[0].now)
    else Ordered(operations[1..], since)
  }

  /** Every `Get` of `key` comes within the idle timeout of the one before. */
  ghost predicate Spaced<E>(operations: seq<Operation<E>>, key: string, last: int, limits: Limits) {
    operations == [] ||
    if operations[0].Get? && operations[0].key == key then
      operations[0].cleanupNow - last <= limits.idleTimeout && Spaced(operations[1..], key, operations[0].now, limits)
    else Spaced(operations[1..], key, last, limits)
  }

  ghost predicate WithinCapacity<E>(state: State<E>, operations: seq<Operation<E>>, limits: Limits)
    decreases |operations|
  {
    operations == [] ||
    (|state.clients| <= limits.capacity && WithinCapacity(Next(state, operations[0], limits), operations[1..], limits))
  }

  ghost predicate NotRemoved<E>(operations: seq<Operation<E>>, key: string) {
    forall o | o in operations :: !o.Clear? && (o.Remove? ==> o.key != key)
  }

  /** New entries are new. */
  ghost predicate Fresh<E>(operations: seq<Operation<E>>, entry: E) {
    forall o | o in operations && o.Get? :: o.made != Some(entry)
  }

  /** Only `key` names `entry`. */
  ghost predicate Holds<E>(state: State<E>, key: string, entry: E) {
    && key in state.clients && state.clients[key] == entry
    && forall k | k in state.clients && state.clients[k] == entry :: k == key
  }

  ghost predicate Uses<E>(operations: seq<Operation<E>>, key: string) {
    exists o :: o in operations && o.Get? && o.key == key
  }

  /** Every `Get` of `key` hands out `entry`, and the factory never runs for `key` again. */
  ghost predicate AlwaysAnswers<E>(state: State<E>, operations: seq<Operation<E>>, key: string, entry: E, limits: Limits)
    decreases |operations|
  {
    operations == [] ||
    (&& (operations[0].Get? && operations[0].key == key ==> Answer(state, operations[0], limits) == Some(entry))
     && !Makes(state, operations[0], key, limits)
     && AlwaysAnswers(Next(state, operations[0], limits), operations[1..], key, entry, limits))
  }

  lemma {:induction false} NextUseIsSoon<E>(operations: seq<Operation<E>>, key: string, since: int, last: int, limits: Limits)
    requires Ordered(operations, since) && Spaced(operations, key, last, limits) && Uses(operations, key)
    ensures since - last <= limits.idleTimeout
  {
    if operations[0].Get? && operations[0].key == key {
    } else {
      var o :| o in operations && o.Get? && o.key == key;
      assert o in operations[1..];
      NextUseIsSoon(operations[1..], key, if operations[0].Get? then operations[0].now else since, last, limits);
    }
  }

  /** A step that is soon enough keeps the entry under its key. */
  lemma StepHolds<E>(state: State<E>, operation: Operation<E>, key: string, entry: E, last: int, limits: Limits)
    requires Holds(state, key, entry) && ActivityOf(state, entry).at == last
    requires |state.clients| <= limits.capacity
    requires !operation.Clear? && (operation.Remove? ==> operation.key != key)
    requires operation.Get? ==> operation.made != Some(entry) && operation.cleanupNow - last <= limits.idleTimeout
    ensures
      var after := Next(state, operation, limits);
      && Holds(after, key, entry)
      && ActivityOf(after, entry).at == if operation.Get? && operation.key == key then operation.now else last
    ensures operation.Get? && operation.key == key ==> Answer(state, operation, limits) == Some(entry)
    ensures !Makes(state, operation, key, limits)
  {
    if operation.Get? {
      assert Retained(state, entry, operation.cleanupNow, limits);
    }
  }

  /**
   While the pool stays within capacity and the key is neither removed nor cleared, uses of
   the key within the idle timeout of each other all get the same entry, whatever happens
   on the other keys in between.
   */
  lemma {:induction false} SteadyUseKeepsTheClient<E>(
      state: State<E>, operations: seq<Operation<E>>, key: string, entry: E, since: int, limits: Limits)
    requires Holds(state, key, entry)
    requires Ordered(operations, since)
    requires Spaced(operations, key, ActivityOf(state, entry).at, limits)
    requires WithinCapacity(state, operations, limits)
    requires NotRemoved(operations, key) && Fresh(operations, entry)
    ensures AlwaysAnswers(state, operations, key, entry, limits)
    decreases |operations|
  {
    if operations == [] {
    } else if Uses(operations, key) {
      var first, rest, last := operations[0], operations[1..], ActivityOf(state, entry).at;
      assert first in operations && forall o | o in rest :: o in operations;
      if first.Get? && first.key != key {
        assert Uses(rest, key) by {
          var o :| o in operations && o.Get? && o.key == key;
          assert o in rest;
        }
        NextUseIsSoon(rest, key, first.now, last, limits);
      }
      StepHolds(state, first, key, entry, last, limits);
      SteadyUseKeepsTheClient(Next(state, first, limits), rest, key, entry, if first.Get? then first.now else since, limits);
    } else {
      UnusedIsAnswered(state, operations, key, entry, limits);
    }
  }

  /** So the first use makes the client and no later one does. */
  lemma FactoryRunsOnce<E>(state: State<E>, operations: seq<Operation<E>>, key: string, entry: E, limits: Limits)
    requires operations != [] && operations[0].Get? && operations[0].key == key && operations[0].made == Some(entry)
    requires Makes(state, operations[0], key, limits) && (forall k | k in state.clients :: state.clients[k] != entry)
    requires Ordered(operations, operations[0].cleanupNow)
    requires Spaced(operations[1..], key, operations[0].now, limits)
    requires WithinCapacity(state, operations, limits)
    requires NotRemoved(operations, key) && Fresh(operations[1..], entry)
    ensures Answer(state, operations[0], limits) == Some(entry)
    ensures AlwaysAnswers(Next(state, operations[0], limits), operations[1..], key, entry, limits)
  {
    assert forall o | o in operations[1..] :: o in operations;
    SteadyUseKeepsTheClient(Next(state, operations[0], limits), operations[1..], key, entry, operations[0].now, limits);
  }

  lemma {:induction false} UnusedIsAnswered<E>(state: State<E>, operations: seq<Operation<E>>, key: string, entry: E, limits: Limits)
    requires !Uses(operations, key)
    ensures AlwaysAnswers(state, operations, key, entry, limits)
    decreases |operations|
  {
    if operations != [] {
      assert operations[0] in operations && forall o | o in operations[1..] :: o in operations;
      UnusedIsAnswered(Next(state, operations[0], limits), operations[1..], key, entry, limits);
    }
  }

  // ---------- Clients out of use go ----------

  /** No request is active on the entry, and at the last cleanup it was not past the idle timeout. */
  ghost predicate Idle<E>(state: State<E>, entry: E, limits: Limits) {
    && !Busy(state, entry)
    && forall key | key in state.clients && state.clients[key] == entry ::
         state.cleanupAt - ActivityOf(state, entry).at <= limits.idleTimeout
  }

  /** After every `Get`, the entry has gone or was handed out within one and a half idle timeouts. */
  ghost predicate NeverStale<E>(state: State<E>, operations: seq<Operation<E>>, entry: E, limits: Limits)
    decreases |operations|
  {
    operations == [] ||
    var after := Next(state, operations[0], limits);
    && (operations[0].Get? ==>
          forall key | key in after.clients && after.clients[key] == entry ::
            operations[0].cleanupNow - ActivityOf(after, entry).at <= limits.idleTimeout + limits.idleTimeout / 2)
    && NeverStale(after, operations[1..], entry, limits)
  }

  /** An entry no request is active on does not outlive its last use by more than one and a half idle timeouts and a `Get`. */
  lemma {:induction false} IdleClientsAreDropped<E>(state: State<E>, operations: seq<Operation<E>>, entry: E, since: int, limits: Limits)
    requires Ordered(operations, since) && state.cleanupAt <= since
    requires Acquire(entry) !in operations
    requires Idle(state, entry, limits)
    ensures NeverStale(state, operations, entry, limits)
    decreases |operations|
  {
    if operations != [] {
      var first, rest, after := operations[0], operations[1..], Next(state, operations[0], limits);
      assert first in operations && forall o | o in rest :: o in operations;
      assert Idle(after, entry, limits) by {
        StepIdle(state, first, entry, since, limits);
      }
      IdleClientsAreDropped(after, rest, entry, if first.Get? then first.now else since, limits);
    }
  }

  lemma StepIdle<E>(state: State<E>, operation: Operation<E>, entry: E, since: int, limits: Limits)
    requires operation.Get? ==> since <= operation.cleanupNow <= operation.now
    requires state.cleanupAt <= since && operation != Acquire(entry) && Idle(state, entry, limits)
    ensures Idle(Next(state, operation, limits), entry, limits)
  {
  }

  /** A cleanup of an overfull pool leaves only busy clients and the one asked for. */
  lemma OverfullPoolIsEmptied<E>(state: State<E>, operation: Operation<E>, limits: Limits)
    requires operation.Get? && operation.cleanupNow - state.cleanupAt >= limits.idleTimeout / 2
    requires |state.clients| > limits.capacity
    ensures
      var after := Next(state, operation, limits);
      forall key | key in after.clients && key != operation.key ::
        key in state.clients && after.clients[key] == state.clients[key] && Busy(state, state.clients[key])
  {
  }

  // ---------- Requests in flight keep their client ----------

  function Run<E>(state: State<E>, operations: seq<Operation<E>>, limits: Limits): State<E> {
    if operations == [] then state else
      Next(Run(state, operations[..|operations| - 1], limits), operations[|operations| - 1], limits)
  }

  /** The guards of `entry` taken and not yet done. */
  function Outstanding<E(==)>(operations: seq<Operation<E>>, entry: E): int {
    if operations == [] then 0 else
      var before := Outstanding(operations[..|operations| - 1], entry);
      match operations[|operations| - 1]
      case Acquire(e) => if e == entry then before + 1 else before
      case Done(e) => if e == entry then before - 1 else before
      case _ => before
  }

  lemma {:induction false} RequestsAreOutstanding<E>(state: State<E>, operations: seq<Operation<E>>, entry: E, limits: Limits)
    requires Fresh(operations, entry)
    ensures
      ActivityOf(Run(state, operations, limits), entry).requests == ActivityOf(state, entry).requests + Outstanding(operations, entry)
  {
    if operations != [] {
      var before, last := operations[..|operations| - 1], operations[|operations| - 1];
      assert last in operations && forall o | o in before :: o in operations;
      RequestsAreOutstanding(state, before, entry, limits);
    }
  }

  /** While an entry has a guard outstanding at every point of a run without `Clear`, its key keeps it. */
  lemma {:induction false} BusyClientsStay<E>(state: State<E>, operations: seq<Operation<E>>, key: string, entry: E, limits: Limits)
    requires key in state.clients && state.clients[key] == entry && ActivityOf(state, entry).requests == 0
    requires Fresh(operations, entry)
    requires forall o | o in operations :: !o.Clear?
    requires operations != [] ==> operations[0] == Acquire(entry)
    requires forall i | 0 < i <= |operations| :: Outstanding(operations[..i], entry) > 0
    ensures key in Run(state, operations, limits).clients && Run(state, operations, limits).clients[key] == entry
  {
    if operations != [] {
      var before, last := operations[..|operations| - 1], operations[|operations| - 1];
      assert last in operations && forall o | o in before :: o in operations;
      forall i | 0 < i <= |before| ensures Outstanding(before[..i], entry) > 0 {
        assert before[..i] == operations[..i];
      }
      BusyClientsStay(state, before, key, entry, limits);
      RequestsAreOutstanding(state, before, entry, limits);
      if before != [] {
        assert before[..|before|] == before;
      }
    }
  }
}
