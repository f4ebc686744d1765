/**
 Answers of a proxy recorded in two steps, a look under the read lock and a delete under
 the write lock, interleaved with failures recorded in one.
 */
module ConcurrentAnswers {
  import opened Ejections

  /** `looked` holds the calls that found an entry and are about to delete it. */
  datatype State = State(table: Table, looked: map<nat, string>)

  datatype Action = Failure(endpoint: string, at: nat) | Look(call: nat, endpoint: string) | Delete(call: nat)

  function Next(state: State, action: Action): State {
    match action
    case Failure(endpoint, at) => state.(table := Step(state.table, Failed(endpoint, at)))
    case Look(call, endpoint) =>
      if endpoint in state.table then state.(looked := state.looked[call := endpoint]) else state
    case Delete(call) =>
      if call in state.looked then State(state.table - {state.looked[call]}, state.looked - {call}) else state
  }

  /** What is recorded by the call that returns with this step, if one does. */
  function Returning(state: State, action: Action): seq<Event> {
    match action
    case Failure(endpoint, at) => [Failed(endpoint, at)]
    case Look(call, endpoint) => if endpoint in state.table then [] else [Answered(endpoint)]
    case Delete(call) => if call in state.looked then [Answered(state.looked[call])] else []
  }

  const INITIAL := State(map[], map[])

  function Run(actions: seq<Action>): State {
    if actions == [] then INITIAL else Next(Run(actions[..|actions| - 1]), actions[|actions| - 1])
  }

  /** What the calls record, in the order they return. */
  function Returned(actions: seq<Action>): seq<Event> {
    if actions == [] then [] else
      var before := actions[..|actions| - 1];
      Returned(before) + Returning(Run(before), actions[|actions| - 1])
  }

  /** A returning call has just stepped the table; the others leave it. */
  lemma StepRefines(state: State, action: Action)
    ensures |Returning(state, action)| <= 1
    ensures Next(state, action).table ==
            if Returning(state, action) == [] then state.table else Step(state.table, Returning(state, action)[0])
  {
    if action.Look? && action.endpoint !in state.table {
      assert state.table - {action.endpoint} == state.table;
    }
  }

  /** A call that found an entry deletes it once, and one that found none returns at once. */
  lemma CallsProgress(state: State, action: Action)
    ensures
      var after := Next(state, action);
      match action
      case Failure(_, _) => after.looked == state.looked
      case Look(call, endpoint) =>
        after.table == state.table && after.looked == if endpoint in state.table then state.looked[call := endpoint] else state.looked
      case Delete(call) =>
        && call !in after.looked && (call in state.looked ==> state.looked[call] !in after.table)
        && forall c | c in state.looked && c != call :: c in after.looked && after.looked[c] == state.looked[c]
  {
  }

  /** However the steps interleave, the table is that of the calls one at a time in the order they return. */
  lemma {:induction false} AnswersAreAtomic(actions: seq<Action>)
    ensures Run(actions).table == Replay(Returned(actions))
  {
    if actions != [] {
      var before, last := actions[..|actions| - 1], actions[|actions| - 1];
      AnswersAreAtomic(before);
      StepRefines(Run(before), last);
      ReplayAppend(Returned(before), Returning(Run(before), last));
    }
  }

  lemma ReplayAppend(history: seq<Event>, last: seq<Event>)
    requires |last| <= 1
    ensures Replay(history + last) == if last == [] then Replay(history) else Step(Replay(history), last[0])
  {
    if last == [] {
      assert history + last == history;
    } else {
      assert last == [last[0]];
      ReplayStep(history, last[0]);
    }
  }

  /** So a proxy is ejected exactly as the failures and answers, in the order they return, say. */
  lemma {:induction false} EjectedByReturnOrder(actions: seq<Action>, endpoint: string, now: nat)
    ensures
      var streak := Streak(Returned(actions), endpoint);
      IsEjected(Run(actions).table, endpoint, now) <==> |streak| >= 5 && now < LastOfFives(streak) + 30_000_000_000
  {
    AnswersAreAtomic(actions);
    EjectedFromHistory(Run(actions).table, Returned(actions), endpoint, now);
  }
}
