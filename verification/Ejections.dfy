/**
 The ejection of seed peer proxies: a proxy that refuses five connections in a row is
 ejected for a cooldown. The table keeps a small counter for each proxy; the laws below
 say that the counter answers as the full history of failures and answers would.
 */
module Ejections {
  import opened Results

  const MAX_FAILED_COUNT: nat := 5

  /** Thirty seconds, in nanoseconds. */
  const EJECTION_COOLDOWN: nat := 30_000_000_000

  datatype Ejection = Ejection(failedCount: nat, ejectedAt: Option<nat>)

  type Table = map<string, Ejection>

  /** What the proxies do, with the time of each failure to connect. */
  datatype Event = Failed(endpoint: string, at: nat) | Answered(endpoint: string)

  const FRESH := Ejection(0, None)

  function CountFailure(ejection: Ejection, at: nat): Ejection {
    var failedCount := ejection.failedCount + 1;
    if failedCount >= MAX_FAILED_COUNT then Ejection(0, Some(at)) else ejection.(failedCount := failedCount)
  }

  function Step(table: Table, event: Event): Table {
    match event
    case Failed(endpoint, at) =>
      table[endpoint := CountFailure(if endpoint in table then table[endpoint] else FRESH, at)]
    case Answered(endpoint) => table - {endpoint}
  }

  function Replay(history: seq<Event>): Table {
    if history == [] then map[] else Step(Replay(history[..|history| - 1]), history[|history| - 1])
  }

  lemma ReplayStep(history: seq<Event>, event: Event)
    ensures Replay(history + [event]) == Step(Replay(history), event)
  {
    assert (history + [event])[..|history + [event]| - 1] == history;
  }

  /** The time since `at`, zero when `at` is still to come. */
  function Elapsed(now: nat, at: nat): nat {
    if now < at then 0 else now - at
  }

  predicate IsEjected(table: Table, endpoint: string, now: nat) {
    && endpoint in table
    && table[endpoint].ejectedAt.Some?
    && Elapsed(now, table[endpoint].ejectedAt.value) < EJECTION_COOLDOWN
  }

  /** The times of the failures of `endpoint` since it last answered. */
  function Streak(history: seq<Event>, endpoint: string): seq<nat> {
    if history == [] then [] else
      var before := Streak(history[..|history| - 1], endpoint);
      match history[|history| - 1]
      case Failed(e, at) => if e == endpoint then before + [at] else before
      case Answered(e) => if e == endpoint then [] else before
  }

  /** The entry the table must hold after the failures `streak` in a row. */
  ghost predicate Summarizes(table: Table, endpoint: string, streak: seq<nat>) {
    && (endpoint in table <==> streak != [])
    && (endpoint in table ==>
          && table[endpoint].failedCount == |streak| % MAX_FAILED_COUNT
          && table[endpoint].ejectedAt ==
             if |streak| < MAX_FAILED_COUNT then None
             else Some(streak[MAX_FAILED_COUNT * (|streak| / MAX_FAILED_COUNT) - 1]))
  }

  /** After any history, the table summarizes every endpoint's failures since its last answer. */
  lemma {:induction false} ReplaySummarizes(history: seq<Event>, endpoint: string)
    ensures Summarizes(Replay(history), endpoint, Streak(history, endpoint))
  {
    if history != [] {
      ReplaySummarizes(history[..|history| - 1], endpoint);
    }
  }

  /** A proxy is ejected exactly until thirty seconds after its last completed group of five failures in a row. */
  lemma EjectedExactly(history: seq<Event>, endpoint: string, now: nat)
    ensures
      var streak := Streak(history, endpoint);
      IsEjected(Replay(history), endpoint, now) <==>
      |streak| >= 5 && now < streak[5 * (|streak| / 5) - 1] + 30_000_000_000
  {
    ReplaySummarizes(history, endpoint);
  }

  /** The last of the completed groups of five. */
  function LastOfFives(streak: seq<nat>): nat
    requires |streak| >= 5
  {
    streak[5 * (|streak| / 5) - 1]
  }

  lemma EjectedFromHistory(table: Table, history: seq<Event>, endpoint: string, now: nat)
    requires table == Replay(history)
    ensures
      var streak := Streak(history, endpoint);
      IsEjected(table, endpoint, now) <==> |streak| >= 5 && now < LastOfFives(streak) + 30_000_000_000
  {
    EjectedExactly(history, endpoint, now);
  }

  function Failures(endpoint: string, times: seq<nat>): seq<Event> {
    seq(|times|, i requires 0 <= i < |times| => Failed(endpoint, times[i]))
  }

  /** Failures after an answer, or from the start, make up the streak: all of them, in order, and nothing before the answer. */
  lemma {:induction false} StreakMeans(before: seq<Event>, endpoint: string, times: seq<nat>)
    ensures Streak(Failures(endpoint, times), endpoint) == times
    ensures Streak(before + [Answered(endpoint)] + Failures(endpoint, times), endpoint) == times
  {
    var front := before + [Answered(endpoint)];
    if times == [] {
      assert front + Failures(endpoint, times) == front;
    } else {
      var n := |times| - 1;
      StreakMeans(before, endpoint, times[..n]);
      assert Failures(endpoint, times) == Failures(endpoint, times[..n]) + [Failed(endpoint, times[n])];
      StreakGrows(Failures(endpoint, times[..n]), endpoint, times[n]);
      StreakGrows(front + Failures(endpoint, times[..n]), endpoint, times[n]);
      assert front + Failures(endpoint, times) == front + Failures(endpoint, times[..n]) + [Failed(endpoint, times[n])];
      assert times == times[..n] + [times[n]];
    }
  }

  lemma StreakGrows(history: seq<Event>, endpoint: string, at: nat)
    ensures Streak(history + [Failed(endpoint, at)], endpoint) == Streak(history, endpoint) + [at]
  {
    var more := history + [Failed(endpoint, at)];
    assert more[..|more| - 1] == history;
  }

  /** The events of one proxy alone. */
  function Of(history: seq<Event>, endpoint: string): seq<Event> {
    if history == [] then [] else
      var before := Of(history[..|history| - 1], endpoint);
      var last := history[|history| - 1];
      if last.endpoint == endpoint then before + [last] else before
  }

  /** What one proxy does never changes whether another is ejected. */
  lemma {:induction false} EndpointsAreIndependent(history: seq<Event>, endpoint: string, now: nat)
    ensures Streak(Of(history, endpoint), endpoint) == Streak(history, endpoint)
    ensures IsEjected(Replay(Of(history, endpoint)), endpoint, now) <==> IsEjected(Replay(history), endpoint, now)
  {
    if history != [] {
      EndpointsAreIndependent(history[..|history| - 1], endpoint, now);
    }
    EjectedExactly(history, endpoint, now);
    EjectedExactly(Of(history, endpoint), endpoint, now);
  }
}
