/**
 Retries of a request: attempts until one succeeds, fails definitively or the retries run
 out, each aimed at the next endpoint of an order shuffled once.
 */
module Retry {
  import opened Results
  import opened Sequences

  datatype Error =
    | RequestTimeout
    | Internal
    | InvalidArgument
    | Answered(transient: bool)

  /** Whether another attempt is worthwhile. */
  predicate IsRetryable(error: Error) {
    match error
    case RequestTimeout | Internal => true
    case InvalidArgument => false
    case Answered(transient) => transient
  }

  predicate Transient<T>(result: Result<T, Error>) {
    result.Err? && IsRetryable(result.error)
  }

  /** Attempts go on after these outcomes and no others. */
  lemma TransientMeans<T>(result: Result<T, Error>)
    ensures Transient(result) <==> result == Err(RequestTimeout) || result == Err(Internal) || result == Err(Answered(true))
  {
  }

  // ---------- One fixed target ----------

  /** The attempts end with attempt `last`, counted from zero: the first that is not transient, or the last allowed. */
  ghost predicate EndsWith<T>(outcome: nat -> Result<T, Error>, maxRetries: nat, last: nat) {
    && last <= maxRetries
    && (forall i: nat | i < last :: Transient(outcome(i)))
    && (last == maxRetries || !Transient(outcome(last)))
  }

  /** Runs the attempts, whose outcomes are `outcome`. */
  method Run<T>(maxRetries: nat, outcome: nat -> Result<T, Error>) returns (result: Result<T, Error>, attempts: nat)
    ensures attempts >= 1 && EndsWith(outcome, maxRetries, attempts - 1)
    ensures result == outcome(attempts - 1)
  {
    var delays := maxRetries;
    attempts := 0;
    while true
      invariant attempts + delays == maxRetries
      invariant forall i: nat | i < attempts :: Transient(outcome(i))
      decreases delays
    {
      result := outcome(attempts);
      attempts := attempts + 1;
      if result.Ok? || !IsRetryable(result.error) || delays == 0 {
        return;
      }
      delays := delays - 1;
    }
  }

  // ---------- A shuffled order of endpoints ----------

  method ShuffleInPlace<T>(a: array<T>)
    modifies a
    ensures multiset(a[..]) == multiset(old(a[..]))
  {
    var i := a.Length;
    while i > 1
      invariant 0 <= i <= a.Length
      invariant multiset(a[..]) == multiset(old(a[..]))
    {
      i := i - 1;
      var j :| 0 <= j <= i;
      a[i], a[j] := a[j], a[i];
    }
  }

  /** The context attempt `i`, counted from zero, is given: the one the attempt before handed on. */
  function Before<Ctx, T>(attempt: (nat, Ctx, string) -> (Ctx, Result<T, Error>), order: seq<string>, ctx: Ctx, i: nat): Ctx
    requires order != []
  {
    if i == 0 then ctx else attempt(i - 1, Before(attempt, order, ctx, i - 1), order[(i - 1) % |order|]).0
  }

  /** The context and the outcome after attempt `i`. */
  function After<Ctx, T>(attempt: (nat, Ctx, string) -> (Ctx, Result<T, Error>), order: seq<string>, ctx: Ctx, i: nat)
    : (Ctx, Result<T, Error>)
    requires order != []
  {
    attempt(i, Before(attempt, order, ctx, i), order[i % |order|])
  }

  /** The first attempt gets the context given, each later one what the one before handed on, and the endpoints rotate. */
  lemma ContextIsThreaded<Ctx, T>(attempt: (nat, Ctx, string) -> (Ctx, Result<T, Error>), order: seq<string>, ctx: Ctx, i: nat)
    requires order != []
    ensures After(attempt, order, ctx, 0) == attempt(0, ctx, order[0])
    ensures After(attempt, order, ctx, i + 1) == attempt(i + 1, After(attempt, order, ctx, i).0, order[(i + 1) % |order|])
  {
  }

  /** The attempts end with attempt `last`: the first that is not transient, or the last allowed. */
  ghost predicate EndsAfter<Ctx, T>(
      attempt: (nat, Ctx, string) -> (Ctx, Result<T, Error>), order: seq<string>, ctx: Ctx, maxRetries: nat, last: nat)
    requires order != []
  {
    && last <= maxRetries
    && (forall i: nat | i < last :: Transient(After(attempt, order, ctx, i).1))
    && (last == maxRetries || !Transient(After(attempt, order, ctx, last).1))
  }

  /** The endpoints are taken in turn, starting over after the last. */
  ghost predicate TakesTurns(aimed: seq<string>, order: seq<string>)
    requires order != []
  {
    forall i | 0 <= i < |aimed| :: aimed[i] == order[i % |order|]
  }

  method RunWithEndpoints<Ctx, T>(
      maxRetries: nat, endpoints: seq<string>, ctx: Ctx, attempt: (nat, Ctx, string) -> (Ctx, Result<T, Error>))
    returns (last: Ctx, result: Result<T, Error>, aimed: seq<string>, ghost order: seq<string>)
    ensures multiset(order) == multiset(endpoints) && |order| == |endpoints|
    ensures endpoints == [] ==> last == ctx && result == Err(InvalidArgument) && aimed == []
    ensures endpoints != [] ==>
              && order != [] && aimed != []
              && EndsAfter(attempt, order, ctx, maxRetries, |aimed| - 1)
              && (last, result) == After(attempt, order, ctx, |aimed| - 1)
              && TakesTurns(aimed, order)
  {
    if endpoints == [] {
      return ctx, Err(InvalidArgument), [], [];
    }
    var shuffled := new string[|endpoints|](i requires 0 <= i < |endpoints| => endpoints[i]);
    assert shuffled[..] == endpoints;
    ShuffleInPlace(shuffled);
    order := shuffled[..];
    assert order[..] == order;

    var attempts, delays := 0, maxRetries;
    last, aimed := ctx, [];
    while true
      invariant attempts + delays == maxRetries && delays >= 0
      invariant shuffled[..] == order
      invariant |aimed| == attempts && TakesTurns(aimed, order)
      invariant last == Before(attempt, order, ctx, attempts)
      invariant forall i: nat | i < attempts :: Transient(After(attempt, order, ctx, i).1)
      decreases delays
    {
      var endpoint := shuffled[attempts % shuffled.Length];
      var outcome := attempt(attempts, last, endpoint);
      assert outcome == After(attempt, order, ctx, attempts) by {
        assert endpoint == order[attempts % |order|];
      }
      last, result := outcome.0, outcome.1;
      attempts, aimed := attempts + 1, aimed + [endpoint];
      if result.Ok? || !IsRetryable(result.error) || delays == 0 {
        return;
      }
      delays := delays - 1;
    }
  }

  // ---------- The rotation is fair ----------

  /** How many of the first `attempts` attempts go to position `p` of `n`. */
  function Visits(n: nat, attempts: nat, p: nat): nat
    requires n > 0
  {
    if attempts == 0 then 0 else Visits(n, attempts - 1, p) + (if (attempts - 1) % n == p then 1 else 0)
  }

  lemma DivModStep(a: nat, n: nat)
    requires n > 0
    ensures a % n == n - 1 ==> (a + 1) / n == a / n + 1 && (a + 1) % n == 0
    ensures a % n < n - 1 ==> (a + 1) / n == a / n && (a + 1) % n == a % n + 1
  {
    var q, r := a / n, a % n;
    assert a + 1 == n * q + (r + 1);
    if r == n - 1 {
      assert a + 1 == n * (q + 1);
      DivModUnique(a + 1, n, q + 1, 0);
    } else {
      DivModUnique(a + 1, n, q, r + 1);
    }
  }

  lemma DivModUnique(a: nat, n: nat, q: nat, r: nat)
    requires n > 0 && r < n && a == n * q + r
    ensures a / n == q && a % n == r
  {
    var d: int := a / n - q;
    assert n * d == r - a % n;
    assert d >= 1 ==> n * d >= n;
    assert d <= -1 ==> n * d + n <= 0;
  }

  /** Every position has been visited once a round, and the first ones once more. */
  lemma {:induction false} VisitsOfRounds(n: nat, attempts: nat, p: nat)
    requires n > 0 && p < n
    ensures Visits(n, attempts, p) == attempts / n + (if p < attempts % n then 1 else 0)
  {
    if attempts > 0 {
      VisitsOfRounds(n, attempts - 1, p);
      DivModStep(attempts - 1, n);
    } else {
      DivModUnique(0, n, 0, 0);
    }
  }

  /** In a run over distinct endpoints, the attempts at an endpoint are the visits of its position. */
  lemma {:induction false} VisitsOfRun(aimed: seq<string>, order: seq<string>, p: nat)
    requires order != [] && TakesTurns(aimed, order) && Distinct(order) && p < |order|
    ensures multiset(aimed)[order[p]] == Visits(|order|, |aimed|, p)
  {
    if aimed != [] {
      var n := |aimed| - 1;
      VisitsOfRun(aimed[..n], order, p);
      assert aimed == aimed[..n] + [order[n % |order|]];
    }
  }

  /** In a run, an endpoint is tried again only when every endpoint has been tried as often. */
  lemma RotationIsFair(aimed: seq<string>, order: seq<string>, i: nat, p: nat)
    requires order != [] && TakesTurns(aimed, order) && Distinct(order)
    requires i < |aimed| && p < |order|
    ensures
      var before := multiset(aimed[..i]);
      before[aimed[i]] <= before[order[p]] <= before[aimed[i]] + 1
  {
    var n := |order|;
    VisitsOfRun(aimed[..i], order, p);
    VisitsOfRun(aimed[..i], order, i % n);
    VisitsOfRounds(n, i, p);
    VisitsOfRounds(n, i, i % n);
  }

  /** The endpoints of a run round by round, the last round cut short. */
  function Rounds(order: seq<string>, attempts: nat): seq<string>
    requires order != []
  {
    if attempts < |order| then order[..attempts] else order + Rounds(order, attempts - |order|)
  }

  /** Taking turns is going round by round. */
  lemma {:induction false} TurnsAreRounds(aimed: seq<string>, order: seq<string>)
    requires order != [] && TakesTurns(aimed, order)
    ensures aimed == Rounds(order, |aimed|)
    decreases |aimed|
  {
    var n := |order|;
    forall i | 0 <= i < |aimed| && i < n ensures aimed[i] == order[i] {
      DivModUnique(i, n, 0, i);
    }
    if |aimed| < n {
      assert aimed == order[..|aimed|];
    } else {
      forall i | 0 <= i < |aimed| - n ensures aimed[i + n] == order[i % n] {
        ShiftRound(i, n);
      }
      assert aimed == order + aimed[n..];
      TurnsAreRounds(aimed[n..], order);
    }
  }

  function FullRounds(n: nat, attempts: nat): nat
    requires n > 0
  {
    if attempts < n then 0 else 1 + FullRounds(n, attempts - n)
  }

  lemma {:induction false} FullRoundsDivide(n: nat, attempts: nat)
    requires n > 0
    ensures FullRounds(n, attempts) == attempts / n
  {
    if attempts < n {
      DivModUnique(attempts, n, 0, attempts);
    } else {
      FullRoundsDivide(n, attempts - n);
      ShiftRound(attempts - n, n);
    }
  }

  lemma {:induction false} RoundsCount(order: seq<string>, attempts: nat, endpoint: string)
    requires order != []
    ensures
      var listed, rounds := multiset(order)[endpoint], FullRounds(|order|, attempts);
      Times(listed, rounds) <= multiset(Rounds(order, attempts))[endpoint] <= Times(listed, rounds) + listed
  {
    if attempts < |order| {
      assert order == order[..attempts] + order[attempts..];
    } else {
      RoundsCount(order, attempts - |order|, endpoint);
    }
  }

  function Times(n: nat, times: nat): nat {
    if times == 0 then 0 else n + Times(n, times - 1)
  }

  lemma {:induction false} TimesIsProduct(n: nat, times: nat)
    ensures Times(n, times) == n * times
  {
    if times > 0 {
      TimesIsProduct(n, times - 1);
      assert n * times == n * (times - 1) + n;
    }
  }

  /** Whether or not endpoints repeat, every full round of a run tries each as often as it is listed. */
  lemma RoundsOfRun(aimed: seq<string>, order: seq<string>, endpoint: string)
    requires order != [] && TakesTurns(aimed, order)
    ensures
      var listed, rounds := multiset(order)[endpoint], |aimed| / |order|;
      listed * rounds <= multiset(aimed)[endpoint] <= listed * rounds + listed
  {
    TurnsAreRounds(aimed, order);
    RoundsCount(order, |aimed|, endpoint);
    FullRoundsDivide(|order|, |aimed|);
    TimesIsProduct(multiset(order)[endpoint], |aimed| / |order|);
  }

  lemma ShiftRound(i: nat, n: nat)
    requires n > 0
    ensures (i + n) / n == i / n + 1 && (i + n) % n == i % n
  {
    DivModUnique(i + n, n, i / n + 1, i % n);
  }
}
