/**
 The attempts of the Go client, each under a context of its own: a failed attempt cancels
 its context, and the one of the successful attempt is handed to the caller.
 */
module AttemptContexts {
  import opened Results
  import opened Retry

  /**
   Why the attempts can stop: `response(i, endpoint)` ends attempt `i`, and `done(i)` tells
   whether the caller's context is over, and how, once attempt `i` has failed.
   */
  method RunWithEndpoints<R>(
      maxRetries: nat, endpoints: seq<string>,
      response: (nat, string) -> Result<R, Error>, done: nat -> Option<Error>)
    returns (result: Result<(R, nat), Error>, created: nat, live: set<nat>, ghost order: seq<string>)
    ensures multiset(order) == multiset(endpoints) && |order| == |endpoints|
    ensures endpoints == [] ==> result == Err(InvalidArgument) && created == 0
    ensures live == if result.Ok? then {result.value.1} else {}
    ensures result.Ok? ==> result.value.1 < created
    ensures endpoints != [] ==>
              && 1 <= created <= maxRetries + 1
              && (forall i: nat | i < created - 1 :: Transient(response(i, order[i % |order|])) && done(i).None?)
              && (match response(created - 1, order[(created - 1) % |order|])
                  case Ok(r) => result == Ok((r, created - 1))
                  case Err(error) =>
                    if IsRetryable(error) && created <= maxRetries
                    then done(created - 1).Some? && result == Err(done(created - 1).value)
                    else result == Err(error))
  {
    live, created := {}, 0;
    if endpoints == [] {
      return Err(InvalidArgument), 0, {}, [];
    }
    var shuffled := new string[|endpoints|](i requires 0 <= i < |endpoints| => endpoints[i]);
    assert shuffled[..] == endpoints;
    ShuffleInPlace(shuffled);
    order := shuffled[..];
    assert order[..] == order;
    while true
      invariant 0 <= created <= maxRetries
      invariant shuffled[..] == order && |order| == |endpoints|
      invariant live == {}
      invariant forall i: nat | i < created :: Transient(response(i, order[i % |order|])) && done(i).None?
      decreases maxRetries - created
    {
      var endpoint := shuffled[created % shuffled.Length];
      assert endpoint == order[created % |order|];
      var context := created;
      live, created := live + {context}, created + 1;
      var answer := response(context, endpoint);
      if answer.Ok? {
        return Ok((answer.value, context)), created, live, order;
      }
      live := live - {context};
      if !IsRetryable(answer.error) || created > maxRetries {
        return Err(answer.error), created, live, order;
      }
      if done(context).Some? {
        return Err(done(context).value), created, live, order;
      }
    }
  }
}
