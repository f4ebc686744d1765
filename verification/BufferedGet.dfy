/**
 A download appended to the caller's buffer. The buffer is taken while the attempts run and
 handed from each to the next, and an attempt that breaks off rolls its bytes back.
 */
module BufferedGet {
  import opened Results
  import opened Retry

  type Body = seq<int>

  /** What one attempt meets: no response, or the chunks of a body that ends or breaks off. */
  datatype Exchange =
    | Unsent(error: Error)
    | Complete(chunks: seq<Body>)
    | BrokenOff(chunks: seq<Body>, timeout: bool)

  function Concat(chunks: seq<Body>): Body {
    if chunks == [] then [] else Concat(chunks[..|chunks| - 1]) + chunks[|chunks| - 1]
  }

  /** A body is its chunks, all of them, in order. */
  lemma {:induction false} ConcatKeepsChunks(a: seq<Body>, chunk: Body, b: seq<Body>)
    ensures Concat([]) == [] && Concat([chunk]) == chunk
    ensures Concat(a + b) == Concat(a) + Concat(b)
  {
    assert Concat([chunk]) == Concat([]) + chunk;
    if b == [] {
      assert a + b == a;
    } else {
      var init, last := b[..|b| - 1], b[|b| - 1];
      assert (a + b)[..|a + b| - 1] == a + init;
      ConcatKeepsChunks(a, chunk, init);
    }
  }

  /** An attempt appends the whole body or leaves the buffer. */
  function Attempted(body: Body, exchange: Exchange): (Body, Result<(), Error>) {
    match exchange
    case Unsent(error) => (body, Err(error))
    case Complete(chunks) => (body + Concat(chunks), Ok(()))
    case BrokenOff(_, timeout) => (body, Err(if timeout then RequestTimeout else Internal))
  }

  /** One attempt, chunk by chunk. */
  method Attempt(taken: Body, exchange: Exchange) returns (body: Body, result: Result<(), Error>)
    ensures (body, result) == Attempted(taken, exchange)
  {
    body := taken;
    if exchange.Unsent? {
      return body, Err(exchange.error);
    }
    var len := |body|;
    for i := 0 to |exchange.chunks|
      invariant body == taken + Concat(exchange.chunks[..i])
    {
      assert exchange.chunks[..i + 1][..i] == exchange.chunks[..i];
      body := body + exchange.chunks[i];
    }
    assert exchange.chunks[..|exchange.chunks|] == exchange.chunks;
    if exchange.BrokenOff? {
      body := body[..len];
      return body, Err(if exchange.timeout then RequestTimeout else Internal);
    }
    result := Ok(());
  }

  /** The attempts of a download whose `i`th exchange with an endpoint is `meets(i, endpoint)`. */
  function Attempts(meets: (nat, string) -> Exchange): (nat, Body, string) -> (Body, Result<(), Error>) {
    (i: nat, body: Body, endpoint: string) => Attempted(body, meets(i, endpoint))
  }

  /** After transient failures only, the next attempt starts from the buffer as it was taken. */
  lemma {:induction false} RolledBack(meets: (nat, string) -> Exchange, order: seq<string>, body: Body, i: nat)
    requires order != []
    requires forall j: nat | j < i :: Transient(After(Attempts(meets), order, body, j).1)
    ensures After(Attempts(meets), order, body, i) == Attempted(body, meets(i, order[i % |order|]))
  {
    if i > 0 {
      RolledBack(meets, order, body, i - 1);
      assert Transient(After(Attempts(meets), order, body, i - 1).1);
      assert Before(Attempts(meets), order, body, i) == body;
    }
  }

  /** An exchange after which another attempt is made while there are retries left. */
  predicate WorthAnother(exchange: Exchange) {
    match exchange
    case Unsent(error) => error == RequestTimeout || error == Internal || error == Answered(true)
    case Complete(_) => false
    case BrokenOff(_, _) => true
  }

  lemma WorthAnotherIsTransient(exchange: Exchange)
    ensures WorthAnother(exchange) <==> Transient(Attempted([], exchange).1)
  {
  }

  /** What the exchanges were, told from how the attempts ended. */
  lemma AttemptsTell(meets: (nat, string) -> Exchange, order: seq<string>, taken: Body, aimed: seq<string>, maxRetries: nat)
    requires order != [] && aimed != [] && TakesTurns(aimed, order)
    requires EndsAfter(Attempts(meets), order, taken, maxRetries, |aimed| - 1)
    ensures
      var last := meets(|aimed| - 1, aimed[|aimed| - 1]);
      && After(Attempts(meets), order, taken, |aimed| - 1) == Attempted(taken, last)
      && (forall i: nat | i < |aimed| - 1 :: WorthAnother(meets(i, aimed[i])))
      && (|aimed| <= maxRetries ==> !WorthAnother(last))
  {
    RolledBack(meets, order, taken, |aimed| - 1);
    forall i: nat | i < |aimed| - 1 ensures WorthAnother(meets(i, aimed[i])) {
      RolledBack(meets, order, taken, i);
      assert Transient(After(Attempts(meets), order, taken, i).1);
    }
  }

  class Buffer {
    var data: Body

    constructor ()
      ensures data == []
    {
      data := [];
    }
  }

  /**
   Appends the body to `buf`. `lookup` holds the endpoints or why there are none. On success
   the buffer has grown by the whole body of the last attempt, and by nothing of the
   attempts before; on any error it is as it was.
   */
  method GetInto(buf: Buffer, lookup: Result<seq<string>, Error>, maxRetries: nat, meets: (nat, string) -> Exchange)
    returns (result: Result<(), Error>, aimed: seq<string>)
    modifies buf
    ensures result.Err? ==> buf.data == old(buf.data)
    ensures result.Ok? ==>
              && aimed != []
              && meets(|aimed| - 1, aimed[|aimed| - 1]).Complete?
              && buf.data == old(buf.data) + Concat(meets(|aimed| - 1, aimed[|aimed| - 1]).chunks)
    ensures lookup.Err? ==> aimed == [] && result == Err(lookup.error)
    ensures lookup == Ok([]) ==> aimed == [] && result == Err(InvalidArgument)
    ensures lookup.Ok? && lookup.value != [] ==>
              && 1 <= |aimed| <= maxRetries + 1
              && (forall i: nat | i < |aimed| - 1 :: WorthAnother(meets(i, aimed[i])))
              && (|aimed| <= maxRetries ==> !WorthAnother(meets(|aimed| - 1, aimed[|aimed| - 1])))
              && (match meets(|aimed| - 1, aimed[|aimed| - 1])
                  case Unsent(error) => result == Err(error)
                  case Complete(_) => result == Ok(())
                  case BrokenOff(_, timeout) => result == Err(if timeout then RequestTimeout else Internal))
  {
    if lookup.Err? {
      return Err(lookup.error), [];
    }
    var taken := buf.data;
    buf.data := [];
    var body;
    ghost var order;
    body, result, aimed, order := RunWithEndpoints(maxRetries, lookup.value, taken, Attempts(meets));
    buf.data := body;
    if lookup.value != [] {
      AttemptsTell(meets, order, taken, aimed, maxRetries);
    }
  }
}
