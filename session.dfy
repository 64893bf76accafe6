/**
 * The request/response exchange with one device: the checksummed request is sent,
 * at most twice. After a send the client waits for one reply; a timeout, a reply of
 * the wrong size, an error reply (first byte 0) or a reply to another opcode makes
 * it send again. A reply whose checksum fails is only logged and is accepted. The
 * result is the last datagram received, whether or not it was accepted, or nothing
 * if every wait timed out.
 *
 * The network is a script: what each send's wait produces.
 */
module Session {
  import opened Wrappers
  import opened Frame

  /** What one wait for a reply produces. */
  datatype Attempt = Timeout | Reply(payload: seq<bv8>)

  /** The exchange's result and the number of times the request was sent. */
  datatype ExchangeResult = ExchangeResult(response: Option<seq<bv8>>, sends: nat)

  /** Sends per exchange. */
  const MaxSends: nat := 2

  /** The verdicts that make the client send again. */
  predicate Retries(v: Verdict)
  {
    v == WrongSize || v == ErrorResponse || v == UnexpectedType
  }

  /** Whether this wait ends the exchange: a reply that is not retried. */
  predicate Ends(frame: seq<bv8>, size: nat, a: Attempt)
    requires |frame| > 0 && size >= 3
  {
    a.Reply? && !Retries(Classify(a.payload, frame[0], size))
  }

  /**
   * The exchange for the sent `frame` over the scripted waits, `last` being the
   * datagram held from earlier waits.
   */
  function Exchange(frame: seq<bv8>, size: nat, attempts: seq<Attempt>, last: Option<seq<bv8>>): ExchangeResult
    requires |frame| > 0 && size >= 3
    decreases |attempts|
  {
    if attempts == [] then ExchangeResult(last, 0)
    else if Ends(frame, size, attempts[0]) then ExchangeResult(Some(attempts[0].payload), 1)
    else
      var held := if attempts[0].Reply? then Some(attempts[0].payload) else last;
      var rest := Exchange(frame, size, attempts[1..], held);
      ExchangeResult(rest.response, rest.sends + 1)
  }

  /** Reference definition: the latest datagram received over these waits, else `last`. */
  function LatestReply(attempts: seq<Attempt>, last: Option<seq<bv8>>): Option<seq<bv8>>
    decreases |attempts|
  {
    if attempts == [] then last
    else LatestReply(attempts[1..], if attempts[0].Reply? then Some(attempts[0].payload) else last)
  }

  /**
   * The request goes out at least once and at most once per wait; the exchange stops
   * early only at a reply that is not retried, and every earlier wait timed out or
   * was retried.
   */
  lemma {:induction false} ExchangeSends(frame: seq<bv8>, size: nat, attempts: seq<Attempt>, last: Option<seq<bv8>>)
    requires |frame| > 0 && size >= 3
    ensures var r := Exchange(frame, size, attempts, last);
      && r.sends <= |attempts|
      && (|attempts| > 0 ==> r.sends >= 1)
      && (r.sends < |attempts| ==> Ends(frame, size, attempts[r.sends - 1]))
      && (forall i :: 0 <= i < r.sends - 1 ==> !Ends(frame, size, attempts[i]))
    decreases |attempts|
  {
    if attempts != [] && !Ends(frame, size, attempts[0]) {
      var held := if attempts[0].Reply? then Some(attempts[0].payload) else last;
      ExchangeSends(frame, size, attempts[1..], held);
      assert forall i :: 0 < i < |attempts| ==> attempts[1..][i - 1] == attempts[i];
    }
  }

  /** The result is the latest datagram received among the waits actually made. */
  lemma {:induction false} ExchangeReturnsLatest(frame: seq<bv8>, size: nat, attempts: seq<Attempt>, last: Option<seq<bv8>>)
    requires |frame| > 0 && size >= 3
    ensures var r := Exchange(frame, size, attempts, last);
      r.sends <= |attempts| && r.response == LatestReply(attempts[..r.sends], last)
    decreases |attempts|
  {
    var r := Exchange(frame, size, attempts, last);
    if attempts == [] {
      return;
    }
    if Ends(frame, size, attempts[0]) {
      assert attempts[..1][1..] == [];
    } else {
      var held := if attempts[0].Reply? then Some(attempts[0].payload) else last;
      ExchangeReturnsLatest(frame, size, attempts[1..], held);
      assert attempts[..r.sends][0] == attempts[0];
      assert attempts[..r.sends][1..] == attempts[1..][..r.sends - 1];
    }
  }

  /** Nothing is returned exactly when nothing was held and every wait timed out. */
  lemma {:induction false} ExchangeNone(frame: seq<bv8>, size: nat, attempts: seq<Attempt>, last: Option<seq<bv8>>)
    requires |frame| > 0 && size >= 3
    ensures Exchange(frame, size, attempts, last).response.None? <==>
      last.None? && forall i :: 0 <= i < |attempts| ==> attempts[i] == Timeout
    decreases |attempts|
  {
    if attempts != [] && !Ends(frame, size, attempts[0]) {
      var held := if attempts[0].Reply? then Some(attempts[0].payload) else last;
      ExchangeNone(frame, size, attempts[1..], held);
      assert forall i :: 0 < i < |attempts| ==> attempts[i] == attempts[1..][i - 1];
    }
  }

  /**
   * The retry rule: a wait ends the exchange exactly when it produced a reply of the
   * expected size whose first byte is neither 0 (an error reply) nor another opcode;
   * the checksum plays no part, and a timeout never ends it.
   */
  lemma RetryRule(frame: seq<bv8>, size: nat, d: seq<bv8>)
    requires |frame| > 0 && size >= 3
    ensures Ends(frame, size, Reply(d)) <==> |d| == size && d[0] != 0 && d[0] == frame[0]
    ensures !Ends(frame, size, Timeout)
  {
  }

  /** A reply whose checksum fails ends the exchange and is the result. */
  lemma ChecksumFailureAccepted(frame: seq<bv8>, size: nat, d: seq<bv8>, later: seq<Attempt>)
    requires |frame| > 0 && size >= 3
    requires |d| == size && d[0] != 0 && d[0] == frame[0] && !ChecksumHolds(d)
    ensures Exchange(frame, size, [Reply(d)] + later, None) == ExchangeResult(Some(d), 1)
  {
    assert ([Reply(d)] + later)[0] == Reply(d);
  }

  /** A retried reply followed by a timeout: two sends, and the rejected reply is the result. */
  lemma RetriedReplyThenTimeout(frame: seq<bv8>, size: nat, d: seq<bv8>)
    requires |frame| > 0 && size >= 3 && !Ends(frame, size, Reply(d))
    ensures Exchange(frame, size, [Reply(d), Timeout], None) == ExchangeResult(Some(d), 2)
  {
    assert [Reply(d), Timeout][1..] == [Timeout];
    assert [Timeout][1..] == [];
  }
}
