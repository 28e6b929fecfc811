/** The calls-per-minute limit of a console token: a sliding window kept as a deque of recent call times,
    one per token. Times are reals: rounding of the clock's floats is not modelled. */
module ConsoleAccess {

  const WINDOW: real := 60.0

  datatype Answer = Accepted | TooMany | NoCallsToWaitFor

  /** The calls of q no longer inside the window, dropped from its left end. */
  function Pruned(q: seq<real>, now: real): seq<real> {
    if q != [] && now - q[0] >= WINDOW then Pruned(q[1..], now) else q
  }

  /** One call: what the deque becomes, and the answer. */
  function Called(q: seq<real>, limit: int, now: real): (seq<real>, Answer) {
    var recent := Pruned(q, now);
    if |recent| < limit then (recent + [now], Accepted)
    else (recent, if recent == [] then NoCallsToWaitFor else TooMany)
  }

  class RateLimiter {
    var calls: map<nat, seq<real>>

    constructor ()
      ensures calls == map[]
    {
      calls := map[];
    }

    function Recent(token: nat): seq<real>
      reads this
    {
      if token in calls then calls[token] else []
    }

    /** `rate_limit`. Over the limit it raises 429, or, when there is no recent call to wait for (a limit
        below one), an index error. Other tokens' calls are untouched. */
    method RateLimit(token: nat, limit: int, now: real) returns (r: Answer)
      modifies this
      ensures (Recent(token), r) == Called(old(Recent(token)), limit, now)
      ensures forall t :: t != token ==> Recent(t) == old(Recent(t))
    {
      var q := Recent(token);
      ghost var start := q;
      while q != [] && now - q[0] >= WINDOW
        invariant Pruned(q, now) == Pruned(start, now)
        decreases |q|
      {
        q := q[1..];
      }
      if |q| >= limit {
        calls := calls[token := q];
        return if q == [] then NoCallsToWaitFor else TooMany;
      }
      calls := calls[token := q + [now]];
      return Accepted;
    }
  }

  // --- whole runs of one token's calls, with a fixed limit -----------------------------------

  function Queue(times: seq<real>, limit: int): seq<real> {
    if times == [] then [] else Called(Queue(times[..|times| - 1], limit), limit, times[|times| - 1]).0
  }

  /** The answer to the last of these calls. */
  function AnswerTo(times: seq<real>, limit: int): Answer
    requires times != []
  {
    Called(Queue(times[..|times| - 1], limit), limit, times[|times| - 1]).1
  }

  /** The times of the calls that were accepted. */
  function AcceptedCalls(times: seq<real>, limit: int): seq<real> {
    if times == [] then []
    else
      var before := AcceptedCalls(times[..|times| - 1], limit);
      if AnswerTo(times, limit) == Accepted then before + [times[|times| - 1]] else before
  }

  ghost predicate NonDecreasing(times: seq<real>) {
    forall i, j :: 0 <= i <= j < |times| ==> times[i] <= times[j]
  }

  /** The calls made at or after `since` and before `before`. */
  function Within(times: seq<real>, since: real, before: real): seq<real> {
    if times == [] then []
    else
      var (front, t) := (Within(times[..|times| - 1], since, before), times[|times| - 1]);
      if since <= t < before then front + [t] else front
  }

  /** The calls less than a window before `now`. */
  function Last60(times: seq<real>, now: real): seq<real> {
    if times == [] then []
    else
      var (front, t) := (Last60(times[..|times| - 1], now), times[|times| - 1]);
      if now - t < WINDOW then front + [t] else front
  }

  lemma {:induction false} PrunedIsLast60(q: seq<real>, now: real)
    requires NonDecreasing(q)
    ensures Pruned(q, now) == Last60(q, now)
  {
    if q == [] {
    } else if now - q[0] >= WINDOW {
      PrunedIsLast60(q[1..], now);
      DropFirst(q, now);
    } else {
      AllRecent(q, now);
    }
  }

  lemma {:induction false} DropFirst(q: seq<real>, now: real)
    requires q != [] && now - q[0] >= WINDOW
    ensures Last60(q, now) == Last60(q[1..], now)
  {
    var front := q[..|q| - 1];
    if front == [] {
      assert q == [q[0]] && q[1..] == [];
    } else {
      DropFirst(front, now);
      assert front[1..] == q[1..][..|q[1..]| - 1];
    }
  }

  lemma {:induction false} AllRecent(q: seq<real>, now: real)
    requires forall i :: 0 <= i < |q| ==> now - q[i] < WINDOW
    ensures Last60(q, now) == q
  {
    if q != [] {
      AllRecent(q[..|q| - 1], now);
    }
  }

  lemma {:induction false} Last60Twice(times: seq<real>, earlier: real, now: real)
    requires earlier <= now
    ensures Last60(Last60(times, earlier), now) == Last60(times, now)
  {
    hide Last60;
    if times == [] {
      Last60None(earlier);
      Last60None(now);
    } else {
      var (front, t) := (times[..|times| - 1], times[|times| - 1]);
      assert times == front + [t];
      Last60Twice(front, earlier, now);
      Last60OneMore(front, t, earlier);
      Last60OneMore(front, t, now);
      Last60OneMore(Last60(front, earlier), t, now);
    }
  }

  lemma Last60None(now: real)
    ensures Last60([], now) == []
  {
  }

  lemma Last60OneMore(times: seq<real>, t: real, now: real)
    ensures Last60(times + [t], now) == if now - t < WINDOW then Last60(times, now) + [t] else Last60(times, now)
  {
    assert (times + [t])[..|times|] == times;
  }

  lemma {:induction false} AcceptedInOrder(times: seq<real>, limit: int)
    requires NonDecreasing(times)
    ensures NonDecreasing(AcceptedCalls(times, limit))
    ensures forall t :: t in AcceptedCalls(times, limit) ==> t in times
  {
    hide AnswerTo;
    if times != [] {
      var (front, t) := (times[..|times| - 1], times[|times| - 1]);
      AcceptedInOrder(front, limit);
      var before := AcceptedCalls(front, limit);
      forall k | 0 <= k < |before| ensures before[k] <= t {
        assert before[k] in before && before[k] in front;
        var i :| 0 <= i < |front| && front[i] == before[k];
        assert times[i] <= times[|front|];
      }
    }
  }

  /** The deque holds exactly the accepted calls of the minute before the last call. */
  lemma {:induction false} QueueIsRecentAccepted(times: seq<real>, limit: int)
    requires NonDecreasing(times) && times != []
    ensures Queue(times, limit) == Last60(AcceptedCalls(times, limit), times[|times| - 1])
    ensures AnswerTo(times, limit) == Accepted
        <==> |Last60(AcceptedCalls(times[..|times| - 1], limit), times[|times| - 1])| < limit
    decreases |times|
  {
    hide Last60, Pruned;
    var (front, now) := (times[..|times| - 1], times[|times| - 1]);
    var (q, accepted) := (Queue(front, limit), AcceptedCalls(front, limit));
    AcceptedInOrder(front, limit);
    if front == [] {
      NothingAccepted(now);
    } else {
      QueueIsRecentAccepted(front, limit);
      Last60Sorted(accepted, front[|front| - 1]);
      PrunedIsLast60(q, now);
      Last60Twice(accepted, front[|front| - 1], now);
    }
    Last60OneMore(accepted, now, now);
  }

  lemma NothingAccepted(now: real)
    ensures Last60([], now) == [] && Pruned([], now) == []
  {
  }

  lemma {:induction false} Last60Sorted(times: seq<real>, now: real)
    requires NonDecreasing(times)
    ensures NonDecreasing(Last60(times, now)) && forall t :: t in Last60(times, now) ==> t in times
  {
    if times != [] {
      var (front, t) := (times[..|times| - 1], times[|times| - 1]);
      Last60Sorted(front, now);
      var before := Last60(front, now);
      forall k | 0 <= k < |before| ensures before[k] <= t {
        assert before[k] in before && before[k] in front;
      }
    }
  }

  // --- main results -------------------------------------------------------------------------

  /** The deque answers as a limiter that remembers every accepted call: a call is accepted exactly when
      fewer than `limit` calls were accepted less than 60 seconds before it. */
  lemma AcceptsExactly(times: seq<real>, limit: int)
    requires NonDecreasing(times) && times != []
    ensures AnswerTo(times, limit) == Accepted
        <==> |Last60(AcceptedCalls(times[..|times| - 1], limit), times[|times| - 1])| < limit
  {
    QueueIsRecentAccepted(times, limit);
  }

  /** In any 60 seconds, wherever they start, at most `limit` calls are accepted. */
  lemma {:induction false} EveryWindow(times: seq<real>, limit: nat, since: real)
    requires NonDecreasing(times)
    ensures |Within(AcceptedCalls(times, limit), since, since + WINDOW)| <= limit
  {
    hide AnswerTo, Queue;
    if times != [] {
      var (front, now) := (times[..|times| - 1], times[|times| - 1]);
      var accepted := AcceptedCalls(front, limit);
      EveryWindow(front, limit, since);
      if AnswerTo(times, limit) == Accepted {
        AcceptsExactly(times, limit);
        assert (accepted + [now])[..|accepted|] == accepted;
        if since <= now < since + WINDOW {
          WithinLast60(accepted, since, now);
        }
      }
    }
  }

  lemma {:induction false} WithinLast60(times: seq<real>, since: real, now: real)
    requires since <= now < since + WINDOW
    ensures |Within(times, since, since + WINDOW)| <= |Last60(times, now)|
  {
    if times != [] {
      WithinLast60(times[..|times| - 1], since, now);
    }
  }

  lemma {:induction false} WithinAtLeast(times: seq<real>, since: real, before: real, i: nat, j: nat)
    requires i <= j < |times| && forall k :: i <= k <= j ==> since <= times[k] < before
    ensures |Within(times, since, before)| >= j - i + 1
  {
    var front := times[..|times| - 1];
    if j < |front| {
      WithinAtLeast(front, since, before, i, j);
    } else if i < j {
      WithinAtLeast(front, since, before, i, j - 1);
    }
  }

  /** So the limit-th accepted call after any other comes at least 60 seconds later. */
  lemma SpacedOut(times: seq<real>, limit: nat, i: nat)
    requires NonDecreasing(times) && i + limit < |AcceptedCalls(times, limit)|
    ensures AcceptedCalls(times, limit)[i + limit] - AcceptedCalls(times, limit)[i] >= WINDOW
  {
    var accepted := AcceptedCalls(times, limit);
    AcceptedInOrder(times, limit);
    EveryWindow(times, limit, accepted[i]);
    if accepted[i + limit] - accepted[i] < WINDOW {
      WithinAtLeast(accepted, accepted[i], accepted[i] + WINDOW, i, i + limit);
    }
  }

  lemma {:induction false} Last60Fewer(times: seq<real>, now: real, k: nat)
    requires NonDecreasing(times) && k >= 1
    ensures |Last60(times, now)| < k <==> |times| < k || now - times[|times| - k] >= WINDOW
  {
    if times != [] {
      var (front, t) := (times[..|times| - 1], times[|times| - 1]);
      if now - t < WINDOW {
        if k > 1 {
          Last60Fewer(front, now, k - 1);
        }
      } else {
        Last60Fewer(front, now, 1);
        assert front != [] ==> times[|front| - 1] <= t;
      }
    }
  }

  /** And a call is accepted exactly when that is so of it: fewer were accepted at all, or the limit-th accepted
      before it is 60 seconds ago. */
  lemma AcceptsWhenSpaced(times: seq<real>, limit: nat)
    requires NonDecreasing(times) && times != []
    ensures var (accepted, now) := (AcceptedCalls(times[..|times| - 1], limit), times[|times| - 1]);
            AnswerTo(times, limit) == Accepted
            <==> limit >= 1 && (|accepted| < limit || now - accepted[|accepted| - limit] >= WINDOW)
  {
    hide AnswerTo, Last60;
    AcceptsExactly(times, limit);
    if limit >= 1 {
      AcceptedInOrder(times[..|times| - 1], limit);
      Last60Fewer(AcceptedCalls(times[..|times| - 1], limit), times[|times| - 1], limit);
    }
  }

  /** With a limit of at least one (as tokens have), a refused call always has `limit` accepted calls in
      the minute before it. */
  lemma RefusedOnlyWhenFull(times: seq<real>, limit: int)
    requires NonDecreasing(times) && times != [] && AnswerTo(times, limit) != Accepted
    ensures |Last60(AcceptedCalls(times[..|times| - 1], limit), times[|times| - 1])| >= limit
    ensures limit >= 1 ==>
      && AnswerTo(times, limit) == TooMany
      && |Last60(AcceptedCalls(times[..|times| - 1], limit), times[|times| - 1])| == limit
  {
    AcceptsExactly(times, limit);
    if limit >= 1 {
      QueueBounded(times[..|times| - 1], limit);
      AtMostLimit(times[..|times| - 1], limit, times[|times| - 1]);
    }
  }

  lemma {:induction false} QueueBounded(times: seq<real>, limit: int)
    requires limit >= 0
    ensures |Queue(times, limit)| <= limit
  {
    if times != [] {
      QueueBounded(times[..|times| - 1], limit);
      PrunedNoLonger(Queue(times[..|times| - 1], limit), times[|times| - 1]);
    }
  }

  lemma {:induction false} PrunedNoLonger(q: seq<real>, now: real)
    ensures |Pruned(q, now)| <= |q|
  {
    if q != [] && now - q[0] >= WINDOW {
      PrunedNoLonger(q[1..], now);
    }
  }

  lemma {:induction false} Last60NoMore(times: seq<real>, earlier: real, now: real)
    requires earlier <= now
    ensures |Last60(times, now)| <= |Last60(times, earlier)|
  {
    if times != [] {
      Last60NoMore(times[..|times| - 1], earlier, now);
    }
  }

  lemma AtMostLimit(times: seq<real>, limit: int, now: real)
    requires NonDecreasing(times) && limit >= 0 && forall i :: 0 <= i < |times| ==> times[i] <= now
    ensures |Last60(AcceptedCalls(times, limit), now)| <= limit
  {
    if times != [] {
      QueueIsRecentAccepted(times, limit);
      QueueBounded(times, limit);
      Last60NoMore(AcceptedCalls(times, limit), times[|times| - 1], now);
    }
  }
}
