/** Properties of the request limiter: what one call does at each branch, how a
    series of calls in one window behaves, and how the displayed projection
    relates to the check. */
module RateLimitProperties {
  import opened RateLimit

  /** With nothing stored, a call starts a window at `now` and counts itself,
      and the display reports a full quota ending one window from `now`. */
  lemma FreshStore(now: int)
    ensures Check(None, now) == Step(Pass, Some(RateLimitData(1, now)))
    ensures InfoOf(None, now) == RateLimitInfo(RequestLimit, now + WindowMs)
  {
  }

  /** When at most one window has elapsed (exactly WindowMs, or a clock that
      went backwards, included) the stored window is kept: the call is judged
      on the stored count alone and never moves the window start. */
  lemma WindowKeptWithin(d: RateLimitData, now: int)
    requires now - d.timestamp <= WindowMs
    ensures Check(Some(d), now) ==
              if d.count >= RequestLimit
              then Step(RateLimitError(d.timestamp + WindowMs), Some(d))
              else Step(Pass, Some(RateLimitData(d.count + 1, d.timestamp)))
  {
  }

  /** A call that finds the window elapsed succeeds whatever the old count,
      and leaves a new window at `now` holding this one request. */
  lemma ExpiredAlwaysSucceeds(d: RateLimitData, now: int)
    requires now - d.timestamp > WindowMs
    ensures Check(Some(d), now) == Step(Pass, Some(RateLimitData(1, now)))
  {
  }

  /** A successful call counts exactly one request against the window it
      found (or reset), and never moves that window's start. */
  lemma SuccessCountsOne(stored: Option<RateLimitData>, now: int)
    requires Check(stored, now).outcome.Pass?
    ensures Check(stored, now).stored ==
              Some(RateLimitData(Current(stored, now).count + 1, Current(stored, now).timestamp))
    ensures stored.Some? && !Expired(stored.value, now) ==>
              Check(stored, now).stored.value.timestamp == stored.value.timestamp
  {
  }

  /** After a successful call the stored count lies in 1..RequestLimit,
      provided the count it started from was not negative. */
  lemma SuccessCountInRange(stored: Option<RateLimitData>, now: int)
    requires stored.Some? ==> stored.value.count >= 0
    requires Check(stored, now).outcome.Pass?
    ensures 1 <= Check(stored, now).stored.value.count <= RequestLimit
  {
  }

  /** Every call keeps the store's records within the quota. */
  lemma CheckPreservesWellFormed(stored: Option<RateLimitData>, now: int)
    requires WellFormed(stored)
    ensures WellFormed(Check(stored, now).stored)
  {
  }

  /** A rejected call changes nothing the display shows: it still reports no
      requests left and the same reset instant the rejection carried. */
  lemma RejectionKeepsInfo(stored: Option<RateLimitData>, now: int, later: int)
    requires Check(stored, now).outcome.RateLimitError?
    ensures InfoOf(Check(stored, now).stored, later) == InfoOf(stored, later)
    ensures InfoOf(stored, later) ==
              RateLimitInfo(0, Check(stored, now).outcome.resetTime)
  {
  }

  /** While the window has not elapsed, the display predicts the next call:
      it succeeds exactly when some requests remain, and afterwards one fewer
      remains with the same reset instant. */
  lemma InfoPredictsCheck(stored: Option<RateLimitData>, now: int)
    requires !Expired(Loaded(stored, now), now)
    ensures Check(stored, now).outcome.Pass? <==> InfoOf(stored, now).remaining > 0
    ensures Check(stored, now).outcome.Pass? ==>
              InfoOf(Check(stored, now).stored, now) ==
              RateLimitInfo(InfoOf(stored, now).remaining - 1, InfoOf(stored, now).resetTime)
  {
  }

  /** The display applies no expiry reset: with a record stored, what it shows
      does not depend on the clock at all. */
  lemma InfoIgnoresClock(d: RateLimitData, now1: int, now2: int)
    ensures InfoOf(Some(d), now1) == InfoOf(Some(d), now2)
  {
  }

  /** With nothing stored, the display starts a fresh window at every call:
      its reset instant moves with the clock. */
  lemma InfoDriftsWhenEmpty(now1: int, now2: int)
    ensures InfoOf(None, now2).resetTime - InfoOf(None, now1).resetTime == now2 - now1
    ensures InfoOf(None, now1).remaining == InfoOf(None, now2).remaining == RequestLimit
  {
  }

  /** Consequently, once a window has elapsed the display is stale: it reports
      a reset instant already in the past, and no requests left if the old
      window was used up, while the next call succeeds and opens a new window. */
  lemma InfoStaleAfterExpiry(d: RateLimitData, now: int)
    requires Expired(d, now)
    ensures InfoOf(Some(d), now).resetTime < now
    ensures d.count >= RequestLimit ==> InfoOf(Some(d), now).remaining == 0
    ensures Check(Some(d), now) == Step(Pass, Some(RateLimitData(1, now)))
  {
  }

  /** Replaying two series of calls one after the other is replaying their
      concatenation. */
  lemma {:induction false} ReplayAppend(stored: Option<RateLimitData>, a: seq<int>, b: seq<int>)
    ensures Replay(stored, a + b) ==
              Trace(Replay(stored, a).outcomes + Replay(Replay(stored, a).stored, b).outcomes,
                    Replay(Replay(stored, a).stored, b).stored)
    decreases |a|
  {
    if a == [] {
      assert a + b == b;
    } else {
      assert (a + b)[0] == a[0];
      assert (a + b)[1..] == a[1..] + b;
      ReplayAppend(Check(stored, a[0]).stored, a[1..], b);
    }
  }

  /** The count a window holds after `n` more calls inside it, starting from `c`. */
  function CountAfter(c: int, n: nat): (r: int) {
    if c >= RequestLimit then c else Min(c + n, RequestLimit)
  }

  /** Calls made inside one window (no instant later than its start plus
      WindowMs) starting from a stored count `c`: the i-th succeeds exactly
      when c + i is under the quota, every later one fails with the same
      reset instant, and the window start never moves. */
  lemma {:induction false} WithinOneWindow(c: int, t0: int, times: seq<int>)
    requires forall i :: 0 <= i < |times| ==> times[i] - t0 <= WindowMs
    ensures forall i :: 0 <= i < |times| ==>
              Replay(Some(RateLimitData(c, t0)), times).outcomes[i] ==
              if c + i < RequestLimit then Pass else RateLimitError(t0 + WindowMs)
    ensures Replay(Some(RateLimitData(c, t0)), times).stored ==
              Some(RateLimitData(CountAfter(c, |times|), t0))
    decreases |times|
  {
    if times != [] {
      var d := RateLimitData(c, t0);
      assert !Expired(d, times[0]);
      var next := Check(Some(d), times[0]);
      var c' := if c >= RequestLimit then c else c + 1;
      assert next.stored == Some(RateLimitData(c', t0));
      WithinOneWindow(c', t0, times[1..]);
      var rest := Replay(next.stored, times[1..]);
      var all := Replay(Some(d), times);
      assert all.outcomes == [next.outcome] + rest.outcomes;
      forall i | 0 <= i < |times|
        ensures all.outcomes[i] ==
                if c + i < RequestLimit then Pass else RateLimitError(t0 + WindowMs)
      {
        if i > 0 {
          assert all.outcomes[i] == rest.outcomes[i - 1];
        }
      }
    }
  }

  /** Starting from an empty store, with every call inside the window the
      first call opens: the first RequestLimit calls succeed and every later
      one fails, carrying the end of that window. */
  lemma FirstTenSucceed(times: seq<int>)
    requires |times| > 0
    requires forall i :: 0 <= i < |times| ==> times[i] - times[0] <= WindowMs
    ensures forall i :: 0 <= i < |times| ==>
              Replay(None, times).outcomes[i] ==
              if i < RequestLimit then Pass else RateLimitError(times[0] + WindowMs)
    ensures Replay(None, times).stored ==
              Some(RateLimitData(Min(|times|, RequestLimit), times[0]))
  {
    var t0 := times[0];
    assert Check(None, t0) == Step(Pass, Some(RateLimitData(1, t0)));
    WithinOneWindow(1, t0, times[1..]);
    var rest := Replay(Some(RateLimitData(1, t0)), times[1..]);
    var all := Replay(None, times);
    assert all.outcomes == [Pass] + rest.outcomes;
    forall i | 0 <= i < |times|
      ensures all.outcomes[i] == if i < RequestLimit then Pass else RateLimitError(t0 + WindowMs)
    {
      if i > 0 {
        assert all.outcomes[i] == rest.outcomes[i - 1];
      }
    }
  }

  /** Ten calls at t0 succeed, an eleventh a second later fails with the
      reset instant t0 + WindowMs, and a twelfth one millisecond after that
      instant succeeds and opens a new window with nine requests left. */
  lemma EndToEnd(t0: int)
    ensures var times := seq(RequestLimit, _ => t0) + [t0 + 1000, t0 + WindowMs + 1];
            var t := Replay(None, times);
            t.outcomes == seq(RequestLimit, _ => Pass) + [RateLimitError(t0 + WindowMs), Pass] &&
            InfoOf(t.stored, t0 + WindowMs + 1) ==
              RateLimitInfo(RequestLimit - 1, t0 + WindowMs + 1 + WindowMs)
  {
    var first := seq(RequestLimit, _ => t0) + [t0 + 1000];
    var last := [t0 + WindowMs + 1];
    assert seq(RequestLimit, _ => t0) + [t0 + 1000, t0 + WindowMs + 1] == first + last;
    FirstTenSucceed(first);
    var a := Replay(None, first);
    assert a.stored == Some(RateLimitData(RequestLimit, t0));
    assert a.outcomes == seq(RequestLimit, _ => Pass) + [RateLimitError(t0 + WindowMs)];
    ReplayAppend(None, first, last);
    var b := Replay(a.stored, last);
    assert b.outcomes == [Pass];
    assert b.stored == Some(RateLimitData(1, t0 + WindowMs + 1));
  }
}
