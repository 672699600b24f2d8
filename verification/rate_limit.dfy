/** The client-side request limiter: one persisted record {count, timestamp}
    counting the requests made in the current window, a quota of ten requests
    and a window of one day. */
module RateLimit {

  /** Requests allowed per window. */
  const RequestLimit: int := 10
  /** Length of one window: a day, in milliseconds. */
  const WindowMs: int := 86400000

  datatype Option<T> = None | Some(value: T)

  /** The persisted record: requests counted in the current window, and the
      instant (milliseconds since the epoch) at which that window began. */
  datatype RateLimitData = RateLimitData(count: int, timestamp: int)

  /** What a check-and-consume call does: succeed, or fail with the instant at
      which the current window ends. */
  datatype Outcome = Pass | RateLimitError(resetTime: int)

  /** The read-only projection shown to the user. */
  datatype RateLimitInfo = RateLimitInfo(remaining: int, resetTime: int)

  /** One check-and-consume call seen as a value: its outcome and what the
      store holds afterwards. */
  datatype Step = Step(outcome: Outcome, stored: Option<RateLimitData>)

  /** Outcomes of a series of calls, and what the store holds after the last. */
  datatype Trace = Trace(outcomes: seq<Outcome>, stored: Option<RateLimitData>)

  function Max(a: int, b: int): (r: int) { if a < b then b else a }

  function Min(a: int, b: int): (r: int) { if a < b then a else b }

  /** The record a call starts from: the stored one, or a fresh window at `now`
      when nothing is stored. */
  function Loaded(stored: Option<RateLimitData>, now: int): (r: RateLimitData)
    ensures stored.Some? ==> r == stored.value
    ensures stored.None? ==> r == RateLimitData(0, now)
    // only a stored record can be found expired
    ensures Expired(r, now) ==> stored.Some?
  {
    match stored
    case None => RateLimitData(0, now)
    case Some(d) => d
  }

  /** A window has passed only when strictly more than WindowMs has elapsed. */
  predicate Expired(d: RateLimitData, now: int): (b: bool)
    // the window's reset instant lies strictly before `now`
    ensures b <==> d.timestamp + WindowMs < now
  {
    now - d.timestamp > WindowMs
  }

  /** The record after the expiry reset: a fresh window at `now` if expired. */
  function Current(stored: Option<RateLimitData>, now: int): (r: RateLimitData)
    // the window a call works in has never elapsed
    ensures !Expired(r, now)
    ensures Expired(Loaded(stored, now), now) ==> r == RateLimitData(0, now)
    ensures !Expired(Loaded(stored, now), now) ==> r == Loaded(stored, now)
  {
    var d := Loaded(stored, now);
    if Expired(d, now) then RateLimitData(0, now) else d
  }

  /** Specification of one check-and-consume call at instant `now`. */
  function Check(stored: Option<RateLimitData>, now: int): (r: Step)
    // rejected exactly when a stored, unexpired record has used up the quota
    ensures r.outcome.RateLimitError? <==>
              stored.Some? && !Expired(stored.value, now) && stored.value.count >= RequestLimit
    // a rejection writes nothing, and can only come from a stored, unexpired record
    ensures r.outcome.RateLimitError? ==>
              r.stored == stored && stored.Some? && !Expired(stored.value, now) &&
              r.outcome.resetTime == stored.value.timestamp + WindowMs
    // a success always leaves a record in the store
    ensures r.outcome.Pass? ==> r.stored.Some?
  {
    var d := Current(stored, now);
    if d.count >= RequestLimit then
      Step(RateLimitError(d.timestamp + WindowMs), stored)
    else
      Step(Pass, Some(d.(count := d.count + 1)))
  }

  /** The projection shown to the user. No expiry reset is applied: a record
      from an elapsed window is reported as it is. */
  function InfoOf(stored: Option<RateLimitData>, now: int): (r: RateLimitInfo)
    ensures r.remaining >= 0
    ensures Loaded(stored, now).count >= 0 ==> r.remaining <= RequestLimit
    ensures r.remaining == 0 <==> Loaded(stored, now).count >= RequestLimit
    ensures Loaded(stored, now).count <= RequestLimit ==>
              r.remaining + Loaded(stored, now).count == RequestLimit
    ensures r.resetTime == Loaded(stored, now).timestamp + WindowMs
  {
    var d := Loaded(stored, now);
    RateLimitInfo(Max(0, RequestLimit - d.count), d.timestamp + WindowMs)
  }

  /** The store's records stay within the quota: 0 <= count <= RequestLimit. */
  predicate WellFormed(stored: Option<RateLimitData>) {
    stored.Some? ==> 0 <= stored.value.count <= RequestLimit
  }

  /** The outcomes of calls made at the instants `times`, in order, starting
      from the store `stored`. */
  function Replay(stored: Option<RateLimitData>, times: seq<int>): (t: Trace)
    ensures |t.outcomes| == |times|
    ensures times == [] ==> t.stored == stored
    decreases |times|
  {
    if times == [] then Trace([], stored)
    else
      var step := Check(stored, times[0]);
      var rest := Replay(step.stored, times[1..]);
      Trace([step.outcome] + rest.outcomes, rest.stored)
  }

  /** The browser's persisted entry, owned by the limiter. */
  class RateLimitStore {
    var stored: Option<RateLimitData>

    /** A limiter over whatever the storage already holds. */
    constructor (persisted: Option<RateLimitData>)
      ensures stored == persisted
    {
      stored := persisted;
    }

    /** Check-and-consume: reject when the quota is used up, otherwise count
        the request and write the record back. */
    method CheckRateLimit(now: int) returns (outcome: Outcome)
      modifies this
      ensures Step(outcome, stored) == Check(old(stored), now)
      ensures outcome.RateLimitError? ==> stored == old(stored)
      ensures WellFormed(old(stored)) ==> WellFormed(stored)
    {
      var data: RateLimitData;
      match stored {
        case None => data := RateLimitData(0, now);
        case Some(d) => data := d;
      }
      if now - data.timestamp > WindowMs {
        data := RateLimitData(0, now);
      }
      if data.count >= RequestLimit {
        return RateLimitError(data.timestamp + WindowMs);
      }
      data := data.(count := data.count + 1);
      stored := Some(data);
      outcome := Pass;
    }

    /** The projection of the stored record; reads the store, writes nothing.
        `InfoOf` is the same projection on the stored value, where its
        properties are stated. */
    function GetRateLimitInfo(now: int): (r: RateLimitInfo)
      reads this
      ensures r == InfoOf(stored, now)
      ensures 0 <= r.remaining
      ensures stored.Some? ==> r.resetTime == stored.value.timestamp + WindowMs
      ensures stored.None? ==> r == RateLimitInfo(RequestLimit, now + WindowMs)
    {
      InfoOf(stored, now)
    }
  }
}
