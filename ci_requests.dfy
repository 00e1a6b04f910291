/** The request helpers of analytics/services/github_ci.py: the owner taken
    from a repository URL, the rate-limit sleep, and the GET with retries.
    The network, the clock and `time.sleep` are not modelled: responses come
    from an oracle indexed by attempt, the clock reading at each attempt is a
    parameter, and every sleep is recorded in a log of durations. */
module CiRequests {
  import opened Wrappers
  import opened Text

  // ---------------------------------------------------------------------
  // owner_from_url
  // ---------------------------------------------------------------------

  const OwnerError := "Cannot parse owner/repo from URL"

  /** `owner_from_url` given the path part of the URL: the first
      `/`-separated piece of the path with its outer slashes stripped; the
      `ValueError` when there are fewer than two pieces. The owner is found
      exactly when the stripped path holds a slash, and it is then the text
      before the first slash: never empty and free of slashes. */
  function OwnerFromPath(path: string): (r: Result<string, string>)
    ensures r.Ok? <==> '/' in Strip(path, '/')
    ensures r.Err? ==> r.error == OwnerError
    ensures var p := Strip(path, '/');
      r.Ok? ==> r.value == p[..Find(p, '/')] && r.value != "" && '/' !in r.value
  {
    var p := Strip(path, '/');
    SplitPieces(p, '/');
    SplitFirst(p, '/');
    var parts := Split(p, '/');
    assert '/' in p ==> Find(p, '/') > 0;
    if |parts| < 2 then Err(OwnerError) else Ok(parts[0])
  }

  /** Stripping slashes from `/inner`, where `inner` neither starts nor ends
      with one, gives `inner`. */
  lemma StripLeadingSlash(inner: string)
    requires |inner| > 0 && inner[0] != '/' && inner[|inner| - 1] != '/'
    ensures Strip(['/'] + inner, '/') == inner
  {
    var path := ['/'] + inner;
    assert path[|path| - 1] == inner[|inner| - 1];
    StripRightKeeps(path, '/');
    assert path[1..] == inner;
  }

  /** The first piece of `owner/rest` is `owner`, and there are at least two
      pieces. */
  lemma FirstPieceOf(owner: string, rest: string)
    requires '/' !in owner
    ensures var s := owner + "/" + rest;
      |Split(s, '/')| >= 2 && Split(s, '/')[0] == owner
  {
    var s := owner + "/" + rest;
    assert s[|owner|] == '/';
    assert Find(s, '/') == |owner|;
    assert s[..|owner|] == owner;
    SplitFirst(s, '/');
    SplitPieces(s, '/');
  }

  /** The owner read back: `/owner/rest` names `owner`. */
  lemma OwnerOf(owner: string, rest: string)
    requires owner != "" && '/' !in owner
    requires rest != "" && rest[0] != '/' && rest[|rest| - 1] != '/'
    ensures OwnerFromPath("/" + owner + "/" + rest) == Ok(owner)
  {
    var inner := owner + "/" + rest;
    assert "/" + owner + "/" + rest == ['/'] + inner;
    assert inner[0] == owner[0] && inner[|inner| - 1] == rest[|rest| - 1];
    StripLeadingSlash(inner);
    FirstPieceOf(owner, rest);
  }

  // ---------------------------------------------------------------------
  // _sleep_until_reset
  // ---------------------------------------------------------------------

  /** A rate-limit header as `int(resp.headers.get(name, default))` sees it:
      absent (the default is used), text that `int` reads as `n`, or text
      that makes `int` raise `ValueError`. */
  datatype Header = Absent | IntText(n: int) | NotInt

  /** The parts of an HTTP response that the helpers read. */
  datatype Response = Response(status: int, remaining: Header, reset: Header)

  /** The header's integer, `default` when absent, nothing when malformed. */
  function HeaderInt(h: Header, default: int): Option<int> {
    match h
    case Absent => Some(default)
    case IntText(n) => Some(n)
    case NotInt => None
  }

  /** `_sleep_until_reset` at clock reading `now`: the duration it sleeps,
      or nothing when it returns False without sleeping. It sleeps exactly
      when both headers read as integers, no request is left and the reset
      lies in the future; it then wakes one second after the reset. Missing
      headers mean "one left, reset at 0": no sleep. */
  function ResetSleep(resp: Response, now: int): (d: Option<nat>)
    ensures d.Some? <==>
      resp.remaining != NotInt && resp.reset != NotInt &&
      HeaderInt(resp.remaining, 1).value <= 0 && HeaderInt(resp.reset, 0).value > now
    ensures d.Some? ==> d.value >= 2 && now + d.value == HeaderInt(resp.reset, 0).value + 1
    ensures resp.remaining == Absent ==> d.None?
    ensures resp.reset == Absent && now >= 0 ==> d.None?
  {
    var remaining := HeaderInt(resp.remaining, 1);
    var reset := HeaderInt(resp.reset, 0);
    if remaining.None? || reset.None? then None
    else if remaining.value <= 0 && reset.value > now then
      var wait := reset.value - now;
      Some((if wait > 0 then wait else 0) + 1)
    else None
  }

  // ---------------------------------------------------------------------
  // _get
  // ---------------------------------------------------------------------

  /** A 403 or a 5xx status is retried. */
  predicate Retryable(r: Response) {
    r.status == 403 || 500 <= r.status < 600
  }

  /** `raise_for_status` raises for client and server errors. */
  predicate RaisesForStatus(r: Response) {
    400 <= r.status < 600
  }

  /** How `_get` ends: the response it returns, the response whose
      `raise_for_status` raised, the exception `requests.get` itself raised
      (a timeout or a connection error), or the `UnboundLocalError` of the
      final `r.raise_for_status()` when the loop never ran. */
  datatype GetOutcome =
    | Returned(resp: Response, attempt: nat)
    | Raised(resp: Response, attempt: nat)
    | Thrown(attempt: nat)
    | Unbound

  /** The sleep after retryable attempt `i`: the reset sleep for a
      rate-limited 403, the linear backoff `base_sleep * (i + 1)` otherwise. */
  function RetrySleep(r: Response, now: int, i: nat, baseSleep: nat): nat {
    if r.status == 403 && ResetSleep(r, now).Some? then ResetSleep(r, now).value else baseSleep * (i + 1)
  }

  /** The sleeps of the first `n` attempts, all retried. */
  function RetrySleeps(respond: nat -> Response, clock: nat -> int, baseSleep: nat, n: nat): seq<nat> {
    if n == 0 then []
    else RetrySleeps(respond, clock, baseSleep, n - 1) + [RetrySleep(respond(n - 1), clock(n - 1), n - 1, baseSleep)]
  }

  /** The sleep list of a call that sleeps `d` or not at all. */
  function SleepOf(d: Option<nat>): seq<nat> {
    if d.Some? then [d.value] else []
  }

  /** `_get(url, params, max_retries, base_sleep)`: attempt `i` either
      fails inside `requests.get` (`throws(i)`) or receives `respond(i)`,
      and reads the clock as `clock(i)`. At most `max_retries` requests are
      made, all but the last of them answered and retried; an exception of
      `requests.get` leaves at once; a returned response passed
      `raise_for_status`; a non-retryable error raises at once; running out
      of attempts raises on the last response; and the sleeps are the
      backoffs or reset sleeps of the retried attempts, then the reset sleep
      after a returned response. */
  method Get(respond: nat -> Response, throws: nat -> bool, clock: nat -> int, maxRetries: int, baseSleep: nat)
    returns (outcome: GetOutcome, sleeps: seq<nat>)
    ensures outcome.Unbound? <==> maxRetries <= 0
    ensures outcome.Unbound? ==> sleeps == []
    ensures !outcome.Unbound? ==>
      outcome.attempt < maxRetries &&
      forall j :: 0 <= j < outcome.attempt ==> !throws(j) && Retryable(respond(j))
    ensures outcome.Thrown? ==>
      throws(outcome.attempt) && sleeps == RetrySleeps(respond, clock, baseSleep, outcome.attempt)
    ensures outcome.Returned? || outcome.Raised? ==>
      !throws(outcome.attempt) && outcome.resp == respond(outcome.attempt)
    ensures outcome.Returned? ==>
      !Retryable(outcome.resp) && !RaisesForStatus(outcome.resp) &&
      sleeps == RetrySleeps(respond, clock, baseSleep, outcome.attempt) + SleepOf(ResetSleep(outcome.resp, clock(outcome.attempt)))
    ensures maxRetries > 0 && (forall j :: 0 <= j < maxRetries ==> !throws(j) && Retryable(respond(j))) ==>
      outcome == Raised(respond(maxRetries - 1), maxRetries - 1)
    ensures outcome.Raised? ==>
      RaisesForStatus(outcome.resp) && (Retryable(outcome.resp) ==> outcome.attempt == maxRetries - 1) &&
      sleeps == RetrySleeps(respond, clock, baseSleep, outcome.attempt + (if Retryable(outcome.resp) then 1 else 0))
  {
    sleeps := [];
    var i := 0;
    while i < maxRetries
      invariant 0 <= i <= (if maxRetries > 0 then maxRetries else 0)
      invariant forall j :: 0 <= j < i ==> !throws(j) && Retryable(respond(j))
      invariant sleeps == RetrySleeps(respond, clock, baseSleep, i)
      decreases maxRetries - i
    {
      if throws(i) {
        return Thrown(i), sleeps;
      }
      var r := respond(i);
      if r.status == 403 {
        var reset := ResetSleep(r, clock(i));
        if reset.Some? {
          sleeps := sleeps + [reset.value];
          i := i + 1;
          continue;
        }
        sleeps := sleeps + [baseSleep * (i + 1)];
        i := i + 1;
        continue;
      }
      if 500 <= r.status < 600 {
        sleeps := sleeps + [baseSleep * (i + 1)];
        i := i + 1;
        continue;
      }
      if 400 <= r.status < 600 {
        return Raised(r, i), sleeps;
      }
      var reset := ResetSleep(r, clock(i));
      sleeps := sleeps + SleepOf(reset);
      return Returned(r, i), sleeps;
    }
    if i == 0 {
      return Unbound, sleeps;
    }
    return Raised(respond(i - 1), i - 1), sleeps;
  }
}
