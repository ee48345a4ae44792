/** Querying the registrar: `get_status` classifies the reply for one domain and
    retries on network failures and on rate limiting; `get_data` asks for every
    root/TLD pair and throttles itself to `calls_per_min` requests per window of
    sixty seconds.

    The network is replaced by a supplied sequence of responses (one per
    attempt), the wall clock by an integer clock that advances only where the
    program sleeps or where a request takes time, and the operator prompt by a
    counter of escalations. */
module Query {
  import opened Wrappers

  /** The fields of the decoded JSON body that the program reads. */
  datatype Json = Json(
    available: Option<bool>,
    code: Option<string>,
    message: Option<string>,
    retryAfterSec: Option<nat>)

  /** What one GET request produced: a transport failure
      (`requests.exceptions.RequestException`) or a decoded body. */
  datatype Response = TransportError | Reply(body: Json)

  /** The three strings `get_status` returns. */
  datatype Status = Available | Unavailable | Unknown

  const TooManyRequests: string := "TOO_MANY_REQUESTS"

  /** What a decoded body tells the caller to do: return a status, sleep and ask
      again, or abort because a key the handling reads is absent (the
      `KeyError` branch, which ends the program). */
  datatype Step = Answer(status: Status) | RateLimited(delay: nat) | Malformed

  /** The classification of a decoded body. A present `available` key decides
      the answer; otherwise `code` must be present; "TOO_MANY_REQUESTS" needs
      `retryAfterSec` (it is logged and slept on), any other code needs `message`
      (it is logged) and yields "Unknown". */
  function Classify(j: Json): (r: Step)
    ensures r == Answer(Available) <==> j.available == Some(true)
    ensures r == Answer(Unavailable) <==> j.available == Some(false)
    ensures r == Answer(Unknown) <==>
      j.available.None? && j.code.Some? && j.code.value != TooManyRequests && j.message.Some?
    ensures r.RateLimited? <==>
      j.available.None? && j.code == Some(TooManyRequests) && j.retryAfterSec.Some?
    ensures r.RateLimited? ==> r.delay == j.retryAfterSec.value
  {
    match j.available
    case Some(a) => if a then Answer(Available) else Answer(Unavailable)
    case None =>
      match j.code
      case None => Malformed
      case Some(c) =>
        if c == TooManyRequests then
          (match j.retryAfterSec
           case Some(d) => RateLimited(d)
           case None => Malformed)
        else
          (match j.message
           case Some(_) => Answer(Unknown)
           case None => Malformed)
  }

  /** The verdict a classification that is not a rate limit ends the call
      with: the status it answers, or the abort of the `KeyError` branch. */
  function Settle(st: Step): (v: Verdict)
    requires !st.RateLimited?
    ensures v == Fatal <==> st.Malformed?
    ensures st.Answer? ==> v == Answered(st.status)
    ensures v != NoAnswer
  {
    match st
    case Answer(status) => Answered(status)
    case Malformed => Fatal
  }

  /** How many consecutive transport failures are retried after a fixed pause
      before the operator is asked to check the network. */
  const MaxNetAttempts: nat := 5

  /** The pause after a transport failure: a constant five seconds. */
  const NetRetryPause: nat := 5

  /** The pause the log message announces after the `count`-th consecutive
      failure (counting from 0); it is never the pause actually taken. */
  function AnnouncedPause(count: nat): (d: nat)
    ensures d >= 20 && d != NetRetryPause
  {
    20 * (count + 1)
  }

  /** The global state `get_status` reads and writes, as a value:
      `net_attempt_counts`, `cpm_t0`, the clock, the pauses taken so far and the
      number of operator prompts. */
  datatype Quota = Quota(count: nat, t0: int, now: int, sleeps: seq<nat>, prompts: nat)

  /** How a call of `get_status` ends: with a status, with the program aborting,
      or (in the model only) with the supplied responses exhausted. */
  datatype Verdict = Answered(status: Status) | Fatal | NoAnswer

  /** The effect of one response: the call ends, or it retries from a new state. */
  datatype Handled = Final(verdict: Verdict, after: Quota) | Again(after: Quota)

  /** Sleeping `d` seconds: the clock advances by `d` and the pause is recorded. */
  function Sleep(q: Quota, d: nat): (r: Quota)
    ensures r.now == q.now + d && r.sleeps == q.sleeps + [d]
    ensures r.count == q.count && r.t0 == q.t0 && r.prompts == q.prompts
  {
    q.(now := q.now + d, sleeps := q.sleeps + [d])
  }

  /** One attempt of `get_status`. A transport failure with fewer than five
      failures counted pauses and counts one more; with five counted it prompts
      the operator and retries with the count unchanged. Any decoded body resets
      the count first; a rate limit then sleeps `retryAfterSec` and restarts the
      throttle window at the current time. */
  function Handle(resp: Response, q: Quota): (h: Handled)
    ensures resp.TransportError? ==> h.Again?
    ensures resp.Reply? ==> h.after.count == 0 && h.after.prompts == q.prompts
    ensures resp.Reply? ==> (h.Again? <==> Classify(resp.body).RateLimited?)
    ensures resp.Reply? && Classify(resp.body).RateLimited? ==>
      h.after == Sleep(q.(count := 0), Classify(resp.body).delay).(t0 := q.now + Classify(resp.body).delay)
    ensures resp.Reply? && !Classify(resp.body).RateLimited? ==>
      h == Final(Settle(Classify(resp.body)), q.(count := 0))
    ensures h.after.now >= q.now
  {
    match resp
    case TransportError =>
      if q.count < MaxNetAttempts then
        Again(Sleep(q, NetRetryPause).(count := q.count + 1))
      else
        Again(q.(prompts := q.prompts + 1))
    case Reply(j) =>
      var q0 := q.(count := 0);
      match Classify(j)
      case Answer(s) => Final(Answered(s), q0)
      case Malformed => Final(Fatal, q0)
      case RateLimited(d) =>
        var q1 := Sleep(q0, d);
        Again(q1.(t0 := q1.now))
  }

  /** The result of `get_status` fed the responses `rs` in turn: the verdict,
      how many responses it consumed and the final state. */
  datatype Attempt = Attempt(verdict: Verdict, used: nat, after: Quota)

  /** The recursive `get_status`: each retry consumes the next response. A
      call that returns or aborts has consumed at least one response and leaves
      the failure count at zero; the clock never goes back. */
  function Run(rs: seq<Response>, q: Quota): (r: Attempt)
    ensures r.used <= |rs|
    ensures r.verdict == NoAnswer ==> r.used == |rs|
    ensures r.verdict != NoAnswer ==> r.used > 0 && r.after.count == 0
    ensures r.after.now >= q.now
    decreases |rs|
  {
    if rs == [] then Attempt(NoAnswer, 0, q)
    else
      match Handle(rs[0], q)
      case Final(v, q1) => Attempt(v, 1, q1)
      case Again(q1) =>
        var r := Run(rs[1..], q1);
        Attempt(r.verdict, r.used + 1, r.after)
  }

  /** The failure count never exceeds five: from a count of at most five,
      every state a call reaches has a count of at most five. */
  lemma {:induction false} CountBounded(rs: seq<Response>, q: Quota)
    requires q.count <= MaxNetAttempts
    ensures Run(rs, q).after.count <= MaxNetAttempts
    decreases |rs|
  {
    if rs != [] && Handle(rs[0], q).Again? {
      CountBounded(rs[1..], Handle(rs[0], q).after);
    }
  }

  /** The verdict of a call is decided by the response that ended it: the
      last one consumed is a decoded body that is not a rate limit, the verdict
      is its classification, and every response before it was a transport
      failure or a rate limit. */
  lemma {:induction false} RunVerdict(rs: seq<Response>, q: Quota)
    ensures var r := Run(rs, q);
      r.verdict != NoAnswer ==>
        && rs[r.used - 1].Reply? && !Classify(rs[r.used - 1].body).RateLimited?
        && r.verdict == Settle(Classify(rs[r.used - 1].body))
        && forall i :: 0 <= i < r.used - 1 ==>
             rs[i].TransportError? || Classify(rs[i].body).RateLimited?
  {
    if rs != [] {
      var h := Handle(rs[0], q);
      if h.Again? {
        RunVerdict(rs[1..], h.after);
        var r := Run(rs, q);
        if r.verdict != NoAnswer {
          assert forall i :: 1 <= i < r.used ==> rs[i] == rs[1..][i - 1];
        }
      }
    }
  }

  /** `k` transport failures in a row. */
  function Failures(k: nat): (rs: seq<Response>)
    ensures |rs| == k && forall i :: 0 <= i < k ==> rs[i] == TransportError
  {
    seq(k, _ => TransportError)
  }

  /** A streak of `k` transport failures starting from `c <= 5` counted ones:
      the first `5 - c` of them each pause five seconds and count one more, every
      later one prompts the operator and leaves the count at five. The streak
      never ends the call and never touches the throttle window. */
  lemma {:induction false} FailureStreak(k: nat, q: Quota)
    requires q.count <= MaxNetAttempts
    ensures var paused := if k <= MaxNetAttempts - q.count then k else MaxNetAttempts - q.count;
      var r := Run(Failures(k), q);
      && r.verdict == NoAnswer && r.used == k
      && r.after.count == q.count + paused
      && r.after.prompts == q.prompts + (k - paused)
      && r.after.now == q.now + NetRetryPause * paused
      && r.after.sleeps == q.sleeps + seq(paused, _ => NetRetryPause)
      && r.after.t0 == q.t0
  {
    if k > 0 {
      assert Failures(k)[1..] == Failures(k - 1);
      var h := Handle(TransportError, q);
      FailureStreak(k - 1, h.after);
      if q.count < MaxNetAttempts {
        var paused := if k <= MaxNetAttempts - q.count then k else MaxNetAttempts - q.count;
        assert q.sleeps + seq(paused, _ => NetRetryPause)
          == q.sleeps + [NetRetryPause] + seq(paused - 1, _ => NetRetryPause);
      }
    }
  }

  /** From a clean count, five failures in a row only pause; the operator is
      first prompted on the sixth, after which the count stays at five. */
  lemma PromptOnSixthFailure(q: Quota)
    requires q.count == 0
    ensures Run(Failures(5), q).after.prompts == q.prompts
    ensures Run(Failures(5), q).after.count == MaxNetAttempts
    ensures Run(Failures(6), q).after.prompts == q.prompts + 1
    ensures Run(Failures(6), q).after.count == MaxNetAttempts
  {
    FailureStreak(5, q);
    FailureStreak(6, q);
  }

  /** A retried failure moves the clock by the five seconds actually slept,
      never by the pause its log message announces. */
  lemma PauseNotAsAnnounced(q: Quota)
    requires q.count < MaxNetAttempts
    ensures var r := Handle(TransportError, q).after;
      && r.now - q.now == NetRetryPause && r.now - q.now != AnnouncedPause(q.count)
      && r.sleeps == q.sleeps + [NetRetryPause] && r.count == q.count + 1
  {
  }

  /** The total of a sequence of pauses. */
  function Sum(s: seq<nat>): (total: nat)
  {
    if s == [] then 0 else s[0] + Sum(s[1..])
  }

  /** `get_status` only ever appends pauses, and the clock advances by exactly
      the pauses it appends (requests themselves take no time in this model). */
  lemma {:induction false} ClockFollowsSleeps(rs: seq<Response>, q: Quota)
    ensures var r := Run(rs, q);
      && |q.sleeps| <= |r.after.sleeps| && r.after.sleeps[..|q.sleeps|] == q.sleeps
      && r.after.now == q.now + Sum(r.after.sleeps[|q.sleeps|..])
  {
    var r := Run(rs, q);
    if rs != [] {
      var h := Handle(rs[0], q);
      if h.Again? {
        ClockFollowsSleeps(rs[1..], h.after);
        var n := |q.sleeps|;
        if |h.after.sleeps| == n + 1 {
          var tail := r.after.sleeps[n + 1..];
          assert r.after.sleeps[n..] == [h.after.sleeps[n]] + tail;
          assert r.after.sleeps[..n] == h.after.sleeps[..n];
        } else {
          assert r.after.sleeps[..n] == h.after.sleeps[..n];
        }
      } else {
        assert r.after.sleeps[|q.sleeps|..] == [];
      }
    } else {
      assert r.after.sleeps[|q.sleeps|..] == [];
    }
  }

  /** Consuming a response at the front of the sequence: the result of the rest
      with one more response counted. */
  function Shift(a: Attempt, k: nat): (r: Attempt)
    ensures r.verdict == a.verdict && r.after == a.after && r.used == a.used + k
  {
    a.(used := a.used + k)
  }

  /** A network failure, a rate limit of thirty seconds and a definite reply:
      three responses, two pauses, the count back to zero and the throttle
      window restarted when the rate limit was served. */
  lemma RetryScenario()
    ensures Run([TransportError,
                 Reply(Json(None, Some(TooManyRequests), None, Some(30))),
                 Reply(Json(Some(false), None, None, None))],
                Quota(0, 0, 100, [], 0))
      == Attempt(Answered(Unavailable), 3, Quota(0, 135, 135, [5, 30], 0))
  {
    var q0 := Quota(0, 0, 100, [], 0);
    var rs := [TransportError,
               Reply(Json(None, Some(TooManyRequests), None, Some(30))),
               Reply(Json(Some(false), None, None, None))];
    assert rs[1..] == rs[1..2] + rs[2..] && rs[1..][1..] == rs[2..];
    var q1 := Quota(1, 0, 105, [5], 0);
    var q2 := Quota(0, 135, 135, [5, 30], 0);
    assert Handle(rs[0], q0) == Again(q1);
    assert Handle(rs[1], q1) == Again(q2);
    assert Run(rs[2..], q2) == Attempt(Answered(Unavailable), 1, q2);
  }

  /** The only multiple of a positive `n` strictly between `-n` and `n` is 0. */
  lemma OnlyZeroMultiple(n: int, k: int)
    requires n > 0 && -n < n * k < n
    ensures k == 0
  {
    if k >= 1 {
      MulAtLeast(n, k);
    } else if k <= -1 {
      MulAtLeast(n, -k);
    }
  }

  lemma {:induction false} MulAtLeast(n: int, k: int)
    requires n > 0 && k >= 1
    ensures n * k >= n
  {
    if k > 1 {
      MulAtLeast(n, k - 1);
      assert n * k == n * (k - 1) + n;
    }
  }

  /** Division with remainder is unique. */
  lemma DivModUnique(x: int, n: int, d: int, m: int)
    requires n > 0 && x == n * d + m && 0 <= m < n
    ensures x / n == d && x % n == m
  {
    var d', m' := x / n, x % n;
    assert n * (d - d') == m' - m;
    OnlyZeroMultiple(n, d - d');
  }

  /** For positive `n`, the number of completed windows of `n` requests grows by
      one exactly when the request count reaches a multiple of `n`. */
  lemma DivStep(q: nat, n: nat)
    requires n > 0
    ensures (q + 1) % n == 0 ==> (q + 1) / n == q / n + 1
    ensures (q + 1) % n != 0 ==> (q + 1) / n == q / n
  {
    var d, m := q / n, q % n;
    if m + 1 == n {
      DivModUnique(q + 1, n, d + 1, 0);
    } else {
      DivModUnique(q + 1, n, d, m + 1);
    }
  }

  /** Every request was issued between `start` and `until`, and (for a
      positive limit) request `q` no earlier than `q / callsPerMin` windows of
      sixty seconds after `start`. */
  ghost predicate IssuedFrom(callsPerMin: int, start: int, issued: seq<int>, until: int)
  {
    forall q :: 0 <= q < |issued| ==>
      && start <= issued[q] <= until
      && (callsPerMin > 0 ==> issued[q] >= start + 60 * (q / callsPerMin))
  }

  /** A request issued at `t`, no earlier than the start `t0` of a window that
      the completed windows allow, keeps `IssuedFrom` as the clock moves on. */
  lemma IssueNext(callsPerMin: int, start: int, issued: seq<int>, t0: int, t: int, until: int)
    requires IssuedFrom(callsPerMin, start, issued, t) && start <= t0 <= t <= until
    requires callsPerMin > 0 ==> t0 >= start + 60 * (|issued| / callsPerMin)
    ensures IssuedFrom(callsPerMin, start, issued + [t], until)
  {
    var u := issued + [t];
    assert forall q :: 0 <= q < |issued| ==> u[q] == issued[q];
  }

  /** One response consumed from position `k`: the run from `k` is the run
      from `k + 1` after the response, or ends there. */
  lemma RunStep(rs: seq<Response>, k: nat, q: Quota)
    requires k < |rs|
    ensures Run(rs[k..], q) == match Handle(rs[k], q)
      case Final(v, q1) => Attempt(v, 1, q1)
      case Again(q1) => Shift(Run(rs[k + 1..], q1), 1)
  {
    assert rs[k..][1..] == rs[k + 1..];
  }

  /** `vals` lists the statuses of `roots[i] + top` for the first `n` roots. */
  ghost predicate RowUpTo(vals: seq<Status>, top: string, roots: seq<string>, n: nat,
                          status: string -> Status)
    requires n <= |roots|
  {
    |vals| == n && forall i :: 0 <= i < n ==> vals[i] == status(roots[i] + top)
  }

  /** Appending the status of the next root's domain extends the row by one. */
  lemma RowUpToNext(vals: seq<Status>, top: string, roots: seq<string>, n: nat,
                    status: string -> Status)
    requires n < |roots| && RowUpTo(vals, top, roots, n, status)
    ensures RowUpTo(vals + [status(roots[n] + top)], top, roots, n + 1, status)
  {
  }

  /** `data` maps each of `tops` (none when there are no roots) to its full row. */
  ghost predicate Table(data: map<string, seq<Status>>, tops: seq<string>, roots: seq<string>,
                        status: string -> Status)
  {
    && data.Keys == (if |roots| == 0 then {} else set t | t in tops)
    && forall t :: t in data ==> RowUpTo(data[t], t, roots, |roots|, status)
  }

  /** Entering the full row of one more TLD (no entry when there are no roots,
      since the update loop then never runs). */
  lemma TableAdd(data: map<string, seq<Status>>, tops: seq<string>, top: string,
                 roots: seq<string>, vals: seq<Status>, status: string -> Status)
    requires Table(data, tops, roots, status) && RowUpTo(vals, top, roots, |roots|, status)
    ensures Table(if |roots| == 0 then data else data[top := vals], tops + [top], roots, status)
  {
    assert (set t | t in tops + [top]) == (set t | t in tops) + {top};
  }

  /** The throttle's effect on the window start and the clock once the
      `requests`-th request is done: when the limit divides the count, the clock
      is moved to at least sixty seconds after the window start and a new window
      starts there; otherwise both stay. */
  function ThrottleStep(callsPerMin: int, requests: nat, t0: int, now: int): (r: (int, int))
    ensures callsPerMin > 0 && requests % callsPerMin == 0 ==>
      r.0 == r.1 && r.1 >= now && r.1 >= t0 + 60 && (now - t0 < 60 ==> r.1 == t0 + 60)
    ensures callsPerMin > 0 && requests % callsPerMin == 0 && now - t0 >= 60 ==> r == (now, now)
    ensures !(callsPerMin > 0 && requests % callsPerMin == 0) ==> r == (t0, now)
  {
    if callsPerMin > 0 && requests % callsPerMin == 0 then
      var later := if now - t0 < 60 then t0 + 60 else now;
      (later, later)
    else (t0, now)
  }

  /** The pause the throttle takes once the `requests`-th request is done:
      the rest of a window younger than sixty seconds when the limit divides
      the count, and none otherwise. */
  function ThrottlePause(callsPerMin: int, requests: nat, t0: int, now: int): (ps: seq<nat>)
    ensures |ps| <= 1 && forall k :: 0 <= k < |ps| ==> 0 < ps[k] && (t0 <= now ==> ps[k] <= 60)
    ensures |ps| == 1 <==> callsPerMin > 0 && requests % callsPerMin == 0 && now - t0 < 60
    ensures |ps| == 1 ==> now + ps[0] == ThrottleStep(callsPerMin, requests, t0, now).1
  {
    if callsPerMin > 0 && requests % callsPerMin == 0 && now - t0 < 60 then [60 - (now - t0)] else []
  }

  /** The throttle window as `get_data` sees it: its start, the clock and the
      throttle pauses taken so far. */
  datatype Window = Window(t0: int, now: int, pauses: seq<nat>)

  /** One more request taking `c` seconds, the `requests`-th, followed by the
      throttle. */
  function Advance(callsPerMin: int, requests: nat, w: Window, c: nat): (v: Window)
    ensures w.now + c <= v.now && w.t0 <= v.t0
    ensures v.t0 == v.now || v.t0 == w.t0
  {
    var s := ThrottleStep(callsPerMin, requests, w.t0, w.now + c);
    Window(s.0, s.1, w.pauses + ThrottlePause(callsPerMin, requests, w.t0, w.now + c))
  }

  /** One step only appends a pause, at most one, and the clock moves by the
      request's time plus exactly the pause appended. */
  lemma AdvanceClock(callsPerMin: int, requests: nat, w: Window, c: nat)
    ensures var v := Advance(callsPerMin, requests, w, c);
      && |w.pauses| <= |v.pauses| <= |w.pauses| + 1 && v.pauses[..|w.pauses|] == w.pauses
      && v.now == w.now + c + Sum(v.pauses[|w.pauses|..])
  {
    var v := Advance(callsPerMin, requests, w, c);
    assert v.pauses[..|w.pauses|] == w.pauses;
    if |v.pauses| > |w.pauses| {
      assert v.pauses[|w.pauses|..] == [v.pauses[|w.pauses|]];
    } else {
      assert v.pauses[|w.pauses|..] == [];
    }
  }

  /** The window after `get_data` has made requests taking `costs` seconds
      each, starting with a fresh window at `start`. */
  function After(callsPerMin: int, start: int, costs: seq<nat>): (w: Window)
    ensures start <= w.t0 <= w.now
    decreases |costs|
  {
    if costs == [] then Window(start, start, [])
    else Advance(callsPerMin, |costs|, After(callsPerMin, start, costs[..|costs| - 1]), costs[|costs| - 1])
  }

  /** The clock readings at which those requests are issued: each one when the
      previous ones and their throttle pauses are over. */
  function IssueTimes(callsPerMin: int, start: int, costs: seq<nat>): (ts: seq<int>)
    ensures |ts| == |costs|
    decreases |costs|
  {
    if costs == [] then []
    else
      var prev := costs[..|costs| - 1];
      IssueTimes(callsPerMin, start, prev) + [After(callsPerMin, start, prev).now]
  }

  /** One more request taking `c` seconds: it is issued at the current clock,
      and the throttle then acts on the count that includes it. */
  lemma ScheduleStep(callsPerMin: int, start: int, done: seq<nat>, c: nat)
    ensures var a := After(callsPerMin, start, done);
      && IssueTimes(callsPerMin, start, done + [c]) == IssueTimes(callsPerMin, start, done) + [a.now]
      && After(callsPerMin, start, done + [c]) == Advance(callsPerMin, |done| + 1, a, c)
  {
    var d := done + [c];
    assert d[..|d| - 1] == done;
  }

  /** A request taking `c` seconds, then the throttle acting on the window,
      clock and pauses the schedule gives after `done`, give those it gives
      after `done + [c]`. */
  lemma FollowsNext(callsPerMin: int, start: int, done: seq<nat>, c: nat,
                    s0: seq<nat>, sleeps: seq<nat>, t0: int, now: int, sleepsAfter: seq<nat>)
    requires var a := After(callsPerMin, start, done);
      && sleeps == s0 + a.pauses
      && (t0, now) == ThrottleStep(callsPerMin, |done| + 1, a.t0, a.now + c)
      && sleepsAfter == sleeps + ThrottlePause(callsPerMin, |done| + 1, a.t0, a.now + c)
    ensures var a := After(callsPerMin, start, done);
      var w := After(callsPerMin, start, done + [c]);
      && IssueTimes(callsPerMin, start, done + [c]) == IssueTimes(callsPerMin, start, done) + [a.now]
      && t0 == w.t0 && now == w.now && sleepsAfter == s0 + w.pauses
  {
    ScheduleStep(callsPerMin, start, done, c);
  }

  /** The window start never falls behind one full window per `callsPerMin`
      requests. */
  lemma {:induction false} WindowBound(callsPerMin: int, start: int, costs: seq<nat>)
    requires callsPerMin > 0
    ensures After(callsPerMin, start, costs).t0 >= start + 60 * (|costs| / callsPerMin)
    decreases |costs|
  {
    if costs != [] {
      WindowBound(callsPerMin, start, costs[..|costs| - 1]);
      DivStep(|costs| - 1, callsPerMin);
    }
  }

  /** What the schedule guarantees: the window start never falls behind one
      full window per `callsPerMin` requests, every request is issued between
      `start` and the current clock and no earlier than its window allows,
      and every pause lasts at most sixty seconds. */
  lemma {:induction false} ScheduleBound(callsPerMin: int, start: int, costs: seq<nat>)
    ensures var w := After(callsPerMin, start, costs);
      && (callsPerMin > 0 ==> w.t0 >= start + 60 * (|costs| / callsPerMin))
      && IssuedFrom(callsPerMin, start, IssueTimes(callsPerMin, start, costs), w.now)
      && forall k :: 0 <= k < |w.pauses| ==> 0 < w.pauses[k] <= 60
    decreases |costs|
  {
    if costs != [] {
      var prev, c := costs[..|costs| - 1], costs[|costs| - 1];
      ScheduleBound(callsPerMin, start, prev);
      var a := After(callsPerMin, start, prev);
      var w := After(callsPerMin, start, costs);
      if callsPerMin > 0 {
        WindowBound(callsPerMin, start, costs);
      }
      IssueNext(callsPerMin, start, IssueTimes(callsPerMin, start, prev), a.t0, a.now, w.now);
      var tp := ThrottlePause(callsPerMin, |costs|, a.t0, a.now + c);
      assert w.pauses == a.pauses + tp;
      assert forall k :: 0 <= k < |w.pauses| ==> 0 < w.pauses[k] <= 60 by {
        forall k | 0 <= k < |w.pauses| ensures 0 < w.pauses[k] <= 60 {
          if k >= |a.pauses| {
            assert w.pauses[k] == tp[k - |a.pauses|];
          }
        }
      }
    }
  }

  /** With two calls a minute, a first request taking `c` seconds and a
      second taking none, the throttle sleeps the rest of the first minute. */
  lemma FirstWindowSlept(c: nat)
    requires 0 < c < 60
    ensures IssueTimes(2, 0, [c, 0]) == [0, c]
    ensures After(2, 0, [c, 0]) == Window(60, 60, [60 - c])
  {
    ScheduleStep(2, 0, [], c);
    assert [] + [c] == [c];
    ScheduleStep(2, 0, [c], 0);
    assert [c] + [0] == [c, 0];
  }

  /** The throttle bounds requests per fixed window, not per sliding window:
      with two calls a minute and a first request taking `c` seconds, less
      than a minute, the second, third and fourth requests are issued within
      `60 - c` seconds of each other. */
  lemma SlidingWindowExceeded(c: nat)
    requires 0 < c < 60
    ensures var ts := IssueTimes(2, 0, [c, 0, 0, 0]);
      ts == [0, c, 60, 60] && ts[3] - ts[1] == 60 - c < 60
  {
    FirstWindowSlept(c);
    ScheduleStep(2, 0, [c, 0], 0);
    assert [c, 0] + [0] == [c, 0, 0];
    ScheduleStep(2, 0, [c, 0, 0], 0);
    assert [c, 0, 0] + [0] == [c, 0, 0, 0];
  }

  /** The time each request of one TLD's row takes, in the order of the roots. */
  function RowCosts(top: string, roots: seq<string>, cost: string -> nat): (cs: seq<nat>)
    ensures |cs| == |roots| && forall i :: 0 <= i < |roots| ==> cs[i] == cost(roots[i] + top)
    decreases |roots|
  {
    if roots == [] then []
    else RowCosts(top, roots[..|roots| - 1], cost) + [cost(roots[|roots| - 1] + top)]
  }

  /** One more root: its request's cost follows those of the roots before it. */
  lemma RowCostsNext(top: string, roots: seq<string>, r: nat, cost: string -> nat)
    requires r < |roots|
    ensures RowCosts(top, roots[..r + 1], cost) == RowCosts(top, roots[..r], cost) + [cost(roots[r] + top)]
  {
    assert roots[..r + 1][..r] == roots[..r];
  }

  /** The time each request of `get_data` takes, TLDs outermost. */
  function PairCosts(tops: seq<string>, roots: seq<string>, cost: string -> nat): (cs: seq<nat>)
    ensures |cs| == |tops| * |roots|
    decreases |tops|
  {
    if tops == [] then []
    else
      var cs := PairCosts(tops[..|tops| - 1], roots, cost) + RowCosts(tops[|tops| - 1], roots, cost);
      assert |tops| * |roots| == (|tops| - 1) * |roots| + |roots|;
      cs
  }

  /** One more TLD: its row's costs follow those of the TLDs before it. */
  lemma PairCostsNext(tops: seq<string>, a: nat, roots: seq<string>, cost: string -> nat)
    requires a < |tops|
    ensures tops[..a + 1] == tops[..a] + [tops[a]]
    ensures PairCosts(tops[..a + 1], roots, cost) == PairCosts(tops[..a], roots, cost) + RowCosts(tops[a], roots, cost)
    ensures (a + 1) * |roots| == a * |roots| + |roots|
  {
    assert tops[..a + 1][..a] == tops[..a];
  }

  /** The program's global state: `net_attempt_counts`, `cpm_t0`, the clock,
      the pauses taken and the operator prompts. */
  class Checker {
    var netAttemptCounts: nat
    var cpmT0: int
    var now: int
    var sleeps: seq<nat>
    var prompts: nat

    function State(): (q: Quota)
      reads this
    {
      Quota(netAttemptCounts, cpmT0, now, sleeps, prompts)
    }

    /** The start of the run: no failures counted and the throttle window
        starting at the current time. */
    constructor(start: int)
      ensures State() == Quota(0, start, start, [], 0)
    {
      netAttemptCounts, cpmT0, now, sleeps, prompts := 0, start, start, [], 0;
    }

    /** `get_status` for one domain, fed one response per attempt: the loop
        replaces the self-call made on every retry. It ends as `Run` says. */
    method GetStatus(responses: seq<Response>) returns (verdict: Verdict, used: nat)
      modifies this
      ensures Attempt(verdict, used, State()) == Run(responses, old(State()))
    {
      var k := 0;
      while k < |responses|
        invariant 0 <= k <= |responses|
        invariant Shift(Run(responses[k..], State()), k) == Run(responses, old(State()))
      {
        RunStep(responses, k, State());
        ghost var h := Handle(responses[k], State());
        match responses[k] {
          case TransportError =>
            if netAttemptCounts < MaxNetAttempts {
              now, sleeps := now + NetRetryPause, sleeps + [NetRetryPause];
              netAttemptCounts := netAttemptCounts + 1;
            } else {
              prompts := prompts + 1;
            }
          case Reply(j) =>
            netAttemptCounts := 0;
            match Classify(j) {
              case Answer(s) =>
                return Answered(s), k + 1;
              case Malformed =>
                return Fatal, k + 1;
              case RateLimited(d) =>
                now, sleeps := now + d, sleeps + [d];
                cpmT0 := now;
            }
        }
        assert State() == h.after;
        k := k + 1;
      }
      return NoAnswer, |responses|;
    }

    /** The current window started at or after `start`, and (for a positive
        limit) at least one full window per `callsPerMin` requests after it. */
    ghost predicate WindowFrom(callsPerMin: int, start: int, requests: nat)
      reads this
    {
      && start <= cpmT0 <= now
      && (callsPerMin > 0 ==> cpmT0 >= start + 60 * (requests / callsPerMin))
    }

    /** The pauses taken extend `s0` by pauses of at most sixty seconds each. */
    ghost predicate PausesExtend(s0: seq<nat>)
      reads this
    {
      && |s0| <= |sleeps| && sleeps[..|s0|] == s0
      && forall k :: |s0| <= k < |sleeps| ==> 0 < sleeps[k] <= 60
    }

    /** The throttle after the `requests`-th request: when the limit is
        positive and divides the count, a window younger than sixty seconds is
        slept out to its end, and a new window starts now. Otherwise nothing
        happens. */
    method Throttle(callsPerMin: int, requests: nat, ghost start: int)
      requires requests > 0 && start <= cpmT0 <= now
      requires callsPerMin > 0 ==> cpmT0 >= start + 60 * ((requests - 1) / callsPerMin)
      modifies this
      ensures callsPerMin > 0 && requests % callsPerMin == 0 ==>
        && now == (if old(now) - old(cpmT0) < 60 then old(cpmT0) + 60 else old(now))
        && cpmT0 == now
      ensures callsPerMin > 0 && requests % callsPerMin == 0 ==>
        sleeps == old(sleeps) + (if old(now) - old(cpmT0) < 60 then [60 - (old(now) - old(cpmT0))] else [])
      ensures sleeps == old(sleeps) + ThrottlePause(callsPerMin, requests, old(cpmT0), old(now))
      ensures !(callsPerMin > 0 && requests % callsPerMin == 0) ==>
        now == old(now) && cpmT0 == old(cpmT0) && sleeps == old(sleeps)
      ensures (cpmT0, now) == ThrottleStep(callsPerMin, requests, old(cpmT0), old(now))
      ensures WindowFrom(callsPerMin, start, requests) && PausesExtend(old(sleeps))
      ensures netAttemptCounts == old(netAttemptCounts) && prompts == old(prompts)
    {
      if callsPerMin > 0 {
        DivStep(requests - 1, callsPerMin);
      }
      if callsPerMin > 0 && requests % callsPerMin == 0 {
        if now - cpmT0 < 60 {
          var pause := 60 - (now - cpmT0);
          now, sleeps := now + pause, sleeps + [pause];
        }
        cpmT0 := now;
      }
    }

    /** The window start, the clock and the pauses are those the schedule
        gives after the requests taking `done`, and `issued` lists their issue
        times. */
    ghost predicate Follows(callsPerMin: int, start: int, s0: seq<nat>, done: seq<nat>, issued: seq<int>)
      reads this
    {
      var w := After(callsPerMin, start, done);
      issued == IssueTimes(callsPerMin, start, done) && cpmT0 == w.t0 && now == w.now && sleeps == s0 + w.pauses
    }

    /** One request of `get_data`, taking `c` seconds, then the throttle on
        the count that includes it: the request is issued at the current clock
        and the schedule advances by it. */
    method AskOne(c: nat, callsPerMin: int, requests0: nat, ghost start: int, ghost s0: seq<nat>,
                  ghost done0: seq<nat>, ghost issued0: seq<int>)
      returns (requests: nat, ghost done: seq<nat>, ghost issued: seq<int>)
      requires |done0| == requests0
      requires Follows(callsPerMin, start, s0, done0, issued0)
      modifies this
      ensures requests == requests0 + 1
      ensures done == done0 + [c] && issued == issued0 + [old(now)]
      ensures Follows(callsPerMin, start, s0, done, issued)
      ensures netAttemptCounts == old(netAttemptCounts) && prompts == old(prompts)
    {
      if callsPerMin > 0 {
        WindowBound(callsPerMin, start, done0);
      }
      ghost var before := sleeps;
      issued := issued0 + [now];
      now := now + c;
      requests := requests0 + 1;
      Throttle(callsPerMin, requests, start);
      FollowsNext(callsPerMin, start, done0, c, s0, before, cpmT0, now, sleeps);
      done := done0 + [c];
    }

    /** The inner loop of `get_data` for one TLD: one request per root, in the
        order of the roots, each followed by the throttle. */
    method AskRow(top: string, roots: seq<string>, callsPerMin: int,
                  status: string -> Status, cost: string -> nat, requests0: nat,
                  ghost start: int, ghost s0: seq<nat>, ghost done0: seq<nat>, ghost issued0: seq<int>)
      returns (vals: seq<Status>, requests: nat, ghost done: seq<nat>, ghost issued: seq<int>)
      requires |done0| == requests0
      requires Follows(callsPerMin, start, s0, done0, issued0)
      modifies this
      ensures RowUpTo(vals, top, roots, |roots|, status)
      ensures requests == requests0 + |roots|
      ensures done == done0 + RowCosts(top, roots, cost)
      ensures Follows(callsPerMin, start, s0, done, issued)
      ensures netAttemptCounts == old(netAttemptCounts) && prompts == old(prompts)
    {
      vals, requests, done, issued := [], requests0, done0, issued0;
      var r := 0;
      while r < |roots|
        invariant 0 <= r <= |roots|
        invariant requests == requests0 + r && |done| == requests
        invariant RowUpTo(vals, top, roots, r, status)
        invariant done == done0 + RowCosts(top, roots[..r], cost)
        invariant Follows(callsPerMin, start, s0, done, issued)
        invariant netAttemptCounts == old(netAttemptCounts) && prompts == old(prompts)
      {
        var url := roots[r] + top;
        RowUpToNext(vals, top, roots, r, status);
        vals := vals + [status(url)];
        requests, done, issued := AskOne(cost(url), callsPerMin, requests, start, s0, done, issued);
        RowCostsNext(top, roots, r, cost);
        r := r + 1;
      }
      assert roots[..r] == roots;
    }

    /** One TLD of `get_data`: its row of requests, then `data[top]` set to
        the row once per root, so that the TLD is entered only when there are
        roots. */
    method AskTop(data0: map<string, seq<Status>>, ghost tops: seq<string>, top: string,
                  roots: seq<string>, callsPerMin: int, status: string -> Status, cost: string -> nat,
                  requests0: nat, ghost start: int, ghost s0: seq<nat>,
                  ghost done0: seq<nat>, ghost issued0: seq<int>)
      returns (data: map<string, seq<Status>>, requests: nat, ghost done: seq<nat>, ghost issued: seq<int>)
      requires Table(data0, tops, roots, status)
      requires |done0| == requests0
      requires Follows(callsPerMin, start, s0, done0, issued0)
      modifies this
      ensures Table(data, tops + [top], roots, status)
      ensures requests == requests0 + |roots|
      ensures done == done0 + RowCosts(top, roots, cost)
      ensures Follows(callsPerMin, start, s0, done, issued)
      ensures netAttemptCounts == old(netAttemptCounts) && prompts == old(prompts)
    {
      var vals;
      vals, requests, done, issued :=
        AskRow(top, roots, callsPerMin, status, cost, requests0, start, s0, done0, issued0);
      data := data0;
      var j := 0;
      while j < |roots|
        invariant 0 <= j <= |roots|
        invariant data == if j == 0 then data0 else data0[top := vals]
      {
        data := data[top := vals];
        j := j + 1;
      }
      TableAdd(data0, tops, top, roots, vals, status);
    }

    /** `get_data`: one request per pair, TLDs outermost, each TLD's row listing
        the statuses of `root + top` in the order of the roots. The status of a
        domain is the function `status` and the time a request takes is
        `cost`. `issued` records the clock at each request. The issue times, the
        new window, clock and pauses are exactly those of the throttle schedule
        over the requests' costs; in particular request `q` is never issued
        before `q / callsPerMin` whole windows of sixty seconds have passed
        since the start. */
    method GetData(tlds: seq<string>, roots: seq<string>, callsPerMin: int,
                   status: string -> Status, cost: string -> nat)
      returns (data: map<string, seq<Status>>, requests: nat, ghost issued: seq<int>)
      modifies this
      ensures requests == |tlds| * |roots| && |issued| == requests
      ensures data.Keys == if |roots| == 0 then {} else set t | t in tlds
      ensures forall t :: t in data ==>
        |data[t]| == |roots| && forall i :: 0 <= i < |roots| ==> data[t][i] == status(roots[i] + t)
      ensures issued == IssueTimes(callsPerMin, old(now), PairCosts(tlds, roots, cost))
      ensures var w := After(callsPerMin, old(now), PairCosts(tlds, roots, cost));
        cpmT0 == w.t0 && now == w.now && sleeps == old(sleeps) + w.pauses
      ensures callsPerMin > 0 ==>
        forall q :: 0 <= q < requests ==> issued[q] >= old(now) + 60 * (q / callsPerMin)
      ensures forall q :: 0 <= q < requests ==> old(now) <= issued[q] <= now
      ensures old(now) <= cpmT0 <= now
      ensures netAttemptCounts == old(netAttemptCounts) && prompts == old(prompts)
      ensures PausesExtend(old(sleeps))
    {
      data := map[];
      cpmT0 := now;
      requests := 0;
      issued := [];
      ghost var done: seq<nat> := [];
      var a := 0;
      while a < |tlds|
        invariant 0 <= a <= |tlds|
        invariant requests == a * |roots| && |done| == requests
        invariant done == PairCosts(tlds[..a], roots, cost)
        invariant Table(data, tlds[..a], roots, status)
        invariant Follows(callsPerMin, old(now), old(sleeps), done, issued)
        invariant netAttemptCounts == old(netAttemptCounts) && prompts == old(prompts)
      {
        var top := tlds[a];
        data, requests, done, issued :=
          AskTop(data, tlds[..a], top, roots, callsPerMin, status, cost,
                 requests, old(now), old(sleeps), done, issued);
        PairCostsNext(tlds, a, roots, cost);
        a := a + 1;
      }
      assert tlds[..a] == tlds;
      assert Table(data, tlds, roots, status);
      ScheduleBound(callsPerMin, old(now), done);
      assert sleeps[..|old(sleeps)|] == old(sleeps);
    }
  }

}
