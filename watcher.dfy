/** The state machine of watcher.py: the module-level globals `last_pool` and
    `last_alert_time`, owned here by one `Watcher` object, and the two
    functions that change them, `send_slack` and `check_pool`. Each method is
    tied to a pure function of the old state (`Alerts.Send`, `Observe`), and
    the properties are proved about those functions. */
module Watch {
  import opened Wrappers
  import opened PyStr
  import opened Alerts
  import opened Probe

  /** Both globals together. */
  datatype WatchState = WatchState(lastPool: Option<string>, lastAlert: map<AlertType, int>)

  /** The state at start-up: no pool is known and no alert was ever sent. */
  function InitialState(): WatchState {
    WatchState(None, InitialAlertTimes())
  }

  /** Python truthiness of `last_pool`: `None` and `""` are both unknown. */
  predicate Known(pool: Option<string>) {
    pool.Some? && pool.value != ""
  }

  /** The failover message naming the old and the new pool (the time of day
      the source appends to it is left out). */
  function FailoverMessage(oldPool: string, newPool: string): string {
    "*Failover!*\n" + oldPool + " \U{2192} " + newPool
  }

  /** A call of `send_slack`: the message it was given and what came of it. */
  datatype Attempt = Attempt(kind: AlertType, message: string, delivery: Delivery)

  /** One observation: the new state, the value `check_pool` returns and the
      alert it attempted, if any. */
  datatype Tick = Tick(state: WatchState, pool: Option<string>, attempt: Option<Attempt>)

  /** `check_pool` on the response text `stdout` at time `now`, where `raised`
      says whether the POST of an alert, if one is made, raises. */
  function Observe(s: WatchState, stdout: string, now: int, raised: bool): Tick {
    match ExtractPool(stdout)
    case None => Tick(s, None, None)
    case Some(p) =>
      if Known(s.lastPool) && p != s.lastPool.value then
        var sent := Send(s.lastAlert, Failover, now, raised);
        Tick(WatchState(Some(p), sent.times), Some(p),
             Some(Attempt(Failover, FailoverMessage(s.lastPool.value, p), sent.delivery)))
      else
        Tick(WatchState(Some(p), s.lastAlert), Some(p), None)
  }

  /** The failover message names both pools, the old one first, joined by
      an arrow. */
  lemma FailoverMessageNamesPools(oldPool: string, newPool: string)
    ensures Contains(FailoverMessage(oldPool, newPool), oldPool + " \U{2192} " + newPool)
    ensures Contains(FailoverMessage(oldPool, newPool), oldPool)
    ensures Contains(FailoverMessage(oldPool, newPool), newPool)
  {
    ContainsInfix("*Failover!*\n", oldPool + " \U{2192} " + newPool, "");
    assert FailoverMessage(oldPool, newPool) == "*Failover!*\n" + (oldPool + " \U{2192} " + newPool) + "";
    ContainsInfix("*Failover!*\n", oldPool, " \U{2192} " + newPool);
    assert FailoverMessage(oldPool, newPool) == "*Failover!*\n" + oldPool + (" \U{2192} " + newPool);
    ContainsInfix("*Failover!*\n" + oldPool + " \U{2192} ", newPool, "");
    assert FailoverMessage(oldPool, newPool) == "*Failover!*\n" + oldPool + " \U{2192} " + newPool + "";
  }

  /** `check_pool` returns the extracted pool; it returns `None`, changes
      nothing and attempts no alert exactly when the marker is absent. */
  lemma ObserveWithoutPool(s: WatchState, stdout: string, now: int, raised: bool)
    ensures Observe(s, stdout, now, raised).pool == ExtractPool(stdout)
    ensures Observe(s, stdout, now, raised).pool == None <==> !Contains(stdout, PoolHeader)
    ensures !Contains(stdout, PoolHeader) ==> Observe(s, stdout, now, raised) == Tick(s, None, None)
  {
    NoPoolIffNoMarker(stdout);
  }

  /** After any extraction the new pool is remembered, whether an alert was
      suppressed, failed, delivered or not called for. */
  lemma ObserveRemembersPool(s: WatchState, stdout: string, now: int, raised: bool)
    requires ExtractPool(stdout).Some?
    ensures Observe(s, stdout, now, raised).state.lastPool == ExtractPool(stdout)
  {
  }

  /** While the last pool is unknown (`None` or empty), an observation only
      seeds it: no alert, and the alert table is untouched. */
  lemma ObserveSeeds(s: WatchState, stdout: string, now: int, raised: bool)
    requires !Known(s.lastPool)
    ensures var t := Observe(s, stdout, now, raised);
      t.attempt == None && t.state.lastAlert == s.lastAlert
      && t.state.lastPool == (if ExtractPool(stdout).Some? then ExtractPool(stdout) else s.lastPool)
  {
  }

  /** Seeing the same pool again attempts nothing and changes nothing. */
  lemma ObserveSamePool(s: WatchState, stdout: string, now: int, raised: bool)
    requires ExtractPool(stdout) == s.lastPool
    ensures Observe(s, stdout, now, raised) == Tick(s, s.lastPool, None)
  {
  }

  /** A change away from a known pool makes exactly one failover dispatch,
      with a message that reads old pool, arrow, new pool; the table then moves as
      `send_slack` moves it and the new pool is remembered. */
  lemma ObserveFailover(s: WatchState, stdout: string, now: int, raised: bool)
    requires Known(s.lastPool) && ExtractPool(stdout).Some?
    requires ExtractPool(stdout) != s.lastPool
    ensures var t := Observe(s, stdout, now, raised);
      var sent := Send(s.lastAlert, Failover, now, raised);
      && t.attempt.Some? && t.attempt.value.kind == Failover
      && Contains(t.attempt.value.message, s.lastPool.value + " \U{2192} " + ExtractPool(stdout).value)
      && Contains(t.attempt.value.message, s.lastPool.value)
      && Contains(t.attempt.value.message, ExtractPool(stdout).value)
      && t.attempt.value.delivery == sent.delivery
      && t.state == WatchState(ExtractPool(stdout), sent.times)
  {
    FailoverMessageNamesPools(s.lastPool.value, ExtractPool(stdout).value);
  }

  /** An alert is attempted only on a change away from a known pool. */
  lemma ObserveAttemptsOnlyOnChange(s: WatchState, stdout: string, now: int, raised: bool)
    requires Observe(s, stdout, now, raised).attempt.Some?
    ensures Known(s.lastPool) && ExtractPool(stdout).Some? && ExtractPool(stdout) != s.lastPool
    ensures Observe(s, stdout, now, raised).attempt.value.kind == Failover
  {
  }

  /** Nothing `check_pool` does touches the `error_rate` entry. */
  lemma ObserveLeavesErrorRate(s: WatchState, stdout: string, now: int, raised: bool)
    ensures var t := Observe(s, stdout, now, raised);
      (ErrorRate in t.state.lastAlert <==> ErrorRate in s.lastAlert)
      && LastSent(t.state.lastAlert, ErrorRate) == LastSent(s.lastAlert, ErrorRate)
  {
  }

  /** A flip and a flip back five seconds later, from start-up: the first
      probe only seeds the pool, the first flip is delivered, and the flip back
      falls inside the cooldown window and is suppressed, while the pool is
      still remembered as it flips. */
  lemma FlipBackWithinCooldown(r1: string, r2: string, r3: string, a: string, b: string, now: int, raised: bool)
    requires ExtractPool(r1) == Some(a) && ExtractPool(r2) == Some(b) && ExtractPool(r3) == Some(a)
    requires a != "" && b != "" && a != b
    requires now >= CooldownSec
    ensures var t1 := Observe(InitialState(), r1, now, false);
      var t2 := Observe(t1.state, r2, now, false);
      var t3 := Observe(t2.state, r3, now + 5, raised);
      && t1.attempt == None && t1.state.lastPool == Some(a)
      && t2.attempt.Some? && t2.attempt.value.delivery == Delivered && t2.state.lastPool == Some(b)
      && t3.attempt.Some? && t3.attempt.value.delivery == Suppressed && t3.state.lastPool == Some(a)
  {
  }

  /** The globals of watcher.py as one object. */
  class Watcher {
    var lastPool: Option<string>
    var lastAlert: map<AlertType, int>

    function State(): WatchState
      reads this
    {
      WatchState(lastPool, lastAlert)
    }

    /** Module start-up (watcher.py lines 13 and 15). */
    constructor ()
      ensures State() == InitialState()
    {
      lastPool := None;
      lastAlert := InitialAlertTimes();
    }

    /** `send_slack(message, kind)` at time `now`. The message would only be
        the body of the POST, so it does not affect the outcome. */
    method SendAlert(message: string, kind: AlertType, now: int, raised: bool) returns (delivery: Delivery)
      modifies this`lastAlert
      ensures SendResult(lastAlert, delivery) == Send(old(lastAlert), kind, now, raised)
    {
      if now - LastSent(lastAlert, kind) < CooldownSec {
        return Suppressed;
      }
      if raised {
        return Failed;
      }
      lastAlert := lastAlert[kind := now];
      return Delivered;
    }

    /** `check_pool()` on the response text `stdout` at time `now`: scan the
        lines for the first one carrying the marker, alert on a change from a
        known pool, remember the new pool and return it. */
    method CheckPool(stdout: string, now: int, raised: bool) returns (pool: Option<string>, attempt: Option<Attempt>)
      modifies this
      ensures Tick(State(), pool, attempt) == Observe(old(State()), stdout, now, raised)
    {
      attempt := None;
      if Contains(stdout, PoolHeader) {
        var lines := Lines(stdout);
        var i := 0;
        while i < |lines|
          invariant 0 <= i <= |lines|
          invariant FirstPool(lines[i..]) == ExtractPool(stdout)
          invariant State() == old(State()) && attempt == None
        {
          var line := lines[i];
          if Contains(line, PoolHeader) {
            MarkerHasColon(line);
            var p := HeaderValue(line);
            if Known(lastPool) && p != lastPool.value {
              var message := FailoverMessage(lastPool.value, p);
              var delivery := SendAlert(message, Failover, now, raised);
              attempt := Some(Attempt(Failover, message, delivery));
            }
            lastPool := Some(p);
            return Some(p), attempt;
          }
          assert lines[i..][1..] == lines[i + 1..];
          i := i + 1;
        }
      } else {
        NoPoolIffNoMarker(stdout);
      }
      return None, None;
    }
  }
}
