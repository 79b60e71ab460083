/** The alert dispatcher of watcher.py (`send_slack`): a per-alert-type table
    of the time of the last delivered alert, and a cooldown gate in front of a
    single best-effort POST. Time is a whole number of seconds supplied by the
    caller; whether the POST raised is an input too. */
module Alerts {

  /** `ALERT_COOLDOWN_SEC`: the least time between two delivered alerts of one type. */
  const CooldownSec: int := 60

  /** The keys of `last_alert_time`. Only `Failover` is ever raised; `ErrorRate`
      is declared but inert. */
  datatype AlertType = Failover | ErrorRate

  /** What one call of `send_slack` came to. */
  datatype Delivery =
    | Suppressed  // inside the cooldown window: no POST attempted
    | Failed      // the POST raised (timeout, connection error); swallowed
    | Delivered   // the POST returned, whatever its status code

  /** The table `last_alert_time` as the watcher starts with it. */
  function InitialAlertTimes(): (times: map<AlertType, int>)
    ensures times.Keys == {Failover, ErrorRate}
    ensures forall kind :: kind in times ==> times[kind] == 0
  {
    map[Failover := 0, ErrorRate := 0]
  }

  /** The recorded time of the last delivery of `kind`, 0 for a type the table lacks. */
  function LastSent(times: map<AlertType, int>, kind: AlertType): int {
    if kind in times then times[kind] else 0
  }

  /** Fewer than `CooldownSec` seconds have passed since the last delivery of `kind`. */
  predicate CoolingDown(times: map<AlertType, int>, kind: AlertType, now: int) {
    now - LastSent(times, kind) < CooldownSec
  }

  /** The table after a call, and what the call came to. */
  datatype SendResult = SendResult(times: map<AlertType, int>, delivery: Delivery)

  /** `send_slack` at time `now`: suppressed inside the cooldown window;
      otherwise one POST, and only a POST that did not raise records `now`. */
  function Send(times: map<AlertType, int>, kind: AlertType, now: int, raised: bool): SendResult {
    if CoolingDown(times, kind, now) then SendResult(times, Suppressed)
    else if raised then SendResult(times, Failed)
    else SendResult(times[kind := now], Delivered)
  }

  /** Inside the cooldown window nothing is sent and nothing changes; outside
      it a POST is always attempted. */
  lemma SuppressedIffCoolingDown(times: map<AlertType, int>, kind: AlertType, now: int, raised: bool)
    ensures Send(times, kind, now, raised).delivery == Suppressed <==> CoolingDown(times, kind, now)
    ensures CoolingDown(times, kind, now) ==> Send(times, kind, now, raised).times == times
  {
  }

  /** At exactly `CooldownSec` seconds after the last delivery the gate is open. */
  lemma OpenAtCooldown(times: map<AlertType, int>, kind: AlertType, raised: bool)
    ensures Send(times, kind, LastSent(times, kind) + CooldownSec, raised).delivery != Suppressed
  {
  }

  /** The timestamp of `kind` moves to `now` exactly when the POST is attempted
      and does not raise; a raising POST leaves the table as it was. */
  lemma RecordedIffDelivered(times: map<AlertType, int>, kind: AlertType, now: int, raised: bool)
    ensures var r := Send(times, kind, now, raised);
      (r.delivery == Delivered <==> !CoolingDown(times, kind, now) && !raised)
      && (r.delivery == Delivered ==> r.times == times[kind := now] && LastSent(r.times, kind) == now)
      && (r.delivery != Delivered ==> r.times == times)
  {
  }

  /** A call for one alert type leaves every other type's entry alone. */
  lemma OtherTypesUnchanged(times: map<AlertType, int>, kind: AlertType, now: int, raised: bool, other: AlertType)
    requires other != kind
    ensures var r := Send(times, kind, now, raised);
      (other in r.times <==> other in times) && LastSent(r.times, other) == LastSent(times, other)
  {
  }

  /** A failed delivery does not start a cooldown: the next attempt, however
      soon, is not suppressed. */
  lemma RetryAfterFailure(times: map<AlertType, int>, kind: AlertType, now: int, later: int, raised: bool)
    requires Send(times, kind, now, true).delivery == Failed
    requires now <= later
    ensures Send(Send(times, kind, now, true).times, kind, later, raised).delivery != Suppressed
  {
  }

  /** A delivery starts a full cooldown: any later call of the same type less
      than `CooldownSec` seconds after it is suppressed. */
  lemma SuppressedAfterDelivery(times: map<AlertType, int>, kind: AlertType, now: int, later: int, raised: bool)
    requires Send(times, kind, now, false).delivery == Delivered
    requires later - now < CooldownSec
    ensures Send(Send(times, kind, now, false).times, kind, later, raised).delivery == Suppressed
  {
  }
}
