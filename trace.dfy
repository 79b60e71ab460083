/** The watcher's main loop (watcher.py lines 48-53) as a sequence of polls.
    Each poll is one `check_pool()` call. A poll in which `subprocess.run`
    raised (a timeout, a missing `curl` binary, an output that does not
    decode) leaves `check_pool` before any state changes, and the loop's bare
    `except` swallows it, so that poll is a no-op. A `curl` that merely fails
    to connect does not raise: it gives an empty response text, and that poll
    finds no pool. The properties here are about whole runs. */
module Trace {
  import opened Wrappers
  import opened Alerts
  import opened Probe
  import opened Watch

  /** One iteration of the loop: the response text (`None` when
      `subprocess.run` raised), the time, and whether an alert POST made in it
      raises. */
  datatype Poll = Poll(response: Option<string>, now: int, raised: bool)

  /** One iteration's effect on the state. */
  function Step(s: WatchState, poll: Poll): Tick {
    match poll.response
    case None => Tick(s, None, None)
    case Some(text) => Observe(s, text, poll.now, poll.raised)
  }

  /** The state after running the polls in order from `s`. */
  function Run(s: WatchState, polls: seq<Poll>): WatchState
    decreases |polls|
  {
    if polls == [] then s
    else Step(Run(s, polls[..|polls| - 1]), polls[|polls| - 1]).state
  }

  /** What the poll at index `k` of a run came to. */
  function TickAt(s: WatchState, polls: seq<Poll>, k: nat): Tick
    requires k < |polls|
  {
    Step(Run(s, polls[..k]), polls[k])
  }

  /** The tick delivered a failover alert. */
  predicate FailoverDelivered(t: Tick) {
    t.attempt.Some? && t.attempt.value.kind == Failover && t.attempt.value.delivery == Delivered
  }

  /** The pool a poll extracts, which does not depend on the state. */
  function Extracted(poll: Poll): Option<string> {
    match poll.response
    case None => None
    case Some(text) => ExtractPool(text)
  }

  /** The pool of the latest poll that extracted one, or `initial` if none did. */
  function LatestPool(initial: Option<string>, polls: seq<Poll>): Option<string>
    decreases |polls|
  {
    if polls == [] then initial
    else if Extracted(polls[|polls| - 1]).Some? then Extracted(polls[|polls| - 1])
    else LatestPool(initial, polls[..|polls| - 1])
  }

  /** The state after `k + 1` polls is the state the poll at `k` leaves. */
  lemma RunOneMore(s: WatchState, polls: seq<Poll>, k: nat)
    requires k < |polls|
    ensures Run(s, polls[..k + 1]) == TickAt(s, polls, k).state
  {
    assert polls[..k + 1][..k] == polls[..k];
  }

  /** One poll either leaves the failover timestamp alone or sets it to that
      poll's time; it delivers a failover only outside the cooldown window, and
      then it sets the timestamp. */
  lemma StepFailoverTime(s: WatchState, poll: Poll)
    ensures var after := LastSent(Step(s, poll).state.lastAlert, Failover);
      after == LastSent(s.lastAlert, Failover) || after == poll.now
    ensures FailoverDelivered(Step(s, poll)) ==>
      !CoolingDown(s.lastAlert, Failover, poll.now)
      && LastSent(Step(s, poll).state.lastAlert, Failover) == poll.now
  {
  }

  /** No poll lowers the failover timestamp, even one whose clock reading is
      behind it: such a reading is inside the cooldown window, so nothing is
      recorded. */
  lemma StepNeverLowers(s: WatchState, poll: Poll)
    ensures LastSent(Step(s, poll).state.lastAlert, Failover) >= LastSent(s.lastAlert, Failover)
  {
  }

  /** Over any run, whatever the clock does, the failover timestamp never
      decreases. */
  lemma {:induction false} FailoverTimeMonotone(s: WatchState, polls: seq<Poll>, i: nat, k: nat)
    requires i <= k <= |polls|
    ensures LastSent(Run(s, polls[..k]).lastAlert, Failover) >= LastSent(Run(s, polls[..i]).lastAlert, Failover)
    decreases k - i
  {
    if i < k {
      FailoverTimeMonotone(s, polls, i, k - 1);
      RunOneMore(s, polls, k - 1);
      StepNeverLowers(Run(s, polls[..k - 1]), polls[k - 1]);
    }
  }

  /** The headline invariant: any two delivered failover alerts are at least
      `CooldownSec` apart, however often the pool flips in between and even
      when the clock is set back. */
  lemma FailoverSpacing(s: WatchState, polls: seq<Poll>, i: nat, j: nat)
    requires i < j < |polls|
    requires FailoverDelivered(TickAt(s, polls, i)) && FailoverDelivered(TickAt(s, polls, j))
    ensures polls[j].now - polls[i].now >= CooldownSec
  {
    StepFailoverTime(Run(s, polls[..i]), polls[i]);
    RunOneMore(s, polls, i);
    FailoverTimeMonotone(s, polls, i + 1, j);
    StepFailoverTime(Run(s, polls[..j]), polls[j]);
  }

  /** The remembered pool is the one the latest successful probe extracted;
      failed probes and probes without the header leave it alone. */
  lemma {:induction false} RunRemembersLatestPool(s: WatchState, polls: seq<Poll>)
    ensures Run(s, polls).lastPool == LatestPool(s.lastPool, polls)
    decreases |polls|
  {
    if polls != [] {
      var n := |polls| - 1;
      RunRemembersLatestPool(s, polls[..n]);
      var before := Run(s, polls[..n]);
      match polls[n].response
      case None =>
      case Some(text) =>
        if ExtractPool(text).Some? {
          ObserveRemembersPool(before, text, polls[n].now, polls[n].raised);
        } else {
          ObserveWithoutPool(before, text, polls[n].now, polls[n].raised);
        }
    }
  }

  /** The `error_rate` entry is inert: no run ever changes it. */
  lemma {:induction false} RunLeavesErrorRate(s: WatchState, polls: seq<Poll>)
    ensures LastSent(Run(s, polls).lastAlert, ErrorRate) == LastSent(s.lastAlert, ErrorRate)
    decreases |polls|
  {
    if polls != [] {
      var n := |polls| - 1;
      RunLeavesErrorRate(s, polls[..n]);
      var before := Run(s, polls[..n]);
      match polls[n].response
      case None =>
      case Some(text) => ObserveLeavesErrorRate(before, text, polls[n].now, polls[n].raised);
    }
  }
}
