# Blue/green failover watcher, modelled in Dafny

`watcher.py` polls an nginx proxy for the `X-App-Pool` response header, which names the
backend pool (blue or green) that is serving traffic. When the pool changes away from a
known pool it posts a "Failover!" alert to a Slack webhook. Alerts of one type are rate
limited: one is dropped if fewer than 60 seconds have passed since the last alert of that
type that was delivered.

The model has two pieces of state, the last pool seen and the time of the last delivered
alert of each type. It covers the three steps that change or read that state:

- **Alert dispatch** (`send_slack`). `Alerts.Send` is the pure cooldown gate and timestamp
  update. `Watch.Watcher.SendAlert` is the method that updates the object's table in place.
- **Header extraction** (`check_pool`, lines 35-38 and 44). `Probe.ExtractPool` takes the
  first line that holds `X-App-Pool:`. It returns that line's second colon-separated field
  with whitespace stripped. The Python built-ins it uses are modelled in `PyStr`:
  `Contains` for `in`, `Split` for `str.split`, and `Strip` for `str.strip`. Each has an
  independent definition or an inverse next to it.
- **Failover detection** (`check_pool`, lines 39-43). `Watch.Observe` is the pure
  transition. `Watch.Watcher.CheckPool` is the method. It keeps the source's line loop with
  its early return, and it is proved equal to `Observe`.

`Trace` models the main loop as a finite sequence of polls. Over that sequence it proves
the invariant that matters: two delivered failover alerts are always at least 60 seconds
apart. This holds whatever the clock does, even when `time.time()` is set back.

Modelling choices:

- **Time.** Time is an integer number of seconds passed in by the caller. It replaces
  `time.time()`.
- **POST outcome.** The outcome of the Slack POST is an input flag, `raised`.
  `requests.post` raises on a transport error or a timeout. It also raises before sending
  anything when the URL is unusable. With `SLACK_WEBHOOK_URL` unset (watcher.py:8), every
  call raises, so every alert is `Failed` and no cooldown ever starts. A non-2xx reply does
  not raise, so the code counts it as delivered and starts the cooldown. The model follows
  the code here. It does not follow the design intent that a non-2xx reply is a failed
  delivery.
- **Response text.** The `curl` output is an input string. `curl -s` runs without
  `check=True`, so a `curl` that cannot connect does not raise. It exits non-zero with an
  empty output, and an empty text yields no pool (`Probe.EmptyResponseHasNoPool`).
  `subprocess.run` raises on any error in starting or reading the process, for example a
  timeout, a missing or non-executable `curl` binary, or an output that does not decode. A `Trace.Poll` with response `None` stands for that case. The exception leaves
  `check_pool` before any state changes, and the loop's bare `except` swallows it, so that
  poll changes nothing.
- **Python truthiness.** `if last_pool` is `Watch.Known`. It is false for both `None` and
  `""`. So a header with an empty value makes the pool unknown again, and the next change
  raises no alert.
- **Default timestamp.** The timestamp lookup with a default is `Alerts.LastSent`, which reads 0
  for a type that is not in the table.
- **Whitespace.** `str.strip()` removes the characters for which Python's `str.isspace()`
  holds. `PyStr.IsSpace` lists them. On a header line it removes the blank after the colon.
  No carriage return reaches it: `subprocess.run(..., text=True)` reads the output in text
  mode, which turns every `\r\n` and lone `\r` into `\n`.

## Model

| member | source | states |
|---|---|---|
| PyStr.Contains | watcher.py:35-37 | Python's `p in s`, scanning from the left. Its contract is `ContainsIffOccurs`. |
| PyStr.ContainsIffOccurs | watcher.py:35 | `p in s` holds exactly when `p` occurs in `s` at some offset. |
| PyStr.ContainsInfix | watcher.py:40 | A string contains any string it is built around. |
| PyStr.ContainsSlice | watcher.py:37 | Whatever a slice of `s` contains, `s` contains too. |
| PyStr.ContainsChar | watcher.py:37-38 | If `s` contains `p`, then every character of `p` is a character of `s`. |
| PyStr.Split | watcher.py:36 | `s.split(sep)` gives at least one piece. No piece holds `sep`. The first piece is a prefix of `s`. There is exactly one piece iff `sep` does not occur in `s`. |
| PyStr.JoinSplit | watcher.py:36 | Joining the pieces of `s.split(sep)` with `sep` gives back `s`. |
| PyStr.SplitJoin | watcher.py:36 | Splitting a join of separator-free pieces gives back those pieces. |
| PyStr.SplitNoSep | watcher.py:36 | A text without the separator splits into itself alone. |
| PyStr.SplitFirst | watcher.py:36 | Splitting `x + sep + y` with `sep` not in `x` gives `x` first, then the split of `y`. |
| PyStr.SplitAt | watcher.py:38 | Splitting at the first separator, given by its index, gives the text before it, then the split of the rest. |
| PyStr.SplitHead | watcher.py:38 | The first piece ends at the first separator, or at the end when there is none. |
| PyStr.SplitSecond | watcher.py:38 | `s.split(sep)[1]` exists when `sep` occurs. It is the text between the first and second separator, or from the first separator to the end. |
| PyStr.PieceContains | watcher.py:35-37 | If a line contains the marker, the whole response contains it. |
| PyStr.PrefixOfFirstPiece | watcher.py:36 | A separator-free prefix of `s` is a prefix of the first piece. |
| PyStr.ContainsInSomePiece | watcher.py:35-37 | If the response contains a separator-free marker, some line contains it. |
| PyStr.SkipSpaces | watcher.py:38 | Returns the first index at or after `i` that is not whitespace, or the length. Every character skipped is whitespace. |
| PyStr.BackSkipSpaces | watcher.py:38 | Returns the end of `s[lo..j]` with trailing whitespace dropped. Every character dropped is whitespace. |
| PyStr.IsSpace | watcher.py:38 | The characters for which Python's `str.isspace` holds, which `strip()` removes. Its uses are stated in `SkipSpaces`, `BackSkipSpaces` and `Strip`. |
| PyStr.Strip | watcher.py:38 | `s.strip()` is a slice of `s` with only whitespace on either side. It is empty, or it starts and ends with a non-whitespace character. |
| PyStr.StripUnique | watcher.py:38 | The two properties in `Strip`'s contract fix its result: any slice that has both is `Strip(s)`. |
| Probe.Lines | watcher.py:36 | The response split at newlines. Its contract is that of `PyStr.Split`, with `JoinSplit` and `SplitJoin`. |
| Probe.HeaderValue | watcher.py:38 | A line's second colon-separated field, stripped. Its contract is `HeaderValueBetweenColons` and `HeaderValueAfterMarker`. |
| Probe.FirstPool | watcher.py:36-38 | The value of the first line holding the marker. Its contract is `FirstPoolSpec`. |
| Probe.ExtractPool | watcher.py:35-44 | What one probe extracts. Its contract is `FirstPoolSpec` and `NoPoolIffNoMarker`. |
| Probe.MarkerHasColon | watcher.py:37-38 | A line holding `X-App-Pool:` holds a colon, so indexing its second field cannot fail. |
| Probe.FirstPoolSpec | watcher.py:35-44 | Extraction gives `None` exactly when no line holds the marker. Otherwise it gives the value of the first line that holds it, and later lines are ignored. |
| Probe.NoPoolIffNoMarker | watcher.py:35-37 | A response yields no pool exactly when the marker is absent from the whole text. So the guard on line 35 agrees with the line scan. |
| Probe.HeaderValueBetweenColons | watcher.py:38 | A header value is the text between the line's first and second colons, or its end, with whitespace stripped. |
| Probe.HeaderValueAfterMarker | watcher.py:38 | After the marker, the value runs up to the next colon, if any, and is then stripped. Its second ensures is the colon quirk: a value holding a colon is cut short at it. |
| Probe.HeaderValueStopsAtColon | watcher.py:38 | An illustration of `HeaderValueAfterMarker`: `X-App-Pool: blue:8080` yields `blue`. |
| Probe.EmptyResponseHasNoPool | watcher.py:35-44 | An empty response text, as from a `curl` that cannot connect, yields no pool. |
| Probe.StripExample | watcher.py:38 | Stripping a word with whitespace around it gives the word. |
| Alerts.LastSent | watcher.py:20 | The recorded time of a type, 0 when the type is absent. Its uses are stated in `SuppressedIffCoolingDown` and `RecordedIffDelivered`. |
| Alerts.CoolingDown | watcher.py:20 | Fewer than 60 seconds have passed since the type's last delivery. Its meaning for `Send` is `SuppressedIffCoolingDown`. |
| Alerts.Send | watcher.py:17-28 | The pure model of `send_slack`. Its contract is `SuppressedIffCoolingDown`, `OpenAtCooldown`, `RecordedIffDelivered` and `OtherTypesUnchanged`. |
| Alerts.InitialAlertTimes | watcher.py:15 | The table starts with exactly the two alert types, both at time 0. |
| Alerts.SuppressedIffCoolingDown | watcher.py:19-21 | An alert is dropped, with no state change, iff fewer than 60 seconds have passed since that type's last delivery. Otherwise a POST is attempted. |
| Alerts.OpenAtCooldown | watcher.py:11-21 | At exactly 60 seconds after the last delivery, the POST is attempted. |
| Alerts.RecordedIffDelivered | watcher.py:23-28 | The timestamp becomes `now` exactly when the POST is attempted and does not raise. A POST that raises leaves the table unchanged. |
| Alerts.OtherTypesUnchanged | watcher.py:25 | A dispatch of one type leaves every other type's entry, and whether that entry exists, unchanged. |
| Alerts.RetryAfterFailure | watcher.py:23-28 | After a failed POST, the next attempt of that type is never suppressed, however soon it comes. |
| Alerts.SuppressedAfterDelivery | watcher.py:20-25 | After a delivery, every alert of that type less than 60 seconds later is suppressed. |
| Watch.InitialState | watcher.py:13-15 | The start-up state: no pool, and both alert types at time 0. The constructor's contract is stated with it. |
| Watch.Known | watcher.py:39 | Python truthiness of `last_pool`: false for `None` and `""`. Its effect is stated by `ObserveSeeds`. |
| Watch.FailoverMessage | watcher.py:40 | The failover message without its time suffix. Its contract is `FailoverMessageNamesPools`. |
| Watch.Observe | watcher.py:35-44 | The pure model of `check_pool`. Its contract is the `Observe` lemmas below, and `Watcher.CheckPool` is proved equal to it. |
| Watch.FailoverMessageNamesPools | watcher.py:40 | The failover message contains `old → new`: the old pool, the arrow and the new pool, in that order. So it names both pools. |
| Watch.ObserveWithoutPool | watcher.py:35-44 | `check_pool` returns the extracted pool. It returns `None`, attempts no alert and changes no state exactly when the marker is absent. |
| Watch.ObserveRemembersPool | watcher.py:42 | After any extraction, `last_pool` is the new pool, whatever became of the alert. |
| Watch.ObserveSeeds | watcher.py:39-42 | While `last_pool` is `None` or `""`, an observation attempts no alert, leaves the alert table alone and only seeds `last_pool`. |
| Watch.ObserveSamePool | watcher.py:39-42 | Seeing the same pool again attempts nothing and changes nothing. |
| Watch.ObserveFailover | watcher.py:39-42 | A change away from a known pool makes exactly one `failover` dispatch, with a message that contains `old → new`. The alert table moves as `send_slack` moves it, and the new pool is remembered. |
| Watch.ObserveAttemptsOnlyOnChange | watcher.py:39-41 | An alert is attempted only on a change away from a known pool, and it is always a `failover` alert. |
| Watch.ObserveLeavesErrorRate | watcher.py:15-41 | `check_pool` never touches the `error_rate` entry. |
| Watch.FlipBackWithinCooldown | watcher.py:20-42 | From start-up: the first probe only seeds the pool, a flip is delivered, and a flip back 5 seconds later is suppressed. The pool is still tracked through both flips. |
| Watch.Watcher.constructor | watcher.py:13-15 | The watcher starts with no known pool and both timestamps at 0. |
| Watch.Watcher.SendAlert | watcher.py:17-28 | The new timestamp table and the outcome are exactly those of `Alerts.Send` on the old table. |
| Watch.Watcher.CheckPool | watcher.py:30-44 | The line loop with its early return ends in the same state, return value and alert attempt as `Observe` on the old state. |
| Trace.Step | watcher.py:48-53 | One loop iteration: no change when `subprocess.run` raised, else `Observe`. Its contract is `StepFailoverTime`. |
| Trace.Run | watcher.py:48-53 | The state after a finite run of the loop. Its contract is `FailoverSpacing`, `RunRemembersLatestPool` and `RunLeavesErrorRate`. |
| Trace.StepFailoverTime | watcher.py:20-25 | One poll either keeps the failover timestamp or sets it to the poll's time. A delivered failover happens only outside the cooldown window, and it sets the timestamp. |
| Trace.StepNeverLowers | watcher.py:20-25 | No poll lowers the failover timestamp, whatever its clock reading. A reading behind the timestamp is inside the cooldown window. |
| Trace.FailoverTimeMonotone | watcher.py:20-25 | Over any run, the failover timestamp never decreases, with no assumption on the clock. |
| Trace.FailoverSpacing | watcher.py:20-25 | Any two delivered failover alerts in a run are at least 60 seconds apart, for every sequence of poll times. |
| Trace.RunRemembersLatestPool | watcher.py:42-53 | After a run, `last_pool` is the pool from the latest probe that extracted one. Failed probes and responses without the header leave it unchanged. |
| Trace.RunLeavesErrorRate | watcher.py:15 | No run ever changes the `error_rate` timestamp. |

## Left out

- The `curl` subprocess and its 2-second timeout (watcher.py:32-34). The response text is
  an input. A call that raises is a `Poll` with no response.
- Text-mode decoding and newline translation of the `curl` output (watcher.py:33-34). Both
  happen before the model's input string. A decode error raises inside `subprocess.run`,
  as a timeout does.
- `requests.post`, the webhook URL from the environment, and the 5-second POST timeout
  (watcher.py:8, 24). Only the outcome is modelled: the call raised, or it did not.
- Float time from `time.time()`. Time is an integer, so the model does not capture
  fractional elapsed times near the 60-second boundary.
- The timestamp `datetime.now()` at the end of the failover message, the emoji payload
  wrapper and the `print` calls (watcher.py:22, 26, 40, 46). These are output formatting.
  `FailoverMessage` keeps the part of the message that names the pools.
- The `while True` loop, its `time.sleep` calls and the startup delay (watcher.py:46-53).
  `Trace` models only a finite prefix of the loop, as a sequence of polls.
- `ERROR_RATE_THRESHOLD`, `WINDOW_SIZE` and `request_window` (watcher.py:9-10, 14). The
  source declares them and never uses them. `ErrorRate` stays as an inert alert type.
- Watch.Watcher.SendAlert: the `message` argument is only the body of the POST. It does not
  affect any state or outcome, so the contract says nothing about it.
