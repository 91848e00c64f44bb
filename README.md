# SLA alert engine and report, modelled in Dafny

This project models the core of an SLA alerting library. The core has two parts.

The **alert engine** (`SLAAlertManager`) checks samples `(service, metric, value)`
against a fixed threshold table:

| metric | threshold | breach when |
|---|---|---|
| `latency_p99` | 500 | value > 500 |
| `error_rate` | 0.01 | value > 0.01 |
| `availability` | 99.9 | value < 99.9 |
| `throughput` | 100 | value < 100 |

A breach is suppressed when the same `service:metric` key fired less than 300
seconds earlier. Otherwise the engine records an alert, stamps the key and
returns the alert. The engine keeps an append-only alert history, a dedup map,
four counters (`checks`, `breaches`, `alerts_sent`, `deduplicated`) and a list of
callbacks.

The **report** (`SLAReport`) is a read-only view over the engine. It copies the
counters and computes a breach rate. It lists the services and metrics that have
alerts, in order of first appearance, and names the service with the most
alerts. It also gives a per-service report.

Files:

- `alert_model.dfy` (module `AlertModel`): the `Alert` record and filtering of a history (`Select`).
  The message of a fired alert `a` (src/slaAlertManager.py:63) is `Message(a, render)`. It is computed from the alert's own fields, so the model does not store it.
- `sla_alert_manager.dfy` (module `AlertManager`): the threshold table, the engine state as a value (`Engine`), and `Evaluate`, the effect of one `check_sla` call on that value. It also holds the class `SlaAlertManager`, whose fields are those of the source. Its `CheckSla` updates those fields in place and is proved to follow `Evaluate`.
- `sla_report.dfy` (module `Report`): the single-pass grouping loop (`GroupAlerts`) and the pure parts of the summary. It also holds the class `SlaReport`, which holds the engine and only reads it.

The source reads the wall clock inside `check_sla`. Here the time is the parameter `now`.

`checks` is incremented before the threshold lookup
(src/slaAlertManager.py:22), so calls with an unknown metric are counted too.
`Evaluate` and `CheckSla` count them the same way.

Two edge cases of the code are kept as written:

- `get_alerts("")` returns the whole history, because an empty string is false in Python.
- `get_service_report("")` therefore reports every alert under the service name `""`.

## Model

| member | source | states |
|---|---|---|
| `AlertModel.Message` | src/slaAlertManager.py:63 | the message starts with "SLA BREACH: ", the service, a space, the metric and " is ", and ends with ")" |
| `AlertModel.SelectIsFilter` | src/slaAlertManager.py:99-101 | `Select` keeps exactly the matching alerts: every selected alert has the key; the result is a subsequence of the history; each alert with the key occurs as often as in the history, others not at all |
| `AlertManager.IsBreach` | src/slaAlertManager.py:25-48 | lookup plus comparison breaches exactly when the threshold table is violated; a value equal to its threshold never breaches; only the four known metrics breach |
| `AlertManager.Evaluate` | src/slaAlertManager.py:20-78 | `checks` rises by one on every call, unknown metrics included; a non-violating sample changes nothing else and returns nothing; a violation whose key fired less than 300 s ago counts a breach and a suppression, returns nothing and keeps the stamp; any other violation appends the alert (service, metric, value, table threshold, `now`) as the last history element, stamps the key with `now` and counts a breach and a sent alert; no counter decreases; `alerts_sent + deduplicated == breaches` and the full state invariant are preserved |
| `AlertManager.RunKeepsInvariant` | src/slaAlertManager.py:20-78 | over any series of calls: the invariant holds, `checks` grows by the number of calls, no counter decreases, the old history is a prefix of the new one, callbacks are unchanged |
| `AlertManager.DedupKeyInjective` | src/slaAlertManager.py:54 | for metric names without ':', `service + ":" + metric` determines both service and metric |
| `AlertManager.DedupTracksLastFiring` | src/slaAlertManager.py:54-61 | in a reachable state, the dedup map holds for a key exactly the time of the last alert fired for that service and metric, and no entry if none fired |
| `AlertManager.RepeatedBreach` | src/slaAlertManager.py:54-61 | on a fresh key, a violation fires, a second violation under 300 s later is suppressed, and a third 300 s or more after the first fires again and re-stamps the key |
| `AlertManager.SlaAlertManager.constructor` | src/slaAlertManager.py:14-18 | a new engine has empty history, dedup map and callbacks, and zero counters |
| `AlertManager.SlaAlertManager.CheckSla` | src/slaAlertManager.py:20-78 | updates the fields in place exactly as `Evaluate` prescribes and returns its alert; keeps the engine invariant |
| `AlertManager.SlaAlertManager.OnAlert` | src/slaAlertManager.py:80-82 | appends the callback at the end of the list, even when already registered; nothing else changes |
| `AlertManager.SlaAlertManager.GetAlerts` | src/slaAlertManager.py:99-102 | with no name or an empty name, the whole history; otherwise exactly the alerts of that service, in history order |
| `AlertManager.SlaAlertManager.GetStats` | src/slaAlertManager.py:104-105 | a copy of the four counters, with `alerts_sent + deduplicated == breaches`, `breaches <= checks` and `alerts_sent` equal to the history length |
| `Report.FirstSeen` | src/slaReport.py:23-37 | the key list of a dictionary filled in order: each element once, nothing else, ordered by first occurrence |
| `Report.ColumnMembers` | src/slaReport.py:26-28 | a name is a key of a grouping exactly when some alert carries it |
| `Report.GroupAlerts` | src/slaReport.py:23-28 | the single loop over the history yields, for services and for metrics, the keys in first-appearance order and for each key its alerts in history order |
| `Report.MaxByCount` | src/slaReport.py:38 | `max` by group size returns a key whose group is largest, and every key before it has a strictly smaller group |
| `Report.BreachRate` | src/slaReport.py:35 | the rate is never negative; it is 0 without breaches; the divisor is one for zero or one check; it is at most 100 when `breaches <= checks` |
| `Report.Summarize` | src/slaReport.py:18-39 | the counters are copied unchanged; services and metrics are listed once each, in first-appearance order; there is no worst service exactly when the history is empty |
| `Report.WorstServiceIsFirstMaximal` | src/slaReport.py:38 | for a non-empty history, the worst service has alerts, no service has more alerts, and every tied service appears no earlier |
| `Report.SlaReport.constructor` | src/slaReport.py:15-16 | the report holds the given engine |
| `Report.SlaReport.GenerateSummary` | src/slaReport.py:18-39 | returns `Summarize` of the engine's history and counters; it has no modifies clause, so the engine is left unchanged |
| `Report.SlaReport.GetServiceReport` | src/slaReport.py:41-48 | `total_breaches` equals the number of listed alerts; for a non-empty name, the list is exactly that service's alerts in order; for `""`, it is the whole history |

## Left out

- Wall clock: `time.time()` (src/slaAlertManager.py:55) is the parameter `now`. Its value is not constrained, so time may also go backwards.
- Notification: `_notify` (src/slaAlertManager.py:84-89) calls unknown code and swallows every `Exception` (line 88). A `BaseException` that is not an `Exception`, such as `KeyboardInterrupt` or `SystemExit`, escapes `check_sla`. It leaves after the alert is appended (line 74) and before `alerts_sent` is incremented (line 76). The engine is then left with `alerts_sent + deduplicated == breaches - 1` and a history one longer than `alerts_sent`. The model does not have this path. Callbacks are opaque `CallbackId` values, and notifying them is taken to leave the engine unchanged. A callback that re-enters the engine is not modelled.
- Message text: `str()` of a Python number is not modelled. `Message` takes the rendering as a parameter, and the `Alert` record does not store the message.
- Floating point: values, thresholds and times are Dafny `real`. NaN, infinities and IEEE rounding are not modelled. The integer thresholds 500 and 100 are the reals 500.0 and 100.0.
- Report.BreachRate: gives the exact ratio times 100, without Python's float division and `round(..., 2)`.
- `_legacy_check` (src/slaAlertManager.py:91-97): dead code that nothing calls.
- Sharing: Python returns the same alert dictionaries from `get_alerts`, so a caller could mutate them. Here alerts are immutable values.
- Dictionaries: a Python dict that keeps insertion order is modelled as a key sequence plus a `map`.
- Input checking: the source does no input validation, and neither does the model.
- tests/test_slaAlerter.py: it exercises classes that are not part of this model.
