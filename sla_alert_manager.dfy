/** The SLA alert engine (src/slaAlertManager.py): threshold table, breach
    test, five-minute deduplication, counters and alert history.

    The engine's state is given twice: as the value `Engine`, on which the
    effect of one `check_sla` call is the function Evaluate, and as the class
    SlaAlertManager, whose fields the methods update in place and whose
    CheckSla is proved to follow Evaluate. The wall clock of the source is the
    parameter `now`. */
module AlertManager {
  import opened AlertModel

  /** Seconds during which a repeated breach for one key is suppressed. */
  const DedupWindow: real := 300.0

  /** A registered notification callback; the callable itself is not modelled. */
  type CallbackId = nat

  /** The four metric names the engine knows. */
  predicate Recognized(metric: string)
  {
    metric == "latency_p99" || metric == "error_rate" || metric == "availability" || metric == "throughput"
  }

  /** The threshold table lookup; None for any other metric name. */
  function Threshold(metric: string): Option<real>
  {
    if metric == "latency_p99" then Some(500.0)
    else if metric == "error_rate" then Some(0.01)
    else if metric == "availability" then Some(99.9)
    else if metric == "throughput" then Some(100.0)
    else None
  }

  /** The comparison made once a threshold is known: strict in both directions. */
  predicate Breached(metric: string, value: real, threshold: real)
  {
    if metric == "latency_p99" then value > threshold
    else if metric == "error_rate" then value > threshold
    else if metric == "availability" || metric == "throughput" then value < threshold
    else false
  }

  /** The SLA table read as a list of violations, independent of the lookup code. */
  ghost predicate ViolatesSla(metric: string, value: real)
  {
    (metric == "latency_p99" && value > 500.0) ||
    (metric == "error_rate" && value > 0.01) ||
    (metric == "availability" && value < 99.9) ||
    (metric == "throughput" && value < 100.0)
  }

  /** Threshold lookup followed by the comparison. */
  function IsBreach(metric: string, value: real): (b: bool)
    ensures b <==> ViolatesSla(metric, value)
    ensures Threshold(metric) == Some(value) ==> !b
    ensures b ==> Recognized(metric)
  {
    match Threshold(metric)
    case None => false
    case Some(threshold) => Breached(metric, value, threshold)
  }

  datatype Stats = Stats(checks: nat, breaches: nat, alertsSent: nat, deduplicated: nat)

  /** Every breach was either sent or suppressed. */
  predicate Balanced(s: Stats)
  {
    s.alertsSent + s.deduplicated == s.breaches
  }

  /** No counter of `after` is below the same counter of `before`. */
  predicate NoneDecreased(before: Stats, after: Stats)
  {
    before.checks <= after.checks && before.breaches <= after.breaches &&
    before.alertsSent <= after.alertsSent && before.deduplicated <= after.deduplicated
  }

  /** The whole state of one engine. */
  datatype Engine = Engine(alerts: seq<Alert>, dedup: map<string, real>, stats: Stats, callbacks: seq<CallbackId>)

  /** The state of a freshly constructed engine. */
  const Initial: Engine := Engine([], map[], Stats(0, 0, 0, 0), [])

  function DedupKey(service: string, metric: string): string
  {
    service + ":" + metric
  }

  /** A breach for `key` at time `now` falls inside the window of the last fired alert. */
  predicate Suppressed(dedup: map<string, real>, key: string, now: real)
  {
    key in dedup && now - dedup[key] < DedupWindow
  }

  /** The dedup map a history leaves behind: each fired alert stamps its key. */
  function DedupOf(alerts: seq<Alert>): map<string, real>
  {
    if alerts == [] then map[]
    else
      var a := alerts[|alerts| - 1];
      DedupOf(alerts[..|alerts| - 1])[DedupKey(a.service, a.metric) := a.timestamp]
  }

  lemma DedupOfSnoc(alerts: seq<Alert>, a: Alert)
    ensures DedupOf(alerts + [a]) == DedupOf(alerts)[DedupKey(a.service, a.metric) := a.timestamp]
  {
    assert (alerts + [a])[..|alerts|] == alerts;
  }

  /** What holds of every reachable engine state. */
  ghost predicate Consistent(e: Engine)
  {
    Balanced(e.stats) &&
    e.stats.breaches <= e.stats.checks &&
    |e.alerts| == e.stats.alertsSent &&
    (forall a <- e.alerts :: ViolatesSla(a.metric, a.value) && Threshold(a.metric) == Some(a.threshold)) &&
    e.dedup == DedupOf(e.alerts)
  }

  /** The new state after one call, and the alert it returned, if any. */
  datatype Outcome = Outcome(next: Engine, fired: Option<Alert>)

  /** `e` with one more check counted and nothing else changed. */
  function CountCheck(e: Engine): Engine
  {
    e.(stats := e.stats.(checks := e.stats.checks + 1))
  }

  /** The effect of `check_sla(service, metric, value)` at time `now`. */
  function Evaluate(e: Engine, service: string, metric: string, value: real, now: real): (r: Outcome)
    // a sample that violates nothing (an unknown metric included) only counts a check
    ensures !ViolatesSla(metric, value) ==> r == Outcome(CountCheck(e), None)
    // a violation inside the window of its key is counted and suppressed; the stamp stays
    ensures ViolatesSla(metric, value) && Suppressed(e.dedup, DedupKey(service, metric), now) ==>
      r == Outcome(e.(stats := Stats(e.stats.checks + 1, e.stats.breaches + 1,
                                     e.stats.alertsSent, e.stats.deduplicated + 1)), None)
    // any other violation fires: recorded last in the history, stamped at `now`
    ensures ViolatesSla(metric, value) && !Suppressed(e.dedup, DedupKey(service, metric), now) ==>
      Recognized(metric) &&
      r.fired == Some(Alert(service, metric, value, Threshold(metric).value, now)) &&
      r.next == Engine(e.alerts + [r.fired.value], e.dedup[DedupKey(service, metric) := now],
                       Stats(e.stats.checks + 1, e.stats.breaches + 1,
                             e.stats.alertsSent + 1, e.stats.deduplicated),
                       e.callbacks)
    ensures r.next.stats.checks == e.stats.checks + 1
    ensures NoneDecreased(e.stats, r.next.stats)
    ensures Balanced(e.stats) ==> Balanced(r.next.stats)
    ensures e.alerts <= r.next.alerts
    ensures Consistent(e) ==> Consistent(r.next)
  {
    var counted := CountCheck(e);
    match Threshold(metric)
    case None => Outcome(counted, None)
    case Some(threshold) =>
      if !Breached(metric, value, threshold) then Outcome(counted, None)
      else
        var stats := counted.stats.(breaches := counted.stats.breaches + 1);
        var key := DedupKey(service, metric);
        if key in e.dedup && now - e.dedup[key] < DedupWindow then
          Outcome(counted.(stats := stats.(deduplicated := stats.deduplicated + 1)), None)
        else
          var alert := Alert(service, metric, value, threshold, now);
          DedupOfSnoc(e.alerts, alert);
          Outcome(Engine(e.alerts + [alert], e.dedup[key := now],
                         stats.(alertsSent := stats.alertsSent + 1), e.callbacks),
                  Some(alert))
  }

  /** One call of `check_sla`: the sample and the time it is evaluated at. */
  datatype Sample = Sample(service: string, metric: string, value: real, now: real)

  /** The state after a series of calls, in order. */
  function Run(e: Engine, samples: seq<Sample>): Engine
    decreases |samples|
  {
    if samples == [] then e
    else
      var s := samples[0];
      Run(Evaluate(e, s.service, s.metric, s.value, s.now).next, samples[1..])
  }

  /** Over any series of calls: the invariant holds, each call counts one check,
      no counter decreases, history only grows at its end, callbacks stay. */
  lemma {:induction false} RunKeepsInvariant(e: Engine, samples: seq<Sample>)
    requires Consistent(e)
    ensures Consistent(Run(e, samples))
    ensures Run(e, samples).stats.checks == e.stats.checks + |samples|
    ensures NoneDecreased(e.stats, Run(e, samples).stats)
    ensures e.alerts <= Run(e, samples).alerts
    ensures Run(e, samples).callbacks == e.callbacks
    decreases |samples|
  {
    if samples != [] {
      var s := samples[0];
      var next := Evaluate(e, s.service, s.metric, s.value, s.now).next;
      RunKeepsInvariant(next, samples[1..]);
    }
  }

  /** A recognised metric name contains no ':'. */
  lemma RecognizedHasNoColon(metric: string)
    requires Recognized(metric)
    ensures ':' !in metric
  {
  }

  /** Two keys built from colon-free metric names agree only when service and
      metric agree: the last ':' of a key separates its two parts. */
  lemma {:induction false} DedupKeyInjective(s1: string, m1: string, s2: string, m2: string)
    requires ':' !in m1 && ':' !in m2
    requires DedupKey(s1, m1) == DedupKey(s2, m2)
    ensures s1 == s2 && m1 == m2
  {
    var key := DedupKey(s1, m1);
    var n := |key|;
    assert forall i :: 0 <= i < |m1| ==> key[n - |m1| + i] == m1[i];
    assert forall i :: 0 <= i < |m2| ==> key[n - |m2| + i] == m2[i];
    assert key[n - |m1| - 1] == ':' && key[n - |m2| - 1] == ':';
    if |m1| != |m2| {
      assert false;
    }
    assert m1 == key[n - |m1|..] == m2;
    assert s1 == key[..|s1|] == s2;
  }

  /** The time of the last alert fired for `service` and `metric`, if any. */
  function LastFiring(alerts: seq<Alert>, service: string, metric: string): Option<real>
  {
    if alerts == [] then None
    else
      var a := alerts[|alerts| - 1];
      if a.service == service && a.metric == metric then Some(a.timestamp)
      else LastFiring(alerts[..|alerts| - 1], service, metric)
  }

  /** For a recognised metric, the dedup map holds exactly the time of the last
      alert fired for that service and metric, and nothing when none fired. */
  lemma {:induction false} DedupTracksLastFiring(alerts: seq<Alert>, service: string, metric: string)
    requires forall a <- alerts :: Recognized(a.metric)
    requires Recognized(metric)
    ensures var d := DedupOf(alerts); var key := DedupKey(service, metric);
      (if key in d then Some(d[key]) else None) == LastFiring(alerts, service, metric)
  {
    if alerts != [] {
      var prefix := alerts[..|alerts| - 1];
      var a := alerts[|alerts| - 1];
      DedupTracksLastFiring(prefix, service, metric);
      if DedupKey(a.service, a.metric) == DedupKey(service, metric) {
        RecognizedHasNoColon(a.metric);
        RecognizedHasNoColon(metric);
        DedupKeyInjective(a.service, a.metric, service, metric);
      }
    }
  }

  /** Two violations of one service and metric, the first on a fresh key and the
      second less than 300 seconds later, fire once and suppress once; a third
      at least 300 seconds after the first fires again. */
  lemma RepeatedBreach(e: Engine, service: string, metric: string, v1: real, v2: real, v3: real,
                       t1: real, t2: real, t3: real)
    requires DedupKey(service, metric) !in e.dedup
    requires ViolatesSla(metric, v1) && ViolatesSla(metric, v2) && ViolatesSla(metric, v3)
    requires t1 <= t2 < t1 + DedupWindow && t1 + DedupWindow <= t3
    ensures var o1 := Evaluate(e, service, metric, v1, t1);
            var o2 := Evaluate(o1.next, service, metric, v2, t2);
            var o3 := Evaluate(o2.next, service, metric, v3, t3);
            o1.fired.Some? && o2.fired.None? && o3.fired.Some? &&
            o2.next.stats.deduplicated == e.stats.deduplicated + 1 &&
            o3.next.stats.alertsSent == e.stats.alertsSent + 2 &&
            o3.next.dedup[DedupKey(service, metric)] == t3
  {
  }

  /** The engine object; its fields are those of the source. */
  class SlaAlertManager {
    var alerts: seq<Alert>
    var dedup: map<string, real>
    var checks: nat
    var breaches: nat
    var alertsSent: nat
    var deduplicated: nat
    var callbacks: seq<CallbackId>

    ghost function State(): Engine
      reads this
    {
      Engine(alerts, dedup, Stats(checks, breaches, alertsSent, deduplicated), callbacks)
    }

    ghost predicate Valid()
      reads this
    {
      Consistent(State())
    }

    constructor ()
      ensures Valid() && State() == Initial
    {
      alerts := [];
      callbacks := [];
      dedup := map[];
      checks, breaches, alertsSent, deduplicated := 0, 0, 0, 0;
      new;
      assert alerts == [];
      assert DedupOf(alerts) == map[] == dedup;
      assert State() == Initial;
    }

    /** Evaluate one sample at time `now`; returns the fired alert, if any.
        Notifying the callbacks has no effect on the engine and is not modelled. */
    method CheckSla(service: string, metric: string, value: real, now: real) returns (alert: Option<Alert>)
      requires Valid()
      modifies this
      ensures Valid()
      ensures Outcome(State(), alert) == Evaluate(old(State()), service, metric, value, now)
    {
      ghost var outcome := Evaluate(State(), service, metric, value, now);
      checks := checks + 1;

      var threshold := Threshold(metric);
      if threshold.None? {
        assert State() == outcome.next;
        return None;
      }

      if !Breached(metric, value, threshold.value) {
        assert State() == outcome.next;
        return None;
      }

      breaches := breaches + 1;

      var key := DedupKey(service, metric);
      if key in dedup {
        if now - dedup[key] < DedupWindow {
          deduplicated := deduplicated + 1;
          assert State() == outcome.next;
          return None;
        }
      }

      dedup := dedup[key := now];
      var fired := Alert(service, metric, value, threshold.value, now);
      alerts := alerts + [fired];
      alertsSent := alertsSent + 1;
      alert := Some(fired);
      assert State() == outcome.next;
    }

    /** Register a callback at the end of the list, duplicates allowed. */
    method OnAlert(callback: CallbackId)
      requires Valid()
      modifies this
      ensures Valid()
      ensures State() == old(State()).(callbacks := old(callbacks) + [callback])
    {
      callbacks := callbacks + [callback];
    }

    /** The history, or only the alerts of one service when a non-empty name is given. */
    function GetAlerts(service: Option<string>): (r: seq<Alert>)
      reads this
      ensures service == None || service == Some("") ==> r == alerts
      ensures service.Some? && service.value != "" ==>
        (forall a <- r :: a.service == service.value) &&
        IsSubsequence(r, alerts) &&
        (forall a :: multiset(r)[a] == if a.service == service.value then multiset(alerts)[a] else 0)
    {
      if service.Some? && service.value != "" then
        SelectIsFilter(alerts, Service, service.value);
        Select(alerts, Service, service.value)
      else alerts
    }

    /** A copy of the four counters. */
    function GetStats(): (s: Stats)
      reads this
      requires Valid()
      ensures s == State().stats
      ensures s.alertsSent + s.deduplicated == s.breaches
      ensures s.breaches <= s.checks
      ensures s.alertsSent == |alerts|
    {
      Stats(checks, breaches, alertsSent, deduplicated)
    }
  }
}
