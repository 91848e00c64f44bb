/** Values shared by the SLA alert engine and its report: the alert record,
    the two fields the report groups by, and filtering an alert history. */
module AlertModel {

  datatype Option<+T> = None | Some(value: T)

  /** A fired alert (src/slaAlertManager.py:65-72). The `message` entry of the
      source is derived from the other fields and is given by Message. */
  datatype Alert = Alert(service: string, metric: string, value: real, threshold: real, timestamp: real)

  /** The alert fields a history is grouped or filtered by. */
  datatype Field = Service | Metric

  function Project(a: Alert, f: Field): string
  {
    match f
    case Service => a.service
    case Metric => a.metric
  }

  /** The human-readable text of an alert. `render` stands for the decimal
      rendering of a number, which this model does not fix. */
  function Message(a: Alert, render: real -> string): (m: string)
    ensures "SLA BREACH: " + a.service + " " + a.metric + " is " <= m
    ensures |m| > 0 && m[|m| - 1] == ')'
  {
    "SLA BREACH: " + a.service + " " + a.metric + " is " + render(a.value)
      + " (threshold: " + render(a.threshold) + ")"
  }

  /** The `f` entries of a history, position by position. */
  function Column(alerts: seq<Alert>, f: Field): (c: seq<string>)
    ensures |c| == |alerts|
    ensures forall i :: 0 <= i < |alerts| ==> c[i] == Project(alerts[i], f)
  {
    if alerts == [] then []
    else Column(alerts[..|alerts| - 1], f) + [Project(alerts[|alerts| - 1], f)]
  }

  /** `xs` can be obtained from `ys` by deleting elements: the last element of
      `ys` either matches the last element of `xs` or is skipped. */
  ghost predicate IsSubsequence<T>(xs: seq<T>, ys: seq<T>)
    decreases |ys|
  {
    xs == [] ||
    (ys != [] &&
     ((xs[|xs| - 1] == ys[|ys| - 1] && IsSubsequence(xs[..|xs| - 1], ys[..|ys| - 1])) ||
      IsSubsequence(xs, ys[..|ys| - 1])))
  }

  /** The alerts whose `f` entry is `k`, in history order. */
  function Select(alerts: seq<Alert>, f: Field, k: string): seq<Alert>
  {
    if alerts == [] then []
    else
      var rest := Select(alerts[..|alerts| - 1], f, k);
      var last := alerts[|alerts| - 1];
      if Project(last, f) == k then rest + [last] else rest
  }

  /** Select keeps exactly the alerts carrying `k`: all of them, as often as
      they occur, nothing else, in history order. */
  lemma SelectIsFilter(alerts: seq<Alert>, f: Field, k: string)
    ensures forall a <- Select(alerts, f, k) :: Project(a, f) == k
    ensures IsSubsequence(Select(alerts, f, k), alerts)
    ensures forall a :: multiset(Select(alerts, f, k))[a] ==
                        (if Project(a, f) == k then multiset(alerts)[a] else 0)
  {
    SelectKeepsKey(alerts, f, k);
    SelectIsSubsequence(alerts, f, k);
    SelectCounts(alerts, f, k);
  }

  lemma {:induction false} SelectKeepsKey(alerts: seq<Alert>, f: Field, k: string)
    ensures forall a <- Select(alerts, f, k) :: Project(a, f) == k
  {
    if alerts != [] {
      SelectKeepsKey(alerts[..|alerts| - 1], f, k);
    }
  }

  lemma {:induction false} SelectIsSubsequence(alerts: seq<Alert>, f: Field, k: string)
    ensures IsSubsequence(Select(alerts, f, k), alerts)
  {
    if alerts != [] {
      SelectIsSubsequence(alerts[..|alerts| - 1], f, k);
    }
  }

  lemma {:induction false} SelectCounts(alerts: seq<Alert>, f: Field, k: string)
    ensures forall a :: multiset(Select(alerts, f, k))[a] ==
                        (if Project(a, f) == k then multiset(alerts)[a] else 0)
  {
    if alerts != [] {
      var prefix := alerts[..|alerts| - 1];
      var last := alerts[|alerts| - 1];
      assert alerts == prefix + [last];
      assert multiset(alerts) == multiset(prefix) + multiset{last};
      SelectCounts(prefix, f, k);
    }
  }

  /** A key that no alert carries selects nothing. */
  lemma {:induction false} SelectOutsideColumn(alerts: seq<Alert>, f: Field, k: string)
    requires k !in Column(alerts, f)
    ensures Select(alerts, f, k) == []
  {
    if alerts != [] {
      var prefix := alerts[..|alerts| - 1];
      assert Column(alerts, f) == Column(prefix, f) + [Project(alerts[|alerts| - 1], f)];
      SelectOutsideColumn(prefix, f, k);
    }
  }
}
