/** The SLA report (src/slaReport.py): a read-only view over an engine that
    groups its alert history by service and by metric and copies its counters. */
module Report {
  import opened AlertModel
  import opened AlertManager

  predicate NoDuplicates(xs: seq<string>)
  {
    forall i, j :: 0 <= i < j < |xs| ==> xs[i] != xs[j]
  }

  /** The position of the first occurrence of `x`. */
  function IndexOf(xs: seq<string>, x: string): (i: nat)
    requires x in xs
    ensures i < |xs| && xs[i] == x && x !in xs[..i]
  {
    if xs[0] == x then 0 else 1 + IndexOf(xs[1..], x)
  }

  /** Appending an element leaves the first occurrence of anything already present where it was. */
  lemma IndexOfSnoc(xs: seq<string>, y: string, x: string)
    requires x in xs
    ensures IndexOf(xs + [y], x) == IndexOf(xs, x)
  {
    var i, j := IndexOf(xs, x), IndexOf(xs + [y], x);
    assert (xs + [y])[i] == x;
  }

  /** `r` lists every element of `xs` once and nothing else, ordered by where
      each element first occurs in `xs`. */
  ghost predicate ListsFirstAppearances(r: seq<string>, xs: seq<string>)
  {
    NoDuplicates(r) &&
    (forall x :: x in r <==> x in xs) &&
    (forall i, j :: 0 <= i < j < |r| ==> IndexOf(xs, r[i]) < IndexOf(xs, r[j]))
  }

  /** The distinct elements of `xs` in order of first appearance: the key order
      of a dictionary filled from `xs` in order. */
  function FirstSeen(xs: seq<string>): (r: seq<string>)
    ensures ListsFirstAppearances(r, xs)
  {
    if xs == [] then []
    else
      var prefix := xs[..|xs| - 1];
      var x := xs[|xs| - 1];
      var p := FirstSeen(prefix);
      assert xs == prefix + [x];
      FirstSeenOrder(prefix, x, p);
      if x in p then p else p + [x]
  }

  /** The ordering step of FirstSeen: first occurrences in the prefix stay, and
      an element new to the prefix is first seen at the end. */
  lemma FirstSeenOrder(prefix: seq<string>, x: string, p: seq<string>)
    requires forall y :: y in p <==> y in prefix
    requires forall i, j :: 0 <= i < j < |p| ==> IndexOf(prefix, p[i]) < IndexOf(prefix, p[j])
    ensures forall i :: 0 <= i < |p| ==> IndexOf(prefix + [x], p[i]) == IndexOf(prefix, p[i])
    ensures x !in prefix ==> IndexOf(prefix + [x], x) == |prefix|
  {
    forall i | 0 <= i < |p|
      ensures IndexOf(prefix + [x], p[i]) == IndexOf(prefix, p[i])
    {
      IndexOfSnoc(prefix, x, p[i]);
    }
    if x !in prefix {
      assert (prefix + [x])[..|prefix|] == prefix;
    }
  }

  /** The grouping of a history by `f`: each key that occurs, with its alerts in order. */
  function GroupsOf(alerts: seq<Alert>, f: Field): map<string, seq<Alert>>
  {
    map k | k in Column(alerts, f) :: Select(alerts, f, k)
  }

  /** One more alert extends the column of its history by its own key. */
  lemma ColumnSnoc(alerts: seq<Alert>, a: Alert, f: Field)
    ensures Column(alerts + [a], f) == Column(alerts, f) + [Project(a, f)]
  {
    assert (alerts + [a])[..|alerts|] == alerts;
  }

  /** One more alert: its key joins the end of the key order if it is new. */
  lemma KeysSnoc(alerts: seq<Alert>, a: Alert, f: Field)
    ensures var k := Project(a, f);
      var keys := FirstSeen(Column(alerts, f));
      FirstSeen(Column(alerts + [a], f)) == if k in keys then keys else keys + [k]
  {
    var c := Column(alerts, f);
    ColumnSnoc(alerts, a, f);
    assert (c + [Project(a, f)])[..|c|] == c;
  }

  /** One more alert: its key's group gains it at the end, or the key is added
      with a group holding only it; every other group stays. */
  lemma GroupsOfSnoc(alerts: seq<Alert>, a: Alert, f: Field)
    ensures var k := Project(a, f);
      var g := GroupsOf(alerts, f);
      GroupsOf(alerts + [a], f) == g[k := (if k in g then g[k] else []) + [a]]
  {
    var k := Project(a, f);
    var c := Column(alerts, f);
    var g := GroupsOf(alerts, f);
    var expected := g[k := (if k in g then g[k] else []) + [a]];
    var g' := GroupsOf(alerts + [a], f);
    ColumnSnoc(alerts, a, f);
    assert forall x :: x in c + [k] <==> x in c || x == k;
    assert g'.Keys == expected.Keys;
    forall x | x in g'
      ensures g'[x] == expected[x]
    {
      assert g'[x] == Select(alerts + [a], f, x);
      SelectSnoc(alerts, a, f, x);
      if x != k {
        assert x in g && g[x] == Select(alerts, f, x);
      } else if k in g {
        assert g[k] == Select(alerts, f, k);
      } else {
        SelectOutsideColumn(alerts, f, k);
      }
    }
  }

  lemma SelectSnoc(alerts: seq<Alert>, a: Alert, f: Field, k: string)
    ensures Select(alerts + [a], f, k) == Select(alerts, f, k) + if Project(a, f) == k then [a] else []
  {
    assert (alerts + [a])[..|alerts|] == alerts;
  }

  /** `w` is the first key of `keys` whose group is largest. */
  ghost predicate FirstLargest(keys: seq<string>, groups: map<string, seq<Alert>>, w: string)
    requires forall k <- keys :: k in groups
  {
    w in keys &&
    (forall k <- keys :: |groups[k]| <= |groups[w]|) &&
    (forall i :: 0 <= i < IndexOf(keys, w) ==> |groups[keys[i]]| < |groups[w]|)
  }

  /** Scanning one more key keeps the first largest: it is replaced only by a
      strictly larger group. */
  lemma FirstLargestSnoc(keys: seq<string>, k: string, groups: map<string, seq<Alert>>, best: string)
    requires forall x <- keys + [k] :: x in groups
    requires FirstLargest(keys, groups, best)
    ensures FirstLargest(keys + [k], groups, if |groups[k]| > |groups[best]| then k else best)
  {
    var all := keys + [k];
    IndexOfSnoc(keys, k, best);
    if |groups[k]| > |groups[best]| {
      forall i | 0 <= i < IndexOf(all, k)
        ensures |groups[all[i]]| < |groups[k]|
      {
        assert all[i] in keys;
      }
    }
  }

  /** Python's `max` over `keys` by group size: the first key whose group is
      largest, since the running maximum only moves on a strictly larger group. */
  function MaxByCount(keys: seq<string>, groups: map<string, seq<Alert>>): (w: string)
    requires keys != []
    requires forall k <- keys :: k in groups
    ensures FirstLargest(keys, groups, w)
    decreases |keys|
  {
    if |keys| == 1 then keys[0]
    else
      var prefix := keys[..|keys| - 1];
      var k := keys[|keys| - 1];
      assert keys == prefix + [k];
      var best := MaxByCount(prefix, groups);
      FirstLargestSnoc(prefix, k, groups, best);
      if |groups[k]| > |groups[best]| then k else best
  }

  /** Breaches per hundred checks, with the divisor never below one. */
  function BreachRate(stats: Stats): (rate: real)
    ensures rate >= 0.0
    ensures stats.breaches == 0 ==> rate == 0.0
    ensures stats.checks <= 1 ==> rate == stats.breaches as real * 100.0
    ensures stats.breaches <= stats.checks ==> rate <= 100.0
  {
    var divisor := if stats.checks > 1 then stats.checks else 1;
    RatioAtMostOne(stats.breaches as real, divisor as real);
    stats.breaches as real / divisor as real * 100.0
  }

  lemma RatioAtMostOne(n: real, d: real)
    requires 0.0 <= n && 1.0 <= d
    ensures 0.0 <= n / d
    ensures d == 1.0 ==> n / d == n
    ensures n <= d ==> n / d <= 1.0
  {
    var q := n / d;
    assert q * d == n;
    if q < 0.0 {
      assert false;
    }
    if n <= d && q > 1.0 {
      assert false;
    }
  }

  datatype Summary = Summary(
    totalChecks: nat,
    totalBreaches: nat,
    alertsSent: nat,
    deduplicated: nat,
    breachRate: real,
    servicesAffected: seq<string>,
    metricsBreached: seq<string>,
    worstService: Option<string>)

  /** The summary of a history and a copy of the counters. */
  function Summarize(alerts: seq<Alert>, stats: Stats): (s: Summary)
    ensures s.totalChecks == stats.checks && s.totalBreaches == stats.breaches
    ensures s.alertsSent == stats.alertsSent && s.deduplicated == stats.deduplicated
    ensures s.breachRate == BreachRate(stats)
    ensures ListsFirstAppearances(s.servicesAffected, Column(alerts, Service))
    ensures ListsFirstAppearances(s.metricsBreached, Column(alerts, Metric))
    ensures s.worstService.None? <==> alerts == []
  {
    var services := FirstSeen(Column(alerts, Service));
    var metrics := FirstSeen(Column(alerts, Metric));
    var byService := GroupsOf(alerts, Service);
    assert alerts != [] ==> Column(alerts, Service)[0] in services;
    Summary(stats.checks, stats.breaches, stats.alertsSent, stats.deduplicated, BreachRate(stats),
            services, metrics,
            if services == [] then None else Some(MaxByCount(services, byService)))
  }

  /** A key occurs in a column exactly when some alert carries it. */
  lemma ColumnMembers(alerts: seq<Alert>, f: Field)
    ensures forall x :: x in Column(alerts, f) <==> exists a <- alerts :: Project(a, f) == x
  {
    var c := Column(alerts, f);
    forall x | x in c ensures exists a <- alerts :: Project(a, f) == x {
      var i :| 0 <= i < |c| && c[i] == x;
      assert Project(alerts[i], f) == x;
    }
  }

  /** The number of alerts fired for `service`. */
  function AlertCount(alerts: seq<Alert>, service: string): nat
  {
    |Select(alerts, Service, service)|
  }

  /** The worst service has no fewer alerts than any service, and every
      service seen before it has strictly fewer. */
  lemma {:induction false} WorstServiceIsFirstMaximal(alerts: seq<Alert>, stats: Stats)
    requires alerts != []
    ensures var w := Summarize(alerts, stats).worstService;
      w.Some? &&
      (exists a <- alerts :: a.service == w.value) &&
      (forall x :: AlertCount(alerts, x) <= AlertCount(alerts, w.value)) &&
      (forall x :: x in Column(alerts, Service) && AlertCount(alerts, x) == AlertCount(alerts, w.value) ==>
         IndexOf(Column(alerts, Service), w.value) <= IndexOf(Column(alerts, Service), x))
  {
    var column := Column(alerts, Service);
    var services := FirstSeen(column);
    var groups := GroupsOf(alerts, Service);
    assert column[0] in services;
    var w := MaxByCount(services, groups);
    assert Summarize(alerts, stats).worstService == Some(w);
    ColumnMembers(alerts, Service);
    WorstHasMostAlerts(alerts, services, groups, w);
    WorstComesFirst(alerts, services, groups, w);
  }

  lemma WorstHasMostAlerts(alerts: seq<Alert>, services: seq<string>, groups: map<string, seq<Alert>>, w: string)
    requires services == FirstSeen(Column(alerts, Service)) && groups == GroupsOf(alerts, Service)
    requires forall k <- services :: k in groups
    requires FirstLargest(services, groups, w)
    ensures forall x :: AlertCount(alerts, x) <= AlertCount(alerts, w)
  {
    var column := Column(alerts, Service);
    assert groups[w] == Select(alerts, Service, w);
    forall x ensures AlertCount(alerts, x) <= AlertCount(alerts, w) {
      if x !in column {
        SelectOutsideColumn(alerts, Service, x);
      } else {
        assert x in services && groups[x] == Select(alerts, Service, x);
      }
    }
  }

  lemma WorstComesFirst(alerts: seq<Alert>, services: seq<string>, groups: map<string, seq<Alert>>, w: string)
    requires services == FirstSeen(Column(alerts, Service)) && groups == GroupsOf(alerts, Service)
    requires forall k <- services :: k in groups
    requires FirstLargest(services, groups, w)
    ensures forall x :: x in Column(alerts, Service) && AlertCount(alerts, x) == AlertCount(alerts, w) ==>
      IndexOf(Column(alerts, Service), w) <= IndexOf(Column(alerts, Service), x)
  {
    var column := Column(alerts, Service);
    forall x | x in column && AlertCount(alerts, x) == AlertCount(alerts, w)
      ensures IndexOf(column, w) <= IndexOf(column, x)
    {
      assert x in services && groups[x] == Select(alerts, Service, x);
      assert groups[w] == Select(alerts, Service, w);
      FirstLargestIsEarliest(column, services, groups, w, x);
    }
  }

  /** Among keys with the largest group, the first largest is the one whose
      first occurrence in `column` is earliest. */
  lemma FirstLargestIsEarliest(column: seq<string>, keys: seq<string>, groups: map<string, seq<Alert>>,
                               w: string, x: string)
    requires ListsFirstAppearances(keys, column)
    requires forall k <- keys :: k in groups
    requires FirstLargest(keys, groups, w)
    requires x in keys && |groups[x]| == |groups[w]|
    ensures IndexOf(column, w) <= IndexOf(column, x)
  {
    var i, j := IndexOf(keys, x), IndexOf(keys, w);
    if j < i {
      assert IndexOf(column, keys[j]) < IndexOf(column, keys[i]);
    }
  }

  datatype ServiceReport = ServiceReport(service: string, totalBreaches: nat, breaches: seq<Alert>)

  /** `keys` and `groups` are the grouping of `alerts` by `f`. */
  ghost predicate Grouped(alerts: seq<Alert>, f: Field, keys: seq<string>, groups: map<string, seq<Alert>>)
  {
    keys == FirstSeen(Column(alerts, f)) && groups == GroupsOf(alerts, f)
  }

  /** Appending one alert to its key's group, creating the group first when the
      key is new, groups the history extended by that alert. */
  lemma GroupedSnoc(alerts: seq<Alert>, a: Alert, f: Field, keys: seq<string>, groups: map<string, seq<Alert>>)
    requires Grouped(alerts, f, keys, groups)
    ensures var k := Project(a, f);
      Grouped(alerts + [a], f,
              if k in groups then keys else keys + [k],
              groups[k := (if k in groups then groups[k] else []) + [a]])
  {
    KeysSnoc(alerts, a, f);
    GroupsOfSnoc(alerts, a, f);
    var k := Project(a, f);
    assert k in groups <==> k in keys;
  }

  /** The alerts of one engine grouped by service and by metric in a single pass,
      each grouping as its key order and its groups. */
  method GroupAlerts(alerts: seq<Alert>)
    returns (services: seq<string>, byService: map<string, seq<Alert>>,
             metrics: seq<string>, byMetric: map<string, seq<Alert>>)
    ensures Grouped(alerts, Service, services, byService)
    ensures Grouped(alerts, Metric, metrics, byMetric)
  {
    services, byService, metrics, byMetric := [], map[], [], map[];
    for i := 0 to |alerts|
      invariant Grouped(alerts[..i], Service, services, byService)
      invariant Grouped(alerts[..i], Metric, metrics, byMetric)
    {
      var alert := alerts[i];
      assert alerts[..i + 1] == alerts[..i] + [alert];
      GroupedSnoc(alerts[..i], alert, Service, services, byService);
      GroupedSnoc(alerts[..i], alert, Metric, metrics, byMetric);

      // a missing key starts with an empty group, as in a defaultdict(list)
      var serviceGroup := if alert.service in byService then byService[alert.service] else [];
      if alert.service !in byService {
        services := services + [alert.service];
      }
      byService := byService[alert.service := serviceGroup + [alert]];

      var metricGroup := if alert.metric in byMetric then byMetric[alert.metric] else [];
      if alert.metric !in byMetric {
        metrics := metrics + [alert.metric];
      }
      byMetric := byMetric[alert.metric := metricGroup + [alert]];
    }
    assert alerts[..|alerts|] == alerts;
  }

  /** A grouping is empty exactly when its key list is. */
  lemma NoGroupsWithoutKeys(alerts: seq<Alert>, f: Field)
    ensures GroupsOf(alerts, f) == map[] <==> FirstSeen(Column(alerts, f)) == []
  {
    var keys := FirstSeen(Column(alerts, f));
    if keys != [] {
      assert keys[0] in GroupsOf(alerts, f);
    }
  }

  /** The report object: it holds the engine and only reads it. */
  class SlaReport {
    const manager: SlaAlertManager

    constructor (manager: SlaAlertManager)
      ensures this.manager == manager
    {
      this.manager := manager;
    }

    /** The summary of the engine's current history and counters. Having no
        modifies clause, it leaves the engine as it was. */
    method GenerateSummary() returns (summary: Summary)
      requires manager.Valid()
      ensures summary == Summarize(manager.alerts, manager.GetStats())
    {
      var alerts := manager.GetAlerts(None);
      var stats := manager.GetStats();
      var services, byService, metrics, byMetric := GroupAlerts(alerts);
      NoGroupsWithoutKeys(alerts, Service);
      var worst := if byService == map[] then None else Some(MaxByCount(services, byService));
      summary := Summary(stats.checks, stats.breaches, stats.alertsSent, stats.deduplicated,
                         BreachRate(stats), services, metrics, worst);
    }

    /** The alerts of one service, and how many there are. */
    function GetServiceReport(service: string): (r: ServiceReport)
      reads this, manager
      ensures r.service == service && r.totalBreaches == |r.breaches|
      ensures service != "" ==>
        (forall a <- r.breaches :: a.service == service) &&
        (forall a :: multiset(r.breaches)[a] ==
                     (if a.service == service then multiset(manager.alerts)[a] else 0)) &&
        IsSubsequence(r.breaches, manager.alerts)
      ensures service == "" ==> r.breaches == manager.alerts
    {
      var alerts := manager.GetAlerts(Some(service));
      ServiceReport(service, |alerts|, alerts)
    }
  }
}
