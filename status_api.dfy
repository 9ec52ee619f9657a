/**
  The `/api/status` handler of the status page server. It probes every
  configured service once, classifies each outcome as `up` or `down`, and
  answers with the ordered list of per-service records, an overall verdict and
  an uptime percentage.

  The handler exists twice, in server/index.ts and in its hand-written
  JavaScript twin server/index.js. The two differ only in the message they
  record for a failed probe, so one model serves both, with a `Variant`
  parameter that selects that message.

  The HTTP request, the wall clock and the concurrency of Promise.all are not
  modelled: what a probe returned, the elapsed milliseconds and the ISO-8601
  time stamps are inputs.
 */
module StatusApi {
  import opened Wrappers
  import opened Decimal

  /** An ISO-8601 time stamp from `new Date().toISOString()`, taken as given. */
  type Timestamp = string

  /** Which of the two twin source files is meant. */
  datatype Variant = IndexTs | IndexJs

  /** A health-check target: a display name, a base URL and a health path. */
  datatype Service = Service(name: string, url: string, path: string)

  datatype Status = Up | Down

  /** A value thrown by the probe: an Error object, or anything else. */
  datatype Thrown =
    | ErrorInstance(message: string)
      /** Any other value, with its `message` property when it holds a string. */
    | NonError(ownMessage: Option<string>)

  /**
    What one probe came to. Every status code is a response, never a throw
    (`validateStatus: () => true`); a timeout or a network error is a Failure.
    `latencyMs` is `Date.now() - start`, wall-clock milliseconds, and `at` is
    the time stamp taken when the record is built.
   */
  datatype Outcome =
    | Response(code: int, latencyMs: int, at: Timestamp)
    | Failure(thrown: Thrown, at: Timestamp)

  /** A per-service record; None stands for a field that is not in the JSON object. */
  datatype ServiceStatus = ServiceStatus(
    name: string,
    status: Status,
    statusCode: Option<int>,
    latency: Option<string>,
    error: Option<string>,
    lastChecked: Timestamp)

  datatype Overall = Operational | Degraded | Down

  datatype StatusResponse = StatusResponse(
    overall: Overall,
    uptime: string,
    services: seq<ServiceStatus>,
    lastUpdated: Timestamp)

  /** The configured targets, in declaration order. */
  const SERVICES: seq<Service> := [
    Service("Mission Control", "http://localhost:3080", "/health"),
    Service("Antfarm Dashboard", "http://localhost:3333", "/health"),
    Service("LogPulse", "http://localhost:3502", "/health"),
    Service("AgentViz", "http://localhost:3503", "/health"),
    Service("RestMenu", "http://localhost:3501", "/health"),
    Service("ClawDocs", "http://localhost:3504", "/health"),
    Service("Grafana", "http://localhost:3002", "/api/health"),
    Service("n8n", "http://localhost:5678", "/healthz")
  ]

  /** A probe that counts as healthy: an HTTP response whose code is exactly 200. */
  predicate Healthy(o: Outcome) {
    o.Response? && o.code == 200
  }

  // ---------------------------------------------------------------------------
  // One probe
  // ---------------------------------------------------------------------------

  /** The `latency` field: the elapsed milliseconds followed by "ms". */
  function LatencyText(ms: int): string {
    IntText(ms) + "ms"
  }

  /** Reads the milliseconds back out of a `latency` field. */
  function ParseLatency(s: string): Option<int> {
    if |s| >= 2 && s[|s| - 2..] == "ms" then ParseInt(s[..|s| - 2]) else None
  }

  lemma ParseLatencyText(ms: int)
    ensures ParseLatency(LatencyText(ms)) == Some(ms)
  {
    var t := IntText(ms);
    assert LatencyText(ms)[..|t|] == t;
    ParseIntText(ms);
  }

  /** A `latency` field the parser accepts is exactly the text printed for its value. */
  lemma LatencyTextOfParse(s: string, ms: int)
    requires ParseLatency(s) == Some(ms)
    ensures LatencyText(ms) == s
  {
    IntTextOfParse(s[..|s| - 2], ms);
    assert s == s[..|s| - 2] + "ms";
  }

  /** The `error` field of a failed probe's record. */
  function CaughtMessage(v: Variant, e: Thrown): Option<string> {
    match e
    case ErrorInstance(m) => Some(m)
    case NonError(own) =>
      match v
      case IndexTs => Some("Unknown error")
      case IndexJs => own
  }

  /**
    The record the handler builds for `service` from the outcome of its probe.
    `up` exactly when the response code is 200; a response of any code records
    its code and latency and no error; a failure records neither code nor
    latency, only the caught message.
   */
  function Probe(v: Variant, service: Service, outcome: Outcome): (r: ServiceStatus)
    ensures r.name == service.name
    ensures r.lastChecked == outcome.at
    ensures r.status == Up <==> Healthy(outcome)
    ensures r.statusCode.Some? <==> outcome.Response?
    ensures r.latency.Some? <==> outcome.Response?
    ensures outcome.Response? ==>
      r.statusCode == Some(outcome.code) && r.error == None
      && ParseLatency(r.latency.value) == Some(outcome.latencyMs)
    ensures outcome.Failure? ==> r.error == CaughtMessage(v, outcome.thrown)
    ensures v == IndexTs ==> (r.statusCode.Some? <==> r.error == None)
  {
    match outcome
    case Response(code, ms, at) =>
      ParseLatencyText(ms);
      ServiceStatus(service.name, if code == 200 then Up else Status.Down,
                    Some(code), Some(LatencyText(ms)), None, at)
    case Failure(e, at) =>
      ServiceStatus(service.name, Status.Down, None, None, CaughtMessage(v, e), at)
  }

  /** Any Error object gets the same record from both files. */
  lemma VariantsAgreeOnErrors(service: Service, outcome: Outcome)
    requires outcome.Failure? ==> outcome.thrown.ErrorInstance?
    ensures Probe(IndexTs, service, outcome) == Probe(IndexJs, service, outcome)
  {
  }

  /**
    A thrown value that is not an Error and has no string `message`: the
    TypeScript file records "Unknown error", the JavaScript file records no
    `error` field at all, so its record carries neither a code nor an error.
   */
  lemma VariantsDifferOnNonErrors(service: Service, at: Timestamp)
    ensures Probe(IndexTs, service, Failure(NonError(None), at)).error == Some("Unknown error")
    ensures var r := Probe(IndexJs, service, Failure(NonError(None), at));
      r.error == None && r.statusCode == None && r.status == Status.Down
  {
  }

  // ---------------------------------------------------------------------------
  // All probes
  // ---------------------------------------------------------------------------

  /**
    `SERVICES.map(...)` under Promise.all: one record per target, in the
    targets' order, whatever order the probes finish in.
   */
  function ProbeAll(v: Variant, services: seq<Service>, outcomes: seq<Outcome>): (rs: seq<ServiceStatus>)
    requires |outcomes| == |services|
    ensures |rs| == |services|
    ensures forall i :: 0 <= i < |rs| ==> rs[i] == Probe(v, services[i], outcomes[i])
    decreases |services|
  {
    if services == [] then []
    else [Probe(v, services[0], outcomes[0])] + ProbeAll(v, services[1..], outcomes[1..])
  }

  // ---------------------------------------------------------------------------
  // Counting `up`
  // ---------------------------------------------------------------------------

  /** `results.filter(r => r.status === 'up')`. */
  function UpOnly(rs: seq<ServiceStatus>): seq<ServiceStatus>
    decreases |rs|
  {
    if rs == [] then []
    else UpOnly(rs[..|rs| - 1]) + (if rs[|rs| - 1].status == Up then [rs[|rs| - 1]] else [])
  }

  /** `upCount`: the length of that filtered list. */
  function UpCount(rs: seq<ServiceStatus>): nat {
    |UpOnly(rs)|
  }

  /** The positions of the `up` records: an independent definition of the count. */
  function UpIndices(rs: seq<ServiceStatus>): set<nat> {
    set i: nat | i < |rs| && rs[i].status == Up
  }

  /** The filter keeps exactly the `up` records of the list. */
  lemma {:induction false} UpOnlyMembers(rs: seq<ServiceStatus>)
    ensures forall x :: x in UpOnly(rs) <==> x in rs && x.status == Up
    decreases |rs|
  {
    if rs != [] {
      var p := rs[..|rs| - 1];
      UpOnlyMembers(p);
      assert rs == p + [rs[|rs| - 1]];
    }
  }

  /** upCount is the number of positions holding an `up` record. */
  lemma {:induction false} UpCountIsIndexCount(rs: seq<ServiceStatus>)
    ensures UpCount(rs) == |UpIndices(rs)|
    decreases |rs|
  {
    if rs != [] {
      var n := |rs| - 1;
      var p := rs[..n];
      UpCountIsIndexCount(p);
      if rs[n].status == Up {
        assert UpIndices(rs) == UpIndices(p) + {n};
      } else {
        assert UpIndices(rs) == UpIndices(p);
      }
    }
  }

  /**
    0 <= upCount <= |results|; upCount reaches |results| exactly when every
    record is `up`, and is 0 exactly when every record is `down`.
   */
  lemma {:induction false} UpCountExtremes(rs: seq<ServiceStatus>)
    ensures UpCount(rs) <= |rs|
    ensures UpCount(rs) == |rs| <==> forall i :: 0 <= i < |rs| ==> rs[i].status == Up
    ensures UpCount(rs) == 0 <==> forall i :: 0 <= i < |rs| ==> rs[i].status == Status.Down
    decreases |rs|
  {
    if rs != [] {
      var n := |rs| - 1;
      var p := rs[..n];
      UpCountExtremes(p);
      assert forall i :: 0 <= i < n ==> rs[i] == p[i];
    }
  }

  // ---------------------------------------------------------------------------
  // The verdict and the uptime
  // ---------------------------------------------------------------------------

  /** The `overall` ternary on upCount and the number of results. */
  function OverallOf(upCount: nat, total: nat): Overall {
    if upCount == total then Operational
    else if upCount > 0 then Degraded
    else Overall.Down
  }

  /**
    `operational` exactly when every record is `up` (so also for no records),
    `down` exactly when there are records and none is `up`, `degraded` exactly
    when some record is `up` and some is not.
   */
  lemma {:induction false} OverallClassification(rs: seq<ServiceStatus>)
    ensures OverallOf(UpCount(rs), |rs|) == Operational
      <==> forall i :: 0 <= i < |rs| ==> rs[i].status == Up
    ensures OverallOf(UpCount(rs), |rs|) == Overall.Down
      <==> |rs| > 0 && forall i :: 0 <= i < |rs| ==> rs[i].status == Status.Down
    ensures OverallOf(UpCount(rs), |rs|) == Degraded
      <==> ((exists i :: 0 <= i < |rs| && rs[i].status == Up)
            && (exists j :: 0 <= j < |rs| && rs[j].status == Status.Down))
  {
    UpCountExtremes(rs);
  }

  /**
    The uptime percentage is a whole number of tenths of a percent, as it is
    for any count out of 8. The floating-point product may then be off by a
    tiny amount (for 7 of 100 it is 7.000000000000001), but far less than half
    a tenth, so the text `toFixed(1)` prints is exactly those tenths.
   */
  predicate UptimeExact(upCount: nat, total: nat) {
    total > 0 && (1000 * upCount) % total == 0
  }

  /** The `uptime` field: a percentage with one decimal and a trailing "%". */
  function PercentText(tenths: nat): string {
    Fixed1(tenths) + "%"
  }

  function ParsePercent(s: string): Option<nat> {
    if |s| > 0 && s[|s| - 1] == '%' then ParseFixed1(s[..|s| - 1]) else None
  }

  lemma ParsePercentText(tenths: nat)
    ensures ParsePercent(PercentText(tenths)) == Some(tenths)
  {
    var f := Fixed1(tenths);
    assert PercentText(tenths)[..|f|] == f;
    ParseFixed1Text(tenths);
  }

  /** An uptime text the parser accepts is exactly the text printed for its value. */
  lemma PercentTextOfParse(s: string, tenths: nat)
    requires ParsePercent(s) == Some(tenths)
    ensures PercentText(tenths) == s
  {
    Fixed1TextOfParse(s[..|s| - 1], tenths);
    assert s == s[..|s| - 1] + "%";
  }

  /** `((upCount / total) * 100).toFixed(1) + '%'` where it is exact. */
  function UptimeText(upCount: nat, total: nat): (s: string)
    requires UptimeExact(upCount, total)
    ensures ParsePercent(s) == Some(1000 * upCount / total)
  {
    ParsePercentText(1000 * upCount / total);
    PercentText(1000 * upCount / total)
  }

  /** With a fixed number of targets, the uptime text determines upCount. */
  lemma UptimeDeterminesCount(a: nat, b: nat, total: nat)
    requires UptimeExact(a, total) && UptimeExact(b, total)
    requires UptimeText(a, total) == UptimeText(b, total)
    ensures a == b
  {
    assert 1000 * a / total == 1000 * b / total;
    assert 1000 * a == total * (1000 * a / total);
    assert 1000 * b == total * (1000 * b / total);
  }

  /**
    A number of targets that divides 1000 (such as the 8 configured ones)
    makes every uptime a whole number of tenths of a percent.
   */
  lemma WholeTenths(upCount: nat, total: nat)
    requires total > 0 && 1000 % total == 0
    ensures UptimeExact(upCount, total)
  {
    var q := 1000 / total;
    assert 1000 == total * q;
    assert 1000 * upCount == total * (q * upCount);
    MultipleMod(total, q * upCount);
  }

  lemma MultipleMod(n: nat, m: nat)
    requires n > 0
    ensures (n * m) % n == 0
  {
    var d, r := (n * m) / n, (n * m) % n;
    assert n * (m - d) == r;
    if m - d >= 1 {
      assert false;
    } else if m - d <= -1 {
      assert false;
    }
  }

  /** Out of 8 targets the uptime is 12.5 percent per `up` target. */
  lemma EightTargetsUptime(upCount: nat)
    ensures UptimeExact(upCount, 8)
    ensures UptimeText(upCount, 8) == PercentText(125 * upCount)
  {
    assert 1000 * upCount == 8 * (125 * upCount);
  }

  lemma SmallNumerals()
    ensures NatText(0) == "0" && NatText(1) == "1" && NatText(7) == "7"
    ensures NatText(10) == "10" && NatText(12) == "12" && NatText(75) == "75"
    ensures NatText(100) == "100"
  {
    assert DigitChar(0) == '0' && DigitChar(1) == '1' && DigitChar(2) == '2';
    assert DigitChar(5) == '5' && DigitChar(7) == '7';
    assert NatText(10) == "10";
  }

  /** The uptime text for upCount out of 8, split into whole percent and tenths. */
  lemma UptimeTextParts(upCount: nat, whole: nat, tenth: nat)
    requires 125 * upCount == 10 * whole + tenth && tenth < 10
    ensures UptimeExact(upCount, 8)
    ensures UptimeText(upCount, 8) == NatText(whole) + "." + [DigitChar(tenth)] + "%"
  {
    EightTargetsUptime(upCount);
  }

  /** "100.0%" when all 8 are up, "75.0%" for 6, "12.5%" for 1, "0.0%" for none. */
  lemma UptimeExamples()
    ensures UptimeText(8, 8) == "100.0%"
    ensures UptimeText(6, 8) == "75.0%"
    ensures UptimeText(1, 8) == "12.5%"
    ensures UptimeText(0, 8) == "0.0%"
  {
    SmallNumerals();
    assert DigitChar(0) == '0' && DigitChar(5) == '5';
    UptimeTextParts(8, 100, 0);
    UptimeTextParts(6, 75, 0);
    UptimeTextParts(1, 12, 5);
    UptimeTextParts(0, 0, 0);
  }

  // ---------------------------------------------------------------------------
  // The response
  // ---------------------------------------------------------------------------

  /**
    The response object built from the per-target records. The source always
    has 8 of them; with any non-zero count that divides 1000 the printed
    uptime text is the exact percentage, whatever the floating-point product.
   */
  function Summarize(results: seq<ServiceStatus>, now: Timestamp): (r: StatusResponse)
    requires |results| > 0 && 1000 % |results| == 0
    ensures r.services == results
    ensures r.lastUpdated == now
    ensures r.overall == Operational <==> forall i :: 0 <= i < |results| ==> results[i].status == Up
    ensures r.overall == Overall.Down <==> forall i :: 0 <= i < |results| ==> results[i].status == Status.Down
    ensures r.overall == Degraded
      <==> ((exists i :: 0 <= i < |results| && results[i].status == Up)
            && (exists j :: 0 <= j < |results| && results[j].status == Status.Down))
    ensures ParsePercent(r.uptime) == Some(1000 * |UpIndices(results)| / |results|)
  {
    var upCount := UpCount(results);
    OverallClassification(results);
    WholeTenths(upCount, |results|);
    UpCountIsIndexCount(results);
    StatusResponse(OverallOf(upCount, |results|), UptimeText(upCount, |results|), results, now)
  }

  /** The positions whose probe came back with code 200. */
  function HealthyIndices(outcomes: seq<Outcome>): set<nat> {
    set i: nat | i < |outcomes| && Healthy(outcomes[i])
  }

  /** A record is `up` exactly where its probe got a 200. */
  lemma UpIndicesOfProbeAll(v: Variant, services: seq<Service>, outcomes: seq<Outcome>)
    requires |outcomes| == |services|
    ensures forall i :: 0 <= i < |outcomes| ==>
      (ProbeAll(v, services, outcomes)[i].status == Up <==> Healthy(outcomes[i]))
    ensures UpIndices(ProbeAll(v, services, outcomes)) == HealthyIndices(outcomes)
  {
    var rs := ProbeAll(v, services, outcomes);
    forall i: nat | i < |rs|
      ensures rs[i].status == Up <==> Healthy(outcomes[i])
    {
      assert rs[i] == Probe(v, services[i], outcomes[i]);
    }
  }

  /**
    The whole handler, with the target list passed in (the source closes over
    SERVICES). The answer lists one record per target in the list's order,
    each named after its target and `up` exactly when its probe got a 200; the
    verdict is `operational` when every probe got a 200, `down` when none did,
    and `degraded` otherwise; the uptime is the share of probes that got a 200.
   */
  function StatusHandler(v: Variant, services: seq<Service>, outcomes: seq<Outcome>, now: Timestamp)
    : (r: StatusResponse)
    requires |outcomes| == |services|
    requires |services| > 0 && 1000 % |services| == 0
    ensures |r.services| == |services|
    ensures forall i :: 0 <= i < |services| ==> r.services[i] == Probe(v, services[i], outcomes[i])
    ensures forall i :: 0 <= i < |services| ==>
      r.services[i].name == services[i].name && (r.services[i].status == Up <==> Healthy(outcomes[i]))
    ensures r.overall == Operational <==> forall i :: 0 <= i < |outcomes| ==> Healthy(outcomes[i])
    ensures r.overall == Overall.Down <==> forall i :: 0 <= i < |outcomes| ==> !Healthy(outcomes[i])
    ensures r.overall == Degraded
      <==> ((exists i :: 0 <= i < |outcomes| && Healthy(outcomes[i]))
            && (exists j :: 0 <= j < |outcomes| && !Healthy(outcomes[j])))
    ensures ParsePercent(r.uptime) == Some(1000 * |HealthyIndices(outcomes)| / |services|)
    ensures r.lastUpdated == now
  {
    var results := ProbeAll(v, services, outcomes);
    UpIndicesOfProbeAll(v, services, outcomes);
    Summarize(results, now)
  }

  /**
    The handler over the configured list: it can be called with one outcome
    per entry of SERVICES, and its uptime is 12.5 percent per probe that got
    a 200.
   */
  lemma ConfiguredHandler(v: Variant, outcomes: seq<Outcome>, now: Timestamp)
    requires |outcomes| == |SERVICES|
    ensures |SERVICES| == 8 && 1000 % |SERVICES| == 0
    ensures StatusHandler(v, SERVICES, outcomes, now).uptime
      == PercentText(125 * |HealthyIndices(outcomes)|)
  {
    var r := StatusHandler(v, SERVICES, outcomes, now);
    var h := |HealthyIndices(outcomes)|;
    assert 1000 * h / 8 == 125 * h;
    PercentTextOfParse(r.uptime, 125 * h);
  }

  /**
    8 targets, 6 answer 200 and 2 fail: `degraded`, "75.0%", 8 records.
    All 8 answer 200: `operational`, "100.0%". None does: `down`, "0.0%".
   */
  lemma EightTargetScenarios(v: Variant, services: seq<Service>, outcomes: seq<Outcome>, now: Timestamp)
    requires |services| == 8 && |outcomes| == 8
    ensures var r := StatusHandler(v, services, outcomes, now);
      && |r.services| == 8
      && (|HealthyIndices(outcomes)| == 6 ==> r.overall == Degraded && r.uptime == "75.0%")
      && ((forall i :: 0 <= i < 8 ==> Healthy(outcomes[i])) ==> r.overall == Operational && r.uptime == "100.0%")
      && ((forall i :: 0 <= i < 8 ==> !Healthy(outcomes[i])) ==> r.overall == Overall.Down && r.uptime == "0.0%")
  {
    var r := StatusHandler(v, services, outcomes, now);
    var results := ProbeAll(v, services, outcomes);
    UpIndicesOfProbeAll(v, services, outcomes);
    UpCountIsIndexCount(results);
    UpCountExtremes(results);
    UptimeExamples();
  }
}
