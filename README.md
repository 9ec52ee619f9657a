# Status page: the `/api/status` aggregation rule

This project models the status-aggregation rule of a small status page
server. The server's `/api/status` handler probes a fixed, ordered list of
eight services. It classifies each probe as `up` or `down` and answers with:

- `services`: one record per target, in declaration order;
- `overall`: `operational`, `degraded` or `down`;
- `uptime`: the percentage of `up` targets, with one decimal.

The handler exists twice, almost word for word: `server/index.ts` and its
hand-written JavaScript twin `server/index.js`. One model serves both. The
`Variant` parameter (`IndexTs` or `IndexJs`) selects the one place where they
differ, the message recorded for a failed probe:

- the TypeScript file records `error.message` for an `Error` and
  `"Unknown error"` for any other thrown value;
- the JavaScript file reads `error.message` directly, so a thrown value with
  no `message` leaves the `error` field out of the JSON.

The HTTP call is replaced by its outcome, an input value:
`Response(code, latencyMs, at)` for any status code, or `Failure(thrown, at)`
for a timeout or a transport error. Wall-clock values are inputs too: the
elapsed milliseconds and the ISO-8601 time stamps.

Files:

- `wrappers.dfy`: `Option`, for JSON fields that may be absent.
- `decimal.dfy`: how JavaScript prints the numbers involved (an integer in a
  template literal, `toFixed(1)`), with parsers proved inverse in both
  directions.
- `status_api.dfy`: the shapes `Service`, `ServiceStatus`, `StatusResponse`,
  the `SERVICES` list, the per-probe classification, the map over the
  targets, the `up` count, the `overall` verdict, the uptime and the handler.

Three things the code does that are easy to miss:

- With no targets, the code answers `operational`, because 0 of 0 counts as
  "all up". The model does the same (`OverallClassification`).
- The latency is the string `"<ms>ms"`, not an integer field.
- The elapsed milliseconds come from `Date.now()`, a wall clock that can go
  backwards. So they are an `int`, and a negative value prints with a minus
  sign.

The model takes the target list as a parameter of `StatusHandler`, where the
source closes over the `SERVICES` constant. `ConfiguredHandler` applies it to
`SERVICES` itself.

## Model

| member | source | states |
|---|---|---|
| `StatusApi.SERVICES` | server/index.ts:41-50 | the eight configured targets with their names, base URLs and health paths, in declaration order; ConfiguredHandler states that there are 8 of them and what the handler answers over them |
| `StatusApi.Healthy` | server/index.ts:65 | the test `response.status === 200`: a response whose code is exactly 200; Probe states that a record is `up` iff its outcome passes it |
| `StatusApi.LatencyText` | server/index.ts:67 | the text `${latency}ms`; ParseLatencyText and LatencyTextOfParse state that it reads back as exactly the elapsed milliseconds and that every accepted text is printed by one value |
| `StatusApi.CaughtMessage` | server/index.ts:74 | the catch-branch message, `error.message` for an Error in both files, "Unknown error" (index.ts:74) or the value's own `message` (index.js:79) otherwise; VariantsAgreeOnErrors and VariantsDifferOnNonErrors state where the two files agree and where they differ |
| `StatusApi.UpOnly` | server/index.ts:81 | `results.filter(r => r.status === 'up')`; UpOnlyMembers states that it keeps exactly the `up` records |
| `StatusApi.UpCount` | server/index.ts:81 | the length of that filtered list; UpCountIsIndexCount states that it is the number of `up` positions, UpCountExtremes its bounds and extremes |
| `StatusApi.OverallOf` | server/index.ts:84 | the nested ternary on upCount and the number of results; OverallClassification states its three cases as if-and-only-ifs |
| `StatusApi.PercentText` | server/index.ts:85 | the `toFixed(1)` text followed by `%`; ParsePercentText and PercentTextOfParse state that it reads back as its value in tenths and that every accepted text is printed by one value |
| `StatusApi.Probe` | server/index.ts:55-77 | the record keeps the target's name and the time stamp; it is `up` iff the probe got a response with code exactly 200 (so 204 and 500 are `down`); any response records its code and a latency that reads back as the elapsed ms, and no error; a failure records no code and no latency, only the caught message; in the TypeScript file a record has a status code iff it has no error |
| `StatusApi.ParseLatencyText` | server/index.ts:62-67 | the `latency` text `"<ms>ms"` reads back as exactly the elapsed milliseconds, negative ones included |
| `StatusApi.LatencyTextOfParse` | server/index.ts:67 | every `latency` text the parser accepts is `"<ms>ms"` for its value, so with `ParseLatencyText` a record's latency is exactly the printed elapsed milliseconds |
| `StatusApi.VariantsAgreeOnErrors` | server/index.js:61-82 | for every response, and every failure that throws an `Error`, the JavaScript file builds the same record as the TypeScript file |
| `StatusApi.VariantsDifferOnNonErrors` | server/index.ts:74 | for a thrown non-`Error` with no `message`, the TypeScript file records "Unknown error"; the JavaScript file records no `error`, so its `down` record has neither code nor error |
| `StatusApi.ProbeAll` | server/index.ts:54-79 | `SERVICES.map` under `Promise.all`: exactly one record per target, in target order, record i built from target i and outcome i |
| `StatusApi.UpIndicesOfProbeAll` | server/index.js:59-84 | record i is `up` iff probe i got a 200, so the `up` positions of the results are exactly the healthy probes |
| `StatusApi.UpOnlyMembers` | server/index.ts:81 | the filter keeps exactly the records of the list whose status is `up` |
| `StatusApi.UpCountIsIndexCount` | server/index.ts:81 | `upCount` equals the number of positions holding an `up` record |
| `StatusApi.UpCountExtremes` | server/index.js:86 | `0 <= upCount <= |results|`; `upCount == |results|` iff every record is `up`; `upCount == 0` iff every record is `down` |
| `StatusApi.OverallClassification` | server/index.ts:84 | `operational` iff every record is `up` (also for an empty list); `down` iff there are records and all are `down`; `degraded` iff some record is `up` and some is `down` |
| `StatusApi.UptimeText` | server/index.ts:85 | where the percentage is a whole number of tenths, the `uptime` text reads back as `1000 * upCount / total` tenths of a percent |
| `StatusApi.ParsePercentText` | server/index.js:90 | a percentage text with one decimal and a trailing `%` reads back as its value in tenths |
| `StatusApi.PercentTextOfParse` | server/index.js:90 | every text the percentage parser accepts is the one printed for its value |
| `StatusApi.UptimeDeterminesCount` | server/index.ts:85 | for a fixed number of targets, two equal `uptime` texts come from the same `upCount` |
| `StatusApi.WholeTenths` | server/index.ts:85 | with a non-zero number of targets that divides 1000, every uptime is a whole number of tenths, so `toFixed(1)` prints it exactly |
| `StatusApi.EightTargetsUptime` | server/index.ts:41-50 | out of 8 targets the uptime is exactly 12.5 percent per `up` target |
| `StatusApi.UptimeExamples` | server/index.js:90 | 8 of 8 up gives "100.0%", 6 gives "75.0%", 1 gives "12.5%", none gives "0.0%" |
| `StatusApi.Summarize` | server/index.ts:81-88 | the response's `services` is the results list unchanged; `overall` is `operational` / `down` / `degraded` exactly when all / none / some but not all records are `up`; the `uptime` reads back as the share of `up` positions in tenths of a percent; `lastUpdated` is the given time stamp |
| `StatusApi.StatusHandler` | server/index.ts:53-91 | the whole handler: one record per target in declaration order, named after it and `up` iff its probe got a 200; `overall` is `operational` iff every probe got a 200, `down` iff none did, `degraded` iff some did and some did not; the uptime reads back as the share of probes that got a 200 |
| `StatusApi.ConfiguredHandler` | server/index.js:46-55 | the configured list has 8 targets, so the handler applies to it; its uptime text is the percentage for 12.5 percent per probe that got a 200 |
| `StatusApi.EightTargetScenarios` | server/index.js:58-94 | with 8 targets: 6 answering 200 gives `degraded` and "75.0%"; all 8 give `operational` and "100.0%"; none gives `down` and "0.0%"; there are always 8 records |
| `Decimal.NatText` | server/index.ts:67 | a non-negative integer prints as a canonical numeral: digits only, no leading zero, starting with '0' iff the number is 0 |
| `Decimal.ParseNatText` | server/index.ts:67 | printing then parsing a non-negative integer gives it back |
| `Decimal.NatTextOfParse` | server/index.ts:67 | every numeral the parser accepts is the one printed for its value |
| `Decimal.IntText` | server/index.js:72 | an integer in a template literal prints as a non-empty text |
| `Decimal.ParseIntText` | server/index.js:72 | printing then parsing an integer, negative ones included, gives it back |
| `Decimal.IntTextOfParse` | server/index.js:72 | every integer text the parser accepts is the one printed for its value |
| `Decimal.Fixed1` | server/index.ts:85 | `toFixed(1)` of a whole number of tenths prints at least "d.d" |
| `Decimal.ParseFixed1Text` | server/index.ts:85 | a `toFixed(1)` text reads back as exactly its value in tenths |
| `Decimal.Fixed1TextOfParse` | server/index.ts:85 | every one-decimal text the parser accepts is the one printed for its value |

## Left out

- Express setup is not modelled: CORS, `express.json`, static files, `app.listen` and the `PORT` variable. It is server plumbing with no logic.
- The constant `/health` endpoint is not modelled. It always answers the same object.
- The Uptime Kuma client in `server/index.js` and its `/api/uptime-kuma/monitors` route are not modelled. The client is never called, and the route always answers null data.
- The `axios.get` call is not modelled: not the URL `url + path`, not the 5000 ms timeout. Each probe's result is an input `Outcome`; a timeout is a `Failure`.
- `Promise.all` concurrency is not modelled. The fan-out is a sequential map, and the output order is the same either way.
- Wall-clock values are inputs: the elapsed milliseconds and the `lastChecked` and `lastUpdated` time stamps.
- JSON serialisation by `res.json` is not modelled. A field set to `undefined` is dropped by it; the model writes `None` for such a field.
- Summarize: requires a non-zero number of results that divides 1000, where the source accepts any number. For other counts the printed text depends on how `toFixed(1)` rounds the floating-point product, and an empty list prints "NaN%". The source only ever passes the 8 configured targets, which meet the requirement.
- StatusHandler: requires a non-zero number of targets that divides 1000, for the same reason as Summarize.
- CaughtMessage: in the JavaScript file, a thrown `null` or `undefined` makes `error.message` throw a TypeError inside the catch; the model does not cover it. A non-string `message` property is not covered either. axios only throws `Error` objects.
- Numbers of 10^21 or more print in exponent notation in JavaScript; the model only covers the plain decimal form. Latencies and percentages never get that large.
