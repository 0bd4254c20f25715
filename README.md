# starter-rust server core, in Dafny

A model of the logic in `src/main.rs` of a small axum HTTP server with three
endpoints: `GET /` serves `index.html`, `GET /health` reports status, a
timestamp and the time since the first health request, and `GET /ping` answers "pong" with a fixed
server id. The model covers the pure parts of that file:

- **Port selection** (`main`): `env::var("PORT")`, the fallback to `"3000"`
  when the lookup fails, and `parse::<u16>()` with `expect`. The parse is
  modelled on its decimal grammar as Rust's standard library implements it:
  an optional leading `+`, ASCII digits only (leading zeros allowed), value
  at most 65535, a non-digit reported before an overflow at each position.
  The error kinds are `Empty`, `InvalidDigit` and `PosOverflow`.
- **Bind address**: the text `0.0.0.0:<port>` the listener is bound to.
- **`serve_index`**: the result of reading `index.html` becomes 200 with
  exactly that text, or 404 with no body for every kind of read error.
- **`health_check`**: the elapsed time since the start instant, in whole
  seconds (zero when the clock reads earlier than the start instant), is
  split into hours,
  minutes and seconds by `/ 3600`, `% 3600 / 60` and `% 60` and rendered as
  `<h>h<m>m<s>s`. There is no day rollover.
- **`ping_pong`**: message `"pong"`, server id `"rust-axum-v1"`, and the
  timestamp.

Files: `wrappers.dfy` (Option, Result), `decimal.dfy` (decimal rendering and
`u16` parsing), `uptime.dfy` (uptime arithmetic and text), `server.dfy`
(the handlers and startup configuration). Clock readings are integers in
nanoseconds; the RFC 3339 timestamp and the file read's outcome are inputs.
`Uptime.ParseUptime` reads the uptime text back. It exists only so that the
round trip can be stated.

`unwrap_or_else(|_| ...)` at src/main.rs:19 falls back to "3000" on both
`VarError::NotPresent` and `VarError::NotUnicode`; a present value that does
not parse is fatal.

The start instant `START_TIME` is a `LazyLock` (src/main.rs:14) that only
`health_check` dereferences (src/main.rs:59), so it is the clock reading
taken at the first `/health` request, not at process start. The first
health response therefore reports about "0h0m0s" however long the process
has run.

## Model

| member | source | states |
|---|---|---|
| Decimal.Accumulate | src/main.rs:20 | the digit scan of `parse::<u16>()` succeeds exactly when every character is a digit and the whole value fits in 65535, and then returns that value; checking overflow digit by digit equals checking it at the end |
| Decimal.ParseU16 | src/main.rs:20 | `parse::<u16>()` succeeds exactly on an optional `+` followed by one or more digits with value at most 65535, returning the value of the digits; it fails with `Empty` exactly on the empty string |
| Decimal.NatToString | src/main.rs:60-65 | the `{}` rendering of a number is a non-empty digit string whose value is the number, with no leading zero |
| Decimal.NatToStringOfDigits | src/main.rs:60-65 | every digit string without a leading zero is the rendering of its own value, so the rendering is the unique canonical decimal text |
| Decimal.ParseNatToString | src/main.rs:20 | parsing the decimal rendering of any value up to 65535 gives that value back |
| Uptime.Split | src/main.rs:62-64 | hours*3600 + minutes*60 + seconds recombines to the elapsed seconds, and minutes and seconds are each in 0..59 |
| Uptime.SplitUnique | src/main.rs:62-64 | any triple with minutes and seconds below 60 that recombines to t is the split of t |
| Uptime.LexLeIffTotal | src/main.rs:62-64 | on triples with minutes and seconds below 60, lexicographic order agrees with the order of the recombined totals |
| Uptime.SplitMonotone | src/main.rs:59-64 | t1 <= t2 exactly when the split of t1 is lexicographically at most the split of t2 |
| Uptime.NoDayRollover | src/main.rs:62 | 90000 seconds split into 25 hours and render as "25h0m0s": hours are not reduced modulo 24 |
| Uptime.UptimeSeconds | src/main.rs:59 | the uptime is the elapsed nanoseconds truncated to whole seconds, and zero when the clock reads earlier than the start |
| Uptime.UptimeMonotone | src/main.rs:59 | a later clock reading never gives a smaller uptime, including across a reading earlier than the start |
| Uptime.ClockBeforeStart | src/main.rs:59-65 | a failed elapsed computation is reported as "0h0m0s" |
| Uptime.UptimeString | src/main.rs:60-65 | the `{}h{}m{}s` text of t/3600, (t%3600)/60 and t%60, each in canonical decimal; it reads back to exactly the split of t |
| Uptime.FormatRoundTrip | src/main.rs:60-65 | any three numbers rendered in decimal and joined by h, m and s read back to exactly those numbers |
| Uptime.UptimeStringInjective | src/main.rs:60-65 | different uptimes are never reported with the same text |
| Server.SelectPort | src/main.rs:18-21 | a missing or non-Unicode PORT selects 3000; a present PORT selects a port exactly when it is a `u16` literal, and then its value; every port is at most 65535 |
| Server.PresentPortNeverDefaults | src/main.rs:18-21 | a present PORT yields 3000 only when it is a `u16` literal denoting 3000 (such as "3000", "+3000" or "03000"), and an empty one is fatal with `Empty` |
| Server.SelectPortRendered | src/main.rs:18-21 | every value up to 65535, written in decimal with or without a leading `+`, is selected as the port |
| Server.SelectPort8080 | src/main.rs:18-21 | PORT=8080 selects port 8080, not the default |
| Server.SelectPortFatal | src/main.rs:18-21 | "notanumber", "-1" and " 80" are fatal as invalid digits, "65536" as an overflow |
| Server.BindAddress | src/main.rs:42 | the bind address is "0.0.0.0:" followed by the canonical decimal text of the port, which parses back to the port |
| Server.ServeIndex | src/main.rs:51-56 | status 200 exactly when the file was read, with exactly its text as the HTML body; 404 with no body on any read error |
| Server.ServeIndexFaithful | src/main.rs:51-56 | all read errors give the same response, and equal responses come from the same file text or from two read errors |
| Server.HealthCheck | src/main.rs:58-72 | the health response is 200 with status "healthy", the given timestamp, and as uptime exactly the formatted text of the whole seconds from the start instant to `now`, which reads back to their split |
| Server.HealthUptimeNonDecreasing | src/main.rs:58-72 | of two health responses, the uptime of the one computed at the later clock reading is lexicographically at least the other's |
| Server.PingPong | src/main.rs:74-80 | the ping response is 200 with message "pong", server id "rust-axum-v1" and the given timestamp |
| Server.PingDiffersOnlyInTimestamp | src/main.rs:74-80 | two ping responses are equal except for their timestamps |

## Left out

- Routing, route registration and axum's default 404/405 and OPTIONS handling (src/main.rs:30-34): framework behaviour.
- The CORS layer (src/main.rs:24-27): middleware configuration of tower-http.
- Binding the TCP listener and `axum::serve`, and their fatal failures (src/main.rs:42-48): network I/O; only the bind address text is modelled.
- The call `fs::read_to_string("index.html")` (src/main.rs:52): file I/O; its outcome is the input `ReadResult`.
- The `LazyLock` start time and `SystemTime` reads (src/main.rs:14, 59): the start and current clock readings are parameters; `start` stands for the reading lazily taken at the first `/health` request. A `Duration` whose whole seconds exceed 64 bits cannot arise in practice and is not modelled.
- Ordering of successive health requests: `SystemTime` is a wall clock that can step back, so successive calls need not see ordered clock readings; the monotonicity lemmas assume `now1 <= now2` and say nothing about calls whose readings are out of order.
- The RFC 3339 timestamp from chrono (src/main.rs:69, 77): an opaque string parameter.
- JSON serialisation with serde_json and the `println!` startup banners (src/main.rs:36-39, 67-79): library output; the JSON bodies are records with the same fields.
- The process exit on a bad PORT: the model returns the parse error that `expect` turns into a panic (src/main.rs:21).
