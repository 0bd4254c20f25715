/**
 * The request handlers and the startup configuration of the server
 * (src/main.rs): PORT selection, the bind address, `serve_index`,
 * `health_check` and `ping_pong`. Routing, CORS and the network are not
 * modelled; the file read, the clock and the RFC 3339 timestamp are inputs.
 */
module Server {
  import opened Wrappers
  import opened Decimal
  import opened Uptime

  /** The PORT text used when the variable cannot be read. */
  const DEFAULT_PORT: string := "3000"

  /** HTTP status codes the handlers produce. */
  const OK: nat := 200
  const NOT_FOUND: nat := 404

  const HEALTHY: string := "healthy"
  const PONG: string := "pong"
  const SERVER_ID: string := "rust-axum-v1"

  /** Result of `env::var("PORT")`: the value, or one of `VarError`'s two failures. */
  datatype EnvLookup = Present(value: string) | NotPresent | NotUnicode

  /** The failure kinds `read_to_string` can report, as far as the handler is concerned. */
  datatype IoErrorKind = NotFound | PermissionDenied | InvalidData | OtherIoError

  /** Result of reading index.html. */
  datatype ReadResult = Read(content: string) | ReadFailed(kind: IoErrorKind)

  /** The JSON object of the health endpoint. */
  datatype HealthBody = HealthBody(status: string, timestamp: string, uptime: string)

  /** The JSON object of the ping endpoint. */
  datatype PingBody = PingBody(message: string, timestamp: string, serverId: string)

  datatype Body = Html(text: string) | HealthJson(health: HealthBody) | PingJson(ping: PingBody) | NoBody

  datatype Response = Response(status: nat, body: Body)

  /**
   * `env::var("PORT").unwrap_or_else(|_| "3000").parse::<u16>()`: a port, or
   * the parse failure with which `expect` ends the process. Any lookup
   * failure falls back to "3000"; a present value must parse on its own.
   */
  function SelectPort(lookup: EnvLookup): (r: Result<nat, IntErrorKind>)
    ensures !lookup.Present? ==> r == Ok(3000)
    ensures lookup.Present? ==> (r.Ok? <==> IsU16Literal(lookup.value))
    ensures lookup.Present? && r.Ok? ==> r.value == DigitsValue(Unsigned(lookup.value))
    ensures r.Ok? ==> r.value <= U16_MAX
  {
    var text := match lookup
      case Present(v) => v
      case _ => DEFAULT_PORT;
    assert lookup.Present? || Unsigned(text) == text;
    ParseU16(text)
  }

  /** A present PORT never falls back to the default: it yields 3000 only if it spells 3000. */
  lemma PresentPortNeverDefaults(v: string)
    ensures SelectPort(Present(v)) == Ok(3000) ==> IsU16Literal(v) && DigitsValue(Unsigned(v)) == 3000
    ensures v == "" ==> SelectPort(Present(v)) == Err(Empty)
  {
  }

  /** Every `u16` value, written in decimal, is selected as the port. */
  lemma SelectPortRendered(n: nat)
    requires n <= U16_MAX
    ensures SelectPort(Present(NatToString(n))) == Ok(n)
    ensures SelectPort(Present("+" + NatToString(n))) == Ok(n)
  {
    assert Unsigned("+" + NatToString(n)) == NatToString(n);
  }

  /** PORT=8080 selects 8080, not the default. */
  lemma SelectPort8080()
    ensures SelectPort(Present("8080")) == Ok(8080)
  {
    assert NatToString(8080) == "8080" by {
      assert NatToString(8) == "8";
      assert NatToString(80) == "80";
      assert NatToString(808) == "808";
    }
    SelectPortRendered(8080);
  }

  /** Values outside the `u16` grammar are fatal. */
  lemma SelectPortFatal()
    ensures SelectPort(Present("notanumber")) == Err(InvalidDigit)
    ensures SelectPort(Present("65536")) == Err(PosOverflow)
    ensures SelectPort(Present("-1")) == Err(InvalidDigit)
    ensures SelectPort(Present(" 80")) == Err(InvalidDigit)
  {
  }

  /** `format!("0.0.0.0:{}", port)`: every interface, at the selected port. */
  function BindAddress(port: nat): (a: string)
    requires port <= U16_MAX
    ensures |a| > 8 && a[..8] == "0.0.0.0:"
    ensures a[8..] == NatToString(port)
    ensures ParseU16(a[8..]) == Ok(port)
  {
    var a := "0.0.0.0:" + NatToString(port);
    assert a[8..] == NatToString(port);
    ParseNatToString(port);
    a
  }

  /** `serve_index`: 200 with the file's text when it was read, 404 with no body otherwise. */
  function ServeIndex(read: ReadResult): (r: Response)
    ensures r.status == OK <==> read.Read?
    ensures read.Read? ==> r.body == Html(read.content)
    ensures read.ReadFailed? ==> r == Response(NOT_FOUND, NoBody)
  {
    match read
    case Read(content) => Response(OK, Html(content))
    case ReadFailed(_) => Response(NOT_FOUND, NoBody)
  }

  /** Every read failure gives the same response, and a served page gives back exactly the text read. */
  lemma ServeIndexFaithful(r1: ReadResult, r2: ReadResult)
    ensures r1.ReadFailed? && r2.ReadFailed? ==> ServeIndex(r1) == ServeIndex(r2)
    ensures ServeIndex(r1) == ServeIndex(r2) ==> r1 == r2 || (r1.ReadFailed? && r2.ReadFailed?)
  {
  }

  /**
   * `health_check`: always 200, status "healthy", the given timestamp, and
   * the uptime text of the whole seconds from `start` to `now`.
   */
  function HealthCheck(start: int, now: int, timestamp: string): (r: Response)
    ensures r.status == OK && r.body.HealthJson?
    ensures r.body.health.status == HEALTHY && r.body.health.timestamp == timestamp
    ensures r.body.health.uptime == UptimeString(UptimeSeconds(start, now))
    ensures ParseUptime(r.body.health.uptime) == Some(Split(UptimeSeconds(start, now)))
  {
    var t := UptimeSeconds(start, now);
    Response(OK, HealthJson(HealthBody(HEALTHY, timestamp, UptimeString(t))))
  }

  /** Uptime read from two health responses never goes backwards as the clock advances. */
  lemma HealthUptimeNonDecreasing(start: int, now1: int, now2: int, ts1: string, ts2: string)
    requires now1 <= now2
    ensures LexLe(ParseUptime(HealthCheck(start, now1, ts1).body.health.uptime).value,
                  ParseUptime(HealthCheck(start, now2, ts2).body.health.uptime).value)
  {
    UptimeMonotone(start, now1, now2);
    SplitMonotone(UptimeSeconds(start, now1), UptimeSeconds(start, now2));
  }

  /** `ping_pong`: always 200, message "pong", server id "rust-axum-v1" and the given timestamp. */
  function PingPong(timestamp: string): (r: Response)
    ensures r.status == OK && r.body.PingJson?
    ensures r.body.ping.message == PONG && r.body.ping.serverId == SERVER_ID
    ensures r.body.ping.timestamp == timestamp
  {
    Response(OK, PingJson(PingBody(PONG, timestamp, SERVER_ID)))
  }

  /** Two pings differ in nothing but their timestamps. */
  lemma PingDiffersOnlyInTimestamp(ts1: string, ts2: string)
    ensures PingPong(ts2) == PingPong(ts1).(body := PingJson(PingPong(ts1).body.ping.(timestamp := ts2)))
  {
  }
}
