/** The integer checks of server_parser and server_parseopt, and the drop gate
    of the main loop, on already-converted numbers. */
module Args {

  /** One command-line option after atoi: -p/--port or -d/--drop. */
  datatype Opt = Port(port: int) | Drop(percent: int)

  /** Each condition that makes the server exit with EX_USAGE. */
  datatype UsageError =
    | PortNotANumber      // -p gave 0 (atoi's result for text that is not a number)
    | PortTooLow          // -p gave a value <= 1024
    | PercentOutOfRange   // -d gave a value outside 0..100
    | PortMissing         // no -p at all
    | PortTooHigh         // above 65535: raised only by CheckedPortError

  datatype Result<T> = Ok(value: T) | Err(error: UsageError)

  /** struct server_arguments, with the drop chance kept as the integer percent
      it is computed from (drop_chance == percent / 100.0). */
  datatype Config = Config(port: int, dropPercent: int)

  /** The error server_parser reports for one port value, if any. */
  function PortError(port: int): (e: Result<int>)
    ensures e.Ok? <==> port > 1024
    ensures e.Ok? ==> e.value == port
  {
    if port == 0 then Err(PortNotANumber)
    else if port <= 1024 then Err(PortTooLow)
    else Ok(port)
  }

  /** The error server_parser reports for one drop percentage, if any. */
  function PercentError(percent: int): (e: Result<int>)
    ensures e.Ok? <==> 0 <= percent <= 100
    ensures e.Ok? ==> e.value == percent
  {
    if percent < 0 || percent > 100 then Err(PercentOutOfRange) else Ok(percent)
  }

  /** server_parser on one option: record it, or stop with its error. */
  function ServerParser(args: Config, opt: Opt): (r: Result<Config>)
    ensures r.Ok? <==> ValidOpt(opt)
    ensures r.Ok? && opt.Port? ==> r.value == args.(port := opt.port)
    ensures r.Ok? && opt.Drop? ==> r.value == args.(dropPercent := opt.percent)
  {
    match opt
    case Port(p) =>
      (match PortError(p) case Ok(v) => Ok(args.(port := v)) case Err(e) => Err(e))
    case Drop(d) =>
      (match PercentError(d) case Ok(v) => Ok(args.(dropPercent := v)) case Err(e) => Err(e))
  }

  /** argp_parse: server_parser on each option in order; the first error ends the run. */
  function ParseOptions(args: Config, opts: seq<Opt>): Result<Config>
    decreases |opts|
  {
    if opts == [] then Ok(args)
    else match ServerParser(args, opts[0])
      case Err(e) => Err(e)
      case Ok(a) => ParseOptions(a, opts[1..])
  }

  /** server_parseopt: start from all-zero arguments, parse, then insist on a port. */
  function ServerParseopt(opts: seq<Opt>): Result<Config> {
    match ParseOptions(Config(0, 0), opts)
    case Err(e) => Err(e)
    case Ok(a) => if a.port == 0 then Err(PortMissing) else Ok(a)
  }

  predicate ValidOpt(opt: Opt) {
    match opt
    case Port(p) => p > 1024
    case Drop(d) => 0 <= d <= 100
  }

  predicate HasPort(opts: seq<Opt>) {
    exists i | 0 <= i < |opts| :: opts[i].Port?
  }

  /** The value the last -p option gives, or `start` when there is none:
      each option overwrites `args->port`, so the last one stays. */
  function LastPort(opts: seq<Opt>, start: int): int
    decreases |opts|
  {
    if opts == [] then start
    else if opts[|opts| - 1].Port? then opts[|opts| - 1].port
    else LastPort(opts[..|opts| - 1], start)
  }

  /** The value the last -d option gives, or `start` when there is none. */
  function LastPercent(opts: seq<Opt>, start: int): int
    decreases |opts|
  {
    if opts == [] then start
    else if opts[|opts| - 1].Drop? then opts[|opts| - 1].percent
    else LastPercent(opts[..|opts| - 1], start)
  }

  /** The first option only changes the start value of the rest. */
  lemma {:induction false} LastOfCons(o: Opt, rest: seq<Opt>, port: int, percent: int)
    ensures LastPort([o] + rest, port) == LastPort(rest, if o.Port? then o.port else port)
    ensures LastPercent([o] + rest, percent) == LastPercent(rest, if o.Drop? then o.percent else percent)
    decreases |rest|
  {
    var all := [o] + rest;
    if rest == [] {
      assert all[..0] == [];
    } else {
      assert all[..|all| - 1] == [o] + rest[..|rest| - 1];
      LastOfCons(o, rest[..|rest| - 1], port, percent);
    }
  }

  /** The arguments that parsing leaves in place: a port stays 0 or above 1024,
      a percent stays within 0..100. */
  ghost predicate InRange(a: Config) {
    (a.port == 0 || a.port > 1024) && 0 <= a.dropPercent <= 100
  }

  lemma {:induction false} ParseOptionsOk(args: Config, opts: seq<Opt>)
    requires InRange(args)
    ensures ParseOptions(args, opts).Ok? <==> forall i | 0 <= i < |opts| :: ValidOpt(opts[i])
    ensures ParseOptions(args, opts).Ok? ==> InRange(ParseOptions(args, opts).value)
    ensures ParseOptions(args, opts).Ok? ==>
              (ParseOptions(args, opts).value.port == 0 <==> args.port == 0 && !HasPort(opts))
    ensures ParseOptions(args, opts).Ok? ==>
              ParseOptions(args, opts).value ==
              Config(LastPort(opts, args.port), LastPercent(opts, args.dropPercent))
    decreases |opts|
  {
    if opts != [] {
      match ServerParser(args, opts[0])
      case Err(_) =>
      case Ok(a) =>
        ParseOptionsOk(a, opts[1..]);
        assert [opts[0]] + opts[1..] == opts;
        LastOfCons(opts[0], opts[1..], args.port, args.dropPercent);
        assert forall i | 1 <= i < |opts| :: opts[i] == opts[1..][i - 1];
        assert HasPort(opts) <==> opts[0].Port? || HasPort(opts[1..]) by {
          if HasPort(opts[1..]) {
            var j :| 0 <= j < |opts[1..]| && opts[1..][j].Port?;
            assert opts[j + 1].Port?;
          }
        }
    }
  }

  /** The server starts exactly when every option is in range and a port was
      given; the port it starts with is then above 1024 and the percent in 0..100. */
  lemma ServerParseoptAccepts(opts: seq<Opt>)
    ensures ServerParseopt(opts).Ok? <==>
              (forall i | 0 <= i < |opts| :: ValidOpt(opts[i])) && HasPort(opts)
    ensures ServerParseopt(opts).Ok? ==>
              ServerParseopt(opts).value.port > 1024 &&
              0 <= ServerParseopt(opts).value.dropPercent <= 100
    ensures ServerParseopt(opts).Ok? ==>
              ServerParseopt(opts).value == Config(LastPort(opts, 0), LastPercent(opts, 0))
  {
    ParseOptionsOk(Config(0, 0), opts);
  }

  /** The port bind uses: htons(args.port) keeps only the low 16 bits of the int. */
  function BoundPort(port: int): (p: int)
    ensures 0 <= p < 0x1_0000
    ensures 0 <= port < 0x1_0000 ==> p == port
    ensures (p - port) % 0x1_0000 == 0
  {
    port % 0x1_0000
  }

  /** As written, the check lets through ports above 65535, and htons wraps
      them: `-p 65616` passes as above 1024 yet bind is asked for port 80. */
  lemma WrappedPortBindsPrivileged()
    ensures ServerParseopt([Port(65616)]) == Ok(Config(65616, 0))
    ensures BoundPort(65616) == 80
  {
  }

  /** The port check evidently intended: above 1024 and representable in the
      16-bit sin_port. */
  function CheckedPortError(port: int): (e: Result<int>)
    ensures e.Ok? <==> 1024 < port < 0x1_0000
    ensures e.Ok? ==> BoundPort(e.value) == port && BoundPort(e.value) > 1024
  {
    if port >= 0x1_0000 then Err(PortTooHigh) else PortError(port)
  }

  /** RAND_MAX of glibc. */
  const RAND_MAX: int := 0x7FFF_FFFF

  /** The drop gate `rand() >= drop_chance * (RAND_MAX + 1.0)` negated, on exact
      rationals: a packet is dropped when the random draw falls below the
      percent's share of the draw's range. */
  predicate Drops(draw: int, percent: int)
    requires 0 <= draw <= RAND_MAX && 0 <= percent <= 100
    ensures Drops(draw, percent) <==> 100 * draw < percent * (RAND_MAX + 1)
  {
    !((draw as real) >= (percent as real / 100.0) * ((RAND_MAX as real) + 1.0))
  }

  /** A 0% setting never drops and a 100% setting always drops. */
  lemma DropExtremes(draw: int)
    requires 0 <= draw <= RAND_MAX
    ensures !Drops(draw, 0)
    ensures Drops(draw, 100)
  {
  }
}
