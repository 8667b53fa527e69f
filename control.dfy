/**
 * `main` of sr.py: the defaults for absent options, the call to `validateMe`,
 * and the loop that prints every message and decides whether to go on.
 */
module SrMain {
  import opened Wrappers
  import opened PyText
  import opened SrValidate

  const PROCESSING := "\nSTATUS: Processing..."
  const PORT_DEFAULTED := "STATUS: SNMP port not specified. Default: 161"
  const VERSION_DEFAULTED := "STATUS: SNMP version not specified. Default: Version 2"
  const VALIDATION_COMPLETE := "STATUS: Validation complete"

  const DEFAULT_PORT := 161
  const DEFAULT_VERSION := 2
  const DEFAULT_OUTPUT := "console"

  /** The parsed command line: `None` for an option that was not given. */
  datatype Options = Options(ip: Option<string>, community: Option<string>, port: Option<string>,
                             version: Option<string>, output: Option<string>)

  /** What `initiateSwitchReport` receives: `int()` of port and version. */
  datatype Launch = Launch(ip: string, community: string, port: int, version: int, output: string)

  datatype Outcome =
    | Unbound           // -i or -c was empty, so `ipAddress` or `snmpCommunity` was never assigned
    | ValueErrorRaised  // an octet of the address is not a number
    | Rejected          // some check failed; its message was printed
    | Started(launch: Launch)

  /** Python truthiness of an option value: `None` and `""` are false. */
  predicate Given(o: Option<string>)
  {
    o.Some? && o.value != ""
  }

  function PortArg(opts: Options): PyArg
  {
    if Given(opts.port) then Text(opts.port.value) else Int(DEFAULT_PORT)
  }

  function VersionArg(opts: Options): PyArg
  {
    if Given(opts.version) then Text(opts.version.value) else Int(DEFAULT_VERSION)
  }

  function OutputArg(opts: Options): string
  {
    if Given(opts.output) then opts.output.value else DEFAULT_OUTPUT
  }

  /** What `main` prints before it validates. */
  function Preamble(opts: Options): seq<string>
  {
    [PROCESSING]
    + (if Given(opts.port) then [] else [PORT_DEFAULTED])
    + (if Given(opts.version) then [] else [VERSION_DEFAULTED])
  }

  /** The non-`None` entries of the validation tuple, in order. */
  function Messages(results: seq<Option<string>>): seq<string>
    decreases |results|
  {
    if results == [] then []
    else
      var last := results[|results| - 1];
      Messages(results[..|results| - 1]) + (if last.Some? then [last.value] else [])
  }

  /** No message is printed exactly when every check passed, and every failing
      check's message is printed. */
  lemma {:induction false} MessagesReportEveryFailure(results: seq<Option<string>>)
    ensures Messages(results) == [] <==> forall k :: 0 <= k < |results| ==> results[k] == None
    ensures forall k :: 0 <= k < |results| && results[k].Some? ==> results[k].value in Messages(results)
    ensures |Messages(results)| <= |results|
    decreases |results|
  {
    if results != [] {
      var init := results[..|results| - 1];
      MessagesReportEveryFailure(init);
      assert forall k :: 0 <= k < |init| ==> init[k] == results[k];
    }
  }

  /** The `for` loop of `main` over the validation tuple: print each message,
      and clear `okContinue` at the first one. */
  method ReportResults(results: seq<Option<string>>) returns (printed: seq<string>, okContinue: bool)
    ensures okContinue <==> forall k :: 0 <= k < |results| ==> results[k] == None
    ensures printed == Messages(results)
  {
    printed := [];
    okContinue := true;
    var i := 0;
    while i < |results|
      invariant 0 <= i <= |results|
      invariant okContinue <==> forall k :: 0 <= k < i ==> results[k] == None
      invariant printed == Messages(results[..i])
    {
      assert results[..i + 1][..i] == results[..i];
      if results[i] != None {
        okContinue := false;
        printed := printed + [results[i].value];
      }
      i := i + 1;
    }
    assert results[..i] == results;
  }

  /** `main(options)`: console lines printed and how the run ended. */
  method RunMain(opts: Options) returns (console: seq<string>, outcome: Outcome)
    ensures outcome.Unbound? <==> !Given(opts.ip) || !Given(opts.community)
    ensures !outcome.Unbound? ==>
      var v := ValidateMe(opts.ip.value, opts.community.value, PortArg(opts), VersionArg(opts), OutputArg(opts));
      && (outcome.ValueErrorRaised? <==> v.Raised?)
      && (v.Results? ==>
            && (outcome.Started? <==> forall k :: 0 <= k < 5 ==> v.AsSeq()[k] == None)
            && console == Preamble(opts) + Messages(v.AsSeq())
                          + (if outcome.Started? then [VALIDATION_COMPLETE] else []))
    ensures outcome.Unbound? || outcome.ValueErrorRaised? ==> console == Preamble(opts)
    ensures outcome.Started? ==>
      && outcome.launch.ip == opts.ip.value && outcome.launch.community == opts.community.value
      && Some(outcome.launch.port) == IntOf(PortArg(opts))
      && Some(outcome.launch.version) == IntOf(VersionArg(opts))
      && outcome.launch.output == OutputArg(opts)
  {
    console := [PROCESSING];
    var snmpPort: PyArg;
    if Given(opts.port) {
      snmpPort := Text(opts.port.value);
    } else {
      console := console + [PORT_DEFAULTED];
      snmpPort := Int(DEFAULT_PORT);
    }
    var snmpVersion: PyArg;
    if Given(opts.version) {
      snmpVersion := Text(opts.version.value);
    } else {
      console := console + [VERSION_DEFAULTED];
      snmpVersion := Int(DEFAULT_VERSION);
    }
    var outputType := if Given(opts.output) then opts.output.value else DEFAULT_OUTPUT;
    if !Given(opts.ip) || !Given(opts.community) {
      return console, Unbound;
    }
    var ipAddress, snmpCommunity := opts.ip.value, opts.community.value;
    assert snmpPort == PortArg(opts) && snmpVersion == VersionArg(opts) && outputType == OutputArg(opts);
    assert console == Preamble(opts);

    var valid := ValidateMe(ipAddress, snmpCommunity, snmpPort, snmpVersion, outputType);
    if valid.Raised? {
      return console, ValueErrorRaised;
    }
    var printed, okContinue := ReportResults(valid.AsSeq());
    console := console + printed;
    assert console == Preamble(opts) + Messages(valid.AsSeq());
    if okContinue {
      assert valid.AsSeq()[2] == None && valid.AsSeq()[3] == None;
      console := console + [VALIDATION_COMPLETE];
      var port, version := IntOf(snmpPort), IntOf(snmpVersion);
      outcome := Started(Launch(ipAddress, snmpCommunity, port.value, version.value, outputType));
    } else {
      outcome := Rejected;
    }
  }

  /** Defaults: an absent or empty port, version or output option becomes 161,
      2 or "console", and each of these passes its check. */
  lemma DefaultsPass(opts: Options)
    ensures !Given(opts.port) ==> IntOf(PortArg(opts)) == Some(161) && ValidatePort(PortArg(opts)) == None
    ensures !Given(opts.version) ==> IntOf(VersionArg(opts)) == Some(2) && ValidateVersion(VersionArg(opts)) == None
    ensures !Given(opts.output) ==> OutputArg(opts) == "console" && ValidateOutputType(OutputArg(opts)) == None
  {
  }

  /** A run that goes on has passed every check: the address is a dotted quad
      of numbers in 0..255, the community is not empty, the version is 1, 2 or 3
      and the output type is a case variant of a known one. */
  lemma StartedLaunchIsValid(ip: string, co: string, po: PyArg, ve: PyArg, ot: string)
    requires ValidateMe(ip, co, po, ve, ot).Results?
    requires forall k :: 0 <= k < 5 ==> ValidateMe(ip, co, po, ve, ot).AsSeq()[k] == None
    ensures ValidateIP(ip) == IpValid
    ensures co != ""
    ensures IntOf(ve).Some? && 1 <= IntOf(ve).value <= 3
    ensures IntOf(po).Some?
    ensures exists m :: m in OUTPUT_TYPES && EqualsIgnoreCase(ot, m)
  {
    var v := ValidateMe(ip, co, po, ve, ot);
    assert v.AsSeq()[0] == None && v.AsSeq()[1] == None && v.AsSeq()[2] == None;
    assert v.AsSeq()[3] == None && v.AsSeq()[4] == None;
    NoShortCircuit(ip, co, po, ve, ot);
    OutputTypeIgnoresCase(ot);
  }
}
