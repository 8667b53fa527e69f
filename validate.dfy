/**
 * `validateMe` of sr.py: five independent checks of the user's input, each
 * giving `None` or an error message, collected in a fixed order.
 */
module SrValidate {
  import opened Wrappers
  import opened PyText

  const MISSING_OCTET := "ERROR: Please enter a valid IP address: Missing Octet"
  const OCTET_OUT_OF_RANGE := "ERROR: Please enter a valid IP address: Octet out of range"
  const BAD_COMMUNITY := "ERROR: Please enter a valid Community String"
  const VERSION_OUT_OF_RANGE := "ERROR: Please enter an SNMP Version between 1 and 2"
  const VERSION_NOT_INT := "ERROR: Please enter a valid SNMP Version"
  const PORT_NOT_INT := "ERROR: Please enter a valid SNMP Port"
  const BAD_OUTPUT := "ERROR: Please enter a valid output option or omit for console output"

  /** The value held by the port and version variables of `main`: the option's
      text, or the integer default when the option was absent. */
  datatype PyArg = Text(s: string) | Int(n: int)

  /** `int(v)` */
  function IntOf(v: PyArg): Option<int>
  {
    match v
    case Text(s) => ParseInt(s)
    case Int(n) => Some(n)
  }

  /** The address check has a third outcome besides `None` and a message: a
      non-numeric octet makes `int()` raise, and nothing catches the
      `ValueError`. */
  datatype IpVerdict = IpValid | IpInvalid(message: string) | IpValueError

  predicate OctetInRange(octet: string)
  {
    ParseInt(octet).Some? && 0 <= ParseInt(octet).value <= 255
  }

  /** The `for` loop over the octets, left to right, returning at the first
      octet that does not parse or is out of range. */
  function ScanOctets(octets: seq<string>): IpVerdict
    decreases |octets|
  {
    if octets == [] then IpValid
    else
      match ParseInt(octets[0])
      case None => IpValueError
      case Some(n) =>
        if n < 0 || n > 255 then IpInvalid(OCTET_OUT_OF_RANGE) else ScanOctets(octets[1..])
  }

  /** `__validateIP_` */
  function ValidateIP(ip: string): IpVerdict
  {
    var octets := Split(ip, '.');
    if |octets| != 4 then IpInvalid(MISSING_OCTET) else ScanOctets(octets)
  }

  /** `__validateSNMPCommString_`: `not co` holds of the empty string only. */
  function ValidateCommunity(co: string): (r: Option<string>)
    ensures r == None <==> co != ""
    ensures r != None ==> r == Some(BAD_COMMUNITY)
  {
    if co == "" then Some(BAD_COMMUNITY) else None
  }

  /** `__validSNMPVersion_` */
  function ValidateVersion(ve: PyArg): Option<string>
  {
    match IntOf(ve)
    case None => Some(VERSION_NOT_INT)
    case Some(v) => if v < 1 || v > 3 then Some(VERSION_OUT_OF_RANGE) else None
  }

  /** `__validSNMPPort_`: any integer will do. */
  function ValidatePort(po: PyArg): Option<string>
  {
    if IntOf(po).None? then Some(PORT_NOT_INT) else None
  }

  const OUTPUT_TYPES: seq<string> := ["text", "console", "html"]

  /** `__validateOutputType_`: the input is lower-cased, then compared. */
  function ValidateOutputType(ot: string): Option<string>
  {
    var lot := Lower(ot);
    if lot == "text" || lot == "console" || lot == "html" then None else Some(BAD_OUTPUT)
  }

  /** What `validateMe` returns: the 5-tuple, or the `ValueError` of the address check. */
  datatype Validation =
    | Raised
    | Results(ip: Option<string>, community: Option<string>, version: Option<string>,
              port: Option<string>, output: Option<string>)
  {
    /** The tuple in the order `main` iterates over it. */
    function AsSeq(): (s: seq<Option<string>>)
      requires Results?
      ensures |s| == 5
    {
      [ip, community, version, port, output]
    }
  }

  /** `validateMe(ip, co, po, ve, ot)` */
  function ValidateMe(ip: string, co: string, po: PyArg, ve: PyArg, ot: string): Validation
  {
    match ValidateIP(ip)
    case IpValueError => Raised
    case IpValid =>
      Results(None, ValidateCommunity(co), ValidateVersion(ve), ValidatePort(po), ValidateOutputType(ot))
    case IpInvalid(m) =>
      Results(Some(m), ValidateCommunity(co), ValidateVersion(ve), ValidatePort(po), ValidateOutputType(ot))
  }

  // ---------------------------------------------------------------- properties

  /** The position of the first octet that is not a number in 0..255, or the
      number of octets when there is none. */
  function FirstBadOctet(octets: seq<string>): (k: nat)
    ensures k <= |octets|
    ensures forall j :: 0 <= j < k ==> OctetInRange(octets[j])
    ensures k < |octets| ==> !OctetInRange(octets[k])
    decreases |octets|
  {
    if octets == [] || !OctetInRange(octets[0]) then 0 else 1 + FirstBadOctet(octets[1..])
  }

  /** The octet scan stops at the first octet that is not a number in 0..255:
      `int()` raising there gives the `ValueError`, a number out of range gives
      the range message, and only a full pass gives `None`. */
  lemma {:induction false} ScanOctetsStopsAtFirstBad(octets: seq<string>)
    ensures var k := FirstBadOctet(octets);
      ScanOctets(octets) == if k == |octets| then IpValid
                            else if ParseInt(octets[k]).None? then IpValueError
                            else IpInvalid(OCTET_OUT_OF_RANGE)
    decreases |octets|
  {
    if octets != [] && OctetInRange(octets[0]) {
      var rest := octets[1..];
      ScanOctetsStopsAtFirstBad(rest);
      if FirstBadOctet(rest) < |rest| {
        assert octets[FirstBadOctet(octets)] == rest[FirstBadOctet(rest)];
      }
    }
  }

  /** The same, with the first failing octet named by quantifiers. */
  lemma ScanOctetsFirstFailure(octets: seq<string>)
    ensures ScanOctets(octets) == IpValid
            <==> forall k :: 0 <= k < |octets| ==> OctetInRange(octets[k])
    ensures ScanOctets(octets) == IpValueError
            <==> exists k :: 0 <= k < |octets| && ParseInt(octets[k]).None?
                             && forall j :: 0 <= j < k ==> OctetInRange(octets[j])
    ensures ScanOctets(octets) == IpInvalid(OCTET_OUT_OF_RANGE)
            <==> exists k :: 0 <= k < |octets| && ParseInt(octets[k]).Some? && !OctetInRange(octets[k])
                             && forall j :: 0 <= j < k ==> OctetInRange(octets[j])
    ensures ScanOctets(octets) in {IpValid, IpValueError, IpInvalid(OCTET_OUT_OF_RANGE)}
  {
    var f := FirstBadOctet(octets);
    ScanOctetsStopsAtFirstBad(octets);
    // any octet that fails with all before it passing is the first failing one
    forall k | 0 <= k < |octets| && !OctetInRange(octets[k])
               && (forall j :: 0 <= j < k ==> OctetInRange(octets[j]))
      ensures k == f
    {
    }
  }

  /** The address check in terms of the dot count: a count other than three is
      the missing-octet message, and the missing-octet message means exactly that. */
  lemma MissingOctetIffNotFourParts(ip: string)
    ensures ValidateIP(ip) == IpInvalid(MISSING_OCTET) <==> |Split(ip, '.')| != 4
    ensures ValidateIP(ip) == IpInvalid(MISSING_OCTET) <==> multiset(ip)['.'] != 3
  {
    SplitCount(ip, '.');
    ScanOctetsFirstFailure(Split(ip, '.'));
  }

  /** A dotted quad of numbers in 0..255, written as `'%d'` writes them, passes. */
  lemma DottedQuadValid(a: int, b: int, c: int, d: int)
    requires 0 <= a <= 255 && 0 <= b <= 255 && 0 <= c <= 255 && 0 <= d <= 255
    ensures ValidateIP(Join([FormatInt(a), FormatInt(b), FormatInt(c), FormatInt(d)], '.')) == IpValid
  {
    var parts := [FormatInt(a), FormatInt(b), FormatInt(c), FormatInt(d)];
    SplitOfJoin(parts, '.');
    ParseFormatInt(a);
    ParseFormatInt(b);
    ParseFormatInt(c);
    ParseFormatInt(d);
    assert ScanOctets(parts[3..]) == IpValid;
    assert ScanOctets(parts[2..]) == IpValid;
    assert ScanOctets(parts[1..]) == IpValid;
  }

  /** The version check: a non-integer is the "valid SNMP Version" message, an
      integer outside 1..3 the "between 1 and 2" message, and 1, 2 and 3 pass. */
  lemma VersionOutcomes(ve: PyArg)
    ensures IntOf(ve).None? <==> ValidateVersion(ve) == Some(VERSION_NOT_INT)
    ensures ValidateVersion(ve) == None <==> IntOf(ve).Some? && 1 <= IntOf(ve).value <= 3
    ensures ValidateVersion(ve) == Some(VERSION_OUT_OF_RANGE)
            <==> IntOf(ve).Some? && (IntOf(ve).value < 1 || IntOf(ve).value > 3)
  {
  }

  /** Every integer written in decimal is a valid version exactly when it is 1, 2 or 3. */
  lemma VersionOfFormatted(n: int)
    ensures ValidateVersion(Text(FormatInt(n))) == None <==> 1 <= n <= 3
    ensures ValidateVersion(Text(FormatInt(n))) != Some(VERSION_NOT_INT)
  {
    ParseFormatInt(n);
  }

  /** The port check accepts every integer, zero and negatives included (that
      it rejects exactly what `int()` rejects is part of `NoShortCircuit`). */
  lemma PortOfFormatted(n: int)
    ensures ValidatePort(Text(FormatInt(n))) == None
  {
    ParseFormatInt(n);
  }

  /** A port or version text holding anything but whitespace, signs and digits
      is not an integer. */
  lemma NonNumericRejected(s: string, i: nat)
    requires i < |s| && !IsIntChar(s[i])
    ensures ValidatePort(Text(s)) == Some(PORT_NOT_INT)
    ensures ValidateVersion(Text(s)) == Some(VERSION_NOT_INT)
  {
    if ParseInt(s).Some? {
      ParseIntAlphabet(s);
    }
  }

  /** The output check accepts exactly the case variants of "text", "console" and "html". */
  lemma OutputTypeIgnoresCase(ot: string)
    ensures ValidateOutputType(ot) == None
            <==> exists m :: m in OUTPUT_TYPES && EqualsIgnoreCase(ot, m)
    ensures ValidateOutputType(ot) != None ==> ValidateOutputType(ot) == Some(BAD_OUTPUT)
  {
    var lot := Lower(ot);
    LowerAt(ot);
    forall m | m in OUTPUT_TYPES
      ensures lot == m <==> EqualsIgnoreCase(ot, m)
    {
      assert forall i :: 0 <= i < |m| ==> LowerChar(m[i]) == m[i];
      if EqualsIgnoreCase(ot, m) {
        assert lot == m;
      }
    }
    if ValidateOutputType(ot) == None {
      assert lot in OUTPUT_TYPES;
    }
  }

  /** The five checks do not depend on one another: unless the address check
      raises, every field gets its own verdict, whatever the other fields hold. */
  lemma NoShortCircuit(ip: string, co: string, po: PyArg, ve: PyArg, ot: string)
    ensures ValidateMe(ip, co, po, ve, ot).Raised? <==> ValidateIP(ip) == IpValueError
    ensures ValidateMe(ip, co, po, ve, ot).Results? ==>
      var r := ValidateMe(ip, co, po, ve, ot);
      && (r.ip == None <==> ValidateIP(ip) == IpValid)
      && (r.community == None <==> co != "")
      && (r.version == None <==> IntOf(ve).Some? && 1 <= IntOf(ve).value <= 3)
      && (r.port == None <==> IntOf(po).Some?)
      && (r.output == None <==> Lower(ot) in OUTPUT_TYPES)
  {
  }
}
