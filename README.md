# SwitchReport in Dafny

A model of the two pieces of logic in SwitchReport, a small tool that asks a
network switch over SNMP for its interfaces and reports how long each has held
its current operational state.

- **Input validation** (`sr.py`): `validateMe` runs five independent checks
  (IPv4 address, community string, SNMP version, port, output type), each giving
  `None` or a fixed error message. `main` fills in defaults for absent options
  (port 161, version 2, output "console"), prints every message, and goes on
  only when all five checks pass.
- **Report computation and rendering** (`switchreport.py`): `getPortStatus`
  names an ifOperStatus code. `convertTimeTickToReadable` turns a TimeTicks
  count into "D days H hours M minutes". TimeTicks are hundredths of a second,
  as section 7.1.8 of RFC 2578 defines them. `getSNMPinterfacePortLastUse`
  zips the ifIndex, ifDescr, ifOperStatus and ifLastChange tables by position.
  It writes one line per interface to the console, a text file or an HTML file.

Files:

- `wrappers.dfy`: `Option`, which stands for Python's `None`-or-value.
- `pytext.dfy`: the Python string built-ins the tool relies on. These are
  `split`, `join`, `strip`, `lower`, `int()` on a string, and `'%d' % n`.
  `split` and `join` undo each other (`JoinOfSplit`, `SplitOfJoin`), and so do
  `int()` and `'%d'` (`ParseFormatInt`). `strip` and `lower` are characterised
  character by character (`StripLeadingRemovesSpace`,
  `StripTrailingRemovesSpace`, `LowerAt`).
- `validate.dfy`: `validateMe` and its nested validators.
- `control.dfy`: `main` of `sr.py`, as a method with the loop over the
  validation tuple.
- `report_fields.dfy`: `getPortStatus` and `convertTimeTickToReadable`.
- `report.dfy`: the row loop shared by the three renderers, the line formats,
  the `rowred` rule, the report file names, the output-type dispatch, and the
  constructor's run, including the ping diagnostic after an `IndexError`.

The SNMP answers are sequences (`Answers`). The clock readings, the outcome of
opening the report file and the outcome of the ping are parameters (`Host`).
Console output and each report file are `seq<string>` buffers, one element per
`print` or per `f.write`.

Behaviour of the source that the model keeps, though a reader might not expect it:

- The output type is lower-cased before it is validated. The dispatch in
  `switchreport.py:151`, `:182` and `:267` compares the raw string exactly. So
  "TEXT" passes validation and then goes to the console, not to a text file
  (`MixedCaseGoesToConsole`).
- The version check accepts 1, 2 and 3. Its out-of-range message still says
  "between 1 and 2" (`VersionOutcomes`).
- Every HTML row whose status is not "Down" carries `class='rowred'`. That
  includes "Up" and "Unknown" rows (`RowRedIffNotDown`).
- A non-numeric octet makes `int()` raise inside the address check, and
  nothing catches the `ValueError`. So `validateMe` has a third outcome,
  `Raised`, besides the 5-tuple.
- `main` assigns the address and community only when their options are
  truthy. An empty one leaves the local unbound, which is the `Unbound`
  outcome.

## Model

| member | source | states |
|---|---|---|
| `SrValidate.MissingOctetIffNotFourParts` | switchReport-v1.0.0-beta/sr.py:122-124 | `ValidateIP` gives "Missing Octet" exactly when `Split(ip, '.')` does not give 4 parts, that is, exactly when the address does not hold 3 dots. |
| `PyText.SplitOfJoin` | switchReport-v1.0.0-beta/sr.py:122 | `ip.split('.')` gives back the parts of any dot-joined list of dot-free strings (`JoinOfSplit` gives the other direction). |
| `SrValidate.ScanOctetsStopsAtFirstBad` | switchReport-v1.0.0-beta/sr.py:125-128 | `ScanOctets`, the loop of `ValidateIP`, runs left to right and stops at the first octet that is not a number in 0..255. It raises there if `int()` fails and gives "Octet out of range" otherwise. It passes only when every octet is in range. |
| `SrValidate.ScanOctetsFirstFailure` | switchReport-v1.0.0-beta/sr.py:125-128 | The same three outcomes stated with quantifiers, each as an if-and-only-if. The scan has no other outcome. |
| `SrValidate.DottedQuadValid` | switchReport-v1.0.0-beta/sr.py:120-128 | Four numbers in 0..255 written in decimal and joined by dots pass the address check. |
| `SrValidate.ValidateCommunity` | switchReport-v1.0.0-beta/sr.py:130-134 | The community check fails with its message exactly for the empty string. |
| `SrValidate.VersionOutcomes` | switchReport-v1.0.0-beta/sr.py:136-145 | `ValidateVersion` has three outcomes. A non-integer gives "valid SNMP Version". An integer outside 1..3 gives the "between 1 and 2" message. 1, 2 and 3 give `None`. |
| `SrValidate.VersionOfFormatted` | switchReport-v1.0.0-beta/sr.py:138-143 | A version written as a decimal integer passes exactly when it is 1, 2 or 3, and never gets the non-integer message. |
| `SrValidate.PortOfFormatted` | switchReport-v1.0.0-beta/sr.py:147-153 | `ValidatePort` passes every integer port written in decimal, including 0 and negative ports. |
| `SrValidate.NonNumericRejected` | switchReport-v1.0.0-beta/sr.py:138-153 | A port or version text holding any character other than whitespace, a sign or a digit is not an integer for `ParseInt` (Python's `int()`), so `ValidatePort` and `ValidateVersion` give their non-integer messages. |
| `PyText.ParseFormatInt` | switchReport-v1.0.0-beta/sr.py:126 | `int()` of an integer written with `'%d'` gives the integer back. |
| `SrValidate.OutputTypeIgnoresCase` | switchReport-v1.0.0-beta/sr.py:155-163 | `ValidateOutputType` (`Lower`, then three comparisons) passes exactly the case variants of "text", "console" and "html". Everything else gets the "omit for console output" message. |
| `PyText.LowerAt` | switchReport-v1.0.0-beta/sr.py:158 | `ot.lower()` lowers each character in place and keeps the length. |
| `SrValidate.NoShortCircuit` | switchReport-v1.0.0-beta/sr.py:165-170 | `ValidateMe` evaluates all five checks unless the address check raises. Each tuple entry, in the order ip, community, version, port, output, is `None` exactly when its own field is valid, whatever the other fields hold. |
| `SrMain.MessagesReportEveryFailure` | switchReport-v1.0.0-beta/sr.py:105-109 | The printed messages are empty exactly when every entry is `None`. Every failing entry's message is printed. |
| `SrMain.ReportResults` | switchReport-v1.0.0-beta/sr.py:105-109 | The loop over the tuple prints the non-`None` entries in order. `okContinue` stays true exactly when all entries are `None`. |
| `SrMain.RunMain` | switchReport-v1.0.0-beta/sr.py:62-114 | `main` applies the defaults and prints the default notices. An empty address or community leaves a local unbound. An uncaught `ValueError` from the address check ends the run. Otherwise every message is printed, and the report starts iff all five checks pass, with `int()` of port and version. |
| `SrMain.DefaultsPass` | switchReport-v1.0.0-beta/sr.py:83-101 | An absent port, version or output option becomes 161, 2 or "console", and each default passes its check. |
| `SrMain.StartedLaunchIsValid` | switchReport-v1.0.0-beta/sr.py:104-114 | A run that goes on has a valid address, a non-empty community, a version in 1..3, an integer port and a known output type in any case. |
| `ReportFields.PortStatus` | switchReport-v1.0.0-beta/switchreport.py:307-316 | Code 1 is "Up" and code 2 is "Down", each in both directions. Every other integer is "Unknown". |
| `ReportFields.Divide` | switchReport-v1.0.0-beta/switchreport.py:322-330 | The chained `divmod` gives hours below 24 and minutes below 60. The dropped remainder is less than one minute of ticks. |
| `ReportFields.DivideUnique` | switchReport-v1.0.0-beta/switchreport.py:320-330 | That breakdown is the only one, so days = t div 8640000, hours = (t mod 8640000) div 360000 and minutes = (t mod 360000) div 6000. |
| `ReportFields.DurationWords` | switchReport-v1.0.0-beta/switchreport.py:331-333 | `DurationText` is always six space-separated words: days, hours and minutes, each with its unit, even when zero. |
| `ReportFields.DurationRoundTrip` | switchReport-v1.0.0-beta/switchreport.py:320-333 | The numbers read back from `DurationText(t)` are t div 8640000, (t mod 8640000) div 360000 and (t mod 360000) div 6000. |
| `SwitchReport.Dispatch` | switchReport-v1.0.0-beta/switchreport.py:150-151 | Exactly "text" goes to the text renderer and exactly "html" to the HTML renderer. Everything else goes to the console. |
| `SwitchReport.MixedCaseGoesToConsole` | switchReport-v1.0.0-beta/switchreport.py:266-267 | "TEXT" passes the output check but is rendered on the console. |
| `SwitchReport.ReportPathPlace` | switchReport-v1.0.0-beta/switchreport.py:157-159 | `ReportPath` of a text report starts with `reports/text/` and ends in `.txt`; of an HTML report, starts with `reports/html/` and ends in `.html`. |
| `SwitchReport.FileNameFields` | switchReport-v1.0.0-beta/switchreport.py:188-190 | `FileName` splits back at underscores into "SwitchReport", the time stamp and the address. The rest is the system name with the extension. |
| `SwitchReport.LinesAt` | switchReport-v1.0.0-beta/switchreport.py:169-174 | Report line `i` holds the i-th description, the status of the i-th code and the duration of `sysUpTime - ifLastChange[i]`. There is one line per row, in index order. |
| `SwitchReport.RowLinesAt` | switchReport-v1.0.0-beta/switchreport.py:240-258 | Every renderer emits exactly one line per row, in index order, built from the i-th element of each table. |
| `SwitchReport.RenderRows` | switchReport-v1.0.0-beta/switchreport.py:274-281 | The `for i in range(len(ifIndexRes))` loop emits the rendered rows in order. It completes iff the descr, status and last-change tables are at least as long as ifIndex. Otherwise it stops with an `IndexError` at the first short table. |
| `SwitchReport.PortLastUse` | switchReport-v1.0.0-beta/switchreport.py:133-281 | The console lines and report file of each output type. The console gets the header, `DeviceInfo` block, column header and rows. A text report (with `DeviceInfo`) or HTML report (with `HtmlBlurb`) goes to the derived path, with its preamble and rows, when the file opens; otherwise the file-error message is printed. `raised` is set exactly when a row loop ran and a table was short. |
| `SwitchReport.RunReport` | switchReport-v1.0.0-beta/switchreport.py:48-78 | The constructor's run. A missing sysName or sysUpTime answer leads straight to `PingDiagnostic`. Otherwise the report follows, and `PingDiagnostic` comes after it exactly when a table was short. |
| `SwitchReport.PingMessageLines` | switchReport-v1.0.0-beta/switchreport.py:82-95 | `PingMessage` shows by its first character whether the host answered. When the address and community hold no line break, an answered ping reads back line by line as the address, the settings question, the community string and the version. An unanswered one is a single line. |
| `SwitchReport.DeviceInfoLines` | switchReport-v1.0.0-beta/switchreport.py:141-147 | When no field holds a line break, `DeviceInfo` reads back line by line: a blank line, then the address, the name, the uptime text and the report time, each after its label. |
| `SwitchReport.RowRedIffNotDown` | switchReport-v1.0.0-beta/switchreport.py:253-256 | `HtmlRow` starts with `<tr class='rowred'>` exactly when the row's status code is not 2, and with a plain `<tr>` exactly when it is 2. |
| `SwitchReport.RowTag` | switchReport-v1.0.0-beta/switchreport.py:253-256 | The tag of an HTML row depends on the status label alone: `rowred` iff the label is not "Down". |
| `SwitchReport.HtmlRowCells` | switchReport-v1.0.0-beta/switchreport.py:253-256 | Both kinds of `HtmlRow` carry the same three cells after the tag: description, status and duration. |
| `SwitchReport.PreamblesMatch` | switchReport-v1.0.0-beta/switchreport.py:163-167 | The text file's header, device block and column header are what the console prints before its rows. |
| `SwitchReport.RowsMatch` | switchReport-v1.0.0-beta/switchreport.py:169-176 | Each row written to the text file as "\n" plus the line matches the console's line plus its newline, so the two stay in step row by row. |
| `SwitchReport.TextFileMatchesConsole` | switchReport-v1.0.0-beta/switchreport.py:161-176 | The text file holds the console report after its "Compiling" line, minus the final newline. Each row is preceded by a newline instead of followed by one. |

## Left out

- SNMP transport: `performSNMPQuery`, and the `getCmd` call in `getSNMPSystemUpTime`. The answers are inputs. The error lines that `performSNMPQuery` prints for an `errorIndication` or `errorStatus` are not modelled.
- The ping probe `hostCheckLinuxOS` runs a shell command. Whether the host answers is a parameter; the two messages are modelled.
- The file system: `checkDirectory` and its "Unable to create directory" message, `open`, `write` and `close`. A report file is a path plus its written chunks, and whether the file opens is a parameter. An `IOError` in the middle of writing is not modelled.
- The clock: `time.ctime()` and `filenameTimeStamp` are string parameters.
- docopt parsing, the help text and the `--version` option. `main` receives the options as `Option<string>` values.
- Debug output: `debug`, `printInput`, and the `dbg`/`dbgr` flags, which are always 0.
- Floating point: ticks are integers. TimeTicks are below 2^32, so the `float` conversions and subtractions are exact, and float `divmod` agrees with integer floor division and modulo.
- The `IOError` and `ValueError` handlers of the constructor. In this model only an `IndexError` can arise in the report phase, so those handlers never fire.
- The HTML template text is kept as constant strings. `HTML_TEMPLATE_BTM` is defined but never written in the source, and the model does not write it either.
- `ParseInt` models Python 2 `int()` on a string: surrounding whitespace, an optional sign and ASCII decimal digits. It does not model whitespace between the sign and the digits, non-ASCII digits, or Python's handling of a `long`.
