/**
 * `getSNMPinterfacePortLastUse` of switchreport.py and the constructor flow
 * around it: the SNMP answers come in as sequences, the clock, the file system
 * and the ping probe as parameters, and every printed line, every chunk
 * written to the report file, is an element of a `seq<string>` buffer.
 */
module SwitchReport {
  import opened Wrappers
  import opened PyText
  import opened ReportFields
  import opened SrValidate
  import SrMain

  const PERFORMING := "STATUS: Performing SNMP queries"
  const COMPILING_TEXT := "STATUS: Compiling text based report"
  const COMPILING_HTML := "STATUS: Compiling html based report"
  const COMPILING_CONSOLE := "STATUS: Compiling console based report\n"
  const GENERATED := "STATUS: Report generated:\nSTATUS: "
  const FILE_ERROR := "ERROR: Unable to access and create report path and filename"
  const PINGING := "Pinging..."

  const DOC_HEADER := "SWITCHREPORT"
  const DOC_COLUMNHEADER := "Interface   |   Status  |   Status Duration"

  /** The document head, style sheet and opening paragraph of the HTML report. */
  const HTML_TEMPLATE_TOP: string :=
    "\n"
    + "            <!DOCTYPE html>\n"
    + "            <html>\n"
    + "            <head>\n"
    + "            <title>SWITCHREPORT :: Take control of the edge</title>\n"
    + "            <meta charset=\"UTF-8\">\n"
    + "             <style>\n"
    + "              table { border-collapse: collapse; border: solid thick; }\n"
    + "              colgroup, tbody { border: solid medium; }\n"
    + "              td { border: solid thin; height: 1.4em; text-align: center; padding-left: 5px; padding-right: 5px;}\n"
    + "              tr.rowred {background-color:#FF6347;}\n"
    + "             </style>\n"
    + "            </head>\n"
    + "            <body>\n"
    + "            <section>\n"
    + "            <h1>SwitchReport :: Take control of the edge</h1>\n"
    + "            <p>Scan complete and report generated below<br />\n"
    + "                "

  /** The table head of the HTML report. */
  const HTML_TEMPLATE_BLURB_BTM: string :=
    "\n"
    + "            </section>\n"
    + "            <section>\n"
    + "             <table>\n"
    + "             <thead>\n"
    + "              <tr>\n"
    + "               <th> Interface\n"
    + "               <th> Status\n"
    + "               <th> Duration\n"
    + "             <tbody>\n"
    + "             "

  /** The rows of the six SNMP queries, in the order the agent returned them;
      `sysName` and `sysUpTime` are expected to hold one row each. */
  datatype Answers = Answers(sysName: seq<string>, sysUpTime: seq<Ticks>,
                             ifIndex: seq<int>, ifDescr: seq<string>,
                             ifOperStatus: seq<int>, ifLastChange: seq<Ticks>)

  /** What the host supplies: the two `time.ctime()` readings (device block and
      HTML blurb), the `%y%m%d%H%M` stamp of the file name, whether the report
      file can be opened for writing, and whether the ping probe is answered. */
  datatype Host = Host(ctime: string, ctimeHtml: string, stamp: string, fileOpens: bool, pingAnswers: bool)

  datatype Output = ConsoleOut | TextOut | HtmlOut

  /** The `if`/`elif`/`else` on `self.outputType`: exact comparisons, so
      everything but "text" and "html" is the console. */
  function Dispatch(outputType: string): (o: Output)
    ensures o == TextOut <==> outputType == "text"
    ensures o == HtmlOut <==> outputType == "html"
    ensures o == ConsoleOut <==> outputType != "text" && outputType != "html"
  {
    if outputType == "text" then TextOut else if outputType == "html" then HtmlOut else ConsoleOut
  }

  /** A report file: where it goes and the chunks handed to `f.write`, in order. */
  datatype ReportFile = ReportFile(path: string, chunks: seq<string>)

  // ---------------------------------------------------------------- file names

  function Extension(o: Output): string
  {
    if o == TextOut then ".txt" else ".html"
  }

  function Directory(o: Output): string
  {
    if o == TextOut then "reports/text/" else "reports/html/"
  }

  /** `"SwitchReport_%s" % fileTime + "_%s" % ip + "_%s" % systemName + ext` */
  function FileName(o: Output, stamp: string, ip: string, name: string): string
  {
    "SwitchReport" + "_" + stamp + "_" + ip + "_" + name + Extension(o)
  }

  /** `os.path.join(PATH, FILENAME)`: the directory ends in a slash and the
      file name is relative, so the join is a concatenation. */
  function ReportPath(o: Output, stamp: string, ip: string, name: string): string
  {
    Directory(o) + FileName(o, stamp, ip, name)
  }

  /** A text report goes under `reports/text/` and ends in `.txt`, an HTML
      report under `reports/html/` and ends in `.html`. */
  lemma ReportPathPlace(o: Output, stamp: string, ip: string, name: string)
    requires o != ConsoleOut
    ensures var path := ReportPath(o, stamp, ip, name);
      && (o == TextOut ==> StartsWith(path, "reports/text/") && path[|path| - 4..] == ".txt")
      && (o == HtmlOut ==> StartsWith(path, "reports/html/") && path[|path| - 5..] == ".html")
  {
    var stem := "SwitchReport" + "_" + stamp + "_" + ip + "_" + name;
    if o == TextOut {
      assert ReportPath(o, stamp, ip, name) == "reports/text/" + (stem + ".txt");
      Bracketed("reports/text/", stem, ".txt");
    } else {
      assert ReportPath(o, stamp, ip, name) == "reports/html/" + (stem + ".html");
      Bracketed("reports/html/", stem, ".html");
    }
  }

  /** A middle framed by a prefix and a suffix: the whole starts and ends with them. */
  lemma Bracketed(d: string, m: string, e: string)
    ensures var s := d + (m + e);
      s[..|d|] == d && s[|s| - |e|..] == e
  {
  }

  /** The file name splits back at its underscores into "SwitchReport", the
      time stamp and the address, and the rest is the system name with the
      extension (the name may hold underscores of its own). */
  lemma FileNameFields(o: Output, stamp: string, ip: string, name: string)
    requires '_' !in stamp && '_' !in ip
    ensures var parts := Split(FileName(o, stamp, ip, name), '_');
      && |parts| >= 4 && parts[0] == "SwitchReport" && parts[1] == stamp && parts[2] == ip
      && Join(parts[3..], '_') == name + Extension(o)
  {
    assert '_' !in "SwitchReport";
    SplitThreeFields("SwitchReport", stamp, ip, name, Extension(o), '_');
  }

  /** Three separator-free fields, each closed by the separator, then a rest
      made of two pieces that may hold the separator. */
  lemma SplitThreeFields(f1: string, f2: string, f3: string, r1: string, r2: string, sep: char)
    requires sep !in f1 && sep !in f2 && sep !in f3
    ensures var parts := Split(f1 + [sep] + f2 + [sep] + f3 + [sep] + r1 + r2, sep);
      && |parts| >= 4 && parts[0] == f1 && parts[1] == f2 && parts[2] == f3
      && Join(parts[3..], sep) == r1 + r2
  {
    var b := f1 + [sep] + f2;
    var a := b + [sep] + f3;
    var rest := r1 + r2;
    SplitWithoutSep(f1, sep);
    SplitWithoutSep(f2, sep);
    SplitWithoutSep(f3, sep);
    SplitAppend(f1, f2, sep);
    SplitAppend(b, f3, sep);
    assert a + [sep] + r1 + r2 == a + [sep] + rest;
    SplitAppend(a, rest, sep);
    JoinOfSplit(rest, sep);
    var parts := Split(a + [sep] + rest, sep);
    assert parts == [f1, f2, f3] + Split(rest, sep);
    assert parts[3..] == Split(rest, sep);
  }

  // ---------------------------------------------------------------- headers

  /** `DOC_DEVICEINFO` */
  function DeviceInfo(ip: string, name: string, upText: string, ctime: string): string
  {
    "\n" + "Device IP Address: " + ip + " " + "\n"
    + "Device Name: " + name + " " + "\n"
    + "Device Up Time: " + upText + " " + "\n"
    + "Report Generated: " + ctime + "\n"
  }

  /** The device block reads back line by line: a blank line, then the
      address, the name, the uptime text and the report time, each on a line
      of its own after its label. */
  lemma DeviceInfoLines(ip: string, name: string, upText: string, ctime: string)
    requires '\n' !in ip && '\n' !in name && '\n' !in upText && '\n' !in ctime
    ensures Split(DeviceInfo(ip, name, upText, ctime), '\n') ==
      ["", "Device IP Address: " + ip + " ", "Device Name: " + name + " ",
       "Device Up Time: " + upText + " ", "Report Generated: " + ctime, ""]
  {
    FieldBlockLines("Device IP Address: ", ip, "Device Name: ", name, "Device Up Time: ", upText,
                    "Report Generated: ", ctime, " ", '\n');
  }

  /** The shape of the device block: a separator, then four labelled fields,
      each closed by the separator, the first three with a trailing pad. */
  lemma FieldBlockLines(l1: string, v1: string, l2: string, v2: string, l3: string, v3: string,
                        l4: string, v4: string, pad: string, sep: char)
    requires sep !in l1 && sep !in v1 && sep !in l2 && sep !in v2 && sep !in l3 && sep !in v3
    requires sep !in l4 && sep !in v4 && sep !in pad
    ensures Split([sep] + l1 + v1 + pad + [sep] + l2 + v2 + pad + [sep] + l3 + v3 + pad + [sep] + l4 + v4 + [sep], sep)
         == ["", l1 + v1 + pad, l2 + v2 + pad, l3 + v3 + pad, l4 + v4, ""]
  {
    var s0 := [sep];
    assert Split(s0, sep) == [""] + [""] by {
      assert s0 == [] + [sep] + [];
      SplitAppend([], [], sep);
    }
    var s1 := s0 + l1 + v1 + pad + [sep];
    SplitNextLine(s0, [""], l1, v1, pad, sep);
    var s2 := s1 + l2 + v2 + pad + [sep];
    SplitNextLine(s1, ["", l1 + v1 + pad], l2, v2, pad, sep);
    var s3 := s2 + l3 + v3 + pad + [sep];
    SplitNextLine(s2, ["", l1 + v1 + pad, l2 + v2 + pad], l3, v3, pad, sep);
    assert s3 + l4 + v4 + [sep] == s3 + l4 + v4 + [] + [sep];
    SplitNextLine(s3, ["", l1 + v1 + pad, l2 + v2 + pad, l3 + v3 + pad], l4, v4, [], sep);
    assert l4 + v4 + [] == l4 + v4;
  }

  /** `HTML_TEMPLATE_BLURB_TOP` */
  function HtmlBlurb(ip: string, name: string, upText: string, ctime: string): string
  {
    "Switch IP Address: " + ip + " " + "<br />"
    + "Switch Name: " + name + " " + "<br />"
    + "Switch Up Time: " + upText + " " + "<br />"
    + "Report Generated: " + ctime + "</p>"
  }

  /** The chunks written before the first row of the text report. */
  function TextPreamble(info: string): seq<string>
  {
    [DOC_HEADER, "\n", info, "\n", DOC_COLUMNHEADER]
  }

  /** The chunks written before the first row of the HTML report. */
  function HtmlPreamble(blurb: string): seq<string>
  {
    [HTML_TEMPLATE_TOP, blurb, HTML_TEMPLATE_BLURB_BTM]
  }

  /** The lines printed before the first row of the console report. */
  function ConsolePreamble(info: string): seq<string>
  {
    [COMPILING_CONSOLE, DOC_HEADER, info, DOC_COLUMNHEADER]
  }

  // ---------------------------------------------------------------- rows

  /** One interface: its description, status label and duration text. */
  datatype ReportLine = ReportLine(descr: string, status: string, duration: string)

  /** How many rows can be read before one of the three tables indexed by the
      row loop runs out. */
  function RowCount(a: Answers): nat
  {
    var n := |a.ifIndex|;
    var n := if |a.ifDescr| < n then |a.ifDescr| else n;
    var n := if |a.ifOperStatus| < n then |a.ifOperStatus| else n;
    if |a.ifLastChange| < n then |a.ifLastChange| else n
  }

  /** Row `i`: the i-th element of each table, and the span since the last
      change computed as `sysUpTime - ifLastChange[i]`. */
  function LineAt(a: Answers, up: Ticks, i: nat): ReportLine
    requires i < |a.ifDescr| && i < |a.ifOperStatus| && i < |a.ifLastChange|
  {
    ReportLine(a.ifDescr[i], PortStatus(a.ifOperStatus[i]), DurationText(up - a.ifLastChange[i]))
  }

  /** `"<tr><td> %s " % descr + "<td> %s " % res + "<td> %s " % pUT`, with
      `class='rowred'` on the row for every status but "Down". */
  function HtmlRow(l: ReportLine): string
  {
    var cells := "<td> " + l.descr + " " + "<td> " + l.status + " " + "<td> " + l.duration + " ";
    if l.status == "Down" then "<tr>" + cells else "<tr class='rowred'>" + cells
  }

  /** The line each renderer emits for one interface. */
  function Render(o: Output, l: ReportLine): string
  {
    match o
    case ConsoleOut => l.descr + " " + l.status + " " + l.duration
    case TextOut => "\n" + l.descr + " " + l.status + " " + l.duration
    case HtmlOut => HtmlRow(l)
  }

  /** Both kinds of HTML row carry the same three cells after their tag, so
      `rowred` changes the row's style and nothing else. */
  lemma HtmlRowCells(l: ReportLine)
    ensures var tag := if l.status == "Down" then "<tr>" else "<tr class='rowred'>";
      && StartsWith(HtmlRow(l), tag)
      && HtmlRow(l)[|tag|..] == "<td> " + l.descr + " <td> " + l.status + " <td> " + l.duration + " "
  {
  }

  /** The first `n` rows as report lines. */
  function Lines(a: Answers, up: Ticks, n: nat): seq<ReportLine>
    requires n <= RowCount(a)
    decreases n
  {
    if n == 0 then [] else Lines(a, up, n - 1) + [LineAt(a, up, n - 1)]
  }

  /** One report line per row, in index order, line `i` built from the i-th
      element of every table. */
  lemma {:induction false} LinesAt(a: Answers, up: Ticks, n: nat)
    requires n <= RowCount(a)
    ensures |Lines(a, up, n)| == n
    ensures forall i :: 0 <= i < n ==> Lines(a, up, n)[i] == LineAt(a, up, i)
    decreases n
  {
    if n > 0 {
      LinesAt(a, up, n - 1);
      var prev, last := Lines(a, up, n - 1), LineAt(a, up, n - 1);
      assert Lines(a, up, n) == prev + [last];
      forall i | 0 <= i < n
        ensures Lines(a, up, n)[i] == LineAt(a, up, i)
      {
        if i < n - 1 {
          assert (prev + [last])[i] == prev[i];
        }
      }
    }
  }

  /** What a renderer emits for a list of report lines, in order. */
  function RenderAll(o: Output, ls: seq<ReportLine>): seq<string>
    decreases |ls|
  {
    if ls == [] then [] else RenderAll(o, ls[..|ls| - 1]) + [Render(o, ls[|ls| - 1])]
  }

  lemma RenderAllSnoc(o: Output, ls: seq<ReportLine>, l: ReportLine)
    ensures RenderAll(o, ls + [l]) == RenderAll(o, ls) + [Render(o, l)]
  {
    assert (ls + [l])[..|ls|] == ls;
  }

  /** One rendered line per report line, each rendered on its own. */
  lemma {:induction false} RenderAllAt(o: Output, ls: seq<ReportLine>)
    ensures |RenderAll(o, ls)| == |ls|
    ensures forall i :: 0 <= i < |ls| ==> RenderAll(o, ls)[i] == Render(o, ls[i])
    decreases |ls|
  {
    if ls != [] {
      var init := ls[..|ls| - 1];
      RenderAllAt(o, init);
      forall i | 0 <= i < |ls| - 1
        ensures RenderAll(o, ls)[i] == Render(o, ls[i])
      {
        assert RenderAll(o, ls)[i] == RenderAll(o, init)[i];
      }
    }
  }

  /** The first `n` rows as rendered for `o`. */
  function RowLines(o: Output, a: Answers, up: Ticks, n: nat): seq<string>
    requires n <= RowCount(a)
  {
    RenderAll(o, Lines(a, up, n))
  }

  /** Each renderer emits exactly one line per interface, in index order, line
      `i` built from the i-th description, status and last-change. */
  lemma RowLinesAt(o: Output, a: Answers, up: Ticks, n: nat)
    requires n <= RowCount(a)
    ensures |RowLines(o, a, up, n)| == n
    ensures forall i :: 0 <= i < n ==> RowLines(o, a, up, n)[i] == Render(o, LineAt(a, up, i))
  {
    LinesAt(a, up, n);
    RenderAllAt(o, Lines(a, up, n));
  }

  /** The `for i in range(len(ifIndexRes))` loop shared by the three renderers.
      It stops with an `IndexError` (`complete` false) at the first row for
      which the description, status or last-change table has no element. */
  method RenderRows(o: Output, a: Answers, up: Ticks) returns (lines: seq<string>, complete: bool)
    ensures complete <==> |a.ifIndex| <= |a.ifDescr| && |a.ifIndex| <= |a.ifOperStatus|
                          && |a.ifIndex| <= |a.ifLastChange|
    ensures lines == RowLines(o, a, up, RowCount(a))
  {
    lines := [];
    var i := 0;
    ghost var done: seq<ReportLine> := [];
    while i < |a.ifIndex|
      invariant 0 <= i <= RowCount(a)
      invariant done == Lines(a, up, i)
      invariant lines == RenderAll(o, done)
    {
      if i >= |a.ifOperStatus| || i >= |a.ifLastChange| || i >= |a.ifDescr| {
        assert i == RowCount(a);
        return lines, false;
      }
      // getPortStatus of the i-th status and convertTimeTickToReadable of
      // sysUpTime - ifLastChange[i]
      var line := LineAt(a, up, i);
      assert Lines(a, up, i + 1) == done + [line];
      RenderAllSnoc(o, done, line);
      lines := lines + [Render(o, line)];
      done := done + [line];
      i := i + 1;
    }
    assert i == RowCount(a);
    complete := true;
  }

  // ---------------------------------------------------------------- diagnostics

  /** `hostCheckLinuxOS`, with the outcome of the ping passed in. */
  function PingMessage(l: SrMain.Launch, answered: bool): string
  {
    if answered then
      "\n" + "            ERROR: Ping test to " + l.ip + " successful." + "\n"
      + "\n"
      + "            Are SNMP Settings correct?" + "\n"
      + "            - SNMP Community String: " + l.community + "\n"
      + "            - SNMP Version: " + FormatInt(l.version) + "\n"
      + "            "
    else
      "ERROR: Ping test to " + l.ip + " failed, Host unreachable."
  }

  /** The ping message reads back line by line: an answered ping gives the
      address, the community string and the version on lines of their own; an
      unanswered one is a single line. Whether the host answered is visible
      from the first character. */
  lemma PingMessageLines(l: SrMain.Launch, answered: bool)
    requires '\n' !in l.ip && '\n' !in l.community
    ensures var m := PingMessage(l, answered);
      && (StartsWith(m, "\n") <==> answered)
      && (answered ==>
            Split(m, '\n') ==
            ["", "            ERROR: Ping test to " + l.ip + " successful.", "",
             "            Are SNMP Settings correct?",
             "            - SNMP Community String: " + l.community,
             "            - SNMP Version: " + FormatInt(l.version), "            "])
      && (!answered ==> Split(m, '\n') == [m])
  {
    if answered {
      AnsweredPingLines(l);
    } else {
      UnansweredPingLine(l);
    }
  }

  /** The answered ping message, line by line. */
  lemma AnsweredPingLines(l: SrMain.Launch)
    requires '\n' !in l.ip && '\n' !in l.community
    ensures PingMessage(l, true)[0] == '\n'
    ensures Split(PingMessage(l, true), '\n') ==
            ["", "            ERROR: Ping test to " + l.ip + " successful.", "",
             "            Are SNMP Settings correct?",
             "            - SNMP Community String: " + l.community,
             "            - SNMP Version: " + FormatInt(l.version), "            "]
  {
    FormatIntChars(l.version);
    PingHeadIsOneLine();
    PingQuestionIsOneLine();
    PingSettingsAreOneLine();
    PromptLines("            ERROR: Ping test to ", l.ip, " successful.", "            Are SNMP Settings correct?",
                "            - SNMP Community String: ", l.community, "            - SNMP Version: ",
                FormatInt(l.version), "            ", '\n');
  }

  /** The fixed text of the answered ping message holds no line break of its
      own (three lemmas, to keep each character-by-character check small). */
  lemma PingHeadIsOneLine()
    ensures '\n' !in "            ERROR: Ping test to " && '\n' !in " successful."
  {
  }

  lemma PingQuestionIsOneLine()
    ensures '\n' !in "            Are SNMP Settings correct?" && '\n' !in "            "
  {
  }

  lemma PingSettingsAreOneLine()
    ensures '\n' !in "            - SNMP Community String: " && '\n' !in "            - SNMP Version: "
  {
  }

  /** The unanswered ping message is a single line. */
  lemma UnansweredPingLine(l: SrMain.Launch)
    requires '\n' !in l.ip
    ensures PingMessage(l, false)[0] == 'E'
    ensures Split(PingMessage(l, false), '\n') == [PingMessage(l, false)]
  {
    var m := PingMessage(l, false);
    assert m[0] == 'E';
    SplitWithoutSep(m, '\n');
  }

  /** The shape of the answered ping message: a separator, a line naming the
      host, an empty line, a question and two labelled settings, each closed
      by the separator, and an unterminated indent. */
  lemma PromptLines(h1: string, host: string, h2: string, q: string, c1: string, co: string,
                    v1: string, ver: string, tail: string, sep: char)
    requires sep !in h1 && sep !in host && sep !in h2 && sep !in q && sep !in c1 && sep !in co
    requires sep !in v1 && sep !in ver && sep !in tail
    ensures Split([sep] + h1 + host + h2 + [sep] + [sep] + q + [sep] + c1 + co + [sep] + v1 + ver + [sep] + tail, sep)
         == ["", h1 + host + h2, "", q, c1 + co, v1 + ver, tail]
  {
    var s0 := [sep];
    assert Split(s0, sep) == [""] + [""] by {
      assert s0 == [] + [sep] + [];
      SplitAppend([], [], sep);
    }
    var s1 := s0 + h1 + host + h2 + [sep];
    SplitNextLine(s0, [""], h1, host, h2, sep);
    var s2 := s1 + [sep];
    assert s2 == s1 + [] + [] + [] + [sep];
    SplitNextLine(s1, ["", h1 + host + h2], [], [], [], sep);
    assert Split(s2, sep) == ["", h1 + host + h2, ""] + [""] by {
      var e: string := [];
      assert e + e + e == "";
    }
    var s3 := s2 + q + [sep];
    assert s3 == s2 + q + [] + [] + [sep];
    assert q + [] + [] == q;
    SplitNextLine(s2, ["", h1 + host + h2, ""], q, [], [], sep);
    var s4 := s3 + c1 + co + [sep];
    assert s4 == s3 + c1 + co + [] + [sep];
    assert c1 + co + [] == c1 + co;
    SplitNextLine(s3, ["", h1 + host + h2, "", q], c1, co, [], sep);
    var s5 := s4 + v1 + ver + [sep];
    assert s5 == s4 + v1 + ver + [] + [sep];
    assert v1 + ver + [] == v1 + ver;
    var done := ["", h1 + host + h2, "", q, c1 + co, v1 + ver];
    SplitNextLine(s4, done[..5], v1, ver, [], sep);
    SplitExtend(s5, tail, sep);
    assert Split(s5 + tail, sep) == done + ["" + tail];
    assert "" + tail == tail;
  }

  /** What the constructor prints after catching an `IndexError`. */
  function PingDiagnostic(l: SrMain.Launch, h: Host): seq<string>
  {
    [PINGING, PingMessage(l, h.pingAnswers)]
  }

  // ---------------------------------------------------------------- the run

  /** `getSNMPinterfacePortLastUse(sysUpTime, systemName, sysUpTimeString)`:
      the console lines and, for the two file types, the report file.
      `raised` is the `IndexError` of a row loop that ran past the end of the
      description, status or last-change table. */
  method PortLastUse(l: SrMain.Launch, a: Answers, h: Host, name: string, up: Ticks)
    returns (console: seq<string>, file: Option<ReportFile>, raised: bool)
    ensures var info := DeviceInfo(l.ip, name, DurationText(up), h.ctime);
      var o := Dispatch(l.output);
      var rows := RowLines(o, a, up, RowCount(a));
      var path := ReportPath(o, h.stamp, l.ip, name);
      && (raised <==> RowCount(a) < |a.ifIndex| && (o == ConsoleOut || h.fileOpens))
      && (file.Some? <==> o != ConsoleOut && h.fileOpens)
      && (o == ConsoleOut ==> console == ConsolePreamble(info) + rows)
      && (o != ConsoleOut && !h.fileOpens ==>
            console == [if o == TextOut then COMPILING_TEXT else COMPILING_HTML, FILE_ERROR])
      && (o != ConsoleOut && h.fileOpens ==>
            && console == [if o == TextOut then COMPILING_TEXT else COMPILING_HTML]
                          + (if raised then [] else [GENERATED + path])
            && file.value.path == path)
      && (o == TextOut && h.fileOpens ==> file.value.chunks == TextPreamble(info) + rows)
      && (o == HtmlOut && h.fileOpens ==>
            file.value.chunks == HtmlPreamble(HtmlBlurb(l.ip, name, DurationText(up), h.ctimeHtml)) + rows)
  {
    file := None;
    raised := false;
    var sysUpTimeString := DurationText(up);
    var info := DeviceInfo(l.ip, name, sysUpTimeString, h.ctime);
    var o := Dispatch(l.output);
    if o == TextOut || o == HtmlOut {
      console := [if o == TextOut then COMPILING_TEXT else COMPILING_HTML];
      var fullPath := ReportPath(o, h.stamp, l.ip, name);
      if !h.fileOpens {
        console := console + [FILE_ERROR];
      } else {
        var preamble := if o == TextOut then TextPreamble(info)
                        else HtmlPreamble(HtmlBlurb(l.ip, name, sysUpTimeString, h.ctimeHtml));
        var rows, complete := RenderRows(o, a, up);
        file := Some(ReportFile(fullPath, preamble + rows));
        if complete {
          console := console + [GENERATED + fullPath];
        } else {
          raised := true;
        }
      }
    } else {
      console := ConsolePreamble(info);
      var rows, complete := RenderRows(o, a, up);
      console := console + rows;
      raised := !complete;
    }
  }

  /** The `switchReport` constructor: the queries, the report, and the ping
      diagnostic for an `IndexError`, which a missing sysName or sysUpTime
      answer raises as well as a short interface table. */
  method RunReport(l: SrMain.Launch, a: Answers, h: Host) returns (console: seq<string>, file: Option<ReportFile>)
    ensures |a.sysName| == 0 || |a.sysUpTime| == 0 ==>
      console == [PERFORMING] + PingDiagnostic(l, h) && file == None
    ensures |a.sysName| > 0 && |a.sysUpTime| > 0 ==>
      var name, up := a.sysName[0], a.sysUpTime[0];
      var info := DeviceInfo(l.ip, name, DurationText(up), h.ctime);
      var o := Dispatch(l.output);
      var rows := RowLines(o, a, up, RowCount(a));
      var tail := if RowCount(a) == |a.ifIndex| then [] else PingDiagnostic(l, h);
      var path := ReportPath(o, h.stamp, l.ip, name);
      && (file.Some? <==> o != ConsoleOut && h.fileOpens)
      && (o == ConsoleOut ==> console == [PERFORMING] + (ConsolePreamble(info) + rows) + tail)
      && (o != ConsoleOut && !h.fileOpens ==>
            console == [PERFORMING, if o == TextOut then COMPILING_TEXT else COMPILING_HTML, FILE_ERROR])
      && (o != ConsoleOut && h.fileOpens ==>
            && console == [PERFORMING]
                          + ([if o == TextOut then COMPILING_TEXT else COMPILING_HTML]
                             + (if tail == [] then [GENERATED + path] else []))
                          + tail
            && file.value.path == path)
      && (o == TextOut && h.fileOpens ==> file.value.chunks == TextPreamble(info) + rows)
      && (o == HtmlOut && h.fileOpens ==>
            file.value.chunks == HtmlPreamble(HtmlBlurb(l.ip, name, DurationText(up), h.ctimeHtml)) + rows)
  {
    console := [PERFORMING];
    file := None;
    if |a.sysName| == 0 || |a.sysUpTime| == 0 {
      console := console + PingDiagnostic(l, h);
      return;
    }
    var systemName := a.sysName[0];
    var sysUpTime := a.sysUpTime[0];
    var printed, raised;
    printed, file, raised := PortLastUse(l, a, h, systemName, sysUpTime);
    console := console + printed + (if raised then PingDiagnostic(l, h) else []);
    ghost var o := Dispatch(l.output);
    assert o == ConsoleOut || h.fileOpens ==>
      (if raised then PingDiagnostic(l, h) else []) == (if RowCount(a) == |a.ifIndex| then [] else PingDiagnostic(l, h));
  }

  // ---------------------------------------------------------------- properties

  /** An HTML row is marked `rowred` exactly when the interface is not "Down",
      that is, exactly when its ifOperStatus code is not 2. */
  lemma RowRedIffNotDown(a: Answers, up: Ticks, i: nat)
    requires i < RowCount(a)
    ensures StartsWith(Render(HtmlOut, LineAt(a, up, i)), "<tr class='rowred'>") <==> a.ifOperStatus[i] != 2
    ensures StartsWith(Render(HtmlOut, LineAt(a, up, i)), "<tr><td> ") <==> a.ifOperStatus[i] == 2
  {
    var l := LineAt(a, up, i);
    assert l.status == PortStatus(a.ifOperStatus[i]);
    RowTag(l);
  }

  /** The tag of an HTML row depends on the status label alone. */
  lemma RowTag(l: ReportLine)
    ensures StartsWith(HtmlRow(l), "<tr class='rowred'>") <==> l.status != "Down"
    ensures StartsWith(HtmlRow(l), "<tr><td> ") <==> l.status == "Down"
  {
    var row := HtmlRow(l);
    if l.status == "Down" {
      assert row[3] == '>';
      assert "<tr class='rowred'>"[3] == ' ';
    } else {
      assert row[3] == ' ';
      assert "<tr><td> "[3] == '>';
    }
  }

  /** Mixed case passes the output check but is not dispatched to a file:
      "TEXT" is accepted by `validateMe` and rendered on the console. */
  lemma MixedCaseGoesToConsole()
    ensures ValidateOutputType("TEXT") == None
    ensures Dispatch("TEXT") == ConsoleOut
  {
    assert Lower("TEXT") == "text";
  }

  /** `print` adds a newline to every line. */
  function Printed(lines: seq<string>): string
    decreases |lines|
  {
    if lines == [] then "" else Printed(lines[..|lines| - 1]) + lines[|lines| - 1] + "\n"
  }

  /** The text of a file written chunk by chunk. */
  function Written(chunks: seq<string>): string
    decreases |chunks|
  {
    if chunks == [] then "" else Written(chunks[..|chunks| - 1]) + chunks[|chunks| - 1]
  }

  lemma AppendSnoc(p: seq<string>, r: seq<string>, x: string)
    ensures p + (r + [x]) == (p + r) + [x]
  {
  }

  lemma PrintedSnoc(lines: seq<string>, x: string)
    ensures Printed(lines + [x]) == Printed(lines) + x + "\n"
  {
    assert (lines + [x])[..|lines|] == lines;
  }

  lemma WrittenSnoc(chunks: seq<string>, x: string)
    ensures Written(chunks + [x]) == Written(chunks) + x
  {
    assert (chunks + [x])[..|chunks|] == chunks;
  }

  /** Before the rows, the text file and the console agree. */
  lemma PreamblesMatch(info: string)
    ensures Printed(ConsolePreamble(info)[1..]) == Written(TextPreamble(info)) + "\n"
  {
    assert ConsolePreamble(info)[1..] == [] + [DOC_HEADER] + [info] + [DOC_COLUMNHEADER];
    PrintedSnoc([], DOC_HEADER);
    PrintedSnoc([] + [DOC_HEADER], info);
    PrintedSnoc([] + [DOC_HEADER] + [info], DOC_COLUMNHEADER);
    assert TextPreamble(info) == [] + [DOC_HEADER] + ["\n"] + [info] + ["\n"] + [DOC_COLUMNHEADER];
    WrittenSnoc([], DOC_HEADER);
    WrittenSnoc([] + [DOC_HEADER], "\n");
    WrittenSnoc([] + [DOC_HEADER] + ["\n"], info);
    WrittenSnoc([] + [DOC_HEADER] + ["\n"] + [info], "\n");
    WrittenSnoc([] + [DOC_HEADER] + ["\n"] + [info] + ["\n"], DOC_COLUMNHEADER);
  }

  /** One more row keeps the console and the text file in step. */
  lemma RowMatches(console: seq<string>, text: seq<string>, l: ReportLine)
    requires Printed(console) == Written(text) + "\n"
    ensures Printed(console + [Render(ConsoleOut, l)]) == Written(text + [Render(TextOut, l)]) + "\n"
  {
    PrintedSnoc(console, Render(ConsoleOut, l));
    WrittenSnoc(text, Render(TextOut, l));
  }

  /** Rows keep the console and the text file in step. */
  lemma {:induction false} RowsMatch(console: seq<string>, text: seq<string>, ls: seq<ReportLine>)
    requires Printed(console) == Written(text) + "\n"
    ensures Printed(console + RenderAll(ConsoleOut, ls)) == Written(text + RenderAll(TextOut, ls)) + "\n"
    decreases |ls|
  {
    if ls == [] {
      assert console + RenderAll(ConsoleOut, ls) == console;
      assert text + RenderAll(TextOut, ls) == text;
    } else {
      var init, l := ls[..|ls| - 1], ls[|ls| - 1];
      assert ls == init + [l];
      RowsMatch(console, text, init);
      var rc, rt := RenderAll(ConsoleOut, init), RenderAll(TextOut, init);
      var xc, xt := Render(ConsoleOut, l), Render(TextOut, l);
      RenderAllSnoc(ConsoleOut, init, l);
      RenderAllSnoc(TextOut, init, l);
      AppendSnoc(console, rc, xc);
      AppendSnoc(text, rt, xt);
      RowMatches(console + rc, text + rt, l);
    }
  }

  /** The text file holds what the console report prints after its "Compiling"
      line, except for the final newline: the same header, device block, column
      header and rows. */
  lemma TextFileMatchesConsole(info: string, ls: seq<ReportLine>)
    ensures Printed(ConsolePreamble(info)[1..] + RenderAll(ConsoleOut, ls))
            == Written(TextPreamble(info) + RenderAll(TextOut, ls)) + "\n"
  {
    PreamblesMatch(info);
    RowsMatch(ConsolePreamble(info)[1..], TextPreamble(info), ls);
  }
}
