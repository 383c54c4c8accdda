/** The rag-engine command line (rag-engine/rag_engine/cli.py): reading messages from a
    file and assembling the `ingest` subcommand's call. File reading, `json.loads`, printing
    and the pipeline itself are passed in or left to the caller. */
module EngineCli {
  import opened Outcomes
  import opened Seqs
  import opened Text
  import opened JsonValues

  const NoMessages := "No messages provided. Use --msg or --from-file."
  const DefaultSource := "cli"

  /** The decimal digit for `d`. */
  function DigitChar(d: nat): (c: char)
    requires d < 10
    ensures '0' <= c <= '9' && c as int - '0' as int == d
  {
    "0123456789"[d]
  }

  predicate IsDigit(c: char) {
    '0' <= c <= '9'
  }

  /** The number a string of decimal digits denotes, most significant digit first. */
  function DecimalValue(s: string): nat
    requires forall i :: 0 <= i < |s| ==> IsDigit(s[i])
  {
    if s == [] then 0
    else
      var last := s[|s| - 1];
      assert IsDigit(last);
      DecimalValue(s[..|s| - 1]) * 10 + (last as int - '0' as int)
  }

  /** Python `str(n)` for a non-negative integer: decimal digits only, and no leading zero
      unless the number is zero itself. */
  function NatToDecimal(n: nat): (r: string)
    ensures r != []
    ensures forall i :: 0 <= i < |r| ==> IsDigit(r[i])
    ensures r[0] == '0' <==> n == 0
    ensures n == 0 ==> r == "0"
    decreases n
  {
    if n < 10 then [DigitChar(n)] else NatToDecimal(n / 10) + [DigitChar(n % 10)]
  }

  /** Reading the digits back gives the number: `int(str(n)) == n`. */
  lemma {:induction false} NatToDecimalValue(n: nat)
    ensures DecimalValue(NatToDecimal(n)) == n
    decreases n
  {
    var r := NatToDecimal(n);
    if n >= 10 {
      NatToDecimalValue(n / 10);
      assert r[..|r| - 1] == NatToDecimal(n / 10);
    }
  }

  /** Python `str(x)` for a value `json.loads` produced; nested lists and dicts print
      through `repr`, which is passed in. */
  function PyStr(x: Json, reprOf: Json -> string): (r: string)
    ensures x.JString? ==> r == x.s
    ensures x.JNull? ==> r == "None"
    ensures x.JBool? ==> r == (if x.b then "True" else "False")
    ensures x.JNumber? && x.n >= 0 ==> r == NatToDecimal(x.n) && DecimalValue(r) == x.n
    ensures x.JNumber? && x.n < 0 ==> r == "-" + NatToDecimal(-x.n) && DecimalValue(r[1..]) == -x.n
    ensures x.JArray? || x.JObject? ==> r == reprOf(x)
  {
    match x
    case JString(s) => s
    case JNull => "None"
    case JBool(b) => if b then "True" else "False"
    case JNumber(n) =>
      NatToDecimalValue(if n < 0 then -n else n);
      if n < 0 then "-" + NatToDecimal(-n) else NatToDecimal(n)
    case _ => reprOf(x)
  }

  /** The fallback of `_read_messages_from_file`: the file's lines, stripped, blank ones
      dropped. */
  function FileLines(data: string): (r: seq<string>)
    ensures forall i :: 0 <= i < |r| ==> r[i] != "" && Strip(r[i], IsPySpace) == r[i]
    ensures forall i, j :: 0 <= i < |r| && 0 <= j < |r[i]| ==> !IsPyLineBreak(r[i][j])
  {
    var lines := CleanLines(SplitLines(data), IsPySpace);
    CleanLinesStripped(SplitLines(data), IsPySpace);
    forall i | 0 <= i < |lines|
      ensures forall j :: 0 <= j < |lines[i]| ==> !IsPyLineBreak(lines[i][j])
    {
      CleanLinesNoBreaks(SplitLines(data), i);
    }
    lines
  }

  /** `_read_messages_from_file` on the file's text: `str(x)` of each element of a JSON
      list, otherwise the stripped non-blank lines. */
  function ReadMessagesFromFile(data: string, loads: string -> Option<Json>, reprOf: Json -> string): (r: seq<string>)
    ensures loads(data).Some? && loads(data).value.JArray? ==>
      |r| == |loads(data).value.items| &&
      forall i :: 0 <= i < |r| ==> r[i] == PyStr(loads(data).value.items[i], reprOf)
    ensures !(loads(data).Some? && loads(data).value.JArray?) ==> r == FileLines(data)
  {
    match loads(data)
    case Some(JArray(items)) => Map(items, (x: Json) => PyStr(x, reprOf))
    case _ => FileLines(data)
  }

  /** A line ended by a single break character contributes its stripped self, if not blank,
      ahead of the lines of the rest of the file. */
  lemma FileLinesAt(a: string, c: char, b: string)
    requires forall j :: 0 <= j < |a| ==> !IsPyLineBreak(a[j])
    requires IsPyLineBreak(c) && !(c == '\r' && b != [] && b[0] == '\n')
    ensures FileLines(a + [c] + b) == CleanLines([a], IsPySpace) + FileLines(b)
  {
    SplitLinesAt(a, c, b);
    CleanLinesAppend([a], SplitLines(b), IsPySpace);
  }

  /** The same for a line ended by "\r\n", which counts as one break. */
  lemma FileLinesAtCRLF(a: string, b: string)
    requires forall j :: 0 <= j < |a| ==> !IsPyLineBreak(a[j])
    ensures FileLines(a + "\r\n" + b) == CleanLines([a], IsPySpace) + FileLines(b)
  {
    SplitLinesAtCRLF(a, b);
    CleanLinesAppend([a], SplitLines(b), IsPySpace);
  }

  /** A last line without a break: its stripped self, or nothing when it is blank. */
  lemma FileLinesLast(a: string)
    requires forall j :: 0 <= j < |a| ==> !IsPyLineBreak(a[j])
    ensures FileLines(a) == CleanLines([a], IsPySpace)
  {
    SplitLinesLast(a);
    if a == [] {
      CleanLinesOne(a, IsPySpace);
    }
  }

  /** Stripping and dropping blank lines brings in no line boundary. */
  lemma CleanLinesNoBreaks(xs: seq<string>, i: nat)
    requires forall k, j :: 0 <= k < |xs| && 0 <= j < |xs[k]| ==> !IsPyLineBreak(xs[k][j])
    requires i < |CleanLines(xs, IsPySpace)|
    ensures forall j :: 0 <= j < |CleanLines(xs, IsPySpace)[i]| ==> !IsPyLineBreak(CleanLines(xs, IsPySpace)[i][j])
  {
    var stripped := Map(xs, (x: string) => Strip(x, IsPySpace));
    var line := CleanLines(xs, IsPySpace)[i];
    assert line in stripped;
    var k :| 0 <= k < |xs| && stripped[k] == line;
    var a := StripIsInfix(xs[k], IsPySpace);
    forall j | 0 <= j < |line| ensures !IsPyLineBreak(line[j]) {
      assert line[j] == xs[k][a + j];
    }
  }

  /** A JSON list of strings is taken as it is: same length, same order, empty strings kept. */
  lemma JsonListOfStrings(data: string, loads: string -> Option<Json>, reprOf: Json -> string, msgs: seq<string>)
    requires loads(data) == Some(JArray(Map(msgs, (m: string) => JString(m))))
    ensures ReadMessagesFromFile(data, loads, reprOf) == msgs
  {
  }

  /** Stripped non-blank lines written one per line are read back as the same messages when
      the text is not a JSON list. */
  lemma LinesRoundTrip(lines: seq<string>, loads: string -> Option<Json>, reprOf: Json -> string)
    requires forall i :: 0 <= i < |lines| ==>
      lines[i] != [] && !IsPySpace(lines[i][0]) && !IsPySpace(lines[i][|lines[i]| - 1])
    requires forall i, j :: 0 <= i < |lines| && 0 <= j < |lines[i]| ==> !IsPyLineBreak(lines[i][j])
    requires !(loads(Join(lines, "\n")).Some? && loads(Join(lines, "\n")).value.JArray?)
    ensures ReadMessagesFromFile(Join(lines, "\n"), loads, reprOf) == lines
  {
    SplitLinesJoin(lines);
    CleanLinesFixed(lines, IsPySpace);
  }

  /** How the `ingest` subcommand ends: exit status 1 before anything is ingested, or a call
      of the pipeline with these messages and metadata `{"source": source}`. */
  datatype CliOutcome = ExitWith(code: int, message: string) | RunIngest(messages: seq<string>, source: string)

  /** `args.source or "cli"`. */
  function SourceTag(source: Option<string>): (r: string)
    ensures r != ""
    ensures source.Some? && source.value != "" ==> r == source.value
    ensures source.None? || source.value == "" ==> r == "cli"
  {
    if source.Some? && source.value != "" then source.value else DefaultSource
  }

  /** The messages the `--from-file` option contributes; `readFile` gives a file's text. */
  function FileMessages(fromFile: Option<string>, readFile: string -> string,
                        loads: string -> Option<Json>, reprOf: Json -> string): (r: seq<string>)
    ensures fromFile.None? || fromFile.value == "" ==> r == []
    ensures fromFile.Some? && fromFile.value != "" ==> r == ReadMessagesFromFile(readFile(fromFile.value), loads, reprOf)
  {
    if fromFile.Some? && fromFile.value != "" then ReadMessagesFromFile(readFile(fromFile.value), loads, reprOf) else []
  }

  /** `_cmd_ingest`: file messages first, then every `--msg`, in order; no message at all
      exits with status 1 and the pipeline is not called. */
  method CmdIngest(fromFile: Option<string>, msg: Option<seq<string>>, source: Option<string>,
                   readFile: string -> string, loads: string -> Option<Json>, reprOf: Json -> string)
    returns (out: CliOutcome)
    ensures out.ExitWith? <==> FileMessages(fromFile, readFile, loads, reprOf) == [] && (msg.None? || msg.value == [])
    ensures out.ExitWith? ==> out.code == 1
    ensures out.RunIngest? ==> out.messages == FileMessages(fromFile, readFile, loads, reprOf) + (if msg.Some? then msg.value else [])
    ensures out.RunIngest? ==> out.source == SourceTag(source)
  {
    var messages: seq<string> := [];
    if fromFile.Some? && fromFile.value != "" {
      messages := messages + ReadMessagesFromFile(readFile(fromFile.value), loads, reprOf);
    }
    assert messages == FileMessages(fromFile, readFile, loads, reprOf);
    if msg.Some? && msg.value != [] {
      messages := messages + msg.value;
    }
    assert messages == FileMessages(fromFile, readFile, loads, reprOf) + (if msg.Some? then msg.value else []);
    if messages == [] {
      return ExitWith(1, NoMessages);
    }
    out := RunIngest(messages, SourceTag(source));
  }
}
