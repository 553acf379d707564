/** The application event log: one tab-separated line of text per measurement. */
module ApplicationLog {
  import opened Bytes
  import opened EventLog
  import opened EventParser
  import opened Text

  const APP_EVENT_TYPE_ID := "0x90000001"
  const APP_EVENT_NAME := "APPLICATION_AGENT_MEASUREMENT"

  // ----- lines -----

  /** bufio.Scanner gives up, silently, on a line this long. */
  const MAX_LINE := 65536

  function LineEnd(text: string): (i: nat)
    ensures i <= |text| && (i < |text| ==> text[i] == '\n') && forall j :: 0 <= j < i ==> text[j] != '\n'
  {
    if text == "" || text[0] == '\n' then 0 else 1 + LineEnd(text[1..])
  }

  function DropCR(line: string): string {
    if line != "" && line[|line| - 1] == '\r' then line[..|line| - 1] else line
  }

  function Lines(text: string): seq<string>
    decreases |text|
  {
    if text == "" then [] else
    var i := LineEnd(text);
    if i >= MAX_LINE then []
    else [DropCR(text[..i])] + if i < |text| then Lines(text[i + 1..]) else []
  }

  // ----- one line -----

  datatype LineResult = LineEntry(entry: Entry) | LineError | LinePanic

  function EntryFor(bank: string, index: nat, tag: string, measurement: string): Entry {
    Entry(PcrData(index, bank), TpmEvent(APP_EVENT_TYPE_ID, APP_EVENT_NAME, [tag], measurement))
  }

  /** Fields are indexed without a length check, the number between the accesses to fields 1 and 2. */
  function ParseLine(line: string): LineResult {
    var fields := Split(line, '\t');
    if |fields| < 2 then LinePanic else
    match Atoi(fields[1])
    case None => LineError
    case Some(index) =>
      if |fields| < 4 then LinePanic
      else LineEntry(EntryFor(fields[0], index % 0x1_0000_0000, fields[2], fields[3]))
  }

  function ParseLines(lines: seq<string>, logs: seq<PcrEventLog>): Outcome {
    if lines == [] then Parsed(logs) else
    match ParseLine(lines[0])
    case LinePanic => Panic
    case LineError => ReadError
    case LineEntry(e) => ParseLines(lines[1..], Insert(logs, e))
  }

  /** The scanner loop, with the same search for a matching group as the binary parser. */
  method GetEventLogs(text: string) returns (out: Outcome)
    ensures out == ParseLines(Lines(text), [])
  {
    var rest, logs := text, [];
    while rest != ""
      invariant ParseLines(Lines(rest), logs) == ParseLines(Lines(text), [])
      decreases |rest|
    {
      var i := LineEnd(rest);
      if i >= MAX_LINE { return Parsed(logs); }
      var line := DropCR(rest[..i]);
      ghost var after := if i < |rest| then Lines(rest[i + 1..]) else [];
      assert Lines(rest) == [line] + after;
      assert Lines(rest)[0] == line && Lines(rest)[1..] == after;
      var r := ParseLine(line);
      if r == LinePanic { return Panic; }
      if r == LineError { return ReadError; }
      logs := AddEntry(logs, r.entry);
      rest := if i < |rest| then rest[i + 1..] else "";
    }
    return Parsed(logs);
  }

  /** Every text that parses is grouped by InsertAll, one entry per line, in order. */
  lemma {:induction false} ParseLinesInserts(lines: seq<string>, logs: seq<PcrEventLog>) returns (es: seq<Entry>)
    requires ParseLines(lines, logs).Parsed?
    ensures |es| == |lines| && forall i :: 0 <= i < |lines| ==> ParseLine(lines[i]) == LineEntry(es[i])
    ensures ParseLines(lines, logs) == Parsed(InsertAll(logs, es))
  {
    hide ParseLine, Insert;
    if lines == [] { return []; }
    var e := ParseLine(lines[0]).entry;
    var more := ParseLinesInserts(lines[1..], Insert(logs, e));
    es := [e] + more;
    InsertAllConcat(logs, [e], more);
    assert [e][..0] == [];
  }

  // ----- writing and reading back -----

  /** What a log line records. */
  datatype LogLine = LogLine(bank: string, index: nat, tag: string, measurement: string)

  function Render(l: LogLine): string {
    Join([l.bank, Decimal(l.index), l.tag, l.measurement], '\t')
  }

  function RenderAll(ls: seq<LogLine>): string {
    if ls == [] then "" else RenderAll(ls[..|ls| - 1]) + Render(ls[|ls| - 1]) + "\n"
  }

  function EntriesOf(ls: seq<LogLine>): (es: seq<Entry>)
    ensures |es| == |ls|
  {
    seq(|ls|, i requires 0 <= i < |ls| => EntryFor(ls[i].bank, ls[i].index, ls[i].tag, ls[i].measurement))
  }

  ghost predicate CleanText(s: string) {
    '\t' !in s && '\n' !in s
  }

  /** Separator-free fields, and no trailing carriage return. */
  ghost predicate Clean(l: LogLine) {
    && CleanText(l.bank) && CleanText(l.tag) && CleanText(l.measurement)
    && (l.measurement == "" || l.measurement[|l.measurement| - 1] != '\r')
    && l.index < 0x1_0000_0000
  }

  predicate TooLong(l: LogLine) {
    |Render(l)| >= MAX_LINE
  }

  /** A line the reader gets back. */
  ghost predicate Readable(l: LogLine) {
    Clean(l) && !TooLong(l)
  }

  ghost predicate AllFit(ls: seq<LogLine>) {
    forall i :: 0 <= i < |ls| ==> !TooLong(ls[i])
  }

  ghost predicate AllClean(ls: seq<LogLine>) {
    forall i :: 0 <= i < |ls| ==> Clean(ls[i])
  }

  ghost predicate AllReadable(ls: seq<LogLine>) {
    forall i :: 0 <= i < |ls| ==> Readable(ls[i])
  }

  lemma DecimalIsClean(n: nat)
    ensures CleanText(Decimal(n))
  {
    forall c | c in Decimal(n) ensures IsDigit(c) {
      var i :| 0 <= i < |Decimal(n)| && Decimal(n)[i] == c;
    }
  }

  lemma RenderShape(l: LogLine)
    ensures Render(l) == l.bank + "\t" + (Decimal(l.index) + "\t" + (l.tag + "\t" + l.measurement))
  {
    hide Decimal;
    var d := Decimal(l.index);
    var f := [l.bank, d, l.tag, l.measurement];
    assert f[1..] == [d, l.tag, l.measurement] && f[1..][1..] == [l.tag, l.measurement] && f[1..][1..][1..] == [l.measurement];
    assert Join([l.measurement], '\t') == l.measurement;
    assert Join([l.tag, l.measurement], '\t') == l.tag + "\t" + l.measurement;
    assert Join([d, l.tag, l.measurement], '\t') == d + "\t" + (l.tag + "\t" + l.measurement);
  }

  lemma ParseRendered(l: LogLine)
    requires Clean(l)
    ensures '\n' !in Render(l) && DropCR(Render(l)) == Render(l)
    ensures ParseLine(Render(l)) == LineEntry(EntryFor(l.bank, l.index, l.tag, l.measurement))
  {
    hide Decimal, Join, Split;
    RenderShape(l);
    DecimalIsClean(l.index);
    AtoiDecimal(l.index);
    var f := [l.bank, Decimal(l.index), l.tag, l.measurement];
    SplitJoin(f, '\t');
    assert l.measurement == "" ==> Render(l)[|Render(l)| - 1] == '\t';
    assert l.measurement != "" ==> Render(l)[|Render(l)| - 1] == l.measurement[|l.measurement| - 1];
  }

  lemma {:induction false} LinesCons(line: string, rest: string)
    requires '\n' !in line && DropCR(line) == line && |line| < MAX_LINE
    ensures Lines(line + "\n" + rest) == [line] + Lines(rest)
  {
    var t := line + "\n" + rest;
    assert t[|line|] == '\n';
    forall j | 0 <= j < |line| ensures t[j] != '\n' { assert t[j] == line[j] && line[j] in line; }
    assert LineEnd(t) == |line|;
    assert t[..|line|] == line && t[|line| + 1..] == rest;
  }

  /** A final line that is too long, like everything after it, is dropped without an error. */
  lemma LongLineDropped(line: string, rest: string)
    requires '\n' !in line && |line| >= 65536
    ensures Lines(line + "\n" + rest) == []
  {
    var t := line + "\n" + rest;
    forall j | 0 <= j < |line| ensures t[j] != '\n' { assert t[j] == line[j] && line[j] in line; }
  }

  lemma {:induction false} LinesOfRendered(ls: seq<LogLine>, rest: string)
    requires AllReadable(ls)
    ensures Lines(RenderAll(ls) + rest) == RenderEach(ls) + Lines(rest)
  {
    hide Clean, Render, Lines;
    if ls == [] {
      assert RenderAll(ls) + rest == rest;
    } else {
      var init, last := ls[..|ls| - 1], ls[|ls| - 1];
      ParseRendered(last);
      LinesCons(Render(last), rest);
      LinesOfRendered(init, Render(last) + "\n" + rest);
      assert RenderAll(ls) + rest == RenderAll(init) + (Render(last) + "\n" + rest);
      assert RenderEach(ls) == RenderEach(init) + [Render(last)];
    }
  }

  function RenderEach(ls: seq<LogLine>): (r: seq<string>)
    ensures |r| == |ls|
  {
    seq(|ls|, i requires 0 <= i < |ls| => Render(ls[i]))
  }

  lemma {:induction false} ParseRenderedLines(ls: seq<LogLine>, logs: seq<PcrEventLog>)
    requires AllReadable(ls)
    ensures ParseLines(RenderEach(ls), logs) == Parsed(InsertAll(logs, EntriesOf(ls)))
  {
    hide Clean, TooLong, Render, EntryFor, ParseLine, Insert;
    if ls != [] {
      ParseRendered(ls[0]);
      var e := EntryFor(ls[0].bank, ls[0].index, ls[0].tag, ls[0].measurement);
      ParseRenderedLines(ls[1..], Insert(logs, e));
      assert RenderEach(ls)[1..] == RenderEach(ls[1..]);
      assert EntriesOf(ls) == [e] + EntriesOf(ls[1..]);
      InsertAllConcat(logs, [e], EntriesOf(ls[1..]));
      assert [e][..0] == [];
    }
  }

  /** A negative index, which no writer here produces, wraps around to 32 bits. */
  lemma NegativeIndexWraps(bank: string, n: nat, tag: string, measurement: string)
    requires CleanText(bank) && CleanText(tag) && CleanText(measurement) && 0 < n <= 0x1_0000_0000
    ensures ParseLine(Join([bank, "-" + Decimal(n), tag, measurement], '\t')) ==
            LineEntry(EntryFor(bank, 0x1_0000_0000 - n, tag, measurement))
  {
    hide Decimal, Join, Split, Atoi;
    DecimalIsClean(n);
    AtoiSigned(n);
    SplitJoin([bank, "-" + Decimal(n), tag, measurement], '\t');
  }

  /** Reading back a written log yields the same grouping function of the same entries as the binary parser. */
  lemma WriteReadBack(ls: seq<LogLine>)
    requires AllReadable(ls)
    ensures ParseLines(Lines(RenderAll(ls)), []) == Parsed(Groups(EntriesOf(ls)))
  {
    hide Readable, RenderAll, Groups, EntriesOf, RenderEach;
    LinesOfRendered(ls, "");
    assert RenderAll(ls) + "" == RenderAll(ls) && RenderEach(ls) + [] == RenderEach(ls);
    ParseRenderedLines(ls, []);
    InsertAllIsGroups(EntriesOf(ls));
  }

  // ----- lines too long for the scanner -----

  /** How many lines come before the first one that is too long. */
  function ShortPrefix(ls: seq<LogLine>): (n: nat)
    ensures n <= |ls|
    ensures forall i :: 0 <= i < n ==> !TooLong(ls[i])
    ensures n < |ls| ==> TooLong(ls[n])
  {
    if ls == [] || TooLong(ls[0]) then 0 else 1 + ShortPrefix(ls[1..])
  }

  lemma {:induction false} RenderAllConcat(a: seq<LogLine>, b: seq<LogLine>)
    ensures RenderAll(a + b) == RenderAll(a) + RenderAll(b)
  {
    hide Render;
    if b == [] {
      assert a + b == a;
    } else {
      var init, last := b[..|b| - 1], b[|b| - 1];
      RenderAllConcat(a, init);
      assert (a + b)[..|a + b| - 1] == a + init;
      assert RenderAll(a) + (RenderAll(init) + Render(last) + "\n") == RenderAll(a) + RenderAll(init) + Render(last) + "\n";
    }
  }

  lemma RenderAllCons(l: LogLine, ls: seq<LogLine>)
    ensures RenderAll([l] + ls) == Render(l) + "\n" + RenderAll(ls)
  {
    hide Render;
    RenderAllConcat([l], ls);
    assert [l][..0] == [];
  }

  /** If some line is too long for the scanner, the reader silently sees only the lines before it. */
  lemma {:induction false} LongLineTruncates(before: seq<LogLine>, long: LogLine, rest: string)
    requires AllReadable(before) && '\n' !in Render(long) && TooLong(long)
    ensures ParseLines(Lines(RenderAll(before) + (Render(long) + "\n" + rest)), []) == Parsed(Groups(EntriesOf(before)))
  {
    hide Readable, RenderAll, Groups, EntriesOf, RenderEach, Render;
    LinesOfRendered(before, Render(long) + "\n" + rest);
    LongLineDropped(Render(long), rest);
    assert RenderEach(before) + [] == RenderEach(before);
    ParseRenderedLines(before, []);
    InsertAllIsGroups(EntriesOf(before));
  }

  /** What the reader makes of any list of clean lines: the entries up to the first line that is too long. */
  lemma {:induction false} ReadBack(ls: seq<LogLine>)
    requires AllClean(ls)
    ensures ParseLines(Lines(RenderAll(ls)), []) == Parsed(Groups(EntriesOf(ls[..ShortPrefix(ls)])))
  {
    hide Clean, TooLong, RenderAll, Groups, EntriesOf, Render, Lines, ParseLines;
    var n := ShortPrefix(ls);
    var before := ls[..n];
    if n == |ls| {
      assert before == ls;
      WriteReadBack(ls);
    } else {
      var long, after := ls[n], ls[n + 1..];
      ParseRendered(long);
      RenderAllCons(long, after);
      RenderAllConcat(before, [long] + after);
      assert ls == before + ([long] + after);
      LongLineTruncates(before, long, RenderAll(after));
    }
  }

  /** As many entries as were grouped are found in the groups. */
  lemma GroupsCount(es: seq<Entry>)
    ensures |Bag(Groups(es))| == |es|
  {
    hide Groups, Bag;
    InsertAllIsGroups(es);
    InsertAllConserves([], es);
    assert Bag([]) == multiset{} by { EmptyBag(); }
  }

  lemma EmptyBag()
    ensures Bag([]) == multiset{}
  {
  }

  /** Clean lines are read back in full if and only if none of them is too long. */
  lemma {:induction false} ReadBackExactly(ls: seq<LogLine>)
    requires AllClean(ls)
    ensures ParseLines(Lines(RenderAll(ls)), []) == Parsed(Groups(EntriesOf(ls))) <==>
            AllFit(ls)
  {
    hide Clean, TooLong, RenderAll, Groups, EntriesOf, Lines, ParseLines;
    var n := ShortPrefix(ls);
    ReadBack(ls);
    if n == |ls| {
      assert ls[..n] == ls;
    } else {
      GroupsCount(EntriesOf(ls[..n]));
      GroupsCount(EntriesOf(ls));
    }
  }

  // ----- the text, literally -----

  /** The lines the scanner delivers: the text up to each line feed, without one carriage return at its end; a last
      line needs no line feed; a line of 65536 characters or more ends the scan. */
  lemma ScannedLines(line: string, rest: string)
    requires '\n' !in line
    ensures Lines("") == []
    ensures |line| >= 65536 ==> Lines(line + "\n" + rest) == [] && Lines(line) == []
    ensures |line| < 65536 && (line == "" || line[|line| - 1] != '\r') ==>
      Lines(line + "\n" + rest) == [line] + Lines(rest) && Lines(line) == if line == "" then [] else [line]
    ensures |line| < 65536 && line != "" && line[|line| - 1] == '\r' ==>
      Lines(line + "\n" + rest) == [line[..|line| - 1]] + Lines(rest) && Lines(line) == [line[..|line| - 1]]
  {
    var t := line + "\n" + rest;
    EndOfLine(line, "\n" + rest);
    EndOfLine(line, "");
    assert t == line + ("\n" + rest) && line == line + "";
    assert t[..|line|] == line && t[|line| + 1..] == rest && line[..|line|] == line;
  }

  lemma {:induction false} EndOfLine(line: string, rest: string)
    requires '\n' !in line && (rest == "" || rest[0] == '\n')
    ensures LineEnd(line + rest) == |line|
  {
    if line == "" {
      assert line + rest == rest;
    } else {
      assert line[0] in line;
      EndOfLine(line[1..], rest);
      assert (line + rest)[1..] == line[1..] + rest;
    }
  }

  /** What a line yields, by its fields: an index out of range without a second field, an error for a second field that
      is not a number, an index out of range for fewer than four fields, else one event. */
  lemma LineByFields(f: seq<string>)
    requires f != [] && forall i :: 0 <= i < |f| ==> '\t' !in f[i]
    ensures var r := ParseLine(Join(f, '\t'));
            if |f| == 1 then r == LinePanic
            else match Atoi(f[1])
              case None => r == LineError
              case Some(n) =>
                if |f| < 4 then r == LinePanic
                else r == LineEntry(Entry(PcrData(n % 0x1_0000_0000, f[0]),
                                          TpmEvent("0x90000001", "APPLICATION_AGENT_MEASUREMENT", [f[2]], f[3])))
  {
    hide Atoi, Join, Split;
    SplitJoin(f, '\t');
  }

  /** The first line that yields no event decides what the whole text yields. */
  lemma {:induction false} FirstBadLine(lines: seq<string>, k: nat, logs: seq<PcrEventLog>)
    requires k < |lines| && !ParseLine(lines[k]).LineEntry? && forall i :: 0 <= i < k ==> ParseLine(lines[i]).LineEntry?
    ensures ParseLines(lines, logs) == if ParseLine(lines[k]).LinePanic? then Panic else ReadError
  {
    hide ParseLine, Insert;
    if k > 0 { FirstBadLine(lines[1..], k - 1, Insert(logs, ParseLine(lines[0]).entry)); }
  }

  /** A line is too long for the scanner exactly when its fields and three tabs come to 65536 characters. */
  lemma TooLongExactly(l: LogLine)
    ensures TooLong(l) <==> |l.bank| + |Decimal(l.index)| + |l.tag| + |l.measurement| + 3 >= 65536
  {
    hide Decimal;
    RenderShape(l);
  }

  /** How many of the first n lines are of the given bank and index. */
  function EarlierLines(ls: seq<LogLine>, n: nat, bank: string, index: nat): nat
    requires n <= |ls|
  {
    if n == 0 then 0 else EarlierLines(ls, n - 1, bank, index) + if ls[n - 1].bank == bank && ls[n - 1].index == index then 1 else 0
  }

  lemma {:induction false} EarlierLinesAreEntries(ls: seq<LogLine>, m: nat, n: nat, bank: string, index: nat)
    requires n <= m <= |ls|
    ensures EarlierLines(ls, n, bank, index) == CountKey(EntriesOf(ls[..m]), n, PcrData(index, bank))
  {
    if n > 0 { EarlierLinesAreEntries(ls, m, n - 1, bank, index); }
  }

  /** What the reader finds for the i-th line, when neither it nor a line before it is too long: in the group of its
      bank and index, behind the earlier lines of that group, one event with its tag and measurement. */
  lemma {:induction false} LineFound(ls: seq<LogLine>, i: nat) returns (g: nat)
    requires AllClean(ls) && i < |ls| && forall j :: 0 <= j <= i ==> !TooLong(ls[j])
    ensures ParseLines(Lines(RenderAll(ls)), []).Parsed?
    ensures var logs := ParseLines(Lines(RenderAll(ls)), []).logs;
            var n := EarlierLines(ls, i, ls[i].bank, ls[i].index);
            && g < |logs| && logs[g].pcr == PcrData(ls[i].index, ls[i].bank) && n < |logs[g].tpmEvents|
            && logs[g].tpmEvents[n] == TpmEvent("0x90000001", "APPLICATION_AGENT_MEASUREMENT", [ls[i].tag], ls[i].measurement)
  {
    hide Clean, TooLong, RenderAll, Lines, ParseLines, InsertAll, Groups, CountKey;
    var m := ShortPrefix(ls);
    if m <= i { assert false; }
    var es := EntriesOf(ls[..m]);
    ReadBack(ls);
    InsertAllIsGroups(es);
    g := StoredAt(es, i);
    EarlierLinesAreEntries(ls, m, i, ls[i].bank, ls[i].index);
  }
}
