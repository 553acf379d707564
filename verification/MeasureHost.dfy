/** The boot-time loop that extends PCR 15 with each measurement and appends to the event log, and
    the replay of that log. */
module MeasureHost {
  import opened Bytes
  import opened EventLog
  import opened EventParser
  import opened ApplicationLog
  import Hex
  import Text
  import TpmExtend

  // ----- the TPM -----

  /** The two hash functions, uninterpreted but of fixed output length. */
  datatype Hashes = Hashes(sha1: seq<byte> -> seq<byte>, sha256: seq<byte> -> seq<byte>)

  ghost predicate HashSizes(h: Hashes) {
    (forall x :: |h.sha1(x)| == 20) && (forall x :: |h.sha256(x)| == 32)
  }

  function Hash(h: Hashes, alg: nat, x: seq<byte>): seq<byte> {
    if alg == TpmExtend.TPM_ALG_SHA1 then h.sha1(x) else h.sha256(x)
  }

  /** PCR values by (PCR, algorithm). */
  type Pcrs = map<(nat, nat), seq<byte>>

  function ExtendPcr(h: Hashes, pcrs: Pcrs, pcr: nat, alg: nat, digest: seq<byte>): Pcrs {
    if (pcr, alg) in pcrs then pcrs[(pcr, alg) := Hash(h, alg, pcrs[(pcr, alg)] + digest)] else pcrs
  }

  /** A device that accepts every well-formed command it decodes. */
  function Accept(h: Hashes, pcrs: Pcrs, sent: TpmExtend.Sent): Pcrs {
    match sent
    case Nothing => pcrs
    case Tpm12Extend(pcr, digest) => ExtendPcr(h, pcrs, pcr, TpmExtend.TPM_ALG_SHA1, digest)
    case Tpm2Command(bytes) =>
      match TpmExtend.DecodeExtend(bytes)
      case None => pcrs
      case Some(x) => ExtendPcr(h, pcrs, x.pcr, x.alg, x.digest)
  }

  // ----- the replay of a parsed log -----

  /** The events a parsed log holds for one PCR and bank. */
  function GroupEvents(logs: seq<PcrEventLog>, k: PcrData): seq<TpmEvent> {
    var i := Find(logs, k);
    if i < |logs| then logs[i].tpmEvents else []
  }

  /** The value a verifier computes: extend the starting value by each measurement in turn. */
  ghost function Replay(h: Hashes, alg: nat, start: seq<byte>, events: seq<TpmEvent>): seq<byte> {
    if events == [] then start else
    var m := events[|events| - 1].measurement;
    Hash(h, alg, Replay(h, alg, start, events[..|events| - 1]) + if |m| % 2 == 0 && Hex.IsHex(m) then Hex.Decode(m) else [])
  }

  lemma GroupEventsOfGroups(es: seq<Entry>, k: PcrData)
    ensures GroupEvents(Groups(es), k) == EventLog.EventsOf(es, k)
  {
    hide FirstKeys, EventLog.EventsOf;
    FirstKeysMeaning(es);
    var g := Groups(es);
    var i := Find(g, k);
    if i == |g| {
      forall j | 0 <= j < |g| ensures FirstKeys(es)[j] != k { assert g[j].pcr == FirstKeys(es)[j]; }
      EventsOfAbsent(es, k);
    }
  }

  // ----- the loop -----

  /** A measurement file: the uuid from its name, its label, and the bytes fed to the sum command. */
  datatype Measurement = Measurement(uuid: string, flavorLabel: string, image: seq<byte>)

  predicate IsUuidBody(s: string) {
    |s| == 36 && forall i :: 0 <= i < 36 ==> if i in {8, 13, 18, 23} then s[i] == '-' else Hex.IsHexChar(s[i])
  }

  /** The script's pattern: 8-4-4-4-12 hex digits, each brace optional. */
  predicate IsUuid(s: string) {
    var t := if s != "" && s[0] == '{' then s[1..] else s;
    var u := if t != "" && t[|t| - 1] == '}' then t[..|t| - 1] else t;
    IsUuidBody(u)
  }

  /** An unquoted echo splits on white space; sed removes the spaces that join it again. */
  function StripLabel(s: string): string {
    if s == "" then "" else (if s[0] in {' ', '\t', '\n'} then "" else [s[0]]) + StripLabel(s[1..])
  }

  function BankAlg(version: string): nat {
    if version == "1.2" then TpmExtend.TPM_ALG_SHA1 else TpmExtend.TPM_ALG_SHA256
  }

  function BankOf(version: string): string {
    if version == "1.2" then "SHA1" else "SHA256"
  }

  function ImageHash(h: Hashes, version: string, image: seq<byte>): string {
    Hex.Encode(Hash(h, BankAlg(version), image))
  }

  const APP_PCR: nat := 15

  function LineFor(h: Hashes, version: string, m: Measurement): LogLine {
    LogLine(BankOf(version), APP_PCR, StripLabel(m.flavorLabel) + "-" + m.uuid, ImageHash(h, version, m.image))
  }

  function LoggedLines(h: Hashes, version: string, ms: seq<Measurement>): seq<LogLine> {
    if ms == [] then [] else
    LoggedLines(h, version, ms[..|ms| - 1]) +
    if IsUuid(ms[|ms| - 1].uuid) then [LineFor(h, version, ms[|ms| - 1])] else []
  }

  lemma {:induction false} StripLabelIsClean(s: string)
    ensures CleanText(StripLabel(s))
  {
    if s != "" { StripLabelIsClean(s[1..]); }
  }

  lemma UuidIsClean(s: string)
    requires IsUuid(s)
    ensures CleanText(s)
  {
    var t := if s != "" && s[0] == '{' then s[1..] else s;
    var u := if t != "" && t[|t| - 1] == '}' then t[..|t| - 1] else t;
    forall c | c in u ensures c == '-' || Hex.IsHexChar(c) {
      var i :| 0 <= i < |u| && u[i] == c;
    }
    assert t == u || t == u + "}";
    assert s == t || s == "{" + t;
  }

  lemma HexIsClean(s: string)
    requires Hex.IsHex(s)
    ensures CleanText(s) && (s == "" || s[|s| - 1] != '\r')
  {
  }

  /** Every logged line is clean. */
  lemma LineForClean(h: Hashes, version: string, m: Measurement)
    requires IsUuid(m.uuid)
    ensures Clean(LineFor(h, version, m))
  {
    hide Render, StripLabel, IsUuid;
    StripLabelIsClean(m.flavorLabel);
    UuidIsClean(m.uuid);
    Hex.EncodeIsLowerHex(Hash(h, BankAlg(version), m.image));
    HexIsClean(ImageHash(h, version, m.image));
  }

  /** The log reads back to a state whose replay is the given PCR value. */
  ghost predicate Replays(h: Hashes, version: string, start: seq<byte>, log: string, value: seq<byte>) {
    var out := ParseLines(Lines(log), []);
    out.Parsed? && value == Replay(h, BankAlg(version), start, GroupEvents(out.logs, PcrData(APP_PCR, BankOf(version))))
  }

  function LineEvent(l: LogLine): TpmEvent {
    EntryFor(l.bank, l.index, l.tag, l.measurement).event
  }

  ghost predicate OneBank(ls: seq<LogLine>, version: string) {
    forall i :: 0 <= i < |ls| ==> ls[i].bank == BankOf(version) && ls[i].index == APP_PCR
  }

  function LineEvents(ls: seq<LogLine>): (es: seq<TpmEvent>)
    ensures |es| == |ls|
  {
    seq(|ls|, i requires 0 <= i < |ls| => LineEvent(ls[i]))
  }

  lemma {:induction false} EventsOfOneBank(ls: seq<LogLine>, version: string)
    requires OneBank(ls, version)
    ensures EventLog.EventsOf(ApplicationLog.EntriesOf(ls), PcrData(APP_PCR, BankOf(version))) == LineEvents(ls)
  {
    if ls != [] {
      var n := |ls| - 1;
      EventsOfOneBank(ls[..n], version);
      assert ApplicationLog.EntriesOf(ls)[..n] == ApplicationLog.EntriesOf(ls[..n]);
      assert LineEvents(ls) == LineEvents(ls[..n]) + [LineEvent(ls[n])];
    }
  }

  /** Reading the log back gives the replay of exactly the lines before the first one that is too long for
      the scanner. */
  lemma {:induction false} ReplayOfLines(h: Hashes, version: string, start: seq<byte>, ls: seq<LogLine>)
    requires AllClean(ls) && OneBank(ls, version)
    ensures Replays(h, version, start, RenderAll(ls), Replay(h, BankAlg(version), start, LineEvents(ls[..ShortPrefix(ls)])))
  {
    hide Clean, TooLong, RenderAll, ApplicationLog.EntriesOf, LineEvents, Groups, Lines, ParseLines, GroupEvents, Replay;
    var read := ls[..ShortPrefix(ls)];
    ReadBack(ls);
    GroupEventsOfGroups(ApplicationLog.EntriesOf(read), PcrData(APP_PCR, BankOf(version)));
    EventsOfOneBank(read, version);
  }

  /** One more line, one more extension. */
  lemma ReplaySnoc(h: Hashes, version: string, start: seq<byte>, ls: seq<LogLine>, m: Measurement)
    requires HashSizes(h)
    ensures Replay(h, BankAlg(version), start, LineEvents(ls + [LineFor(h, version, m)])) ==
            Hash(h, BankAlg(version), Replay(h, BankAlg(version), start, LineEvents(ls)) + Hash(h, BankAlg(version), m.image))
  {
    hide StripLabel, Hash;
    var l := LineFor(h, version, m);
    Hex.DecodeEncode(Hash(h, BankAlg(version), m.image));
    var evs := LineEvents(ls + [l]);
    assert evs[..|ls|] == LineEvents(ls) && evs[|ls|] == LineEvent(l);
  }

  /** The lines ls are in the log, and the PCR value is their replay. */
  ghost predicate InStep(h: Hashes, version: string, start: seq<byte>, ls: seq<LogLine>, log: string, value: seq<byte>) {
    && log == RenderAll(ls) && AllClean(ls) && OneBank(ls, version)
    && value == Replay(h, BankAlg(version), start, LineEvents(ls))
  }

  lemma InStepStart(h: Hashes, version: string, start: seq<byte>)
    ensures InStep(h, version, start, [], "", start)
  {
  }

  lemma NoLines()
    ensures RenderAll([]) == ""
  {
  }

  /** Every line the loop would log fits the scanner's buffer. */
  ghost predicate AllShort(h: Hashes, version: string, ms: seq<Measurement>) {
    forall i :: 0 <= i < |ms| && IsUuid(ms[i].uuid) ==> !TooLong(LineFor(h, version, ms[i]))
  }

  lemma {:induction false} AllShortLines(h: Hashes, version: string, ms: seq<Measurement>)
    ensures AllShort(h, version, ms) <==> AllFit(LoggedLines(h, version, ms))
  {
    hide IsUuid, TooLong, LineFor;
    if ms != [] {
      var n := |ms| - 1;
      AllShortLines(h, version, ms[..n]);
      assert AllShort(h, version, ms) <==> AllShort(h, version, ms[..n]) && (IsUuid(ms[n].uuid) ==> !TooLong(LineFor(h, version, ms[n])));
      var before, ls := LoggedLines(h, version, ms[..n]), LoggedLines(h, version, ms);
      assert ls[..|before|] == before;
      if IsUuid(ms[n].uuid) {
        assert ls == before + [LineFor(h, version, ms[n])] && ls[|before|] == LineFor(h, version, ms[n]);
      } else {
        assert ls == before;
      }
    }
  }

  lemma InStepNext(h: Hashes, version: string, start: seq<byte>, ls: seq<LogLine>, log: string, value: seq<byte>, m: Measurement)
    requires HashSizes(h) && IsUuid(m.uuid)
    requires InStep(h, version, start, ls, log, value)
    ensures var l := LineFor(h, version, m);
            InStep(h, version, start, ls + [l], log + Render(l) + "\n",
                   Hash(h, BankAlg(version), value + Hash(h, BankAlg(version), m.image)))
  {
    hide IsUuid, StripLabel, Clean, Render, Replay, LineEvents, Hash, RenderAll, ImageHash;
    var l := LineFor(h, version, m);
    LineForClean(h, version, m);
    ReplaySnoc(h, version, start, ls, m);
    RenderAllSnoc(ls, l);
  }

  /** What a reader of the log gets: the lines before the first one that is too long, and their replay. This
      is all of it, and so the value of the PCR, if and only if every line fits. */
  ghost predicate ReadsAs(h: Hashes, version: string, start: seq<byte>, ms: seq<Measurement>, log: string, value: seq<byte>) {
    var ls := LoggedLines(h, version, ms);
    && log == RenderAll(ls)
    && value == Replay(h, BankAlg(version), start, LineEvents(ls))
    && Replays(h, version, start, log, Replay(h, BankAlg(version), start, LineEvents(ls[..ShortPrefix(ls)])))
    && (ParseLines(Lines(log), []) == Parsed(Groups(ApplicationLog.EntriesOf(ls))) <==> AllShort(h, version, ms))
    && (AllShort(h, version, ms) ==> Replays(h, version, start, log, value))
  }

  lemma InStepReads(h: Hashes, version: string, start: seq<byte>, ms: seq<Measurement>, log: string, value: seq<byte>)
    requires InStep(h, version, start, LoggedLines(h, version, ms), log, value)
    ensures ReadsAs(h, version, start, ms, log, value)
  {
    hide Replays, Replay, RenderAll, LineEvents, TooLong, Clean, AllShort, LoggedLines, Groups, Lines, ParseLines;
    var ls := LoggedLines(h, version, ms);
    ReplayOfLines(h, version, start, ls);
    ReadBackExactly(ls);
    AllShortLines(h, version, ms);
    if AllShort(h, version, ms) { assert ls[..ShortPrefix(ls)] == ls; }
  }

  class Host {
    var pcrs: Pcrs
    var eventLog: string

    /** One measurement: run the tool on PCR 15, and log only if it succeeded. */
    method ExtendAndLog(h: Hashes, m: Measurement, version: string, number: real, opens: bool, cmdBuf: array<byte>)
        returns (ok: bool)
      requires HashSizes(h) && (version == "1.2" ==> number == 1.2) && cmdBuf.Length == TpmExtend.CMD_SIZE_MAX
      modifies this, cmdBuf
      ensures ok ==> pcrs == ExtendPcr(h, old(pcrs), APP_PCR, BankAlg(version), Hash(h, BankAlg(version), m.image))
      ensures ok ==> eventLog == old(eventLog) + Render(LineFor(h, version, m)) + "\n"
      ensures !ok ==> pcrs == old(pcrs) && eventLog == old(eventLog)
      ensures ok <==> opens && (number == 2.0 || (number == 1.2 && version == "1.2"))
    {
      hide Hash, Render, StripLabel, TpmExtend.EncodeExtend, TpmExtend.DigestArgument, Accept, ExtendPcr;
      var imageHash := ImageHash(h, version, m.image);
      BankMatchesAlgorithm(h, version, m.image);
      var status, sent := TpmExtend.RunTool(cmdBuf, 15, imageHash, number, opens);
      if status != 0 { return false; }
      AcceptedExtend(h, pcrs, version, number, m.image, sent);
      pcrs := Accept(h, pcrs, sent);
      eventLog := eventLog + Render(LineFor(h, version, m)) + "\n";
      return true;
    }

    /** The tpm_extend loop: for every measurement with a proper uuid, extend, then log; stop at the
        first failure. `number` is what the tool makes of the version string. */
    method TpmExtendLoop(h: Hashes, ms: seq<Measurement>, version: string, number: real, opens: nat -> bool)
        returns (status: int, ghost done: nat)
      requires HashSizes(h) && (version == "1.2" ==> number == 1.2)
      requires (APP_PCR, BankAlg(version)) in pcrs && eventLog == ""
      modifies this
      ensures pcrs.Keys == old(pcrs.Keys)
      ensures done <= |ms| && status in {0, 1} && (status == 0 ==> done == |ms|)
      // it fails exactly without a version, or when the tool fails on a measurement with a proper uuid
      ensures status == 0 <==>
        version != "" && forall i :: 0 <= i < |ms| && IsUuid(ms[i].uuid) ==> opens(i) && (number == 2.0 || (number == 1.2 && version == "1.2"))
      ensures ReadsAs(h, version, old(pcrs)[(APP_PCR, BankAlg(version))], ms[..done], eventLog, pcrs[(APP_PCR, BankAlg(version))])
      ensures forall k :: k in pcrs && k != (APP_PCR, BankAlg(version)) ==> pcrs[k] == old(pcrs)[k]
    {
      hide IsUuid, LineFor, Render, Hash, BankAlg, RenderAll, InStep, ReadsAs;
      ghost var key := (APP_PCR, BankAlg(version));
      ghost var start := pcrs[key];
      done := 0;
      InStepStart(h, version, start);
      NoLines();
      if version == "" {
        InStepReads(h, version, start, [], eventLog, start);
        return 1, 0;
      }
      var cmdBuf := new byte[TpmExtend.CMD_SIZE_MAX];
      for i := 0 to |ms|
        invariant pcrs.Keys == old(pcrs.Keys)
        // after every completed iteration the PCR is the replay of the lines in the log
        invariant InStep(h, version, start, LoggedLines(h, version, ms[..i]), eventLog, pcrs[key])
        invariant forall k :: k in pcrs && k != key ==> pcrs[k] == old(pcrs)[k]
        invariant forall j :: 0 <= j < i && IsUuid(ms[j].uuid) ==> opens(j) && (number == 2.0 || (number == 1.2 && version == "1.2"))
      {
        assert ms[..i + 1][..i] == ms[..i];
        assert !IsUuid(ms[i].uuid) ==> LoggedLines(h, version, ms[..i + 1]) == LoggedLines(h, version, ms[..i]);
        if IsUuid(ms[i].uuid) {
          InStepNext(h, version, start, LoggedLines(h, version, ms[..i]), eventLog, pcrs[key], ms[i]);
          var ok := ExtendAndLog(h, ms[i], version, number, opens(i), cmdBuf);
          if !ok {
            InStepReads(h, version, start, ms[..i], eventLog, pcrs[key]);
            return 1, i;
          }
        }
      }
      assert ms[..|ms|] == ms;
      InStepReads(h, version, start, ms, eventLog, pcrs[key]);
      return 0, |ms|;
    }
  }

  lemma RenderAllSnoc(ls: seq<LogLine>, l: LogLine)
    ensures RenderAll(ls + [l]) == RenderAll(ls) + Render(l) + "\n"
  {
    assert (ls + [l])[..|ls|] == ls;
  }

  /** The bank written to the log is the one the event-log parsers give that algorithm, and the image hash has
      its size. */
  lemma BankMatchesAlgorithm(h: Hashes, version: string, image: seq<byte>)
    requires HashSizes(h)
    ensures BankName(BankAlg(version)) == BankOf(version)
    ensures |ImageHash(h, version, image)| == 2 * EventParser.DigestSize(BankAlg(version)) == 2 * TpmExtend.DigestSize(BankAlg(version))
  {
  }

  /** What the tool sent, the device decodes to an extension of PCR 15 in the logged bank by the image hash. */
  lemma AcceptedExtend(h: Hashes, pcrs: Pcrs, version: string, number: real, image: seq<byte>, sent: TpmExtend.Sent)
    requires HashSizes(h) && number in {1.2, 2.0} && (version == "1.2" ==> number == 1.2)
    requires number == 1.2 ==> |ImageHash(h, version, image)| != 64
    requires |ImageHash(h, version, image)| in {40, 64}
    requires number == 1.2 ==> sent == TpmExtend.Tpm12Extend(APP_PCR, TpmExtend.DigestArgument(ImageHash(h, version, image)))
    requires number == 2.0 ==> sent == TpmExtend.Tpm2Command(TpmExtend.EncodeExtend(TpmExtend.Extend(APP_PCR,
      if |ImageHash(h, version, image)| == 40 then TpmExtend.TPM_ALG_SHA1 else TpmExtend.TPM_ALG_SHA256,
      TpmExtend.DigestArgument(ImageHash(h, version, image)))))
    ensures Accept(h, pcrs, sent) == ExtendPcr(h, pcrs, APP_PCR, BankAlg(version), Hash(h, BankAlg(version), image))
  {
    hide TpmExtend.EncodeExtend, TpmExtend.DecodeExtend, TpmExtend.DigestArgument;
    var d := Hash(h, BankAlg(version), image);
    TpmExtend.DigestArgumentOfHex(d);
    TpmExtend.DecodeEncodeExtend(TpmExtend.Extend(APP_PCR, BankAlg(version), d));
  }

  // ----- what the loop does, literally -----

  ghost predicate HexGroup(s: string, n: nat) {
    |s| == n && Hex.IsHex(s)
  }

  /** A uuid: groups of 8, 4, 4, 4 and 12 hexadecimal digits joined by dashes, and a brace on either side or not. */
  ghost predicate GroupsOf(s: string, open: string, a: string, b: string, c: string, d: string, e: string, close: string) {
    && s == open + a + "-" + b + "-" + c + "-" + d + "-" + e + close
    && open in {"", "{"} && close in {"", "}"}
    && HexGroup(a, 8) && HexGroup(b, 4) && HexGroup(c, 4) && HexGroup(d, 4) && HexGroup(e, 12)
  }

  lemma GroupsAreUuid(s: string, open: string, a: string, b: string, c: string, d: string, e: string, close: string)
    requires GroupsOf(s, open, a, b, c, d, e, close)
    ensures IsUuid(s)
  {
    var body := a + "-" + b + "-" + c + "-" + d + "-" + e;
    JoinedGroups(s, open, body, close, a, b, c, d, e);
    assert body[0] == a[0] && body[35] == e[11];
    BracesDropped(s, open, body, close);
    forall i | 0 <= i < 36 ensures if i in {8, 13, 18, 23} then body[i] == '-' else Hex.IsHexChar(body[i]) {
      if i < 8 { assert body[i] == a[i]; }
      else if 8 < i < 13 { assert body[i] == b[i - 9]; }
      else if 13 < i < 18 { assert body[i] == c[i - 14]; }
      else if 18 < i < 23 { assert body[i] == d[i - 19]; }
      else if 23 < i { assert body[i] == e[i - 24]; }
    }
  }

  lemma BracesDropped(s: string, open: string, body: string, close: string)
    requires s == open + (body + close) && |body| == 36 && open in {"", "{"} && close in {"", "}"}
    requires Hex.IsHexChar(body[0]) && Hex.IsHexChar(body[35])
    ensures IsUuidBody(body) ==> IsUuid(s)
  {
    hide IsUuidBody;
    assert s[0] == if open == "" then body[0] else '{';
    var t := if s[0] == '{' then s[1..] else s;
    assert t == body + close;
    assert t[|t| - 1] == if close == "" then body[35] else '}';
    var u := if t[|t| - 1] == '}' then t[..|t| - 1] else t;
    assert u == body;
  }

  lemma UuidHasGroups(s: string) returns (open: string, a: string, b: string, c: string, d: string, e: string, close: string)
    requires IsUuid(s)
    ensures GroupsOf(s, open, a, b, c, d, e, close)
  {
    var t := if s != "" && s[0] == '{' then s[1..] else s;
    var u := if t != "" && t[|t| - 1] == '}' then t[..|t| - 1] else t;
    open := if s != "" && s[0] == '{' then "{" else "";
    close := if t != "" && t[|t| - 1] == '}' then "}" else "";
    a, b, c, d, e := u[..8], u[9..13], u[14..18], u[19..23], u[24..];
    hide Hex.IsHex;
    BodyGroups(u);
    JoinedGroups(s, open, u, close, a, b, c, d, e);
  }

  lemma BodyGroups(u: string)
    requires IsUuidBody(u)
    ensures HexGroup(u[..8], 8) && HexGroup(u[9..13], 4) && HexGroup(u[14..18], 4) && HexGroup(u[19..23], 4) && HexGroup(u[24..], 12)
    ensures u == u[..8] + "-" + u[9..13] + "-" + u[14..18] + "-" + u[19..23] + "-" + u[24..]
  {
    assert u[8] == u[13] == u[18] == u[23] == '-';
  }

  lemma JoinedGroups(s: string, open: string, u: string, close: string, a: string, b: string, c: string, d: string, e: string)
    requires u == a + "-" + b + "-" + c + "-" + d + "-" + e
    ensures s == open + (u + close) <==> s == open + a + "-" + b + "-" + c + "-" + d + "-" + e + close
  {
    assert open + (u + close) == open + a + "-" + b + "-" + c + "-" + d + "-" + e + close;
  }

  /** The label as it is logged: its characters in order, without blanks, tabs and line feeds. */
  ghost predicate WithoutBlanks(l: string, raw: string) {
    if raw == "" then l == ""
    else if raw[0] == ' ' || raw[0] == '\t' || raw[0] == '\n' then WithoutBlanks(l, raw[1..])
    else l != "" && l[0] == raw[0] && WithoutBlanks(l[1..], raw[1..])
  }

  lemma {:induction false} StrippedLabel(raw: string)
    ensures WithoutBlanks(StripLabel(raw), raw)
  {
    if raw != "" {
      StrippedLabel(raw[1..]);
      if raw[0] in {' ', '\t', '\n'} {
        assert StripLabel(raw) == "" + StripLabel(raw[1..]) == StripLabel(raw[1..]);
      } else {
        assert StripLabel(raw)[1..] == StripLabel(raw[1..]);
      }
    }
  }

  /** How many of the first n measurements have a proper uuid. */
  function ProperUuids(ms: seq<Measurement>, n: nat): nat
    requires n <= |ms|
  {
    if n == 0 then 0 else ProperUuids(ms, n - 1) + if IsUuid(ms[n - 1].uuid) then 1 else 0
  }

  lemma {:induction false} LoggedAt(h: Hashes, version: string, ms: seq<Measurement>, i: nat)
    requires i < |ms| && IsUuid(ms[i].uuid)
    ensures ProperUuids(ms, i) < |LoggedLines(h, version, ms)| && LoggedLines(h, version, ms)[ProperUuids(ms, i)] == LineFor(h, version, ms[i])
    ensures ProperUuids(ms, i) < |LoggedLines(h, version, ms[..i + 1])|
    ensures LoggedLines(h, version, ms[..i + 1]) <= LoggedLines(h, version, ms)
    decreases |ms|
  {
    hide IsUuid, LineFor;
    var n := |ms| - 1;
    if i == n {
      LoggedCount(h, version, ms, n);
      assert ms[..i + 1] == ms;
    } else {
      assert ms[..n][..i + 1] == ms[..i + 1];
      LoggedAt(h, version, ms[..n], i);
      SameUuids(ms, n, i);
    }
  }

  lemma {:induction false} LoggedCount(h: Hashes, version: string, ms: seq<Measurement>, n: nat)
    requires n <= |ms|
    ensures |LoggedLines(h, version, ms[..n])| == ProperUuids(ms, n)
  {
    hide IsUuid, LineFor;
    if n > 0 {
      LoggedCount(h, version, ms, n - 1);
      assert ms[..n][..n - 1] == ms[..n - 1];
    }
  }

  lemma {:induction false} SameUuids(ms: seq<Measurement>, n: nat, i: nat)
    requires i <= n <= |ms|
    ensures ProperUuids(ms[..n], i) == ProperUuids(ms, i)
  {
    hide IsUuid;
    if i > 0 { SameUuids(ms, n, i - 1); }
  }

  /** The event logged for a measurement: one tag, the label without blanks, a dash and the uuid; and the image hash in
      hexadecimal, of the size of the bank's algorithm. */
  ghost predicate EventFor(h: Hashes, version: string, m: Measurement, e: TpmEvent, l: string) {
    && e.typeId == "0x90000001" && e.typeName == "APPLICATION_AGENT_MEASUREMENT"
    && e.tags == [l + "-" + m.uuid] && WithoutBlanks(l, m.flavorLabel)
    && |e.measurement| % 2 == 0 && Hex.IsHex(e.measurement) && Hex.IsLowerHex(e.measurement)
    && Hex.Decode(e.measurement) == if version == "1.2" then h.sha1(m.image) else h.sha256(m.image)
  }

  lemma LineHasEvent(h: Hashes, version: string, m: Measurement)
    ensures var l := LineFor(h, version, m);
            && l.index == 15 && l.bank == (if version == "1.2" then "SHA1" else "SHA256")
            && EventFor(h, version, m, TpmEvent("0x90000001", "APPLICATION_AGENT_MEASUREMENT", [l.tag], l.measurement), StripLabel(m.flavorLabel))
  {
    hide StripLabel, WithoutBlanks, Hex.Encode, Hex.Decode;
    StrippedLabel(m.flavorLabel);
    Hex.DecodeEncode(Hash(h, BankAlg(version), m.image));
    Hex.EncodeIsLowerHex(Hash(h, BankAlg(version), m.image));
  }

  /** What the Go parser reads back for the i-th measurement with a proper uuid, when neither its line nor one before it
      is too long: in the group of PCR 15 and the version's bank, behind those of the proper measurements before it, its
      event. */
  lemma {:induction false} MeasuredEvent(h: Hashes, version: string, start: seq<byte>, ms: seq<Measurement>, log: string, value: seq<byte>, i: nat)
      returns (g: nat, l: string)
    requires i < |ms| && IsUuid(ms[i].uuid)
    ensures ReadsAs(h, version, start, ms, log, value) && AllShort(h, version, ms[..i + 1]) ==>
      && ParseLines(Lines(log), []).Parsed?
      && var logs := ParseLines(Lines(log), []).logs;
         && g < |logs| && logs[g].pcr == PcrData(15, if version == "1.2" then "SHA1" else "SHA256")
         && ProperUuids(ms, i) < |logs[g].tpmEvents| && EventFor(h, version, ms[i], logs[g].tpmEvents[ProperUuids(ms, i)], l)
  {
    g, l := 0, "";
    if !ReadsAs(h, version, start, ms, log, value) || !AllShort(h, version, ms[..i + 1]) { return; }
    hide IsUuid, LineFor, TooLong, Clean, Replay, Replays, Lines, ParseLines, RenderAll, AllShort, EventFor, LoggedLines, ProperUuids;
    var ls, n := LoggedLines(h, version, ms), ProperUuids(ms, i);
    LoggedAt(h, version, ms, i);
    LoggedClean(h, version, ms);
    AllShortLines(h, version, ms[..i + 1]);
    forall j | 0 <= j <= n ensures !TooLong(ls[j]) {
      assert ls[j] == LoggedLines(h, version, ms[..i + 1])[j];
    }
    g := LineFound(ls, n);
    LineHasEvent(h, version, ms[i]);
    l := StripLabel(ms[i].flavorLabel);
    OneBankCount(ls, version, n);
  }

  lemma {:induction false} LoggedClean(h: Hashes, version: string, ms: seq<Measurement>)
    ensures AllClean(LoggedLines(h, version, ms)) && OneBank(LoggedLines(h, version, ms), version)
  {
    hide IsUuid, Clean, StripLabel, ImageHash;
    if ms != [] {
      LoggedClean(h, version, ms[..|ms| - 1]);
      if IsUuid(ms[|ms| - 1].uuid) { LineForClean(h, version, ms[|ms| - 1]); }
    }
  }

  lemma {:induction false} OneBankCount(ls: seq<LogLine>, version: string, n: nat)
    requires OneBank(ls, version) && n <= |ls|
    ensures EarlierLines(ls, n, BankOf(version), APP_PCR) == n
  {
    if n > 0 { OneBankCount(ls, version, n - 1); }
  }

  /** The PCR after a list of measurements: each one with a proper uuid replaces the value by the hash of the value
      followed by the hash of the image, in SHA-1 for TPM 1.2 and in SHA-256 otherwise. */
  ghost function BootChain(h: Hashes, version: string, start: seq<byte>, ms: seq<Measurement>): seq<byte> {
    if ms == [] then start else
    var before, m := BootChain(h, version, start, ms[..|ms| - 1]), ms[|ms| - 1];
    if !IsUuid(m.uuid) then before
    else if version == "1.2" then h.sha1(before + h.sha1(m.image)) else h.sha256(before + h.sha256(m.image))
  }

  lemma {:induction false} ReplayIsBootChain(h: Hashes, version: string, start: seq<byte>, ms: seq<Measurement>)
    requires HashSizes(h)
    ensures Replay(h, BankAlg(version), start, LineEvents(LoggedLines(h, version, ms))) == BootChain(h, version, start, ms)
  {
    hide IsUuid, LineFor, LineEvents, Replay, HashSizes;
    if ms == [] {
      NoEvents(h, BankAlg(version), start);
    } else {
      var n := |ms| - 1;
      ReplayIsBootChain(h, version, start, ms[..n]);
      if IsUuid(ms[n].uuid) {
        ReplaySnoc(h, version, start, LoggedLines(h, version, ms[..n]), ms[n]);
      } else {
        assert LoggedLines(h, version, ms) == LoggedLines(h, version, ms[..n]);
      }
    }
  }

  lemma NoEvents(h: Hashes, alg: nat, start: seq<byte>)
    ensures Replay(h, alg, start, LineEvents([])) == start
  {
  }

  /** What the loop promises of PCR 15 is that chain; when every line fits, it is what the log replays to. */
  lemma PcrIsBootChain(h: Hashes, version: string, start: seq<byte>, ms: seq<Measurement>, log: string, value: seq<byte>)
    requires HashSizes(h) && ReadsAs(h, version, start, ms, log, value)
    ensures value == BootChain(h, version, start, ms)
    ensures AllShort(h, version, ms) ==> Replays(h, version, start, log, BootChain(h, version, start, ms))
  {
    hide LoggedLines, LineEvents, Replay, Replays, BootChain, AllShort, RenderAll, Lines, ParseLines, HashSizes;
    ReplayIsBootChain(h, version, start, ms);
  }

  /** The lines fit exactly when the label without blanks, the uuid, the hash, and 11 or 13 characters for bank, index,
      tabs and dash stay below 65536 characters. */
  lemma LabelFits(h: Hashes, version: string, m: Measurement)
    requires HashSizes(h)
    ensures TooLong(LineFor(h, version, m)) <==>
            |StripLabel(m.flavorLabel)| + |m.uuid| + (if version == "1.2" then 10 + 40 else 12 + 64) >= 65536
  {
    hide StripLabel, Hex.Encode;
    TooLongExactly(LineFor(h, version, m));
    assert |Text.Decimal(15)| == 2 by { assert Text.Decimal(1) == "1"; }
  }
}
