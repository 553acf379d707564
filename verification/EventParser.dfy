/** Parsing of TCG event logs: a TCG_PCClientPCREvent header followed by TCG_PCR_EVENT2 records. */
module EventParser {
  import opened Bytes
  import opened Buffer
  import opened EventLog
  import opened EventTag
  import Hex

  datatype Digest = Digest(alg: nat, data: seq<byte>)

  datatype Record = Record(index: nat, eventType: nat, digests: seq<Digest>, eventSize: nat, event: seq<byte>)

  datatype Outcome = Parsed(logs: seq<PcrEventLog>) | ReadError | Panic

  /** How a log is read: TXT or UEFI tagging, the text library and the table of event names. */
  datatype Mode = Mode(txt: bool, unicode: Unicode, names: map<nat, string>)

  // ----- digest algorithms -----

  function DigestSize(alg: nat): nat {
    match alg
    case 0x4 => 20
    case 0xb => 32
    case 0xc => 48
    case 0xd => 64
    case 0x12 => 32
    case _ => 0
  }

  function BankName(alg: nat): string {
    match alg
    case 0x4 => "SHA1"
    case 0xb => "SHA256"
    case 0xc => "SHA384"
    case 0xd => "SHA512"
    case 0x12 => "SM3_256"
    case _ => ""
  }

  // ----- reading one record -----

  datatype DigestsResult = DigestsRead(digests: seq<Digest>, rest: seq<byte>) | DigestsShort

  function ReadDigest(b: seq<byte>): DigestsResult {
    match ReadUint(b, 2)
    case Eof => DigestsShort
    case Got(alg, rest) =>
      DigestsRead([Digest(alg, Take(rest, DigestSize(alg)))], Drop(rest, DigestSize(alg)))
  }

  function Prepend(ds: seq<Digest>, r: DigestsResult): DigestsResult {
    match r
    case DigestsRead(more, rest) => DigestsRead(ds + more, rest)
    case DigestsShort => DigestsShort
  }

  function ReadDigests(b: seq<byte>, n: nat): DigestsResult
    decreases n
  {
    if n == 0 then DigestsRead([], b) else
    match ReadDigest(b)
    case DigestsShort => DigestsShort
    case DigestsRead(d, rest) => Prepend(d, ReadDigests(rest, n - 1))
  }

  datatype RecordResult = RecordRead(record: Record, rest: seq<byte>) | Stop | Short

  /** A PCR index above 23 or a digest count outside 1..5 ends the log. */
  function ReadRecord(b: seq<byte>): RecordResult {
    match ReadUint(b, 4)
    case Eof => Short
    case Got(index, b1) =>
      if index > 23 then Stop else
      match ReadUint(b1, 4)
      case Eof => Short
      case Got(eventType, b2) =>
        match ReadUint(b2, 4)
        case Eof => Short
        case Got(count, b3) =>
          if count == 0 || count > 5 then Stop else ReadBody(index, eventType, ReadDigests(b3, count))
  }

  function ReadBody(index: nat, eventType: nat, r: DigestsResult): RecordResult {
    match r
    case DigestsShort => Short
    case DigestsRead(digests, b4) =>
      match ReadUint(b4, 4)
      case Eof => Short
      case Got(size, b5) => RecordRead(Record(index, eventType, digests, size, Take(b5, size)), Drop(b5, size))
  }

  /** How far the cursor moves over a record: what the record claims, not what was there. */
  function DigestsLength(ds: seq<Digest>): nat {
    if ds == [] then 0 else 2 + DigestSize(ds[0].alg) + DigestsLength(ds[1..])
  }

  function ClaimedLength(r: Record): nat {
    12 + DigestsLength(r.digests) + 4 + r.eventSize
  }

  // ----- what a record contributes to the log -----

  function TypeId(eventType: nat): string {
    "0x" + Hex.OfNat(eventType)
  }

  predicate Is501(eventType: nat) {
    TypeId(eventType) == "0x501"
  }

  function Name501(k: nat): string {
    match k
    case 0 => "tb_policy"
    case 1 => "tb_policy"
    case 2 => "vmlinuz"
    case 3 => "initrd"
    case 4 => "asset-tag"
    case _ => ""
  }

  function TypeName(names: map<nat, string>, eventType: nat, k: nat): string {
    if eventType in names then names[eventType] else if Is501(eventType) then Name501(k) else ""
  }

  function Next501(k: nat, eventType: nat): nat {
    if Is501(eventType) then k + 1 else k
  }

  /** The tags of a record, the same for each of its digests; None is a panic. */
  function RecordTags(m: Mode, r: Record, name: string): Option<seq<string>> {
    if m.txt then Some(if name != "" then [name] else []) else
    match GetEventTag(m.unicode, r.eventType, r.event, r.eventSize, r.index)
    case Tags(tags) => Some(CleanAll(m.unicode, tags))
    case TagError => Some([])
    case TagPanic => None
  }

  function EntryOf(r: Record, d: Digest, name: string, tags: seq<string>): Entry {
    Entry(PcrData(r.index, BankName(d.alg)), TpmEvent(TypeId(r.eventType), name, tags, Hex.Encode(d.data)))
  }

  function RecordEntries(m: Mode, r: Record, k: nat): (es: Option<seq<Entry>>)
    ensures es.Some? ==> |es.value| == |r.digests|
  {
    var name := TypeName(m.names, r.eventType, k);
    match RecordTags(m, r, name)
    case None => None
    case Some(tags) =>
      Some(seq(|r.digests|, i requires 0 <= i < |r.digests| => EntryOf(r, r.digests[i], name, tags)))
  }

  // ----- the whole log -----

  /** The parse of bytes b with `remaining` bytes of the declared size still to come,
      after k records of type 0x501. */
  function ParseLoop(m: Mode, b: seq<byte>, remaining: int, k: nat, logs: seq<PcrEventLog>): Outcome
    decreases remaining
  {
    if remaining <= 0 then Parsed(logs) else
    match ReadRecord(b)
    case Short => ReadError
    case Stop => Parsed(logs)
    case RecordRead(r, rest) =>
      match RecordEntries(m, r, k)
      case None => Panic
      case Some(es) =>
        ParseLoop(m, rest, remaining - ClaimedLength(r), Next501(k, r.eventType), InsertAll(logs, es))
  }

  /** The header: index, type, a 20-byte digest, and a sized payload, all skipped.
      The remaining size is computed in 32-bit arithmetic. */
  function SkipHeader(b: seq<byte>, size: nat): Option<(seq<byte>, nat)> {
    if |b| < 28 then None else
    match ReadUint(b[28..], 4)
    case Eof => None
    case Got(eventSize, rest) =>
      Some((Drop(rest, eventSize), (size - (eventSize + 32) % 0x1_0000_0000) % 0x1_0000_0000))
  }

  function ParseFile(m: Mode, b: seq<byte>): Outcome {
    match SkipHeader(b, |b| % 0x1_0000_0000)
    case None => ReadError
    case Some((rest, size)) => ParseLoop(m, rest, size, 0, [])
  }

  // ----- the parser as a program over a buffer -----

  /** Reads `count` digests, moving the cursor by their nominal sizes. */
  method ReadDigestList(buf: ByteBuffer, count: nat, offset: nat)
      returns (ok: bool, digests: seq<Digest>, offset': nat)
    modifies buf
    ensures match ReadDigests(old(buf.rest), count)
            case DigestsRead(ds, rest) => ok && digests == ds && buf.rest == rest && offset' == offset + DigestsLength(ds)
            case DigestsShort => !ok
  {
    hide DigestSize, FromLittleEndian, DigestsLength;
    ghost var b := buf.rest;
    digests, offset' := [], offset;
    NoDigests(ReadDigests(b, count));
    for h := 0 to count
      invariant Prepend(digests, ReadDigests(buf.rest, count - h)) == ReadDigests(b, count)
      invariant offset' == offset + DigestsLength(digests)
    {
      var alg := buf.ReadLittleEndian(2);
      if alg == None {
        return false, [], offset';
      }
      offset' := offset' + 2;
      var data := buf.Next(DigestSize(alg.value));
      offset' := offset' + DigestSize(alg.value);
      DigestsLengthSnoc(digests, Digest(alg.value, data));
      PrependTwice(digests, Digest(alg.value, data), ReadDigests(buf.rest, count - h - 1));
      digests := digests + [Digest(alg.value, data)];
    }
    assert digests + [] == digests;
    ok := true;
  }

  lemma NoDigests(r: DigestsResult)
    ensures Prepend([], r) == r && DigestsLength([]) == 0
  {
    if r.DigestsRead? { assert [] + r.digests == r.digests; }
  }

  lemma PrependTwice(ds: seq<Digest>, d: Digest, r: DigestsResult)
    ensures Prepend(ds, Prepend([d], r)) == Prepend(ds + [d], r)
  {
    if r.DigestsRead? { assert ds + ([d] + r.digests) == (ds + [d]) + r.digests; }
  }

  lemma {:induction false} DigestsLengthSnoc(ds: seq<Digest>, d: Digest)
    ensures DigestsLength(ds + [d]) == DigestsLength(ds) + 2 + DigestSize(d.alg)
  {
    if ds != [] {
      DigestsLengthSnoc(ds[1..], d);
      assert (ds + [d])[1..] == ds[1..] + [d];
    }
  }

  /** Tags and stores each digest of a record in turn. In TXT mode the tags of every cell are made by appending
      to those of the last cell, which are still empty whenever they are read. */
  method AddRecord(m: Mode, r: Record, k: nat, logs: seq<PcrEventLog>) returns (out: Option<seq<PcrEventLog>>)
    ensures match RecordEntries(m, r, k)
            case Some(es) => out == Some(InsertAll(logs, es))
            case None => r.digests != [] ==> out == None
  {
    hide GetEventTag, Hex.Encode, BankName, TypeId, InsertAll;
    var name := TypeName(m.names, r.eventType, k);
    var n := |r.digests|;
    var pcr := new PcrData[n](i requires 0 <= i < n => PcrData(r.index, BankName(r.digests[i].alg)));
    var eventData := new TpmEvent[n](i requires 0 <= i < n => EntryOf(r, r.digests[i], name, []).event);
    var hashIndex := n - 1;
    var logs' := logs;
    ghost var es := RecordEntries(m, r, k);
    InsertAllNone(logs);
    for index := 0 to n
      invariant es == None ==> index == 0
      invariant es.Some? ==> logs' == InsertAll(logs, es.value[..index])
      invariant forall j :: 0 <= j < n ==> pcr[j] == PcrData(r.index, BankName(r.digests[j].alg))
      // the cells behind the current one have no tags yet, so neither has the last one
      invariant forall j :: index <= j < n ==> eventData[j] == EntryOf(r, r.digests[j], name, []).event
    {
      if !m.txt {
        var tags := GetEventTag(m.unicode, r.eventType, r.event, r.eventSize, r.index);
        if tags.TagPanic? { return None; }
        eventData[index] := eventData[index].(tags := if tags.Tags? then CleanAll(m.unicode, tags.tags) else []);
      } else if eventData[hashIndex].typeName != "" {
        eventData[index] := eventData[index].(tags := eventData[hashIndex].tags + [eventData[hashIndex].typeName]);
      }
      assert Entry(pcr[index], eventData[index]) == es.value[index];
      logs' := AddEntry(logs', Entry(pcr[index], eventData[index]));
      InsertAllNext(logs, es.value, index);
    }
    assert es.Some? ==> es.value[..n] == es.value;
    return Some(logs');
  }

  /** Reads the fields of one record off the buffer, advancing the cursor by each field's nominal width. */
  method ReadNextRecord(buf: ByteBuffer, offset: nat) returns (res: RecordResult, offset': nat)
    modifies buf
    ensures res == ReadRecord(old(buf.rest))
    ensures res.RecordRead? ==> buf.rest == res.rest && offset' == offset + ClaimedLength(res.record)
  {
    offset' := offset;
    var index := buf.ReadLittleEndian(4);
    if index == None { return Short, offset'; }
    offset' := offset' + 4;
    if index.value > 23 { return Stop, offset'; }
    var eventType := buf.ReadLittleEndian(4);
    if eventType == None { return Short, offset'; }
    offset' := offset' + 4;
    var count := buf.ReadLittleEndian(4);
    if count == None { return Short, offset'; }
    offset' := offset' + 4;
    if count.value == 0 || count.value > 5 { return Stop, offset'; }
    var ok, digests;
    ok, digests, offset' := ReadDigestList(buf, count.value, offset');
    if !ok { return Short, offset'; }
    var eventSize := buf.ReadLittleEndian(4);
    if eventSize == None { return Short, offset'; }
    offset' := offset' + 4;
    var event := buf.Next(eventSize.value);
    offset' := offset' + eventSize.value;
    res := RecordRead(Record(index.value, eventType.value, digests, eventSize.value, event), buf.rest);
  }

  method CreateMeasureLog(m: Mode, buf: ByteBuffer, size: nat, logs: seq<PcrEventLog>) returns (out: Outcome)
    modifies buf
    ensures out == ParseLoop(m, old(buf.rest), size, 0, logs)
  {
    hide ReadRecord, RecordEntries, Next501, ClaimedLength;
    ghost var b := buf.rest;
    var offset, k, logs' := 0, 0, logs;
    while offset < size
      invariant ParseLoop(m, buf.rest, size - offset, k, logs') == ParseLoop(m, b, size, 0, logs)
      // the cursor equals the bytes consumed whenever another record is read
      invariant size <= |b| && offset < size ==> offset + |buf.rest| == |b|
      decreases size - offset
    {
      RecordLengths(buf.rest);
      var res;
      res, offset := ReadNextRecord(buf, offset);
      if res == Short { return ReadError; }
      if res == Stop { break; }
      var r := res.record;
      var added := AddRecord(m, r, k, logs');
      if added == None { return Panic; }
      k := Next501(k, r.eventType);
      logs' := added.value;
    }
    return Parsed(logs');
  }

  method ParseTcgSpecEvent(buf: ByteBuffer, size: nat) returns (r: Option<nat>)
    requires size < 0x1_0000_0000
    modifies buf
    ensures match SkipHeader(old(buf.rest), size)
            case None => r == None
            case Some((rest, left)) => r == Some(left) && buf.rest == rest
  {
    ghost var b := buf.rest;
    var index := buf.ReadLittleEndian(4);
    if index == None { return None; }
    var eventType := buf.ReadLittleEndian(4);
    if eventType == None { return None; }
    var digest := buf.ReadLittleEndian(20);
    if digest == None { return None; }
    assert b[4..][4..][20..] == b[28..];
    var eventSize := buf.ReadLittleEndian(4);
    if eventSize == None { return None; }
    var event := buf.Next(eventSize.value);
    return Some((size - (eventSize.value + 32) % 0x1_0000_0000) % 0x1_0000_0000);
  }

  /** The file front end: one buffer threaded through the header skip and the record parse. */
  method GetEventLogs(m: Mode, file: seq<byte>) returns (out: Outcome)
    ensures out == ParseFile(m, file)
  {
    var buf := new ByteBuffer(file);
    var size := ParseTcgSpecEvent(buf, |file| % 0x1_0000_0000);
    if size == None { return ReadError; }
    out := CreateMeasureLog(m, buf, size.value, []);
  }

  // ----- the record format -----

  function EncodeDigests(ds: seq<Digest>): seq<byte> {
    if ds == [] then [] else LittleEndian(ds[0].alg, 2) + ds[0].data + EncodeDigests(ds[1..])
  }

  /** TCG_PCR_EVENT2. */
  function EncodeRecord(r: Record): seq<byte> {
    LittleEndian(r.index, 4) + (LittleEndian(r.eventType, 4) + (LittleEndian(|r.digests|, 4) +
    (EncodeDigests(r.digests) + (LittleEndian(r.eventSize, 4) + r.event))))
  }

  /** Every digest is as long as its algorithm says; an algorithm the parser does not know has none. */
  ghost predicate FullDigests(ds: seq<Digest>) {
    forall i :: 0 <= i < |ds| ==> ds[i].alg < 0x1_0000 && |ds[i].data| == DigestSize(ds[i].alg)
  }

  /** What a record can be, apart from the length of its payload. */
  ghost predicate RecordShape(r: Record) {
    && r.index <= 23 && r.eventType < 0x1_0000_0000 && r.eventSize < 0x1_0000_0000
    && 1 <= |r.digests| <= 5 && FullDigests(r.digests)
  }

  lemma {:induction false} EncodeDigestsLength(ds: seq<Digest>)
    requires FullDigests(ds)
    ensures |EncodeDigests(ds)| == DigestsLength(ds) >= 2 * |ds|
  {
    if ds != [] { EncodeDigestsLength(ds[1..]); }
  }

  /** Bytes left over after the digests mean every digest was read in full. */
  lemma {:induction false} DigestsExact(b: seq<byte>, n: nat)
    requires ReadDigests(b, n).DigestsRead?
    ensures var r := ReadDigests(b, n);
            |r.digests| == n && (r.rest != [] ==> FullDigests(r.digests) && b == EncodeDigests(r.digests) + r.rest)
    decreases n
  {
    hide ReadDigest, EncodeDigests, FullDigests;
    if n == 0 {
      NoDigestsEncoded(b);
    } else {
      var d := ReadDigest(b);
      DigestExact(b);
      DigestsExact(d.rest, n - 1);
      var r := ReadDigests(d.rest, n - 1);
      if r.rest != [] {
        assert d.digests == [d.digests[0]];
        assert d.rest != [] by { RestNonEmpty(d.rest, n - 1); }
        EncodeDigestsCons(d.digests[0], r.digests);
        var head := LittleEndian(d.digests[0].alg, 2) + d.digests[0].data;
        Assoc(head, EncodeDigests(r.digests), r.rest);
      }
    }
  }

  lemma {:induction false} RestNonEmpty(b: seq<byte>, n: nat)
    requires ReadDigests(b, n).DigestsRead? && ReadDigests(b, n).rest != []
    ensures b != []
    decreases n
  {
    if n > 0 && ReadDigest(b).DigestsRead? { RestNonEmpty(ReadDigest(b).rest, n - 1); }
  }

  lemma NoDigestsEncoded(b: seq<byte>)
    ensures FullDigests([]) && EncodeDigests([]) + b == b
  {
  }

  lemma EncodeDigestsCons(d: Digest, ds: seq<Digest>)
    ensures EncodeDigests([d] + ds) == LittleEndian(d.alg, 2) + d.data + EncodeDigests(ds)
    ensures FullDigests([d]) && FullDigests(ds) ==> FullDigests([d] + ds)
  {
    var all := [d] + ds;
    assert all[0] == d && all[1..] == ds;
    if FullDigests([d]) && FullDigests(ds) {
      forall i | 0 <= i < |all| ensures all[i].alg < 0x1_0000 && |all[i].data| == DigestSize(all[i].alg) {
        if i == 0 { assert [d][0] == d; } else { assert all[i] == ds[i - 1]; }
      }
    }
  }

  lemma DigestExact(b: seq<byte>)
    requires ReadDigest(b).DigestsRead?
    ensures var r := ReadDigest(b);
            && |r.digests| == 1
            && (r.rest != [] ==> FullDigests(r.digests) && b == LittleEndian(r.digests[0].alg, 2) + r.digests[0].data + r.rest)
  {
    ReadUintExact(b, 2);
    Widths();
    var got := ReadUint(b, 2);
    var n := DigestSize(got.value);
    assert got.rest == Take(got.rest, n) + Drop(got.rest, n);
  }

  /** A record that is read is the encoding at the front of the buffer, except that its payload may
      be cut short; then the buffer is empty and the cursor has passed its end. */
  lemma {:induction false} RecordExact(b: seq<byte>)
    requires ReadRecord(b).RecordRead?
    ensures var r := ReadRecord(b);
            && RecordShape(r.record)
            && |r.record.event| <= r.record.eventSize
            && b == EncodeRecord(r.record) + r.rest
            && |EncodeRecord(r.record)| == 16 + DigestsLength(r.record.digests) + |r.record.event|
            && (|r.record.event| < r.record.eventSize ==> r.rest == [] && ClaimedLength(r.record) > |b|)
  {
    hide LittleEndian, FromLittleEndian, EncodeDigests, ReadDigests, DigestsLength;
    var g1 := ReadUint(b, 4);
    var g2 := ReadUint(g1.rest, 4);
    var g3 := ReadUint(g2.rest, 4);
    var ds := ReadDigests(g3.rest, g3.value);
    var g5 := ReadUint(ds.rest, 4);
    ReadUintExact(b, 4);
    ReadUintExact(g1.rest, 4);
    ReadUintExact(g2.rest, 4);
    DigestsExact(g3.rest, g3.value);
    ReadUintExact(ds.rest, 4);
    EncodeDigestsLength(ds.digests);
    Widths();
    var r := ReadRecord(b);
    assert g5.rest == r.record.event + r.rest;
    Regroup(LittleEndian(g1.value, 4), LittleEndian(g2.value, 4), LittleEndian(g3.value, 4),
            EncodeDigests(ds.digests), LittleEndian(g5.value, 4), r.record.event, r.rest);
  }

  lemma Regroup(a: seq<byte>, b: seq<byte>, c: seq<byte>, d: seq<byte>, e: seq<byte>, f: seq<byte>, rest: seq<byte>)
    ensures (a + (b + (c + (d + (e + f))))) + rest == a + (b + (c + (d + (e + (f + rest)))))
  {
    Assoc(a, b + (c + (d + (e + f))), rest);
    Assoc(b, c + (d + (e + f)), rest);
    Assoc(c, d + (e + f), rest);
    Assoc(d, e + f, rest);
    Assoc(e, f, rest);
  }

  /** The cursor arithmetic of one record. */
  lemma {:induction false} RecordLengths(b: seq<byte>)
    ensures var r := ReadRecord(b);
            r.RecordRead? ==> r.record.digests != [] && ClaimedLength(r.record) > 0 && (|b| == ClaimedLength(r.record) + |r.rest| || (r.rest == [] && ClaimedLength(r.record) > |b|))
  {
    if ReadRecord(b).RecordRead? { RecordExact(b); }
  }
}
