/** What the event-log parser guarantees: for every byte string, and for every encoded log. */
module EventLogTheorems {
  import opened Bytes
  import opened Buffer
  import opened EventLog
  import opened EventTag
  import opened EventParser
  import Hex

  // ----- arbitrary bytes -----

  function BankSize(bank: string): nat {
    if bank == "SHA1" then 20 else if bank == "SHA256" then 32 else if bank == "SHA384" then 48
    else if bank == "SHA512" then 64 else if bank == "SM3_256" then 32 else 0
  }

  /** A stored digest: a PCR that exists, and lower-case hex of exactly its bank's digest size;
      an unknown algorithm leaves both bank and measurement empty. */
  ghost predicate WellShaped(e: Entry) {
    && e.pcr.index <= 23
    && |e.event.measurement| == 2 * BankSize(e.pcr.bank)
    && Hex.IsLowerHex(e.event.measurement)
    && (e.pcr.bank == "" <==> e.event.measurement == "")
  }

  lemma BankSizeOfName(alg: nat)
    ensures BankSize(BankName(alg)) == DigestSize(alg)
    ensures BankName(alg) == "" <==> DigestSize(alg) == 0
  {
  }

  lemma EntryWellShaped(r: Record, d: Digest, name: string, tags: seq<string>)
    requires r.index <= 23 && |d.data| == DigestSize(d.alg)
    ensures WellShaped(EntryOf(r, d, name, tags))
  {
    hide BankSize, BankName;
    BankSizeOfName(d.alg);
    Hex.EncodeIsLowerHex(d.data);
  }

  ghost predicate AllWellShaped(es: seq<Entry>) {
    forall e :: e in es ==> WellShaped(e)
  }

  lemma RecordEntriesWellShaped(m: Mode, r: Record, k: nat)
    requires RecordShape(r) && RecordEntries(m, r, k).Some?
    ensures AllWellShaped(RecordEntries(m, r, k).value)
  {
    hide WellShaped, EntryOf, GetEventTag, CleanAll;
    var name := TypeName(m.names, r.eventType, k);
    var tags := RecordTags(m, r, name).value;
    forall i | 0 <= i < |r.digests| ensures WellShaped(EntryOf(r, r.digests[i], name, tags)) {
      EntryWellShaped(r, r.digests[i], name, tags);
    }
  }

  /** The tags are the name of the event type, or nothing for an event without a name. */
  predicate NamedTags(e: Entry) {
    e.event.tags == if e.event.typeName == "" then [] else [e.event.typeName]
  }

  ghost predicate AllNamed(es: seq<Entry>) {
    forall e :: e in es ==> NamedTags(e)
  }

  lemma RecordEntriesNamed(m: Mode, r: Record, k: nat)
    requires m.txt && RecordEntries(m, r, k).Some?
    ensures AllNamed(RecordEntries(m, r, k).value)
  {
    var name := TypeName(m.names, r.eventType, k);
    forall i | 0 <= i < |r.digests| ensures NamedTags(EntryOf(r, r.digests[i], name, RecordTags(m, r, name).value)) {
    }
  }

  /** A record spends at least 26 bytes for every 5 digests it brings. */
  lemma {:induction false} RecordCost(b: seq<byte>)
    requires ReadRecord(b).RecordRead?
    ensures RecordShape(ReadRecord(b).record)
    ensures 26 * |ReadRecord(b).record.digests| + 5 * |ReadRecord(b).rest| <= 5 * |b|
  {
    hide ReadRecord, EncodeRecord;
    RecordExact(b);
    EncodeDigestsLength(ReadRecord(b).record.digests);
  }

  /** Any successful parse only inserts well-shaped digests, and few of them. */
  lemma {:induction false} ParseInserts(m: Mode, b: seq<byte>, remaining: int, k: nat, logs: seq<PcrEventLog>)
      returns (es: seq<Entry>)
    requires ParseLoop(m, b, remaining, k, logs).Parsed?
    ensures ParseLoop(m, b, remaining, k, logs).logs == InsertAll(logs, es)
    ensures AllWellShaped(es) && 26 * |es| <= 5 * |b| && (m.txt ==> AllNamed(es))
    decreases remaining
  {
    hide ReadRecord, RecordEntries, WellShaped, NamedTags, ClaimedLength, Next501, InsertAll;
    var res := ReadRecord(b);
    if remaining <= 0 || res.Stop? {
      InsertAllNone(logs);
      return [];
    }
    var r := res.record;
    RecordCost(b);
    RecordLengths(b);
    RecordEntriesWellShaped(m, r, k);
    if m.txt { RecordEntriesNamed(m, r, k); }
    var first := RecordEntries(m, r, k).value;
    var more := ParseInserts(m, res.rest, remaining - ClaimedLength(r), Next501(k, r.eventType), InsertAll(logs, first));
    InsertAllConcat(logs, first, more);
    es := first + more;
  }

  /** For every byte string and declared size, a successful parse from an empty log stores only
      well-shaped digests, at most five for every 26 bytes of input. */
  lemma {:induction false} ArbitraryBytes(m: Mode, b: seq<byte>, size: nat)
    requires ParseLoop(m, b, size, 0, []).Parsed?
    ensures var logs := ParseLoop(m, b, size, 0, []).logs;
            AllWellShaped(Flatten(logs)) && 26 * |Flatten(logs)| <= 5 * |b| && Distinct(Keys(logs))
  {
    hide WellShaped, ParseLoop, Flatten, InsertAll, FirstKeys, EventsOf;
    var es := ParseInserts(m, b, size, 0, []);
    var logs := ParseLoop(m, b, size, 0, []).logs;
    StoredDigests(es);
    InsertAllIsGroups(es);
    FirstKeysMeaning(es);
    forall i | 0 <= i < |logs| ensures Keys(logs)[i] == FirstKeys(es)[i] {
      assert Groups(es)[i].pcr == FirstKeys(es)[i];
    }
  }

  /** The log holds the inserted digests and no others. */
  lemma StoredDigests(es: seq<Entry>)
    ensures var stored := Flatten(InsertAll([], es)); |stored| == |es| && forall e :: e in stored <==> e in es
  {
    hide InsertAll;
    var stored := Flatten(InsertAll([], es));
    InsertAllConserves([], es);
    assert Bag([]) == multiset{};
    assert multiset(stored) == multiset(es);
    assert |stored| == |multiset(stored)| == |multiset(es)| == |es|;
    forall e ensures e in stored <==> e in es {
      assert e in multiset(stored) <==> e in multiset(es);
    }
  }

  /** In TXT mode, for every byte string and declared size: every digest the parser stores, of whatever bank,
      is tagged with exactly its own type name, or not at all when it has none. */
  lemma {:induction false} TxtTags(m: Mode, b: seq<byte>, size: nat)
    requires m.txt && ParseLoop(m, b, size, 0, []).Parsed?
    ensures AllNamed(Flatten(ParseLoop(m, b, size, 0, []).logs))
  {
    hide WellShaped, NamedTags, ParseLoop, Flatten, InsertAll;
    var es := ParseInserts(m, b, size, 0, []);
    StoredDigests(es);
  }

  // ----- the cursor -----

  /** The bytes left and the declared size left after n records, if the parser gets that far. */
  function AfterRecords(b: seq<byte>, size: int, n: nat): Option<(seq<byte>, int)> {
    if n == 0 then Some((b, size)) else
    match AfterRecords(b, size, n - 1)
    case None => None
    case Some((b', left)) =>
      if left <= 0 then None else
      match ReadRecord(b')
      case RecordRead(r, rest) => Some((rest, left - ClaimedLength(r)))
      case _ => None
  }

  /** With a declared size within the buffer, whenever another record is to be read the cursor equals the
      bytes consumed, although reads may come up short; every record moves it by at least 18 bytes. */
  lemma {:induction false} CursorInvariant(b: seq<byte>, size: int, n: nat)
    requires size <= |b| && AfterRecords(b, size, n).Some?
    ensures var (rest, left) := AfterRecords(b, size, n).value;
            && size - left >= 18 * n
            && |rest| <= |b| && rest == b[|b| - |rest|..]
            && (left > 0 ==> size - left == |b| - |rest|)
  {
    hide ReadRecord, EncodeRecord;
    if n > 0 {
      CursorInvariant(b, size, n - 1);
      var (b', left) := AfterRecords(b, size, n - 1).value;
      RecordExact(b');
      var r := ReadRecord(b');
      EncodeDigestsLength(r.record.digests);
      assert r.rest == b'[|b'| - |r.rest|..];
    }
  }

  // ----- encoded logs -----

  /** A record as the specification writes it. */
  ghost predicate WellFormed(r: Record) {
    RecordShape(r) && |r.event| == r.eventSize
  }

  ghost predicate AllWellFormed(rs: seq<Record>) {
    forall i :: 0 <= i < |rs| ==> WellFormed(rs[i])
  }

  function EncodeAll(rs: seq<Record>): seq<byte> {
    if rs == [] then [] else EncodeRecord(rs[0]) + EncodeAll(rs[1..])
  }

  /** The digests of a list of records, in order; None when some payload makes the tag reader panic. */
  function Entries(m: Mode, rs: seq<Record>, k: nat): Option<seq<Entry>> {
    if rs == [] then Some([]) else
    match RecordEntries(m, rs[0], k)
    case None => None
    case Some(es) =>
      match Entries(m, rs[1..], Next501(k, rs[0].eventType))
      case None => None
      case Some(more) => Some(es + more)
  }

  function Count501(rs: seq<Record>): nat {
    if rs == [] then 0 else Next501(0, rs[0].eventType) + Count501(rs[1..])
  }

  lemma {:induction false} ReadEncodedDigests(ds: seq<Digest>, tail: seq<byte>)
    requires FullDigests(ds)
    ensures ReadDigests(EncodeDigests(ds) + tail, |ds|) == DigestsRead(ds, tail)
  {
    if ds == [] {
      assert EncodeDigests(ds) + tail == tail;
    } else {
      var more := EncodeDigests(ds[1..]) + tail;
      ReadEncodedDigests(ds[1..], tail);
      ReadEncodedDigest(ds[0], more);
      Assoc(LittleEndian(ds[0].alg, 2) + ds[0].data, EncodeDigests(ds[1..]), tail);
      assert [ds[0]] + ds[1..] == ds;
    }
  }

  lemma ReadEncodedDigest(d: Digest, tail: seq<byte>)
    requires d.alg < 0x1_0000 && |d.data| == DigestSize(d.alg)
    ensures ReadDigest(LittleEndian(d.alg, 2) + d.data + tail) == DigestsRead([d], tail)
  {
    Widths();
    Assoc(LittleEndian(d.alg, 2), d.data, tail);
    ReadUintEncoded(d.alg, 2, d.data + tail);
    assert Take(d.data + tail, |d.data|) == d.data && Drop(d.data + tail, |d.data|) == tail;
  }

  /** Reading a record back from its encoding, whatever follows. */
  lemma {:induction false} ReadEncodedRecord(r: Record, tail: seq<byte>)
    requires RecordShape(r) && |r.event| == r.eventSize
    ensures ReadRecord(EncodeRecord(r) + tail) == RecordRead(r, tail)
    ensures |EncodeRecord(r)| == ClaimedLength(r)
  {
    hide LittleEndian, EncodeDigests, ReadDigests, DigestsLength, ReadUint;
    Widths();
    EncodeDigestsLength(r.digests);
    var b5 := r.event + tail;
    var b4 := LittleEndian(r.eventSize, 4) + b5;
    var b3 := EncodeDigests(r.digests) + b4;
    var b2 := LittleEndian(|r.digests|, 4) + b3;
    var b1 := LittleEndian(r.eventType, 4) + b2;
    Regroup(LittleEndian(r.index, 4), LittleEndian(r.eventType, 4), LittleEndian(|r.digests|, 4),
            EncodeDigests(r.digests), LittleEndian(r.eventSize, 4), r.event, tail);
    ReadUintEncoded(r.index, 4, b1);
    ReadUintEncoded(r.eventType, 4, b2);
    ReadUintEncoded(|r.digests|, 4, b3);
    ReadEncodedDigests(r.digests, b4);
    ReadUintEncoded(r.eventSize, 4, b5);
    assert Take(b5, r.eventSize) == r.event && Drop(b5, r.eventSize) == tail;
  }

  /** The parser over an encoded list followed by anything: it inserts exactly the list's digests and
      carries on, with the cursor and the 0x501 counter where they should be. */
  lemma {:induction false} ParseEncoded(m: Mode, rs: seq<Record>, tail: seq<byte>, extra: nat, k: nat, logs: seq<PcrEventLog>)
    requires AllWellFormed(rs)
    ensures ParseLoop(m, EncodeAll(rs) + tail, |EncodeAll(rs)| + extra, k, logs) ==
            match Entries(m, rs, k)
            case None => Panic
            case Some(es) => ParseLoop(m, tail, extra, k + Count501(rs), InsertAll(logs, es))
  {
    hide ReadRecord, EncodeRecord, RecordEntries, Is501, ClaimedLength, WellFormed, InsertAll;
    if rs == [] {
      assert EncodeAll(rs) + tail == tail;
      InsertAllNone(logs);
    } else {
      var r, rest := rs[0], rs[1..];
      ReadWellFormed(r, EncodeAll(rest) + tail);
      Assoc(EncodeRecord(r), EncodeAll(rest), tail);
      var first := RecordEntries(m, r, k);
      if first.Some? {
        ParseEncoded(m, rest, tail, extra, Next501(k, r.eventType), InsertAll(logs, first.value));
        if Entries(m, rest, Next501(k, r.eventType)).Some? {
          InsertAllConcat(logs, first.value, Entries(m, rest, Next501(k, r.eventType)).value);
        }
      }
    }
  }

  lemma {:induction false} ReadWellFormed(r: Record, tail: seq<byte>)
    requires WellFormed(r)
    ensures ReadRecord(EncodeRecord(r) + tail) == RecordRead(r, tail)
    ensures |EncodeRecord(r)| == ClaimedLength(r) > 0
  {
    ReadEncodedRecord(r, tail);
  }

  lemma {:induction false} ParseWhole(m: Mode, rs: seq<Record>, logs: seq<PcrEventLog>)
    requires AllWellFormed(rs)
    ensures ParseLoop(m, EncodeAll(rs), |EncodeAll(rs)|, 0, logs) ==
            match Entries(m, rs, 0)
            case None => Panic
            case Some(es) => Parsed(InsertAll(logs, es))
  {
    hide EncodeAll, Entries, WellFormed, InsertAll;
    ParseEncoded(m, rs, [], 0, 0, logs);
    assert EncodeAll(rs) + [] == EncodeAll(rs);
  }

  // ----- the whole file -----

  /** TCG_PCClientPCREvent. */
  datatype Header = Header(index: nat, eventType: nat, digest: seq<byte>, payload: seq<byte>)

  function EncodeHeader(h: Header): seq<byte> {
    LittleEndian(h.index, 4) + LittleEndian(h.eventType, 4) + h.digest + (LittleEndian(|h.payload|, 4) + h.payload)
  }

  lemma SkipEncodedHeader(h: Header, tail: seq<byte>)
    requires |h.digest| == 20
    requires |EncodeHeader(h) + tail| < 0x1_0000_0000
    ensures |EncodeHeader(h)| == 32 + |h.payload|
    ensures SkipHeader(EncodeHeader(h) + tail, |EncodeHeader(h) + tail|) == Some((tail, |tail|))
  {
    hide LittleEndian, ReadUint;
    Widths();
    var fixed := LittleEndian(h.index, 4) + LittleEndian(h.eventType, 4) + h.digest;
    var b := EncodeHeader(h) + tail;
    assert b[28..] == LittleEndian(|h.payload|, 4) + (h.payload + tail) by {
      Slice(b, [], fixed, (LittleEndian(|h.payload|, 4) + h.payload) + tail);
      Assoc(LittleEndian(|h.payload|, 4), h.payload, tail);
    }
    ReadUintEncoded(|h.payload|, 4, h.payload + tail);
    assert Drop(h.payload + tail, |h.payload|) == tail;
    assert (|h.payload| + 32) % 0x1_0000_0000 == |h.payload| + 32;
    assert |tail| % 0x1_0000_0000 == |tail|;
  }

  /** For every header and every list of well-formed records, parsing the file they encode returns
      exactly their digests as hex, grouped by (index, bank) in order of first occurrence. */
  lemma {:induction false} WholeLogRoundTrip(m: Mode, h: Header, rs: seq<Record>)
    requires |h.digest| == 20 && AllWellFormed(rs)
    requires |EncodeHeader(h) + EncodeAll(rs)| < 0x1_0000_0000
    ensures ParseFile(m, EncodeHeader(h) + EncodeAll(rs)) ==
            match Entries(m, rs, 0)
            case None => Panic
            case Some(es) => Parsed(Groups(es))
  {
    hide EncodeHeader, EncodeAll, SkipHeader, Entries, Groups, InsertAll, WellFormed, ParseLoop;
    SkipEncodedHeader(h, EncodeAll(rs));
    ParseWhole(m, rs, []);
    if Entries(m, rs, 0).Some? { InsertAllIsGroups(Entries(m, rs, 0).value); }
  }

  // ----- padding -----

  /** What ends a log: an index above 23, or a digest count outside 1..5. */
  lemma StopExactly(b: seq<byte>)
    ensures ReadRecord(b).Stop? <==>
            |b| >= 4 && (FromLittleEndian(b[..4]) > 23 ||
              (|b| >= 12 && FromLittleEndian(b[8..12]) !in {1, 2, 3, 4, 5}))
  {
    hide FromLittleEndian, ReadDigests;
    if |b| >= 12 { assert b[4..][4..][..4] == b[8..12]; }
  }

  lemma {:induction false} ZerosAreZero(s: seq<byte>)
    requires forall i :: 0 <= i < |s| ==> s[i] == 0
    ensures FromLittleEndian(s) == 0
  {
    if s != [] { ZerosAreZero(s[1..]); }
  }

  lemma ZeroPaddingStops(pad: seq<byte>)
    requires |pad| >= 12 && forall i :: 0 <= i < 12 ==> pad[i] == 0
    ensures ReadRecord(pad).Stop?
  {
    StopExactly(pad);
    ZerosAreZero(pad[8..12]);
  }

  /** Padding that ends the log does not change the result, however large the declared size. */
  lemma {:induction false} Padding(m: Mode, rs: seq<Record>, pad: seq<byte>, extra: nat, logs: seq<PcrEventLog>)
    requires AllWellFormed(rs)
    requires (|pad| >= 12 && forall i :: 0 <= i < 12 ==> pad[i] == 0) || (|pad| >= 4 && FromLittleEndian(pad[..4]) > 23)
    ensures ParseLoop(m, EncodeAll(rs) + pad, |EncodeAll(rs)| + extra, 0, logs) ==
            ParseLoop(m, EncodeAll(rs), |EncodeAll(rs)|, 0, logs)
  {
    hide EncodeAll, Entries, WellFormed, ReadRecord, InsertAll, FromLittleEndian;
    StopExactly(pad);
    if FromLittleEndian(pad[..4]) <= 23 { ZeroPaddingStops(pad); }
    ParseEncoded(m, rs, pad, extra, 0, logs);
    ParseWhole(m, rs, logs);
  }

  // ----- names, and what the 0x501 counter does -----

  lemma Is501Exactly(t: nat)
    ensures Is501(t) <==> t == 0x501
  {
    assert Hex.OfNat(0x501) == "501" by {
      assert Hex.OfNat(0x5) == "5" && Hex.OfNat(0x50) == "50";
    }
    if Is501(t) {
      assert TypeId(t)[2..] == Hex.OfNat(t) && "0x501"[2..] == "501";
      Hex.OfNatInjective(t, 0x501);
    }
  }

  function DigestCount(rs: seq<Record>): nat {
    if rs == [] then 0 else |rs[0].digests| + DigestCount(rs[1..])
  }

  /** The j-th digest of the i-th record sits at its place, and is named and tagged as its record is:
      a 0x501 record by its rank among the 0x501 records of the call, every digest of it alike. */
  lemma {:induction false} EntryAt(m: Mode, rs: seq<Record>, k: nat, i: nat, j: nat)
    requires Entries(m, rs, k).Some? && i < |rs| && j < |rs[i].digests|
    ensures DigestCount(rs[..i]) + j < |Entries(m, rs, k).value|
    ensures var name := TypeName(m.names, rs[i].eventType, k + Count501(rs[..i]));
            var tags := RecordTags(m, rs[i], name);
            tags.Some? && Entries(m, rs, k).value[DigestCount(rs[..i]) + j] == EntryOf(rs[i], rs[i].digests[j], name, tags.value)
  {
    hide RecordTags, TypeName, EntryOf, Is501;
    if i > 0 {
      EntryAt(m, rs[1..], Next501(k, rs[0].eventType), i - 1, j);
      assert rs[..i][0] == rs[0] && rs[..i][1..] == rs[1..][..i - 1];
    }
  }

  /** The name of every digest of a record: the table's name for its type if there is one; for the k-th
      0x501 record of the call tb_policy (k = 0, 1), vmlinuz, initrd, asset-tag, then nothing. */
  lemma {:induction false} NameOfRecord(m: Mode, rs: seq<Record>, i: nat, j: nat)
    requires Entries(m, rs, 0).Some? && i < |rs| && j < |rs[i].digests|
    ensures DigestCount(rs[..i]) + j < |Entries(m, rs, 0).value|
    ensures var t := rs[i].eventType;
            Entries(m, rs, 0).value[DigestCount(rs[..i]) + j].event.typeName ==
            if t in m.names then m.names[t] else if t == 0x501 then Name501(Count501(rs[..i])) else ""
  {
    hide RecordTags, Entries, Name501, Is501;
    EntryAt(m, rs, 0, i, j);
    Is501Exactly(rs[i].eventType);
  }

  /** The next n names are the same from either counter value. */
  predicate NamesAgree(k: nat, k': nat, n: nat)
    decreases n
  {
    n == 0 || (Name501(k) == Name501(k') && NamesAgree(k + 1, k' + 1, n - 1))
  }

  /** Parsing the same records with another counter value changes nothing but the names of 0x501 records. */
  lemma {:induction false} EntriesAgree(m: Mode, rs: seq<Record>, k: nat, k': nat)
    requires AllWellFormed(rs) && 0x501 !in m.names
    ensures Entries(m, rs, k).Some? <==> Entries(m, rs, k').Some?
    ensures Entries(m, rs, k).Some? ==>
            var a, b := Entries(m, rs, k).value, Entries(m, rs, k').value;
            SameKeys(a, b) && (a == b <==> NamesAgree(k, k', Count501(rs)))
  {
    hide EntryOf, RecordEntries, Is501, Name501;
    if rs != [] {
      var r := rs[0];
      RecordEntriesAgree(m, r, k, k');
      EntriesAgree(m, rs[1..], Next501(k, r.eventType), Next501(k', r.eventType));
      if Entries(m, rs, k).Some? {
        var a1, b1 := RecordEntries(m, r, k).value, RecordEntries(m, r, k').value;
        var a2 := Entries(m, rs[1..], Next501(k, r.eventType)).value;
        var b2 := Entries(m, rs[1..], Next501(k', r.eventType)).value;
        assert a1 + a2 == b1 + b2 <==> a1 == b1 && a2 == b2 by { SplitEqual(a1, a2, b1, b2); }
      }
    }
  }

  lemma SplitEqual<T>(a1: seq<T>, a2: seq<T>, b1: seq<T>, b2: seq<T>)
    requires |a1| == |b1|
    ensures a1 + a2 == b1 + b2 <==> a1 == b1 && a2 == b2
  {
    if a1 + a2 == b1 + b2 {
      assert (a1 + a2)[..|a1|] == a1 && (b1 + b2)[..|b1|] == b1;
      assert (a1 + a2)[|a1|..] == a2 && (b1 + b2)[|b1|..] == b2;
    }
  }

  lemma RecordEntriesAgree(m: Mode, r: Record, k: nat, k': nat)
    requires WellFormed(r) && 0x501 !in m.names
    ensures RecordEntries(m, r, k).Some? <==> RecordEntries(m, r, k').Some?
    ensures RecordEntries(m, r, k).Some? ==>
            var a, b := RecordEntries(m, r, k).value, RecordEntries(m, r, k').value;
            SameKeys(a, b) && (a == b <==> (Is501(r.eventType) ==> Name501(k) == Name501(k')))
  {
    hide GetEventTag, CleanAll, Name501;
    Is501Exactly(r.eventType);
    if RecordEntries(m, r, k).Some? {
      var a, b := RecordEntries(m, r, k).value, RecordEntries(m, r, k').value;
      assert a[0].event.typeName == TypeName(m.names, r.eventType, k);
      assert b[0].event.typeName == TypeName(m.names, r.eventType, k');
    }
  }

  // ----- parsing in two calls -----

  lemma {:induction false} EntriesConcat(m: Mode, a: seq<Record>, b: seq<Record>, k: nat)
    ensures Entries(m, a + b, k) ==
            match Entries(m, a, k)
            case None => None
            case Some(x) => (match Entries(m, b, k + Count501(a)) case None => None case Some(y) => Some(x + y))
  {
    hide RecordEntries, Is501;
    if a == [] {
      assert a + b == b;
      if Entries(m, b, k).Some? { assert [] + Entries(m, b, k).value == Entries(m, b, k).value; }
    } else {
      EntriesConcat(m, a[1..], b, Next501(k, a[0].eventType));
      assert (a + b)[0] == a[0] && (a + b)[1..] == a[1..] + b;
      if Entries(m, a + b, k).Some? {
        var x1 := RecordEntries(m, a[0], k).value;
        var x2 := Entries(m, a[1..], Next501(k, a[0].eventType)).value;
        var y := Entries(m, b, k + Count501(a)).value;
        assert x1 + (x2 + y) == (x1 + x2) + y;
      }
    }
  }

  function ParseTwice(m: Mode, a: seq<byte>, b: seq<byte>, logs: seq<PcrEventLog>): Outcome {
    match ParseLoop(m, a, |a|, 0, logs)
    case Parsed(logs') => ParseLoop(m, b, |b|, 0, logs')
    case bad => bad
  }

  /** Two calls that thread the log equal one call on the concatenation exactly when the counter's
      restart is invisible: a list without 0x501 records, or one such record on each side. */
  lemma {:induction false} Resumption(m: Mode, a: seq<Record>, b: seq<Record>, logs: seq<PcrEventLog>)
    requires AllWellFormed(a) && AllWellFormed(b) && 0x501 !in m.names
    ensures ParseTwice(m, EncodeAll(a), EncodeAll(b), logs) == ParseLoop(m, EncodeAll(a + b), |EncodeAll(a + b)|, 0, logs)
       <==> Entries(m, a + b, 0) == None ||
            Count501(a) == 0 || Count501(b) == 0 || (Count501(a) == 1 && Count501(b) == 1)
  {
    hide EncodeAll, Entries, WellFormed, InsertAll, ParseLoop, Count501, SameKeys, NamesAgree;
    EntriesConcat(m, a, b, 0);
    EntriesAgree(m, b, 0, Count501(a));
    ParseWhole(m, a, logs);
    AllWellFormedConcat(a, b);
    ParseWhole(m, a + b, logs);
    if Entries(m, a, 0).Some? { ParseWhole(m, b, InsertAll(logs, Entries(m, a, 0).value)); }
    if Entries(m, a + b, 0).Some? { ResumptionNames(m, a, b, logs); }
  }

  lemma AllWellFormedConcat(a: seq<Record>, b: seq<Record>)
    requires AllWellFormed(a) && AllWellFormed(b)
    ensures AllWellFormed(a + b)
  {
  }

  /** Without a panic, the two logs are equal exactly when the names of the second list are. */
  lemma {:induction false} ResumptionNames(m: Mode, a: seq<Record>, b: seq<Record>, logs: seq<PcrEventLog>)
    requires AllWellFormed(a) && AllWellFormed(b) && 0x501 !in m.names
    requires Entries(m, a, 0).Some? && Entries(m, b, 0).Some? && Entries(m, b, Count501(a)).Some?
    ensures InsertAll(InsertAll(logs, Entries(m, a, 0).value), Entries(m, b, 0).value) ==
            InsertAll(logs, Entries(m, a, 0).value + Entries(m, b, Count501(a)).value)
       <==> Count501(a) == 0 || Count501(b) == 0 || (Count501(a) == 1 && Count501(b) == 1)
  {
    hide Entries, WellFormed, InsertAll, Count501, SameKeys, NamesAgree;
    EntriesAgree(m, b, 0, Count501(a));
    var x := Entries(m, a, 0).value;
    var y, y0 := Entries(m, b, Count501(a)).value, Entries(m, b, 0).value;
    InsertAllConcat(logs, x, y);
    if InsertAll(InsertAll(logs, x), y0) == InsertAll(InsertAll(logs, x), y) {
      InsertAllInjective(InsertAll(logs, x), y0, y);
    }
    RestartInvisible(Count501(a), Count501(b));
  }

  lemma {:induction false} AgreesWithItself(k: nat, n: nat)
    ensures NamesAgree(k, k, n)
    decreases n
  {
    if n > 0 { AgreesWithItself(k + 1, n - 1); }
  }

  lemma RestartInvisible(a: nat, b: nat)
    ensures NamesAgree(0, a, b) <==> a == 0 || b == 0 || (a == 1 && b == 1)
  {
    if a == 0 {
      AgreesWithItself(0, b);
    } else if b > 1 {
      assert NamesAgree(0, a, b) ==> NamesAgree(1, a + 1, b - 1);
    }
  }
}
