/** What a parsed log holds: every digest of every record, at its place, in the terms of the log's bytes. */
module EventLogContents {
  import opened Bytes
  import opened Buffer
  import opened EventLog
  import opened EventTag
  import opened EventParser
  import opened EventLogTheorems
  import Hex

  // ----- the bytes of a log -----

  /** Two and four bytes in little-endian order. */
  function Le16(b: seq<byte>, i: nat): nat
    requires i + 2 <= |b|
  {
    b[i] as int + 0x100 * b[i + 1] as int
  }

  function Le32(b: seq<byte>, i: nat): nat
    requires i + 4 <= |b|
  {
    b[i] as int + 0x100 * b[i + 1] as int + 0x1_0000 * b[i + 2] as int + 0x100_0000 * b[i + 3] as int
  }

  /** TCG_PCR_EVENT2: index, event type and digest count, then the digests, then the size and the payload. */
  lemma RecordLayout(r: Record, tail: seq<byte>)
    requires RecordShape(r)
    ensures var b := EncodeRecord(r) + tail;
            var n := 12 + |EncodeDigests(r.digests)|;
            && |b| >= n + 4 + |r.event|
            && Le32(b, 0) == r.index && Le32(b, 4) == r.eventType && Le32(b, 8) == |r.digests|
            && b[12..n] == EncodeDigests(r.digests)
            && Le32(b, n) == r.eventSize && b[n + 4..n + 4 + |r.event|] == r.event && b[n + 4 + |r.event|..] == tail
  {
    hide EncodeDigests, LittleEndian, RecordShape, Le32;
    ShapeBounds(r);
    var i, t, c, s := LittleEndian(r.index, 4), LittleEndian(r.eventType, 4), LittleEndian(|r.digests|, 4), LittleEndian(r.eventSize, 4);
    SixParts(i, t, c, EncodeDigests(r.digests), s, r.event, tail);
    FieldValues(r.index, r.eventType, |r.digests|, r.eventSize);
    var b := EncodeRecord(r) + tail;
    WordAt(b, 0);
    WordAt(b, 4);
    WordAt(b, 8);
    WordAt(b, 12 + |EncodeDigests(r.digests)|);
  }

  /** A four-byte field's value. */
  lemma FieldValues(a: nat, b: nat, c: nat, d: nat)
    requires a < 0x1_0000_0000 && b < 0x1_0000_0000 && c < 0x1_0000_0000 && d < 0x1_0000_0000
    ensures Le32(LittleEndian(a, 4), 0) == a && Le32(LittleEndian(b, 4), 0) == b
    ensures Le32(LittleEndian(c, 4), 0) == c && Le32(LittleEndian(d, 4), 0) == d
  {
    hide LittleEndian, FromLittleEndian, Le32;
    FieldValue(a);
    FieldValue(b);
    FieldValue(c);
    FieldValue(d);
  }

  lemma FieldValue(v: nat)
    requires v < 0x1_0000_0000
    ensures Le32(LittleEndian(v, 4), 0) == v
  {
    hide LittleEndian, FromLittleEndian;
    Widths();
    LittleEndianInverse(v, 4);
    LittleEndianValue(LittleEndian(v, 4));
  }

  lemma SixParts(p1: seq<byte>, p2: seq<byte>, p3: seq<byte>, p4: seq<byte>, p5: seq<byte>, p6: seq<byte>, tail: seq<byte>)
    ensures var b := (p1 + (p2 + (p3 + (p4 + (p5 + p6))))) + tail;
            var n1, n2 := |p1|, |p1| + |p2|;
            var n3, n4 := n2 + |p3|, n2 + |p3| + |p4|;
            var n5, n6 := n4 + |p5|, n4 + |p5| + |p6|;
            && |b| == n6 + |tail| && b[..n1] == p1 && b[n1..n2] == p2 && b[n2..n3] == p3 && b[n3..n4] == p4
            && b[n4..n5] == p5 && b[n5..n6] == p6 && b[n6..] == tail
  {
    Regroup(p1, p2, p3, p4, p5, p6, tail);
    var r5, r4 := p6 + tail, p5 + (p6 + tail);
    var r3 := p4 + r4;
    var r2 := p3 + r3;
    var r1 := p2 + r2;
    var b := p1 + r1;
    Behind(p1, r1, p2, r2);
    Behind(p1 + p2, r2, p3, r3);
    Behind(p1 + p2 + p3, r3, p4, r4);
    Behind(p1 + p2 + p3 + p4, r4, p5, r5);
    Behind(p1 + p2 + p3 + p4 + p5, r5, p6, tail);
  }

  /** One part more moves from what follows to what stands before. */
  lemma Behind(pre: seq<byte>, rest: seq<byte>, part: seq<byte>, post: seq<byte>)
    requires rest == part + post
    ensures pre + rest == (pre + part) + post
    ensures (pre + rest)[..|pre|] == pre && (pre + rest)[|pre|..|pre| + |part|] == part && (pre + rest)[|pre| + |part|..] == post
  {
  }

  /** A four-byte part, wherever it stands. */
  lemma WordAt(b: seq<byte>, n: nat)
    requires n + 4 <= |b|
    ensures Le32(b, n) == Le32(b[n..n + 4], 0)
  {
  }

  lemma ShapeBounds(r: Record)
    requires RecordShape(r)
    ensures r.index <= 23 && r.eventType < 0x1_0000_0000 && r.eventSize < 0x1_0000_0000 && |r.digests| <= 5
  {
  }

  /** Each digest is its algorithm number in two bytes, then its data, behind the digests before it. */
  lemma {:induction false} DigestLayout(ds: seq<Digest>, j: nat)
    requires FullDigests(ds) && j < |ds|
    ensures var b, n := EncodeDigests(ds), |EncodeDigests(ds[..j])|;
            && |b| >= n + 2 + |ds[j].data|
            && Le16(b, n) == ds[j].alg && b[n + 2..n + 2 + |ds[j].data|] == ds[j].data
            && EncodeDigests(ds[..j + 1]) == b[..n + 2 + |ds[j].data|]
  {
    hide FullDigests, LittleEndian;
    var head := LittleEndian(ds[0].alg, 2) + ds[0].data;
    if j == 0 {
      AlgorithmAt(ds, head, EncodeDigests(ds[1..]));
      assert ds[..1][0] == ds[0] && ds[..1][1..] == [] && ds[..0] == [];
      assert EncodeDigests(ds[..1]) == head + [] == head;
    } else {
      RestFull(ds);
      DigestLayout(ds[1..], j - 1);
      assert ds[..j][0] == ds[0] && ds[..j][1..] == ds[1..][..j - 1];
      assert ds[..j + 1][0] == ds[0] && ds[..j + 1][1..] == ds[1..][..j];
      hide EncodeDigests;
      Shifted(head, EncodeDigests(ds[1..]), |EncodeDigests(ds[1..][..j - 1])|, |ds[j].data|);
    }
  }

  lemma RestFull(ds: seq<Digest>)
    requires FullDigests(ds) && ds != []
    ensures FullDigests(ds[1..])
  {
  }

  lemma AlgorithmAt(ds: seq<Digest>, head: seq<byte>, rest: seq<byte>)
    requires FullDigests(ds) && ds != [] && head == LittleEndian(ds[0].alg, 2) + ds[0].data
    ensures var b := head + rest;
            |b| >= 2 + |ds[0].data| && Le16(b, 0) == ds[0].alg && b[2..2 + |ds[0].data|] == ds[0].data && b[..2 + |ds[0].data|] == head
  {
    hide LittleEndian, FromLittleEndian;
    Widths();
    LittleEndianInverse(ds[0].alg, 2);
    LittleEndianValue(LittleEndian(ds[0].alg, 2));
    var b := head + rest;
    assert b[0] == head[0] && b[1] == head[1];
  }

  lemma Shifted(head: seq<byte>, b: seq<byte>, n: nat, k: nat)
    requires n + 2 + k <= |b|
    ensures var c := head + b;
            && Le16(c, |head| + n) == Le16(b, n) && c[|head| + n + 2..|head| + n + 2 + k] == b[n + 2..n + 2 + k]
            && c[..|head| + n + 2 + k] == head + b[..n + 2 + k]
  {
  }

  /** TCG_PCClientPCREvent: index, event type, a 20-byte digest, and a sized payload. */
  lemma HeaderLayout(h: Header, tail: seq<byte>)
    requires h.index < 0x1_0000_0000 && h.eventType < 0x1_0000_0000 && |h.digest| == 20 && |h.payload| < 0x1_0000_0000
    ensures var b := EncodeHeader(h) + tail;
            && |b| >= 32 + |h.payload|
            && Le32(b, 0) == h.index && Le32(b, 4) == h.eventType && b[8..28] == h.digest
            && Le32(b, 28) == |h.payload| && b[32..32 + |h.payload|] == h.payload && b[32 + |h.payload|..] == tail
  {
    hide LittleEndian, Le32;
    var i, t, s := LittleEndian(h.index, 4), LittleEndian(h.eventType, 4), LittleEndian(|h.payload|, 4);
    HeaderAsParts(i, t, h.digest, s, h.payload);
    SixParts(i, t, h.digest, s, h.payload, [], tail);
    FieldValues(h.index, h.eventType, |h.payload|, 0);
    var b := EncodeHeader(h) + tail;
    WordAt(b, 0);
    WordAt(b, 4);
    WordAt(b, 28);
  }

  lemma HeaderAsParts(i: seq<byte>, t: seq<byte>, d: seq<byte>, s: seq<byte>, p: seq<byte>)
    ensures i + t + d + (s + p) == i + (t + (d + (s + (p + []))))
  {
    Assoc(i, t, d);
    Assoc(i, t + d, s + p);
    Assoc(t, d, s + p);
    assert p + [] == p;
  }

  /** Skipping the header of any file: at least 32 bytes must be there; the payload is skipped as far as it goes,
      and a header that claims more than the file leaves a size that wraps around. */
  lemma SkipHeaderExactly(b: seq<byte>, size: nat)
    requires size < 0x1_0000_0000
    ensures SkipHeader(b, size) == None <==> |b| < 32
    ensures |b| >= 32 ==>
      var claimed := Le32(b, 28);
      SkipHeader(b, size) == Some((if 32 + claimed <= |b| then b[32 + claimed..] else [],
        if claimed < 0x1_0000_0000 - 32 then (if 32 + claimed <= size then size - 32 - claimed else size - 32 - claimed + 0x1_0000_0000)
        else (var wrapped := claimed + 32 - 0x1_0000_0000; if wrapped <= size then size - wrapped else size - wrapped + 0x1_0000_0000)))
  {
    hide FromLittleEndian;
    if |b| >= 32 {
      var f := b[28..][..4];
      LittleEndianValue(f);
      assert f[0] == b[28] && f[1] == b[29] && f[2] == b[30] && f[3] == b[31];
      assert b[28..][4..] == b[32..];
      var claimed := Le32(b, 28);
      assert FromLittleEndian(f) == claimed;
      if 32 + claimed <= |b| {
        assert Drop(b[32..], claimed) == b[32 + claimed..];
      } else {
        assert Drop(b[32..], claimed) == [];
      }
      WrappedSize(size, claimed);
    }
  }

  lemma WrappedSize(size: nat, claimed: nat)
    requires size < 0x1_0000_0000 && claimed < 0x1_0000_0000
    ensures (size - (claimed + 32) % 0x1_0000_0000) % 0x1_0000_0000 ==
            if claimed < 0x1_0000_0000 - 32 then (if 32 + claimed <= size then size - 32 - claimed else size - 32 - claimed + 0x1_0000_0000)
            else (var wrapped := claimed + 32 - 0x1_0000_0000; if wrapped <= size then size - wrapped else size - wrapped + 0x1_0000_0000)
  {
  }

  // ----- what is stored for a digest -----

  ghost predicate KnownAlgorithm(alg: nat) {
    alg == 0x4 || alg == 0xB || alg == 0xC || alg == 0xD || alg == 0x12
  }

  /** The entry tells the record's PCR, the bank its algorithm number stands for, the event type in hexadecimal, and the
      digest itself in lower-case hexadecimal, at its full size. */
  ghost predicate Bears(e: Entry, r: Record, d: Digest) {
    && e.pcr.index == r.index
    && (d.alg == 0x4 ==> e.pcr.bank == "SHA1" && |d.data| == 20)
    && (d.alg == 0xB ==> e.pcr.bank == "SHA256" && |d.data| == 32)
    && (d.alg == 0xC ==> e.pcr.bank == "SHA384" && |d.data| == 48)
    && (d.alg == 0xD ==> e.pcr.bank == "SHA512" && |d.data| == 64)
    && (d.alg == 0x12 ==> e.pcr.bank == "SM3_256" && |d.data| == 32)
    && (!KnownAlgorithm(d.alg) ==> e.pcr.bank == "" && d.data == [])
    && (var m := e.event.measurement; |m| % 2 == 0 && Hex.IsHex(m) && Hex.IsLowerHex(m) && Hex.Decode(m) == d.data)
    && (var t := e.event.typeId; |t| > 2 && t[..2] == "0x" && Hex.IsHex(t[2..]) && Hex.ToNat(t[2..]) == r.eventType)
  }

  lemma EntryBears(r: Record, d: Digest, name: string, tags: seq<string>)
    requires |d.data| == DigestSize(d.alg)
    ensures Bears(EntryOf(r, d, name, tags), r, d)
  {
    hide Hex.Encode, Hex.Decode, Hex.OfNat, Hex.ToNat;
    Hex.EncodeIsLowerHex(d.data);
    Hex.DecodeEncode(d.data);
    Hex.OfNatInverse(r.eventType);
    assert TypeId(r.eventType)[2..] == Hex.OfNat(r.eventType) && TypeId(r.eventType)[..2] == "0x";
  }

  /** How many of the records before the i-th are of type 0x501. */
  function Earlier501(rs: seq<Record>, i: nat): nat
    requires i <= |rs|
  {
    if i == 0 then 0 else Earlier501(rs, i - 1) + if rs[i - 1].eventType == 0x501 then 1 else 0
  }

  /** The event's name: the table's for its type; the first five 0x501 events are named by their rank. */
  ghost predicate Named(name: string, m: Mode, rs: seq<Record>, i: nat)
    requires i < |rs|
  {
    var t, k := rs[i].eventType, Earlier501(rs, i);
    if t in m.names then name == m.names[t]
    else if t != 0x501 then name == ""
    else if k <= 1 then name == "tb_policy"
    else if k == 2 then name == "vmlinuz"
    else if k == 3 then name == "initrd"
    else if k == 4 then name == "asset-tag"
    else name == ""
  }

  /** The event's tags: its name in TXT mode, else what its payload is tagged with, reduced to characters that print. */
  ghost predicate Tagged(e: TpmEvent, m: Mode, r: Record) {
    if m.txt then e.tags == if e.typeName == "" then [] else [e.typeName]
    else
      match GetEventTag(m.unicode, r.eventType, r.event, r.eventSize, r.index)
      case TagPanic => false
      case TagError => e.tags == []
      case Tags(ts) => |e.tags| == |ts| && forall x :: 0 <= x < |ts| ==> e.tags[x] == Clean(m.unicode, ts[x])
  }

  /** Digests that share a group of the log: same PCR, same algorithm, or both of an unknown one. */
  ghost predicate SameGroup(r: Record, d: Digest, r': Record, d': Digest) {
    r.index == r'.index && (d.alg == d'.alg || (!KnownAlgorithm(d.alg) && !KnownAlgorithm(d'.alg)))
  }

  /** How many digests before the j-th of the i-th record share the group of digest d of record r. */
  ghost function Before(rs: seq<Record>, i: nat, j: nat, r: Record, d: Digest): nat
    requires i < |rs| && j <= |rs[i].digests|
    decreases i, j
  {
    if j > 0 then Before(rs, i, j - 1, r, d) + (if SameGroup(rs[i], rs[i].digests[j - 1], r, d) then 1 else 0)
    else if i > 0 then Before(rs, i - 1, |rs[i - 1].digests|, r, d)
    else 0
  }

  /** Group g of the log holds the j-th digest of the i-th record, behind those of its group that came before. */
  ghost predicate Holds(logs: seq<PcrEventLog>, g: nat, m: Mode, rs: seq<Record>, i: nat, j: nat)
    requires i < |rs| && j < |rs[i].digests|
  {
    var r := rs[i];
    var p := Before(rs, i, j, r, r.digests[j]);
    && g < |logs| && p < |logs[g].tpmEvents|
    && Bears(Entry(logs[g].pcr, logs[g].tpmEvents[p]), r, r.digests[j])
    && Named(logs[g].tpmEvents[p].typeName, m, rs, i)
    && Tagged(logs[g].tpmEvents[p], m, r)
  }

  ghost predicate Held(logs: seq<PcrEventLog>, m: Mode, rs: seq<Record>, i: nat, j: nat)
    requires i < |rs| && j < |rs[i].digests|
  {
    exists g: nat :: Holds(logs, g, m, rs, i, j)
  }

  /** The log holds every digest of every record, and nothing else; no two of its groups have the same key. */
  ghost predicate HoldsAll(logs: seq<PcrEventLog>, m: Mode, rs: seq<Record>) {
    && (forall i, j :: 0 <= i < |rs| && 0 <= j < |rs[i].digests| ==> Held(logs, m, rs, i, j))
    && |Flatten(logs)| == DigestCount(rs)
    && Distinct(Keys(logs))
  }

  // ----- every parsed log holds its records' digests -----

  lemma {:induction false} Earlier501IsCount(rs: seq<Record>, i: nat)
    requires i <= |rs|
    ensures Earlier501(rs, i) == Count501(rs[..i])
  {
    if i > 0 {
      Earlier501IsCount(rs, i - 1);
      Is501Exactly(rs[i - 1].eventType);
      Count501Snoc(rs[..i - 1], rs[i - 1]);
      assert rs[..i] == rs[..i - 1] + [rs[i - 1]];
    }
  }

  lemma {:induction false} Count501Snoc(rs: seq<Record>, r: Record)
    ensures Count501(rs + [r]) == Count501(rs) + Next501(0, r.eventType)
  {
    hide Is501;
    if rs == [] {
      assert ([r])[1..] == [];
    } else {
      Count501Snoc(rs[1..], r);
      assert (rs + [r])[1..] == rs[1..] + [r];
    }
  }

  lemma {:induction false} DigestCountSnoc(rs: seq<Record>, r: Record)
    ensures DigestCount(rs + [r]) == DigestCount(rs) + |r.digests|
  {
    if rs == [] {
      assert ([r])[1..] == [];
    } else {
      DigestCountSnoc(rs[1..], r);
      assert (rs + [r])[1..] == rs[1..] + [r];
    }
  }

  /** Records whose digests are complete; their payloads may be cut short. */
  ghost predicate AllShaped(rs: seq<Record>) {
    forall i :: 0 <= i < |rs| ==> RecordShape(rs[i])
  }

  lemma KeyOf(m: Mode, rs: seq<Record>, i: nat, j: nat)
    requires i < |rs| && j < |rs[i].digests|
    ensures Entries(m, rs, 0).Some? ==>
      && DigestCount(rs[..i]) + j < |Entries(m, rs, 0).value|
      && Entries(m, rs, 0).value[DigestCount(rs[..i]) + j].pcr == PcrData(rs[i].index, BankName(rs[i].digests[j].alg))
  {
    hide RecordTags, TypeName, Entries;
    if Entries(m, rs, 0).Some? { EntryAt(m, rs, 0, i, j); }
  }

  lemma SameKeyExactly(r: Record, d: Digest, r': Record, d': Digest)
    ensures PcrData(r.index, BankName(d.alg)) == PcrData(r'.index, BankName(d'.alg)) <==> SameGroup(r, d, r', d')
  {
    assert "SHA1"[3] == '1' && "SHA256"[3] == '2' && "SHA384"[3] == '3' && "SHA512"[3] == '5' && "SM3_256"[1] == 'M';
  }

  lemma {:induction false} CountIsBefore(m: Mode, rs: seq<Record>, i: nat, j: nat, r: Record, d: Digest)
    requires Entries(m, rs, 0).Some? && i < |rs| && j <= |rs[i].digests|
    ensures DigestCount(rs[..i]) + j <= |Entries(m, rs, 0).value|
    ensures CountKey(Entries(m, rs, 0).value, DigestCount(rs[..i]) + j, PcrData(r.index, BankName(d.alg))) == Before(rs, i, j, r, d)
    decreases i, j
  {
    hide Entries, BankName, SameGroup, DigestCount;
    if j > 0 {
      KeyOf(m, rs, i, j - 1);
      SameKeyExactly(rs[i], rs[i].digests[j - 1], r, d);
      CountIsBefore(m, rs, i, j - 1, r, d);
    } else if i > 0 {
      CountIsBefore(m, rs, i - 1, |rs[i - 1].digests|, r, d);
      DigestCountSnoc(rs[..i - 1], rs[i - 1]);
      assert rs[..i] == rs[..i - 1] + [rs[i - 1]];
    } else {
      assert rs[..0] == [];
      assert DigestCount([]) == 0 by { NoDigestCount(); }
    }
  }

  lemma NoDigestCount()
    ensures DigestCount([]) == 0
  {
  }

  lemma {:induction false} EntriesLength(m: Mode, rs: seq<Record>, k: nat)
    requires Entries(m, rs, k).Some?
    ensures |Entries(m, rs, k).value| == DigestCount(rs)
  {
    hide RecordTags, TypeName;
    if rs != [] { EntriesLength(m, rs[1..], Next501(k, rs[0].eventType)); }
  }

  lemma EntryTagged(m: Mode, r: Record, d: Digest, name: string)
    requires RecordTags(m, r, name).Some?
    ensures Tagged(EntryOf(r, d, name, RecordTags(m, r, name).value).event, m, r)
  {
    hide GetEventTag, Clean, Hex.Encode, TypeId;
  }

  lemma {:induction false} HeldAt(m: Mode, rs: seq<Record>, i: nat, j: nat) returns (g: nat)
    requires Entries(m, rs, 0).Some? && AllShaped(rs) && i < |rs| && j < |rs[i].digests|
    ensures Holds(InsertAll([], Entries(m, rs, 0).value), g, m, rs, i, j)
  {
    hide Entries, RecordTags, InsertAll, CountKey, Before, Bears, Tagged, DigestCount, Count501;
    var es, p := Entries(m, rs, 0).value, DigestCount(rs[..i]) + j;
    var r, d := rs[i], rs[i].digests[j];
    EntryAt(m, rs, 0, i, j);
    g := StoredAt(es, p);
    KeyOf(m, rs, i, j);
    CountIsBefore(m, rs, i, j, r, d);
    var name := TypeName(m.names, r.eventType, Count501(rs[..i]));
    EntryBears(r, d, name, RecordTags(m, r, name).value);
    EntryTagged(m, r, d, name);
    Earlier501IsCount(rs, i);
    Is501Exactly(r.eventType);
  }

  lemma {:induction false} HeldAll(m: Mode, rs: seq<Record>)
    requires Entries(m, rs, 0).Some? && AllShaped(rs)
    ensures HoldsAll(InsertAll([], Entries(m, rs, 0).value), m, rs)
  {
    hide Entries, InsertAll, Holds, Flatten, DigestCount, FirstKeys, EventsOf;
    var es := Entries(m, rs, 0).value;
    var logs := InsertAll([], es);
    forall i, j | 0 <= i < |rs| && 0 <= j < |rs[i].digests| ensures Held(logs, m, rs, i, j) {
      var g := HeldAt(m, rs, i, j);
    }
    StoredDigests(es);
    EntriesLength(m, rs, 0);
    InsertAllIsGroups(es);
    FirstKeysMeaning(es);
    forall i | 0 <= i < |logs| ensures Keys(logs)[i] == FirstKeys(es)[i] {
      assert Groups(es)[i].pcr == FirstKeys(es)[i];
    }
  }

  // ----- when tagging panics -----

  ghost predicate TagPanics(m: Mode, r: Record) {
    !m.txt && GetEventTag(m.unicode, r.eventType, r.event, r.eventSize, r.index) == TagPanic
  }

  lemma {:induction false} EntriesExactly(m: Mode, rs: seq<Record>, k: nat)
    ensures Entries(m, rs, k) == None <==> exists i :: 0 <= i < |rs| && TagPanics(m, rs[i])
  {
    hide GetEventTag, TypeName, Is501;
    if rs != [] {
      EntriesExactly(m, rs[1..], Next501(k, rs[0].eventType));
      assert RecordEntries(m, rs[0], k) == None <==> TagPanics(m, rs[0]);
      assert forall i :: 0 <= i < |rs[1..]| ==> rs[1..][i] == rs[i + 1];
      if i :| 0 <= i < |rs| && TagPanics(m, rs[i]) {
        if i > 0 { assert TagPanics(m, rs[1..][i - 1]); }
      }
    }
  }

  // ----- whole files -----

  /** For every header and every list of well-formed records, the parsed file holds exactly their digests, each at its
      place, under the names and tags of its record; it panics exactly when some payload cannot be tagged. */
  lemma {:induction false} FileContents(m: Mode, h: Header, rs: seq<Record>)
    requires |h.digest| == 20 && AllWellFormed(rs)
    requires |EncodeHeader(h) + EncodeAll(rs)| < 0x1_0000_0000
    ensures match ParseFile(m, EncodeHeader(h) + EncodeAll(rs))
            case Parsed(logs) => HoldsAll(logs, m, rs) && forall i :: 0 <= i < |rs| ==> !TagPanics(m, rs[i])
            case Panic => exists i :: 0 <= i < |rs| && TagPanics(m, rs[i])
            case ReadError => false
  {
    hide EncodeHeader, EncodeAll, Entries, Groups, InsertAll, ParseFile, HoldsAll, TagPanics, RecordShape;
    WholeLogRoundTrip(m, h, rs);
    EntriesExactly(m, rs, 0);
    if Entries(m, rs, 0).Some? {
      HeldAll(m, rs);
      InsertAllIsGroups(Entries(m, rs, 0).value);
    }
  }

  // ----- arbitrary bytes -----

  /** What the parser read of any bytes: records whose encodings stand at the front, one after the other. */
  lemma {:induction false} ParseReads(m: Mode, b: seq<byte>, remaining: int, k: nat, logs: seq<PcrEventLog>) returns (rs: seq<Record>)
    requires ParseLoop(m, b, remaining, k, logs).Parsed?
    ensures AllShaped(rs) && EncodeAll(rs) <= b
    ensures Entries(m, rs, k).Some? && ParseLoop(m, b, remaining, k, logs).logs == InsertAll(logs, Entries(m, rs, k).value)
    decreases remaining
  {
    hide ReadRecord, RecordEntries, EncodeRecord, RecordShape, ClaimedLength, Next501, InsertAll;
    var res := ReadRecord(b);
    if remaining <= 0 || res.Stop? {
      InsertAllNone(logs);
      return [];
    }
    var r := res.record;
    RecordExact(b);
    RecordLengths(b);
    var first := RecordEntries(m, r, k).value;
    var more := ParseReads(m, res.rest, remaining - ClaimedLength(r), Next501(k, r.eventType), InsertAll(logs, first));
    rs := [r] + more;
    assert rs[0] == r && rs[1..] == more;
    InsertAllConcat(logs, first, Entries(m, more, Next501(k, r.eventType)).value);
    assert b[|EncodeRecord(r)|..] == res.rest;
    assert EncodeAll(rs) == EncodeRecord(r) + EncodeAll(more) <= b;
  }

  /** For every byte string and declared size, a successful parse has read complete records off the front, and the log
      holds exactly their digests, each at its place, under the names and tags of its record. */
  lemma {:induction false} ArbitraryContents(m: Mode, b: seq<byte>, size: nat) returns (rs: seq<Record>)
    requires ParseLoop(m, b, size, 0, []).Parsed?
    ensures AllShaped(rs) && EncodeAll(rs) <= b
    ensures HoldsAll(ParseLoop(m, b, size, 0, []).logs, m, rs)
  {
    hide ParseLoop, EncodeAll, RecordShape, Entries, InsertAll, HoldsAll;
    rs := ParseReads(m, b, size, 0, []);
    HeldAll(m, rs);
  }
}
