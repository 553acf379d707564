/** Tags of UEFI events: what getEventTag makes of an event payload. */
module EventTag {
  import opened Bytes
  import Text

  /** A payload yields tags, a reported error, or an out-of-range index (a run-time panic). */
  datatype TagResult = Tags(tags: seq<string>) | TagError | TagPanic

  /** The text library: how bytes read as UTF-8, and which characters print. */
  datatype Unicode = Unicode(decode: seq<byte> -> string, isPrint: char -> bool)

  function AsciiText(b: seq<byte>): string {
    seq(|b|, i requires 0 <= i < |b| => b[i] as char)
  }

  ghost predicate IsAscii(b: seq<byte>) {
    forall i :: 0 <= i < |b| ==> b[i] < 128
  }

  predicate PrintableAscii(c: char) {
    32 <= c as int <= 126
  }

  /** The only facts used about the library: both functions agree with ASCII on ASCII. */
  ghost predicate AsciiLaws(u: Unicode) {
    && (forall b: seq<byte> :: IsAscii(b) ==> u.decode(b) == AsciiText(b))
    && (forall c: char :: c as int < 128 ==> (u.isPrint(c) <==> PrintableAscii(c)))
  }

  /** removeUnicode: drop the characters that do not print. */
  function Clean(u: Unicode, s: string): string {
    if s == "" then "" else (if u.isPrint(s[0]) then [s[0]] else "") + Clean(u, s[1..])
  }

  lemma {:induction false} CleanConcat(u: Unicode, a: string, b: string)
    ensures Clean(u, a + b) == Clean(u, a) + Clean(u, b)
  {
    if a == "" {
      assert a + b == b;
    } else {
      var head := if u.isPrint(a[0]) then [a[0]] else "";
      CleanConcat(u, a[1..], b);
      assert (a + b)[1..] == a[1..] + b && (a + b)[0] == a[0];
      Assoc(head, Clean(u, a[1..]), Clean(u, b));
    }
  }

  /** Cleaning keeps exactly the characters that print, in order. */
  lemma CleanMeaning(u: Unicode, a: string, b: string, c: char)
    ensures Clean(u, "") == "" && Clean(u, [c]) == if u.isPrint(c) then [c] else ""
    ensures Clean(u, a + b) == Clean(u, a) + Clean(u, b)
  {
    CleanConcat(u, a, b);
    assert ([c])[1..] == "";
  }

  function CleanAll(u: Unicode, tags: seq<string>): (r: seq<string>)
    ensures |r| == |tags|
  {
    seq(|tags|, i requires 0 <= i < |tags| => Clean(u, tags[i]))
  }

  function IndexOfNull(s: seq<byte>): (i: nat)
    ensures i <= |s| && (i < |s| ==> s[i] == 0) && forall j :: 0 <= j < i ==> s[j] != 0
  {
    if s == [] || s[0] == 0 then 0 else 1 + IndexOfNull(s[1..])
  }

  predicate IsVariableEvent(t: nat) {
    t == 0x80000001 || t == 0x80000002 || t == 0x8000000C || t == 0x800000E0
  }

  predicate IsBlobEvent(t: nat) {
    t == 0x8000000A || t == 0x8000000B
  }

  predicate IsStringEvent(t: nat, pcr: nat) {
    || t == 0x0000000D || t == 0x00000001 || t == 0x00000005 || t == 0x80000007 || t == 0x0000000A
    || (t == 0x0000000C && pcr == 6) || t == 0x00000012 || t == 0x80000010 || t == 0x00000007
  }

  const NO_ACTION := 0x00000003

  predicate IsPfrEvent(t: nat) {
    t == 0x00000010 || t == 0x00000011
  }

  function GetEventTag(u: Unicode, t: nat, event: seq<byte>, size: nat, pcr: nat): TagResult {
    if IsVariableEvent(t) then VariableTag(event, size)
    else if IsBlobEvent(t) then BlobTag(u, event)
    else if IsStringEvent(t, pcr) then StringTag(u, Take(event, size))
    else if t == NO_ACTION then NoActionTag(u, Take(event, size))
    else if IsPfrEvent(t) then PfrTag(u, event, size, pcr)
    else Tags([])
  }

  /** UEFI_VARIABLE_DATA: GUID, name length, data length, name in UTF-16, data.
      The size test adds 64-bit lengths and subtracts from a 32-bit size, both with wrap-around. */
  function VariableTag(event: seq<byte>, size: nat): TagResult {
    if |event| < 32 then TagError else
    var nameLength := FromLittleEndian(event[16..24]);
    var dataLength := FromLittleEndian(event[24..32]);
    if (nameLength + dataLength) % 0x1_0000_0000_0000_0000 > (size - 32) % 0x1_0000_0000 then Tags([])
    else if nameLength > 0 && 2 * nameLength - 1 > |event| - 32 then TagPanic
    else Tags([LowBytes(event[32..], nameLength)])
  }

  /** Every other byte, read as a character. */
  function LowBytes(b: seq<byte>, n: nat): (s: string)
    requires n > 0 ==> 2 * n - 1 <= |b|
    ensures |s| == n
  {
    seq(n, i requires 0 <= i < n => b[2 * i] as char)
  }

  function BlobTag(u: Unicode, event: seq<byte>): TagResult {
    if event == [] then TagError else Tags([u.decode(Take(event[1..], event[0]))])
  }

  function StringTag(u: Unicode, text: seq<byte>): TagResult {
    var i := IndexOfNull(text);
    if i == |text| then Tags([u.decode(text)])
    else if i == 0 then Tags([])
    else Tags([u.decode(text[..i])])
  }

  function NoActionTag(u: Unicode, text: seq<byte>): TagResult {
    var i := IndexOfNull(text);
    if i == |text| then Tags([u.decode(text)])
    else if i == 0 then Tags([])
    else if i + 1 == |text| then TagPanic
    else Tags([u.decode(text[..i]) + Text.Decimal(text[i + 1])])
  }

  function PfrTag(u: Unicode, event: seq<byte>, size: nat, pcr: nat): TagResult {
    if |event| < 16 then TagError else
    var version, eventId, attribute := event[0], event[2], event[3];
    var infoSize := FromLittleEndian(event[8..12]);
    var stringSize := FromLittleEndian(event[12..16]);
    if size != (16 + infoSize + stringSize) % 0x1_0000_0000 then Tags([])
    else if pcr !in {0, 1, 7} || version != 1 || eventId <= 1 || eventId >= 6 then Tags([])
    else if attribute !in {0x0, 0x1, 0x2, 0x80, 0x81, 0x82} then Tags([])
    else if stringSize == 0 then Tags([])
    else PfrStringTag(u, Take(Drop(event[16..], infoSize), stringSize))
  }

  /** The three leading characters are read one by one, each only if the previous one matched. */
  function PfrStringTag(u: Unicode, s: seq<byte>): TagResult {
    if s == [] then TagPanic
    else if s[0] as char == 'P' then
      if |s| == 1 then TagPanic
      else if s[1] as char != 'F' then Tags([])
      else if |s| == 2 then TagPanic
      else if s[2] as char == 'R' then Tags([u.decode(s)]) else Tags([])
    else if s[0] as char == 'p' then
      if |s| == 1 then TagPanic
      else if s[1] as char != 'f' then Tags([])
      else if |s| == 2 then TagPanic
      else if s[2] as char == 'r' then Tags([u.decode(s)]) else Tags([])
    else Tags([])
  }

  // ----- payloads written to the specification -----

  ghost predicate OneByteChars(name: string) {
    forall i :: 0 <= i < |name| ==> name[i] as int < 256
  }

  ghost predicate Printable(name: string) {
    forall i :: 0 <= i < |name| ==> PrintableAscii(name[i])
  }

  function Utf16(name: string): (b: seq<byte>)
    requires OneByteChars(name)
    ensures |b| == 2 * |name|
    ensures forall i :: 0 <= i < |name| ==> b[2 * i] == name[i] as int
  {
    seq(2 * |name|, i requires 0 <= i < 2 * |name| => if i % 2 == 0 then name[i / 2] as int else 0)
  }

  function EncodeVariable(guid: seq<byte>, name: string, data: seq<byte>): (b: seq<byte>)
    requires |guid| == 16 && OneByteChars(name)
    ensures |b| == 32 + 2 * |name| + |data|
  {
    guid + LittleEndian(|name|, 8) + LittleEndian(|data|, 8) + (Utf16(name) + data)
  }

  lemma {:induction false} CleanPrintable(u: Unicode, s: string)
    requires AsciiLaws(u) && Printable(s)
    ensures Clean(u, s) == s
  {
    if s != "" {
      CleanPrintable(u, s[1..]);
    }
  }

  lemma VariableSlices(guid: seq<byte>, n: seq<byte>, d: seq<byte>, tail: seq<byte>)
    requires |guid| == 16 && |n| == 8 && |d| == 8
    ensures var event := guid + n + d + tail;
            event[16..24] == n && event[24..32] == d && event[32..] == tail
  {
    var event := guid + n + d + tail;
    Slice(event, guid, n, d + tail);
    Slice(event, guid + n, d, tail);
  }

  lemma VariableTagOf(event: seq<byte>, name: string, data: seq<byte>)
    requires OneByteChars(name) && 32 <= |event| < 0x1_0000_0000
    requires FromLittleEndian(event[16..24]) == |name| && FromLittleEndian(event[24..32]) == |data|
    requires event[32..] == Utf16(name) + data
    ensures VariableTag(event, |event|) == Tags([name])
  {
    assert |event| - 32 == |event[32..]| == 2 * |name| + |data|;
    LowBytesOfUtf16(name, data);
  }

  lemma LowBytesOfUtf16(name: string, data: seq<byte>)
    requires OneByteChars(name)
    ensures LowBytes(Utf16(name) + data, |name|) == name
  {
    var b := Utf16(name) + data;
    forall i | 0 <= i < |name| ensures LowBytes(b, |name|)[i] == name[i] {
      assert b[2 * i] == Utf16(name)[2 * i];
    }
  }

  /** A well-formed variable payload with a printable name is tagged with exactly that name. */
  lemma VariableNameTag(u: Unicode, t: nat, guid: seq<byte>, name: string, data: seq<byte>, pcr: nat)
    requires AsciiLaws(u) && t in {0x80000001, 0x80000002, 0x8000000C, 0x800000E0} && |guid| == 16 && Printable(name)
    requires 32 + 2 * |name| + |data| < 0x1_0000_0000
    ensures OneByteChars(name)
    ensures var b := EncodeVariable(guid, name, data);
            var r := GetEventTag(u, t, b, |b|, pcr);
            r == Tags([name]) && CleanAll(u, r.tags) == [name]
  {
    Widths();
    LittleEndianInverse(|name|, 8);
    LittleEndianInverse(|data|, 8);
    VariableSlices(guid, LittleEndian(|name|, 8), LittleEndian(|data|, 8), Utf16(name) + data);
    VariableTagOf(EncodeVariable(guid, name, data), name, data);
    CleanPrintable(u, name);
  }

  /** The firmware-blob tag is the description the payload counts out, whatever follows it. */
  lemma BlobDescriptionTag(u: Unicode, t: nat, desc: seq<byte>, rest: seq<byte>, size: nat, pcr: nat)
    requires t in {0x8000000A, 0x8000000B} && |desc| < 256
    ensures GetEventTag(u, t, [|desc|] + desc + rest, size, pcr) == Tags([u.decode(desc)])
  {
    var e: seq<byte> := [|desc|] + desc + rest;
    assert e[1..] == desc + rest;
    assert Take(e[1..], |desc|) == desc;
  }

  /** EV_NO_ACTION "StartupLocality", NUL, n is tagged StartupLocalityn, whatever follows. */
  lemma StartupLocalityTag(u: Unicode, text: seq<byte>, locality: byte, rest: seq<byte>, pcr: nat)
    requires text != [] && 0 !in text
    ensures var e := text + [0, locality] + rest;
            GetEventTag(u, 0x3, e, |e|, pcr) == Tags([u.decode(text) + Text.Decimal(locality)])
  {
    var e := text + [0, locality] + rest;
    assert Take(e, |e|) == e;
    assert e[|text|] == 0 && e[|text| + 1] == locality;
    assert forall j :: 0 <= j < |text| ==> e[j] in text;
    assert IndexOfNull(e) == |text|;
    assert e[..|text|] == text;
  }

  /** A string event is tagged with its text up to the first NUL, or not at all when that is empty
      because of a NUL. */
  lemma StringEventTag(u: Unicode, t: nat, text: seq<byte>, rest: seq<byte>, pcr: nat)
    requires (t in {0xD, 0x1, 0x5, 0x80000007, 0xA, 0x12, 0x80000010, 0x7} || (t == 0xC && pcr == 6)) && 0 !in text
    ensures GetEventTag(u, t, text, |text|, pcr) == Tags([u.decode(text)])
    ensures var e := text + [0] + rest;
            GetEventTag(u, t, e, |e|, pcr) == Tags(if text == [] then [] else [u.decode(text)])
  {
    assert Take(text, |text|) == text;
    assert forall j :: 0 <= j < |text| ==> text[j] in text;
    assert IndexOfNull(text) == |text|;
    var e := text + [0] + rest;
    assert Take(e, |e|) == e;
    assert forall j :: 0 <= j < |text| ==> e[j] == text[j] && text[j] in text;
    assert e[|text|] == 0 && IndexOfNull(e) == |text| && e[..|text|] == text;
  }

  /** PFR_EVENT_DATA: version, CPLD, event id, attribute, reserved, two sizes, info, string. */
  function EncodePfr(cpld: byte, eventId: byte, attribute: byte, info: seq<byte>, text: seq<byte>): seq<byte> {
    [1, cpld, eventId, attribute] + LittleEndian(0, 4) + LittleEndian(|info|, 4) + LittleEndian(|text|, 4) + (info + text)
  }

  lemma PfrSlices(head: seq<byte>, reserved: seq<byte>, n: seq<byte>, d: seq<byte>, tail: seq<byte>)
    requires |head| == 4 && |reserved| == 4 && |n| == 4 && |d| == 4
    ensures var e := head + reserved + n + d + tail;
            e[..4] == head && e[8..12] == n && e[12..16] == d && e[16..] == tail
  {
    var e := head + reserved + n + d + tail;
    Slice(e, head + reserved, n, d + tail);
    Slice(e, head + reserved + n, d, tail);
  }

  lemma PfrTagOf(u: Unicode, e: seq<byte>, info: seq<byte>, text: seq<byte>, pcr: nat)
    requires 16 <= |e| < 0x1_0000_0000 && e[16..] == info + text && |text| >= 3
    requires FromLittleEndian(e[8..12]) == |info| && FromLittleEndian(e[12..16]) == |text|
    requires pcr in {0, 1, 7} && e[0] == 1 && 2 <= e[2] <= 5 && e[3] in {0x0, 0x1, 0x2, 0x80, 0x81, 0x82}
    ensures PfrTag(u, e, |e|, pcr) == PfrStringTag(u, text)
  {
    hide FromLittleEndian, PfrStringTag;
    assert |e| - 16 == |e[16..]| == |info| + |text|;
    assert Drop(info + text, |info|) == text && Take(text, |text|) == text;
  }

  predicate StartsWithPfr(s: seq<byte>) {
    |s| >= 3 && (s[..3] == [80, 70, 82] || s[..3] == [112, 102, 114])
  }

  /** A well-formed PFR event is tagged with its string exactly when that starts with PFR or pfr. */
  lemma PfrEventTag(u: Unicode, t: nat, cpld: byte, eventId: byte, attribute: byte, info: seq<byte>, text: seq<byte>, pcr: nat)
    requires t in {0x10, 0x11} && pcr in {0, 1, 7} && 2 <= eventId <= 5 && attribute in {0x0, 0x1, 0x2, 0x80, 0x81, 0x82}
    requires |text| >= 3 && 16 + |info| + |text| < 0x1_0000_0000
    ensures var e := EncodePfr(cpld, eventId, attribute, info, text);
            GetEventTag(u, t, e, |e|, pcr) == Tags(if StartsWithPfr(text) then [u.decode(text)] else [])
  {
    hide FromLittleEndian, LittleEndian, PfrTag;
    var head: seq<byte> := [1, cpld, eventId, attribute];
    var e := EncodePfr(cpld, eventId, attribute, info, text);
    Widths();
    LittleEndianInverse(|info|, 4);
    LittleEndianInverse(|text|, 4);
    PfrSlices(head, LittleEndian(0, 4), LittleEndian(|info|, 4), LittleEndian(|text|, 4), info + text);
    assert e[0] == e[..4][0] && e[2] == e[..4][2] && e[3] == e[..4][3];
    PfrTagOf(u, e, info, text, pcr);
    assert text[..3] == [text[0], text[1], text[2]];
  }

  // ----- everything else -----

  /** Types that are never tagged, an EV_COMPACT_HASH outside PCR 6 among them. */
  lemma UntaggedTypes(u: Unicode, t: nat, event: seq<byte>, size: nat, pcr: nat)
    requires t !in {0x80000001, 0x80000002, 0x8000000C, 0x800000E0, 0x8000000A, 0x8000000B, 0xD, 0x1, 0x5, 0x80000007, 0xA, 0x12,
                    0x80000010, 0x7, 0x3, 0x10, 0x11}
    requires t == 0xC ==> pcr != 6
    ensures GetEventTag(u, t, event, size, pcr) == Tags([])
  {
  }

  /** A payload too short for its fixed fields is an error. */
  lemma ShortPayloads(u: Unicode, t: nat, event: seq<byte>, size: nat, pcr: nat)
    ensures t in {0x80000001, 0x80000002, 0x8000000C, 0x800000E0} && |event| < 32 ==> GetEventTag(u, t, event, size, pcr) == TagError
    ensures t in {0x8000000A, 0x8000000B} && event == [] ==> GetEventTag(u, t, event, size, pcr) == TagError
    ensures t in {0x10, 0x11} && |event| < 16 ==> GetEventTag(u, t, event, size, pcr) == TagError
  {
  }

  /** A variable payload that claims more than it holds is not tagged, and no error is reported; one whose name, two bytes
      a character, runs past its end is an index out of range. */
  lemma VariableClaims(u: Unicode, t: nat, event: seq<byte>, pcr: nat)
    requires t in {0x80000001, 0x80000002, 0x8000000C, 0x800000E0} && 32 <= |event| < 0x1_0000_0000
    ensures var name, data, left := FromLittleEndian(event[16..24]), FromLittleEndian(event[24..32]), |event| - 32;
            var r := GetEventTag(u, t, event, |event|, pcr);
            && (left < name + data < 0x1_0000_0000_0000_0000 ==> r == Tags([]))
            && (name + data <= left && 2 * name > left + 1 ==> r == TagPanic)
            && (name + data <= left && 2 * name <= left + 1 ==>
                 r.Tags? && |r.tags| == 1 && |r.tags[0]| == name
                 && forall i :: 0 <= i < name ==> r.tags[0][i] as int == event[32 + 2 * i])
  {
    hide FromLittleEndian;
  }

  /** EV_NO_ACTION without a NUL is tagged with its text; a NUL in front leaves it untagged, one at its end is an index
      out of range. */
  lemma NoActionCases(u: Unicode, text: seq<byte>, rest: seq<byte>, pcr: nat)
    requires 0 !in text
    ensures GetEventTag(u, 0x3, text, |text|, pcr) == Tags([u.decode(text)])
    ensures GetEventTag(u, 0x3, [0] + rest, 1 + |rest|, pcr) == Tags([])
    ensures text != [] ==> GetEventTag(u, 0x3, text + [0], |text| + 1, pcr) == TagPanic
  {
    assert Take(text, |text|) == text;
    assert forall j :: 0 <= j < |text| ==> text[j] in text;
    assert IndexOfNull(text) == |text|;
    var a, b := [0 as byte] + rest, text + [0 as byte];
    assert Take(a, 1 + |rest|) == a && IndexOfNull(a) == 0;
    assert Take(b, |text| + 1) == b && forall j :: 0 <= j < |text| ==> b[j] == text[j] && text[j] in text;
    assert b[|text|] == 0 && IndexOfNull(b) == |text|;
  }

  /** A PFR payload is tagged at all only with matching sizes, in PCR 0, 1 or 7, of version 1, with an event id from 2 to 5,
      a valid attribute and a string. */
  lemma PfrRejected(u: Unicode, t: nat, event: seq<byte>, size: nat, pcr: nat)
    requires t in {0x10, 0x11} && |event| >= 16
    requires var info, text := FromLittleEndian(event[8..12]), FromLittleEndian(event[12..16]);
             || size != (16 + info + text) % 0x1_0000_0000 || pcr !in {0, 1, 7} || event[0] != 1 || event[2] !in {2, 3, 4, 5}
             || event[3] !in {0x00, 0x01, 0x02, 0x80, 0x81, 0x82} || text == 0
    ensures GetEventTag(u, t, event, size, pcr) == Tags([])
  {
    hide FromLittleEndian, PfrStringTag;
  }

  /** A PFR string that ends within the three letters it is compared with is an index out of range. */
  lemma PfrShortText(u: Unicode, text: seq<byte>)
    requires |text| <= 2
    ensures PfrStringTag(u, text) == if text in {[], [80], [80, 70], [112], [112, 102]} then TagPanic else Tags([])
  {
    assert text == [] || text == [text[0]] || text == [text[0], text[1]];
  }
}
