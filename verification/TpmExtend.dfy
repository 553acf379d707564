/** The tpmextend tool: a TPM2_PCR_Extend command marshalled field by field into a static buffer. */
module TpmExtend {
  import opened Bytes
  import Hex
  import HexCodec

  const TPM_ST_SESSIONS := 0x8002
  const TPM_CC_PCR_EXTEND := 0x182
  const TPM_RS_PW := 0x40000009
  const TPM_ALG_SHA1 := 0x4
  const TPM_ALG_SHA256 := 0xB
  const TPM_NR_PCRS := 24
  const TPM_RC_VALUE := 0x084
  const TPM_RC_COMMAND_SIZE := 0x142
  const CMD_HEAD_SIZE := 10
  const CMD_SIZE_MAX := 4096

  // ----- the wire format: big-endian fields, then the digest -----

  datatype Field = Field(value: nat, width: nat)

  ghost predicate Fits(f: Field) {
    f.value < Pow256(f.width)
  }

  function EncodeFields(fs: seq<Field>): seq<byte> {
    if fs == [] then [] else BigEndian(fs[0].value, fs[0].width) + EncodeFields(fs[1..])
  }

  function ReadFields(c: seq<byte>, widths: seq<nat>): Option<(seq<Field>, seq<byte>)>
    decreases |widths|
  {
    if widths == [] then Some(([], c)) else
    if |c| < widths[0] then None else
    match ReadFields(c[widths[0]..], widths[1..])
    case None => None
    case Some((fs, rest)) => Some(([Field(FromBigEndian(c[..widths[0]]), widths[0])] + fs, rest))
  }

  function FieldWidths(fs: seq<Field>): (ws: seq<nat>)
    ensures |ws| == |fs|
  {
    seq(|fs|, i requires 0 <= i < |fs| => fs[i].width)
  }

  lemma {:induction false} ReadEncodedFields(fs: seq<Field>, rest: seq<byte>)
    requires forall i :: 0 <= i < |fs| ==> Fits(fs[i])
    ensures ReadFields(EncodeFields(fs) + rest, FieldWidths(fs)) == Some((fs, rest))
  {
    hide BigEndian, FromBigEndian, Pow256;
    if fs == [] {
      assert EncodeFields(fs) + rest == rest;
    } else {
      ReadEncodedFields(fs[1..], rest);
      var head := BigEndian(fs[0].value, fs[0].width);
      BigEndianInverse(fs[0].value, fs[0].width);
      var c := EncodeFields(fs) + rest;
      assert c[..fs[0].width] == head && c[fs[0].width..] == EncodeFields(fs[1..]) + rest;
      assert FieldWidths(fs)[1..] == FieldWidths(fs[1..]);
      assert [fs[0]] + fs[1..] == fs;
    }
  }

  /** Fields that are read are exactly the bytes at the front. */
  lemma {:induction false} ReadFieldsExact(c: seq<byte>, ws: seq<nat>)
    requires ReadFields(c, ws).Some?
    ensures var r := ReadFields(c, ws).value; |r.0| == |ws| && c == EncodeFields(r.0) + r.1
  {
    hide BigEndian, FromBigEndian;
    if ws != [] {
      ReadFieldsExact(c[ws[0]..], ws[1..]);
      FromBigEndianInverse(c[..ws[0]]);
      var more := ReadFields(c[ws[0]..], ws[1..]).value;
      var r := ReadFields(c, ws).value;
      assert r.0[1..] == more.0;
      assert c == c[..ws[0]] + c[ws[0]..];
    }
  }

  lemma {:induction false} EncodeFieldsSnoc(fs: seq<Field>, f: Field)
    ensures EncodeFields(fs + [f]) == EncodeFields(fs) + BigEndian(f.value, f.width)
  {
    hide BigEndian;
    if fs == [] {
      assert ([f])[1..] == [];
    } else {
      EncodeFieldsSnoc(fs[1..], f);
      assert (fs + [f])[1..] == fs[1..] + [f];
    }
  }

  function HeaderFields(tag: nat, size: nat, code: nat): seq<Field> {
    [Field(tag, 2), Field(size, 4), Field(code, 4)]
  }

  function SessionFields(pcr: nat): seq<Field> {
    [Field(pcr, 4), Field(9, 4), Field(TPM_RS_PW, 4), Field(0, 2), Field(0, 1), Field(0, 2)]
  }

  /** PCR handle, 9 bytes of password session with empty nonce and auth, one digest of the algorithm. */
  function ArgumentFields(pcr: nat, alg: nat): seq<Field> {
    SessionFields(pcr) + [Field(1, 4), Field(alg, 2)]
  }

  datatype Extend = Extend(pcr: nat, alg: nat, digest: seq<byte>)

  function CommandFields(x: Extend): seq<Field> {
    HeaderFields(TPM_ST_SESSIONS, 33 + |x.digest|, TPM_CC_PCR_EXTEND) + ArgumentFields(x.pcr, x.alg)
  }

  function EncodeExtend(x: Extend): seq<byte> {
    EncodeFields(CommandFields(x)) + x.digest
  }

  function DigestSize(alg: nat): nat {
    if alg == TPM_ALG_SHA1 then 20 else if alg == TPM_ALG_SHA256 then 32 else 0
  }

  // ----- how a TPM reads the command -----

  function Be16(c: seq<byte>, i: nat): nat
    requires i + 2 <= |c|
  {
    0x100 * c[i] as int + c[i + 1] as int
  }

  function Be32(c: seq<byte>, i: nat): nat
    requires i + 4 <= |c|
  {
    0x100_0000 * c[i] as int + 0x1_0000 * c[i + 1] as int + 0x100 * c[i + 2] as int + c[i + 3] as int
  }

  /** A password session with nothing in it: the password handle, an empty nonce, no attributes, an empty auth. */
  predicate EmptyPasswordSession(auth: seq<byte>) {
    |auth| == 9 && Be32(auth, 0) == 0x40000009 && Be16(auth, 4) == 0 && auth[6] == 0 && Be16(auth, 7) == 0
  }

  /** TPM2_PCR_Extend: the sessions tag, the total size, the command code and the PCR handle; the authorization area,
      cut off by its own size; then one digest with its algorithm, of that algorithm's size, and nothing behind it. */
  function DecodeExtend(c: seq<byte>): Option<Extend> {
    if |c| < 18 || Be16(c, 0) != 0x8002 || Be32(c, 2) != |c| || Be32(c, 6) != 0x182 then None else
    var authSize := Be32(c, 14);
    if |c| < 18 + authSize || !EmptyPasswordSession(c[18..18 + authSize]) then None else
    var list := c[18 + authSize..];
    if |list| < 6 || Be32(list, 0) != 1 then None else
    var alg, digest := Be16(list, 4), list[6..];
    if (alg == 0x4 && |digest| == 20) || (alg == 0xB && |digest| == 32) then Some(Extend(Be32(c, 10), alg, digest)) else None
  }

  ghost predicate ValidExtend(x: Extend) {
    x.pcr < 0x1_0000_0000 && x.alg in {TPM_ALG_SHA1, TPM_ALG_SHA256} && |x.digest| == DigestSize(x.alg)
  }

  lemma CommandFieldsFit(x: Extend)
    requires ValidExtend(x)
    ensures forall i :: 0 <= i < 11 ==> Fits(CommandFields(x)[i])
    ensures FieldWidths(CommandFields(x)) == [2, 4, 4, 4, 4, 4, 2, 1, 2, 4, 2]
  {
    Widths();
  }

  lemma CommandFieldsLength(x: Extend)
    ensures |EncodeFields(CommandFields(x))| == 33
  {
    EncodeFieldsLength(CommandFields(x));
    var h, a := HeaderFields(TPM_ST_SESSIONS, 33 + |x.digest|, TPM_CC_PCR_EXTEND), ArgumentFields(x.pcr, x.alg);
    TotalWidthConcat(h, a);
    FourWidths(a[0], a[1], a[2], a[3]);
    FourWidths(a[4], a[5], a[6], a[7]);
    TotalWidthConcat([a[0], a[1], a[2], a[3]], [a[4], a[5], a[6], a[7]]);
    assert a == [a[0], a[1], a[2], a[3]] + [a[4], a[5], a[6], a[7]];
    FourWidths(h[0], h[1], h[2], a[0]);
    TotalWidthConcat(h, [a[0]]);
    assert [h[0], h[1], h[2], a[0]] == h + [a[0]];
  }

  lemma FourWidths(a: Field, b: Field, c: Field, d: Field)
    ensures TotalWidth([a, b, c, d]) == a.width + b.width + c.width + d.width
  {
    assert [d][1..] == [] && TotalWidth([d]) == d.width;
    assert [c, d][1..] == [d] && TotalWidth([c, d]) == c.width + d.width;
    assert [b, c, d][1..] == [c, d] && TotalWidth([b, c, d]) == b.width + c.width + d.width;
    assert [a, b, c, d][1..] == [b, c, d];
  }

  lemma {:induction false} TotalWidthConcat(a: seq<Field>, b: seq<Field>)
    ensures TotalWidth(a + b) == TotalWidth(a) + TotalWidth(b)
  {
    if a == [] {
      assert a + b == b;
    } else {
      TotalWidthConcat(a[1..], b);
      assert (a + b)[1..] == a[1..] + b;
    }
  }

  function TotalWidth(fs: seq<Field>): nat {
    if fs == [] then 0 else fs[0].width + TotalWidth(fs[1..])
  }

  lemma {:induction false} EncodeFieldsLength(fs: seq<Field>)
    ensures |EncodeFields(fs)| == TotalWidth(fs)
  {
    if fs != [] { EncodeFieldsLength(fs[1..]); }
  }

  lemma FieldValue(c: seq<byte>, i: nat)
    ensures i + 1 <= |c| ==> FromBigEndian(c[i..i + 1]) == c[i]
    ensures i + 2 <= |c| ==> FromBigEndian(c[i..i + 2]) == Be16(c, i)
    ensures i + 4 <= |c| ==> FromBigEndian(c[i..i + 4]) == Be32(c, i)
  {
    hide FromBigEndian;
    if i + 1 <= |c| { BigEndianValue(c[i..i + 1]); }
    if i + 2 <= |c| { BigEndianValue(c[i..i + 2]); }
    if i + 4 <= |c| { BigEndianValue(c[i..i + 4]); }
  }

  /** Where the i-th field starts. */
  function Offset(ws: seq<nat>, i: nat): nat
    requires i <= |ws|
  {
    if i == 0 then 0 else Offset(ws, i - 1) + ws[i - 1]
  }

  lemma {:induction false} OffsetShift(ws: seq<nat>, i: nat)
    requires 0 < i <= |ws|
    ensures Offset(ws, i) == ws[0] + Offset(ws[1..], i - 1)
  {
    if i > 1 { OffsetShift(ws, i - 1); }
  }

  /** Enough bytes are read, and what is left is what stands behind them. */
  lemma {:induction false} ReadEnough(c: seq<byte>, ws: seq<nat>)
    requires |c| >= Offset(ws, |ws|)
    ensures ReadFields(c, ws).Some? && ReadFields(c, ws).value.1 == c[Offset(ws, |ws|)..] && |ReadFields(c, ws).value.0| == |ws|
  {
    hide FromBigEndian;
    if ws != [] {
      OffsetShift(ws, |ws|);
      ReadEnough(c[ws[0]..], ws[1..]);
    }
  }

  /** The i-th field is read from its own bytes. */
  lemma {:induction false} FieldOf(c: seq<byte>, ws: seq<nat>, i: nat)
    requires |c| >= Offset(ws, |ws|) && i < |ws|
    ensures ReadFields(c, ws).Some? && i < |ReadFields(c, ws).value.0|
    ensures Offset(ws, i) + ws[i] <= |c|
    ensures ReadFields(c, ws).value.0[i] == Field(FromBigEndian(c[Offset(ws, i)..Offset(ws, i) + ws[i]]), ws[i])
    decreases i
  {
    hide FromBigEndian;
    ReadEnough(c, ws);
    OffsetShift(ws, |ws|);
    if i > 0 {
      OffsetShift(ws, i);
      FieldOf(c[ws[0]..], ws[1..], i - 1);
      var at := Offset(ws[1..], i - 1);
      assert c[ws[0]..][at..at + ws[i]] == c[ws[0] + at..ws[0] + at + ws[i]];
    }
  }

  const WIDTHS: seq<nat> := [2, 4, 4, 4, 4, 4, 2, 1, 2, 4, 2]

  lemma Offsets()
    ensures |WIDTHS| == 11 && Offset(WIDTHS, 0) == 0 && Offset(WIDTHS, 1) == 2 && Offset(WIDTHS, 2) == 6 && Offset(WIDTHS, 3) == 10
    ensures Offset(WIDTHS, 4) == 14 && Offset(WIDTHS, 5) == 18 && Offset(WIDTHS, 6) == 22 && Offset(WIDTHS, 7) == 24
    ensures Offset(WIDTHS, 8) == 25 && Offset(WIDTHS, 9) == 27 && Offset(WIDTHS, 10) == 31 && Offset(WIDTHS, 11) == 33
  {
  }

  /** Reading the eleven fields of a command, each by its bytes. */
  lemma FieldsRead(c: seq<byte>)
    requires |c| >= 33
    ensures ReadFields(c, WIDTHS).Some? && |ReadFields(c, WIDTHS).value.0| == 11 && ReadFields(c, WIDTHS).value.1 == c[33..]
    ensures var fs := ReadFields(c, WIDTHS).value.0;
            && fs[0] == Field(Be16(c, 0), 2) && fs[1] == Field(Be32(c, 2), 4) && fs[2] == Field(Be32(c, 6), 4)
            && fs[3] == Field(Be32(c, 10), 4) && fs[4] == Field(Be32(c, 14), 4) && fs[5] == Field(Be32(c, 18), 4)
            && fs[6] == Field(Be16(c, 22), 2) && fs[7] == Field(c[24], 1) && fs[8] == Field(Be16(c, 25), 2)
            && fs[9] == Field(Be32(c, 27), 4) && fs[10] == Field(Be16(c, 31), 2)
  {
    hide ReadFields, FromBigEndian, Be16, Be32, Offset;
    Offsets();
    ReadEnough(c, WIDTHS);
    forall i: nat | i < 11
      ensures ReadFields(c, WIDTHS).value.0[i] == Field(FromBigEndian(c[Offset(WIDTHS, i)..Offset(WIDTHS, i) + WIDTHS[i]]), WIDTHS[i])
    {
      FieldOf(c, WIDTHS, i);
    }
    forall i: nat
      ensures i + 1 <= |c| ==> FromBigEndian(c[i..i + 1]) == c[i]
      ensures i + 2 <= |c| ==> FromBigEndian(c[i..i + 2]) == Be16(c, i)
      ensures i + 4 <= |c| ==> FromBigEndian(c[i..i + 4]) == Be32(c, i)
    {
      FieldValue(c, i);
    }
  }

  /** The bytes of a command, literally. */
  ghost predicate Reads(c: seq<byte>, x: Extend) {
    && |c| == 33 + |x.digest| && c[33..] == x.digest
    && Be16(c, 0) == 0x8002 && Be32(c, 2) == |c| && Be32(c, 6) == 0x182 && Be32(c, 10) == x.pcr
    && Be32(c, 14) == 9 && Be32(c, 18) == 0x40000009 && Be16(c, 22) == 0 && c[24] == 0 && Be16(c, 25) == 0
    && Be32(c, 27) == 1 && Be16(c, 31) == x.alg
  }

  lemma EncodedReads(x: Extend)
    requires ValidExtend(x)
    ensures Reads(EncodeExtend(x), x)
  {
    hide EncodeFields, ReadFields, Be16, Be32;
    var c, fs := EncodeExtend(x), CommandFields(x);
    CommandFieldsFit(x);
    CommandFieldsLength(x);
    ReadEncodedFields(fs, x.digest);
    FieldsRead(c);
    var read := ReadFields(c, WIDTHS).value;
    assert read == (fs, x.digest);
    assert read.0[0] == fs[0] && read.0[1] == fs[1] && read.0[2] == fs[2] && read.0[3] == fs[3] && read.0[4] == fs[4]
        && read.0[5] == fs[5] && read.0[6] == fs[6] && read.0[7] == fs[7] && read.0[8] == fs[8] && read.0[9] == fs[9]
        && read.0[10] == fs[10];
  }

  /** The decoder accepts exactly such bytes, for the two algorithms and their sizes. */
  lemma DecodesExactly(c: seq<byte>, x: Extend)
    ensures DecodeExtend(c) == Some(x) <==> Reads(c, x) && ((x.alg == 0x4 && |x.digest| == 20) || (x.alg == 0xB && |x.digest| == 32))
  {
    if |c| >= 33 {
      var auth, list := c[18..27], c[27..];
      assert Be32(auth, 0) == Be32(c, 18) && Be16(auth, 4) == Be16(c, 22) && auth[6] == c[24] && Be16(auth, 7) == Be16(c, 25);
      assert Be32(list, 0) == Be32(c, 27) && Be16(list, 4) == Be16(c, 31) && list[6..] == c[33..];
    }
  }

  /** The TPM reads back the PCR, the algorithm and the digest. */
  lemma DecodeEncodeExtend(x: Extend)
    requires x.pcr < 0x1_0000_0000 && ((x.alg == 0x4 && |x.digest| == 20) || (x.alg == 0xB && |x.digest| == 32))
    ensures DecodeExtend(EncodeExtend(x)) == Some(x)
    ensures |EncodeExtend(x)| == 33 + |x.digest|
  {
    hide EncodeExtend, Reads, DecodeExtend;
    EncodedReads(x);
    DecodesExactly(EncodeExtend(x), x);
    CommandFieldsLength(x);
    assert |EncodeExtend(x)| == 33 + |x.digest| by { LengthOf(x); }
  }

  lemma LengthOf(x: Extend)
    ensures |EncodeExtend(x)| == 33 + |x.digest|
  {
    hide EncodeFields, CommandFields;
    CommandFieldsLength(x);
  }

  /** No other bytes decode to that command. */
  lemma {:induction false} EncodeDecodeExtend(c: seq<byte>)
    ensures DecodeExtend(c).Some? ==> c == EncodeExtend(DecodeExtend(c).value)
  {
    hide EncodeFields, ReadFields, DecodeExtend, Be16, Be32;
    if DecodeExtend(c).Some? {
      var x := DecodeExtend(c).value;
      DecodesExactly(c, x);
      FieldsRead(c);
      ReadFieldsExact(c, WIDTHS);
      assert ReadFields(c, WIDTHS).value.0 == CommandFields(x);
    }
  }

  // ----- marshalling -----

  function Reversed(s: seq<byte>): (r: seq<byte>)
    ensures |r| == |s|
  {
    seq(|s|, i requires 0 <= i < |s| => s[|s| - 1 - i])
  }

  /** On a little-endian host, reversing an integer's bytes gives its big-endian form. */
  lemma {:induction false} ReversedLittleEndian(v: nat, n: nat)
    ensures Reversed(LittleEndian(v, n)) == BigEndian(v, n)
  {
    if n > 0 {
      ReversedLittleEndian(v / 256, n - 1);
      var s, t := LittleEndian(v, n), LittleEndian(v / 256, n - 1);
      assert s == [v % 256] + t;
      assert Reversed(s) == Reversed(t) + [v % 256];
    }
  }

  /** out with data at offset off. */
  function Overwrite(out: seq<byte>, off: nat, data: seq<byte>): (r: seq<byte>)
    requires off + |data| <= |out|
    ensures |r| == |out|
  {
    out[..off] + data + out[off + |data|..]
  }

  method ReverseCopy(out: array<byte>, off: nat, src: seq<byte>)
    requires off + |src| <= out.Length
    modifies out
    ensures out[..] == Overwrite(old(out[..]), off, Reversed(src))
  {
    for i := 0 to |src|
      invariant forall j :: off <= j < off + i ==> out[j] == src[|src| - 1 - (j - off)]
      invariant forall j :: 0 <= j < out.Length && !(off <= j < off + i) ==> out[j] == old(out[j])
    {
      out[off + i] := src[|src| - i - 1];
    }
  }

  /** One reverse_copy of an integer: it lands at its offset, and nothing before it moves. */
  method PutField(cmdBuf: array<byte>, off: nat, f: Field)
    requires off + f.width <= cmdBuf.Length
    modifies cmdBuf
    ensures cmdBuf[..] == Overwrite(old(cmdBuf[..]), off, BigEndian(f.value, f.width))
  {
    ReversedLittleEndian(f.value, f.width);
    ReverseCopy(cmdBuf, off, LittleEndian(f.value, f.width));
  }

  method PutData(cmdBuf: array<byte>, off: nat, data: seq<byte>)
    requires off + |data| <= cmdBuf.Length
    modifies cmdBuf
    ensures cmdBuf[..] == Overwrite(old(cmdBuf[..]), off, data)
  {
    for i := 0 to |data|
      invariant forall j :: off <= j < off + i ==> cmdBuf[j] == data[j - off]
      invariant forall j :: 0 <= j < cmdBuf.Length && !(off <= j < off + i) ==> cmdBuf[j] == old(cmdBuf[j])
    {
      cmdBuf[off + i] := data[i];
    }
  }

  /** A buffer whose bytes from `start` are the encoded fields fs. */
  ghost predicate Holds(buf: seq<byte>, start: nat, fs: seq<Field>) {
    start + |EncodeFields(fs)| <= |buf| && buf[start..start + |EncodeFields(fs)|] == EncodeFields(fs)
  }

  /** Writing the next field right after the earlier ones keeps them. */
  lemma HoldsNext(buf: seq<byte>, start: nat, fs: seq<Field>, f: Field)
    requires Holds(buf, start, fs) && start + |EncodeFields(fs)| + f.width <= |buf|
    ensures Holds(Overwrite(buf, start + |EncodeFields(fs)|, BigEndian(f.value, f.width)), start, fs + [f])
    ensures |EncodeFields(fs + [f])| == |EncodeFields(fs)| + f.width
  {
    hide BigEndian, EncodeFields;
    EncodeFieldsSnoc(fs, f);
    var n := start + |EncodeFields(fs)|;
    var r := Overwrite(buf, n, BigEndian(f.value, f.width));
    assert r[start..n] == buf[start..n];
    assert r[start..n + f.width] == r[start..n] + r[n..n + f.width];
  }

  method AppendField(cmdBuf: array<byte>, start: nat, inSize: nat, ghost fs: seq<Field>, f: Field)
      returns (inSize': nat, ghost fs': seq<Field>)
    requires Holds(cmdBuf[..], start, fs) && inSize == |EncodeFields(fs)| && start + inSize + f.width <= cmdBuf.Length
    modifies cmdBuf
    ensures fs' == fs + [f] && Holds(cmdBuf[..], start, fs') && inSize' == |EncodeFields(fs')| == inSize + f.width
    ensures cmdBuf[..start] == old(cmdBuf[..start])
    ensures forall k :: start + inSize' <= k < cmdBuf.Length ==> cmdBuf[k] == old(cmdBuf[k])
  {
    hide EncodeFields, BigEndian, Holds;
    HoldsNext(cmdBuf[..], start, fs, f);
    PutField(cmdBuf, start + inSize, f);
    inSize', fs' := inSize + f.width, fs + [f];
  }

  /** _tpm_submit_cmd: the header goes in front of the arguments already in the buffer. */
  method SubmitCmd(cmdBuf: array<byte>, tag: nat, code: nat, argSize: nat) returns (ret: nat, sent: seq<byte>)
    requires cmdBuf.Length == CMD_SIZE_MAX
    modifies cmdBuf
    ensures 10 + argSize > 4096 ==> ret == 0x142 && sent == []
    ensures 10 + argSize <= 4096 ==>
      sent == EncodeFields([Field(tag, 2), Field(10 + argSize, 4), Field(code, 4)]) + old(cmdBuf[10..10 + argSize])
  {
    hide EncodeFields;
    var cmdSize := CMD_HEAD_SIZE + argSize;
    if cmdSize > CMD_SIZE_MAX { return TPM_RC_COMMAND_SIZE, []; }
    ghost var args := cmdBuf[CMD_HEAD_SIZE..];
    NoFields(cmdBuf[..], 0);
    var n := 0;
    ghost var fs := [];
    n, fs := AppendField(cmdBuf, 0, n, fs, Field(tag, 2));
    n, fs := AppendField(cmdBuf, 0, n, fs, Field(cmdSize, 4));
    n, fs := AppendField(cmdBuf, 0, n, fs, Field(code, 4));
    assert fs == HeaderFields(tag, cmdSize, code);
    sent := cmdBuf[..cmdSize];
    ret := cmdSize;
    assert cmdBuf[10..] == args;
    assert sent == cmdBuf[0..10] + args[..argSize];
  }

  lemma NoFields(buf: seq<byte>, start: nat)
    requires start <= |buf|
    ensures Holds(buf, start, []) && |EncodeFields([])| == 0
  {
  }

  /** The PCR handle and the authorization area, each field behind the previous one. */
  method PutSession(cmdBuf: array<byte>, pcr: nat) returns (inSize: nat)
    requires cmdBuf.Length == CMD_SIZE_MAX
    modifies cmdBuf
    ensures inSize == |EncodeFields(SessionFields(pcr))| == 17 && Holds(cmdBuf[..], CMD_HEAD_SIZE, SessionFields(pcr))
  {
    hide EncodeFields, Holds;
    NoFields(cmdBuf[..], 10);
    inSize := 0;
    ghost var fs := [];
    inSize, fs := AppendField(cmdBuf, 10, inSize, fs, Field(pcr, 4));
    inSize, fs := AppendField(cmdBuf, 10, inSize, fs, Field(9, 4));
    inSize, fs := AppendField(cmdBuf, 10, inSize, fs, Field(TPM_RS_PW, 4));
    inSize, fs := AppendField(cmdBuf, 10, inSize, fs, Field(0, 2));
    inSize, fs := AppendField(cmdBuf, 10, inSize, fs, Field(0, 1));
    inSize, fs := AppendField(cmdBuf, 10, inSize, fs, Field(0, 2));
    assert fs == SessionFields(pcr);
  }

  /** The digest list behind it. */
  method PutArguments(cmdBuf: array<byte>, pcr: nat, alg: nat, data: seq<byte>) returns (inSize: nat)
    requires cmdBuf.Length == CMD_SIZE_MAX && |data| <= 32
    modifies cmdBuf
    ensures inSize == 23 + |data|
    ensures cmdBuf[CMD_HEAD_SIZE..CMD_HEAD_SIZE + inSize] == EncodeFields(ArgumentFields(pcr, alg)) + data
  {
    hide EncodeFields, SessionFields;
    inSize := PutSession(cmdBuf, pcr);
    ghost var fs := SessionFields(pcr);
    inSize, fs := AppendField(cmdBuf, 10, inSize, fs, Field(1, 4));
    inSize, fs := AppendField(cmdBuf, 10, inSize, fs, Field(alg, 2));
    assert fs == ArgumentFields(pcr, alg);
    ghost var fields := cmdBuf[10..10 + inSize];
    PutData(cmdBuf, 10 + inSize, data);
    assert cmdBuf[10..10 + inSize] == fields;
    inSize := inSize + |data|;
  }

  /** tpm_pcr_extend2: reject a handle past the last PCR, else send the encoded command. */
  method PcrExtend2(cmdBuf: array<byte>, pcr: nat, alg: nat, data: seq<byte>) returns (ret: nat, sent: seq<byte>)
    requires cmdBuf.Length == CMD_SIZE_MAX && |data| <= 32
    modifies cmdBuf
    ensures pcr > 24 ==> ret == 0x084 && sent == []
    ensures pcr <= 24 ==> sent == EncodeExtend(Extend(pcr, alg, data))
  {
    hide EncodeFields, ArgumentFields;
    if pcr > TPM_NR_PCRS { return TPM_RC_VALUE, []; }
    var inSize := PutArguments(cmdBuf, pcr, alg, data);
    ret, sent := SubmitCmd(cmdBuf, TPM_ST_SESSIONS, TPM_CC_PCR_EXTEND, inSize);
    EncodeFieldsConcat(HeaderFields(TPM_ST_SESSIONS, 33 + |data|, TPM_CC_PCR_EXTEND), ArgumentFields(pcr, alg));
  }

  lemma {:induction false} EncodeFieldsConcat(a: seq<Field>, b: seq<Field>)
    ensures EncodeFields(a + b) == EncodeFields(a) + EncodeFields(b)
  {
    hide BigEndian;
    if a == [] {
      assert a + b == b;
    } else {
      var head := BigEndian(a[0].value, a[0].width);
      EncodeFieldsConcat(a[1..], b);
      assert (a + b)[0] == a[0] && (a + b)[1..] == a[1..] + b;
      Assoc(head, EncodeFields(a[1..]), EncodeFields(b));
    }
  }

  // ----- the tool -----

  /** What the tool hands to the device. */
  datatype Sent = Nothing | Tpm2Command(bytes: seq<byte>) | Tpm12Extend(pcr: nat, digest: seq<byte>)

  const MAX_HASH_LEN := 65

  /** The digest bytes taken from the hash argument; a bad digit zeroes the rest. */
  function DigestArgument(hash: string): (d: seq<byte>)
    requires |hash| == 40 || |hash| == 64
    ensures |d| == |hash| / 2
  {
    var n := HexCodec.GoodPairs(hash);
    (Hex.Decode(hash[..2 * n]) + Zeros(MAX_HASH_LEN - n))[..|hash| / 2]
  }

  /** tpm_extend2: the algorithm follows from the digest size. */
  method TpmExtend2(cmdBuf: array<byte>, pcr: nat, buff: seq<byte>) returns (r: int, sent: seq<byte>)
    requires cmdBuf.Length == CMD_SIZE_MAX
    modifies cmdBuf
    ensures |buff| > 32 ==> r == -1 && sent == []
    ensures |buff| <= 32 ==> r == |buff|
    ensures |buff| <= 32 && pcr <= 24 ==>
      sent == EncodeExtend(Extend(pcr, if |buff| == 20 then 0x4 else 0xB, buff))
  {
    var hash := if |buff| == 20 then TPM_ALG_SHA1 else TPM_ALG_SHA256;
    if |buff| > 32 { return -1, []; }
    var ret;
    ret, sent := PcrExtend2(cmdBuf, pcr, hash, buff);
    r := |buff|;
  }

  /** The tool's main function once its arguments are numbers: exit status, and what was sent. */
  method RunTool(cmdBuf: array<byte>, pcrno: int, hash: string, version: real, deviceOpens: bool)
      returns (status: int, sent: Sent)
    requires cmdBuf.Length == CMD_SIZE_MAX
    modifies cmdBuf
    ensures status == 0 || status == -1
    ensures status == -1 <==>
      pcrno < 0 || pcrno > 22 || |hash| !in {40, 64} || version !in {1.2, 2.0} || !deviceOpens ||
      (version == 1.2 && |hash| == 64)
    ensures status == -1 ==> sent == Nothing
    ensures status == 0 && version == 1.2 ==> sent == Tpm12Extend(pcrno, DigestArgument(hash))
    ensures status == 0 && version == 2.0 ==>
      sent == Tpm2Command(EncodeExtend(
        Extend(pcrno, if |hash| == 40 then 0x4 else 0xB, DigestArgument(hash))))
  {
    hide EncodeExtend, HexCodec.GoodPairs;
    if pcrno < 0 || pcrno > 22 { return -1, Nothing; }
    if |hash| != 40 && |hash| != 64 { return -1, Nothing; }
    if version != 1.2 && version != 2.0 { return -1, Nothing; }
    if !deviceOpens { return -1, Nothing; }
    var digest := ReadDigest(hash);
    if version == 1.2 {
      if |digest| > 20 { return -1, Nothing; }
      return 0, Tpm12Extend(pcrno, digest);
    }
    var r, bytes := TpmExtend2(cmdBuf, pcrno, digest);
    return 0, Tpm2Command(bytes);
  }

  method ReadDigest(hash: string) returns (d: seq<byte>)
    requires |hash| == 40 || |hash| == 64
    ensures d == DigestArgument(hash)
  {
    hide HexCodec.GoodPairs;
    var filesystemHash := new char[|hash|](i requires 0 <= i < |hash| => hash[i]);
    assert filesystemHash[..|hash|] == hash;
    var digest := new byte[MAX_HASH_LEN];
    var r := HexCodec.Hex2Bin(filesystemHash, |hash|, digest);
    d := digest[..|hash| / 2];
  }

  lemma DigestArgumentOfHex(b: seq<byte>)
    requires |b| == 20 || |b| == 32
    ensures DigestArgument(Hex.Encode(b)) == b
  {
    HexCodec.Bin2HexThenHex2Bin(b);
    var h := Hex.Encode(b);
    assert h[..2 * |b|] == h;
    assert (b + Zeros(MAX_HASH_LEN - |b|))[..|b|] == b;
  }

  /** The digest taken from the argument: the bytes of its hexadecimal digits, in either case. */
  lemma DigestOfArgument(hash: string)
    requires |hash| in {40, 64} && Hex.IsHex(hash)
    ensures DigestArgument(hash) == Hex.Decode(hash)
  {
    hide Hex.Decode, HexCodec.GoodPairs, Hex.IsHex;
    HexCodec.GoodPairsExactly(hash);
    var d := Hex.Decode(hash);
    assert hash[..2 * HexCodec.GoodPairs(hash)] == hash;
    assert (d + Zeros(MAX_HASH_LEN - |d|))[..|d|] == d;
  }

  /** A pair of characters that is not two digits makes its byte zero, and every byte behind it. */
  lemma BadDigitZeroes(hash: string, j: nat, i: nat)
    requires |hash| in {40, 64} && j < |hash| && !Hex.IsHexChar(hash[j]) && j / 2 <= i < |hash| / 2
    ensures DigestArgument(hash)[i] == 0
  {
    hide Hex.Decode;
    var n := HexCodec.GoodPairs(hash);
    assert n <= j / 2;
  }
}
