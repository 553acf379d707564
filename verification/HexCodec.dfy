/** The C hex codecs of the measurement library and of tpmextend, over caller-supplied buffers. */
module HexCodec {
  import opened Bytes
  import Hex

  /** The first pair of characters that is not two hex digits, or the number of pairs. */
  function GoodPairs(s: string): (n: nat)
    requires |s| % 2 == 0
    ensures 2 * n <= |s| && Hex.IsHex(s[..2 * n])
    ensures 2 * n < |s| ==> !Hex.IsHexChar(s[2 * n]) || !Hex.IsHexChar(s[2 * n + 1])
  {
    if s == "" || !Hex.IsHexChar(s[0]) || !Hex.IsHexChar(s[1]) then 0
    else
      var n := GoodPairs(s[2..]);
      assert forall i :: 2 <= i < 2 * n + 2 ==> s[i] == s[2..][..2 * n][i - 2];
      1 + n
  }

  lemma {:induction false} GoodPairsExactly(s: string)
    requires |s| % 2 == 0
    ensures 2 * GoodPairs(s) == |s| <==> Hex.IsHex(s)
  {
    var n := GoodPairs(s);
    if 2 * n == |s| { assert s[..2 * n] == s; }
  }

  lemma {:induction false} DecodeSnoc(s: string, a: char, b: char)
    requires |s| % 2 == 0 && Hex.IsHex(s) && Hex.IsHexChar(a) && Hex.IsHexChar(b)
    ensures Hex.Decode(s + [a, b]) == Hex.Decode(s) + [16 * Hex.HexValue(a) + Hex.HexValue(b)]
  {
    var t := s + [a, b];
    if s == "" {
      assert t[2..] == "";
    } else {
      DecodeSnoc(s[2..], a, b);
      assert t[2..] == s[2..] + [a, b];
    }
  }

  /** The buffer holds the bytes of the first n pairs, then zeros. */
  ghost predicate Decoded(s: string, n: nat, buf: seq<byte>) {
    2 * n <= |s| && Hex.IsHex(s[..2 * n]) && n <= |buf| && buf == Hex.Decode(s[..2 * n]) + Zeros(|buf| - n)
  }

  lemma DecodedStart(s: string, buf: seq<byte>)
    requires buf == Zeros(|buf|)
    ensures Decoded(s, 0, buf)
  {
    assert s[..0] == "" && buf == Hex.Decode("") + buf;
  }

  lemma DecodedStep(s: string, n: nat, buf: seq<byte>)
    requires Decoded(s, n, buf) && n < |buf| && 2 * n + 1 < |s|
    requires Hex.IsHexChar(s[2 * n]) && Hex.IsHexChar(s[2 * n + 1])
    ensures Decoded(s, n + 1, buf[n := 16 * Hex.HexValue(s[2 * n]) + Hex.HexValue(s[2 * n + 1])])
  {
    hide Hex.Decode, Hex.HexValue;
    assert s[..2 * (n + 1)] == s[..2 * n] + [s[2 * n], s[2 * n + 1]];
    DecodeSnoc(s[..2 * n], s[2 * n], s[2 * n + 1]);
  }

  method Clear(a: array<byte>)
    modifies a
    ensures a[..] == Zeros(a.Length)
  {
    for i := 0 to a.Length
      invariant forall j :: 0 <= j < i ==> a[j] == 0
    {
      a[i] := 0;
    }
  }

  /** hex2bin: -1, -2 for null, -3 when the bytes and a terminator do not fit, -4 for odd length,
      -5 at the first bad pair, else the number of bytes. The rest of the buffer is zeroed. */
  method Hex2Bin(hexStr: array?<char>, hexLen: nat, byteBuffer: array?<byte>) returns (r: int)
    requires hexStr != null ==> hexLen <= hexStr.Length
    modifies byteBuffer
    ensures hexStr == null ==> r == -1
    ensures hexStr != null && byteBuffer == null ==> r == -2
    ensures hexStr != null && byteBuffer != null ==>
      var s := hexStr[..hexLen];
      if hexLen / 2 > byteBuffer.Length - 1 then r == -3
      else if hexLen % 2 != 0 then r == -4
      else
        var n := GoodPairs(s);
        && (r == if 2 * n == hexLen then n else -5)
        && Decoded(s, n, byteBuffer[..])
    ensures byteBuffer != null && (r == -1 || r == -3 || r == -4) ==> byteBuffer[..] == old(byteBuffer[..])
  {
    if hexStr == null { return -1; }
    if byteBuffer == null { return -2; }
    if hexLen / 2 > byteBuffer.Length - 1 { return -3; }
    if hexLen % 2 != 0 { return -4; }
    Clear(byteBuffer);
    DecodedStart(hexStr[..hexLen], byteBuffer[..]);
    r := DecodePairs(hexStr[..hexLen], byteBuffer);
  }

  /** The conversion loop over a cleared buffer. */
  method DecodePairs(s: string, byteBuffer: array<byte>) returns (r: int)
    requires |s| % 2 == 0 && |s| / 2 < byteBuffer.Length && Decoded(s, 0, byteBuffer[..])
    modifies byteBuffer
    ensures r == if 2 * GoodPairs(s) == |s| then GoodPairs(s) else -5
    ensures Decoded(s, GoodPairs(s), byteBuffer[..])
  {
    hide *;
    var n := 0;
    while n < byteBuffer.Length - 1 && 2 * n < |s|
      invariant 0 <= 2 * n <= |s| && Decoded(s, n, byteBuffer[..])
    {
      var msb, lsb := s[2 * n], s[2 * n + 1];
      if !Hex.IsHexChar(msb) || !Hex.IsHexChar(lsb) {
        DecodedPrefix(s, n, byteBuffer[..]);
        return -5;
      }
      DecodedStep(s, n, byteBuffer[..]);
      ghost var before := byteBuffer[..];
      byteBuffer[n] := 16 * Hex.HexValue(msb) + Hex.HexValue(lsb);
      assert byteBuffer[..] == before[n := byteBuffer[n]];
      n := n + 1;
    }
    DecodedPrefix(s, n, byteBuffer[..]);
    return n;
  }

  lemma {:induction false} GoodPairsUnique(s: string, n: nat)
    requires |s| % 2 == 0 && 2 * n < |s| && Hex.IsHex(s[..2 * n])
    requires !Hex.IsHexChar(s[2 * n]) || !Hex.IsHexChar(s[2 * n + 1])
    ensures GoodPairs(s) == n
  {
    var k := GoodPairs(s);
    assert forall i :: 0 <= i < 2 * n ==> s[..2 * n][i] == s[i];
    assert forall i :: 0 <= i < 2 * k ==> s[..2 * k][i] == s[i];
  }

  /** The loop stops at the number of good pairs, whether it ran to the end or hit a bad pair. */
  lemma DecodedPrefix(s: string, n: nat, buf: seq<byte>)
    requires |s| % 2 == 0 && Decoded(s, n, buf)
    requires 2 * n == |s| || !Hex.IsHexChar(s[2 * n]) || !Hex.IsHexChar(s[2 * n + 1])
    ensures GoodPairs(s) == n
  {
    if 2 * n == |s| {
      assert s[..2 * n] == s;
      GoodPairsExactly(s);
    } else {
      GoodPairsUnique(s, n);
    }
  }

  /** bin2hex: the null codes are -2 for the bytes and -1 for the text, -3 when the text and its
      terminator do not fit, else the length of the text. The rest of the text buffer is zeroed. */
  method Bin2Hex(byteBuffer: array?<byte>, byteLen: nat, hexStr: array?<char>) returns (r: int)
    requires byteBuffer != null ==> byteLen <= byteBuffer.Length
    modifies hexStr
    ensures byteBuffer == null ==> r == -2
    ensures byteBuffer != null && hexStr == null ==> r == -1
    ensures byteBuffer != null && hexStr != null ==>
      if byteLen * 2 + 1 > hexStr.Length then r == -3 && hexStr[..] == old(hexStr[..])
      else
        && r == 2 * byteLen && hexStr[..r] == Hex.Encode(byteBuffer[..byteLen])
        && forall i :: r <= i < hexStr.Length ==> hexStr[i] == '\0'
  {
    if byteBuffer == null { return -2; }
    if hexStr == null { return -1; }
    if byteLen * 2 + 1 > hexStr.Length { return -3; }
    for i := 0 to hexStr.Length
      invariant forall j :: 0 <= j < i ==> hexStr[j] == '\0'
    {
      hexStr[i] := '\0';
    }
    for i := 0 to byteLen
      invariant hexStr[..2 * i] == Hex.Encode(byteBuffer[..i])
      invariant forall j :: 2 * i <= j < hexStr.Length ==> hexStr[j] == '\0'
    {
      ghost var before := hexStr[..2 * i];
      hexStr[2 * i] := Hex.Digit(byteBuffer[i] / 16);
      hexStr[2 * i + 1] := Hex.Digit(byteBuffer[i] % 16);
      assert byteBuffer[..i + 1] == byteBuffer[..i] + [byteBuffer[i]];
      Hex.EncodeConcat(byteBuffer[..i], [byteBuffer[i]]);
      assert hexStr[..2 * (i + 1)] == before + [hexStr[2 * i], hexStr[2 * i + 1]];
    }
    return 2 * byteLen;
  }

  /** hex2bin of what bin2hex wrote gives the bytes back, with the exact count. */
  lemma Bin2HexThenHex2Bin(b: seq<byte>)
    ensures |Hex.Encode(b)| % 2 == 0
    ensures GoodPairs(Hex.Encode(b)) == |b| && Hex.Decode(Hex.Encode(b)) == b
  {
    Hex.DecodeEncode(b);
    GoodPairsExactly(Hex.Encode(b));
  }
}
