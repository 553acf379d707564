/** Hexadecimal text. */
module Hex {
  import opened Bytes

  predicate IsHexChar(c: char) {
    '0' <= c <= '9' || 'A' <= c <= 'F' || 'a' <= c <= 'f'
  }

  function HexValue(c: char): (v: nat)
    requires IsHexChar(c)
    ensures v < 16
  {
    if '0' <= c <= '9' then c as int - '0' as int
    else if 'A' <= c <= 'F' then c as int - 'A' as int + 10
    else c as int - 'a' as int + 10
  }

  /** The digit printed for a value, lower case. */
  function Digit(d: nat): (c: char)
    requires d < 16
    ensures IsHexChar(c) && !('A' <= c <= 'F') && HexValue(c) == d
  {
    if d < 10 then '0' + d as char else 'a' + (d - 10) as char
  }

  function LowerChar(c: char): char
    requires IsHexChar(c)
  {
    Digit(HexValue(c))
  }

  ghost predicate IsHex(s: string) {
    forall i :: 0 <= i < |s| ==> IsHexChar(s[i])
  }

  ghost predicate IsLowerHex(s: string) {
    forall i :: 0 <= i < |s| ==> IsHexChar(s[i]) && !('A' <= s[i] <= 'F')
  }

  /** Two lower-case digits for each byte. */
  function Encode(b: seq<byte>): (s: string)
    ensures |s| == 2 * |b|
  {
    if b == [] then "" else [Digit(b[0] / 16), Digit(b[0] % 16)] + Encode(b[1..])
  }

  function Decode(s: string): (b: seq<byte>)
    requires |s| % 2 == 0 && IsHex(s)
    ensures |b| == |s| / 2
  {
    if s == "" then [] else [16 * HexValue(s[0]) + HexValue(s[1])] + Decode(s[2..])
  }

  function Lower(s: string): (l: string)
    requires IsHex(s)
    ensures |l| == |s|
  {
    if s == "" then "" else [LowerChar(s[0])] + Lower(s[1..])
  }

  lemma {:induction false} EncodeConcat(a: seq<byte>, b: seq<byte>)
    ensures Encode(a + b) == Encode(a) + Encode(b)
  {
    if a == [] {
      assert a + b == b;
    } else {
      var head := [Digit(a[0] / 16), Digit(a[0] % 16)];
      EncodeConcat(a[1..], b);
      assert (a + b)[0] == a[0] && (a + b)[1..] == a[1..] + b;
      Assoc(head, Encode(a[1..]), Encode(b));
    }
  }

  lemma {:induction false} EncodeIsLowerHex(b: seq<byte>)
    ensures IsLowerHex(Encode(b)) && IsHex(Encode(b))
  {
    if b != [] {
      EncodeIsLowerHex(b[1..]);
    }
  }

  lemma {:induction false} DecodeEncode(b: seq<byte>)
    ensures IsHex(Encode(b)) && Decode(Encode(b)) == b
  {
    EncodeIsLowerHex(b);
    if b != [] {
      DecodeEncode(b[1..]);
      assert Encode(b)[2..] == Encode(b[1..]);
    }
  }

  lemma EncodeCons(hi: nat, lo: nat, b: seq<byte>)
    requires hi < 16 && lo < 16
    ensures Encode([16 * hi + lo] + b) == [Digit(hi), Digit(lo)] + Encode(b)
  {
    var x: byte := 16 * hi + lo;
    assert x / 16 == hi && x % 16 == lo;
    assert ([x] + b)[1..] == b;
  }

  lemma {:induction false} EncodeDecode(s: string)
    requires |s| % 2 == 0 && IsHex(s)
    ensures Encode(Decode(s)) == Lower(s)
  {
    hide HexValue, Digit;
    if s != "" {
      var t := s[2..];
      EncodeDecode(t);
      EncodeCons(HexValue(s[0]), HexValue(s[1]), Decode(t));
      assert s[1..][1..] == t;
      assert Lower(s) == [LowerChar(s[0])] + ([LowerChar(s[1])] + Lower(t));
    }
  }

  /** A number in hexadecimal without leading zeros, as "%x" prints it. */
  function OfNat(n: nat): (s: string)
    ensures |s| >= 1
  {
    if n < 16 then [Digit(n)] else OfNat(n / 16) + [Digit(n % 16)]
  }

  function ToNat(s: string): nat
    requires IsHex(s)
  {
    if s == "" then 0 else 16 * ToNat(s[..|s| - 1]) + HexValue(s[|s| - 1])
  }

  lemma {:induction false} OfNatInverse(n: nat)
    ensures IsHex(OfNat(n)) && ToNat(OfNat(n)) == n
  {
    if n < 16 {
      assert OfNat(n)[..0] == "";
    } else {
      OfNatInverse(n / 16);
      assert OfNat(n)[..|OfNat(n)| - 1] == OfNat(n / 16);
    }
  }

  lemma OfNatInjective(m: nat, n: nat)
    requires OfNat(m) == OfNat(n)
    ensures m == n
  {
    OfNatInverse(m);
    OfNatInverse(n);
  }

  // ----- digits -----

  /** The digits and their values. */
  lemma DigitsInOrder(d: nat)
    requires d < 16
    ensures Digit(d) == "0123456789abcdef"[d]
    ensures IsHexChar("0123456789abcdef"[d]) && HexValue("0123456789abcdef"[d]) == d
    ensures IsHexChar("0123456789ABCDEF"[d]) && HexValue("0123456789ABCDEF"[d]) == d
  {
  }

  /** There are no other digits. */
  lemma HexCharExactly(c: char)
    ensures IsHexChar(c) <==> c in "0123456789abcdefABCDEF"
  {
    if IsHexChar(c) {
      var d := HexValue(c);
      if 'A' <= c <= 'F' { assert "0123456789abcdefABCDEF"[d + 6] == c; } else { assert "0123456789abcdefABCDEF"[d] == c; }
    }
  }

  /** Each byte gives its high digit, then its low one. */
  lemma {:induction false} EncodedDigits(b: seq<byte>, i: nat)
    requires i < |b|
    ensures Encode(b)[2 * i] == Digit(b[i] / 16) && Encode(b)[2 * i + 1] == Digit(b[i] % 16)
  {
    hide Digit;
    if i > 0 {
      EncodedDigits(b[1..], i - 1);
      assert Encode(b)[2 * i] == Encode(b[1..])[2 * (i - 1)] && Encode(b)[2 * i + 1] == Encode(b[1..])[2 * (i - 1) + 1];
    }
  }

  /** Lower-casing moves A to F and leaves everything else alone. */
  lemma {:induction false} LoweredChars(s: string, i: nat)
    requires IsHex(s) && i < |s|
    ensures Lower(s)[i] == if 'A' <= s[i] <= 'F' then (s[i] as int + 32) as char else s[i]
  {
    if i > 0 { LoweredChars(s[1..], i - 1); }
  }

  /** A number's digits: the last is its remainder by 16, and what stands before it is the quotient, if any. */
  lemma NumberDigits(n: nat)
    ensures OfNat(n)[|OfNat(n)| - 1] == Digit(n % 16)
    ensures OfNat(n)[..|OfNat(n)| - 1] == if n < 16 then "" else OfNat(n / 16)
  {
    hide Digit;
  }
}
