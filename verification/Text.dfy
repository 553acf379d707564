/** Decimal numbers, splitting and lines: the text conventions shared by the log writers and readers. */
module Text {
  import opened Bytes

  predicate IsDigit(c: char) {
    '0' <= c <= '9'
  }

  function Decimal(n: nat): (s: string)
    ensures |s| >= 1 && forall i :: 0 <= i < |s| ==> IsDigit(s[i])
  {
    if n < 10 then ['0' + n as char] else Decimal(n / 10) + ['0' + (n % 10) as char]
  }

  function DigitValue(c: char): nat
    requires IsDigit(c)
  {
    c as int - '0' as int
  }

  function Digits(s: string): nat
    requires forall i :: 0 <= i < |s| ==> IsDigit(s[i])
  {
    if s == "" then 0 else 10 * Digits(s[..|s| - 1]) + DigitValue(s[|s| - 1])
  }

  lemma {:induction false} DecimalInverse(n: nat)
    ensures Digits(Decimal(n)) == n
  {
    if n < 10 {
      assert Decimal(n)[..0] == "";
    } else {
      DecimalInverse(n / 10);
      assert Decimal(n)[..|Decimal(n)| - 1] == Decimal(n / 10);
    }
  }

  const MAX_INT := 0x7FFF_FFFF_FFFF_FFFF

  predicate IsNumber(s: string) {
    s != "" && forall i :: 0 <= i < |s| ==> IsDigit(s[i])
  }

  /** strconv.Atoi on a 64-bit platform: optional sign, decimal digits, range-checked. */
  function Atoi(s: string): Option<int> {
    var neg := |s| > 0 && s[0] == '-';
    var digits := if |s| > 0 && (s[0] == '-' || s[0] == '+') then s[1..] else s;
    if !IsNumber(digits) then None
    else
      var v: int := Digits(digits);
      if neg then (if v <= MAX_INT + 1 then Some(-v) else None)
      else (if v <= MAX_INT then Some(v) else None)
  }

  lemma AtoiDecimal(n: nat)
    requires n <= MAX_INT
    ensures Atoi(Decimal(n)) == Some(n)
  {
    DecimalInverse(n);
    assert IsDigit(Decimal(n)[0]);
  }

  lemma AtoiSigned(n: nat)
    requires n <= MAX_INT
    ensures Atoi("-" + Decimal(n)) == Some(-(n as int)) && Atoi("+" + Decimal(n)) == Some(n)
  {
    DecimalInverse(n);
    assert ("-" + Decimal(n))[1..] == Decimal(n) && ("+" + Decimal(n))[1..] == Decimal(n);
  }

  // ----- separators -----

  /** strings.Split with a one-character separator. */
  function Split(s: string, sep: char): (fields: seq<string>)
    ensures |fields| >= 1
    ensures forall i, j :: 0 <= i < |fields| && 0 <= j < |fields[i]| ==> fields[i][j] != sep
  {
    if s == "" then [""] else
    var rest := Split(s[1..], sep);
    if s[0] == sep then [""] + rest else [[s[0]] + rest[0]] + rest[1..]
  }

  function Join(fields: seq<string>, sep: char): string
    requires |fields| >= 1
  {
    if |fields| == 1 then fields[0] else fields[0] + [sep] + Join(fields[1..], sep)
  }

  lemma {:induction false} SplitField(f: string, s: string, sep: char)
    requires sep !in f
    ensures Split(f + [sep] + s, sep) == [f] + Split(s, sep)
  {
    var t := f + [sep] + s;
    if f == "" {
      assert t[1..] == s;
    } else {
      SplitField(f[1..], s, sep);
      assert t[1..] == f[1..] + [sep] + s;
      assert f[0] in f;
      assert Split(t[1..], sep)[0] == f[1..] && Split(t[1..], sep)[1..] == Split(s, sep);
      assert t[0] != sep && [f[0]] + f[1..] == f;
    }
  }

  lemma {:induction false} SplitLast(f: string, sep: char)
    requires sep !in f
    ensures Split(f, sep) == [f]
  {
    if f != "" {
      SplitLast(f[1..], sep);
      assert f[0] in f && [f[0]] + f[1..] == f;
    }
  }

  /** Splitting undoes joining when no field contains the separator. */
  lemma {:induction false} SplitJoin(fields: seq<string>, sep: char)
    requires |fields| >= 1 && forall i :: 0 <= i < |fields| ==> sep !in fields[i]
    ensures Split(Join(fields, sep), sep) == fields
  {
    if |fields| == 1 {
      SplitLast(fields[0], sep);
    } else {
      SplitJoin(fields[1..], sep);
      SplitField(fields[0], Join(fields[1..], sep), sep);
    }
  }

  /** Splitting loses nothing: joining the fields gives the text back. */
  lemma {:induction false} JoinSplit(s: string, sep: char)
    ensures Join(Split(s, sep), sep) == s
  {
    if s != "" {
      var rest, fields := Split(s[1..], sep), Split(s, sep);
      JoinSplit(s[1..], sep);
      if s[0] == sep {
        assert fields[1..] == rest;
      } else if |rest| > 1 {
        assert fields[1..] == rest[1..];
        assert [s[0]] + (rest[0] + [sep] + Join(rest[1..], sep)) == ([s[0]] + rest[0]) + [sep] + Join(rest[1..], sep);
      }
    }
  }

  /** Decimal digits: the last is the remainder by 10, and what stands before it is the quotient, if any. */
  lemma DecimalDigits(n: nat)
    ensures Decimal(n)[|Decimal(n)| - 1] == "0123456789"[n % 10]
    ensures Decimal(n)[..|Decimal(n)| - 1] == if n < 10 then "" else Decimal(n / 10)
  {
  }

  /** What is read as a number: an optional sign, one digit or more, and nothing else, within 64 bits. */
  lemma AtoiExactly(s: string)
    ensures var negative := s != "" && s[0] == '-';
            var digits := if s != "" && (s[0] == '-' || s[0] == '+') then s[1..] else s;
            if digits == "" || exists i :: 0 <= i < |digits| && !('0' <= digits[i] <= '9') then Atoi(s) == None
            else if Digits(digits) > (if negative then 0x8000_0000_0000_0000 else 0x7FFF_FFFF_FFFF_FFFF) then Atoi(s) == None
            else Atoi(s) == Some(if negative then -(Digits(digits) as int) else Digits(digits))
  {
    assert s != "" && s[0] in {'-', '+'} ==> (IsNumber(s[1..]) || s[1..] == "" || exists i :: 0 <= i < |s[1..]| && !IsDigit(s[1..][i]));
  }
}
