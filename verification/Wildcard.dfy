/** Wildcard filters compiled to POSIX extended regular expressions. */
module Wildcard {
  import opened Bytes

  // ----- what a wildcard means -----

  predicate Matches(w: string, s: string)
    decreases |w|, |s|
  {
    if w == "" then s == ""
    else if w[0] == '*' then Matches(w[1..], s) || (s != "" && Matches(w, s[1..]))
    else s != "" && (w[0] == '?' || s[0] == w[0]) && Matches(w[1..], s[1..])
  }

  // ----- the compiler -----

  predicate IsEscaped(c: char) {
    c in {'(', ')', '[', ']', '$', '^', '.', '{', '}', '|', '\\'}
  }

  function CompileChar(c: char): (r: string)
    ensures 1 <= |r| <= 2
  {
    if c == '*' then ".*" else if c == '?' then "." else if IsEscaped(c) then ['\\', c] else [c]
  }

  function CompileBody(w: string): (r: string)
    ensures |r| <= 2 * |w|
  {
    if w == "" then "" else CompileChar(w[0]) + CompileBody(w[1..])
  }

  function Compile(w: string): string {
    "^" + CompileBody(w) + "$"
  }

  lemma {:induction false} CompileBodySnoc(w: string, c: char)
    ensures CompileBody(w + [c]) == CompileBody(w) + CompileChar(c)
  {
    hide CompileChar;
    if w == "" {
      assert ([c])[1..] == "";
    } else {
      CompileBodySnoc(w[1..], c);
      assert (w + [c])[0] == w[0] && (w + [c])[1..] == w[1..] + [c];
      Assoc(CompileChar(w[0]), CompileBody(w[1..]), CompileChar(c));
    }
  }

  /** convertWildcardToRegex: two indices, one into the wildcard and one into the output buffer. */
  method ConvertWildcardToRegex(wildcard: string, nodeValue: array<char>)
    requires 2 * |wildcard| + 3 <= nodeValue.Length
    modifies nodeValue
    ensures |Compile(wildcard)| < nodeValue.Length
    ensures nodeValue[..|Compile(wildcard)|] == Compile(wildcard) && nodeValue[|Compile(wildcard)|] == '\0'
  {
    hide CompileBody;
    var i, j := 0, 0;
    nodeValue[j] := '^';
    j := j + 1;
    EmptyBody();
    while i < |wildcard|
      invariant 0 <= i <= |wildcard| && j == 1 + |CompileBody(wildcard[..i])|
      invariant wildcard[..0] == "" && nodeValue[..j] == "^" + CompileBody(wildcard[..i])
    {
      var c := wildcard[i];
      ghost var before := nodeValue[..j];
      CompileBodySnoc(wildcard[..i], c);
      assert wildcard[..i + 1] == wildcard[..i] + [c];
      if c == '*' {
        nodeValue[j] := '.';
        nodeValue[j + 1] := '*';
        j := j + 2;
      } else if c == '?' {
        nodeValue[j] := '.';
        j := j + 1;
      } else if IsEscaped(c) {
        nodeValue[j] := '\\';
        nodeValue[j + 1] := c;
        j := j + 2;
      } else {
        nodeValue[j] := c;
        j := j + 1;
      }
      assert nodeValue[..j] == before + CompileChar(c);
      i := i + 1;
    }
    assert wildcard[..i] == wildcard;
    nodeValue[j] := '$';
    j := j + 1;
    nodeValue[j] := '\0';
    assert nodeValue[..j] == Compile(wildcard);
  }

  lemma EmptyBody()
    ensures CompileBody("") == ""
  {
  }

  // ----- extended regular expressions (section 9.4 of IEEE Std 1003.1, Base Definitions) -----

  /** The tokens of the subset without groups, brackets, intervals and alternation. */
  datatype Token = Lit(c: char) | Any | Bol | Eol | Star | Plus | Opt | Unsupported

  function TokenOf(c: char): Token {
    match c
    case '.' => Any
    case '*' => Star
    case '+' => Plus
    case '?' => Opt
    case '^' => Bol
    case '$' => Eol
    case '(' => Unsupported
    case ')' => Unsupported
    case '[' => Unsupported
    case '{' => Unsupported
    case '|' => Unsupported
    case _ => Lit(c)
  }

  /** An escaped character stands for itself. */
  function Tokens(text: string): seq<Token> {
    if text == "" then []
    else if text[0] == '\\' then
      if |text| == 1 then [Unsupported] else [Lit(text[1])] + Tokens(text[2..])
    else [TokenOf(text[0])] + Tokens(text[1..])
  }

  datatype Repeat = Once | Many | AtLeastOnce

  datatype Piece = Piece(atom: Token, repeat: Repeat)

  predicate IsAtom(t: Token) {
    t.Lit? || t.Any?
  }

  /** A duplication symbol must follow a single-character atom; anything else is undefined. */
  function Parse(ts: seq<Token>): Option<seq<Piece>> {
    if ts == [] then Some([])
    else if IsAtom(ts[0]) && |ts| > 1 && (ts[1].Star? || ts[1].Plus?) then
      ConsPiece(Piece(ts[0], if ts[1].Star? then Many else AtLeastOnce), Parse(ts[2..]))
    else if IsAtom(ts[0]) || ts[0].Bol? || ts[0].Eol? then ConsPiece(Piece(ts[0], Once), Parse(ts[1..]))
    else None
  }

  function ConsPiece(p: Piece, ps: Option<seq<Piece>>): Option<seq<Piece>> {
    match ps
    case None => None
    case Some(rest) => Some([p] + rest)
  }

  lemma ParseOnce(t: Token, ts: seq<Token>)
    requires IsAtom(t) || t.Bol? || t.Eol?
    requires IsAtom(t) && ts != [] ==> !ts[0].Star? && !ts[0].Plus?
    ensures Parse([t] + ts) == ConsPiece(Piece(t, Once), Parse(ts))
  {
    assert ([t] + ts)[1..] == ts;
  }

  lemma ParseRepeated(t: Token, d: Token, ts: seq<Token>)
    requires IsAtom(t) && (d.Star? || d.Plus?)
    ensures Parse([t, d] + ts) == ConsPiece(Piece(t, if d.Star? then Many else AtLeastOnce), Parse(ts))
  {
    assert ([t, d] + ts)[2..] == ts;
  }

  predicate AtomMatches(t: Token, s: string, i: nat)
    requires i <= |s|
  {
    match t
    case Lit(c) => i < |s| && s[i] == c
    case Any => i < |s|
    case Bol => i == 0
    case Eol => i == |s|
    case _ => false
  }

  function Width(t: Token): nat {
    if IsAtom(t) then 1 else 0
  }

  /** The pieces match some part of s that starts at position i. */
  predicate MatchFrom(ps: seq<Piece>, s: string, i: nat)
    requires i <= |s|
    decreases |ps|, |s| - i
  {
    if ps == [] then true else
    match ps[0].repeat
    case Once => AtomMatches(ps[0].atom, s, i) && MatchFrom(ps[1..], s, i + Width(ps[0].atom))
    case Many =>
      MatchFrom(ps[1..], s, i) || (i < |s| && AtomMatches(ps[0].atom, s, i) && MatchFrom(ps, s, i + 1))
    case AtLeastOnce =>
      i < |s| && AtomMatches(ps[0].atom, s, i) && MatchFrom([Piece(ps[0].atom, Many)] + ps[1..], s, i + 1)
  }

  /** regexec: the expression matches somewhere in the string. */
  ghost predicate Regexec(ps: seq<Piece>, s: string) {
    exists i :: 0 <= i <= |s| && MatchFrom(ps, s, i)
  }

  ghost predicate SameMeaning(w: string, ps: seq<Piece>) {
    forall s: string :: Regexec(ps, s) <==> Matches(w, s)
  }

  /** The emitted text is a defined expression with the wildcard's meaning. */
  ghost predicate CompiledCorrectly(w: string) {
    var e := Parse(Tokens(Compile(w)));
    e.Some? && SameMeaning(w, e.value)
  }

  // ----- the emitted text reads back as intended -----

  function CharTokens(c: char): seq<Token> {
    if c == '*' then [Any, Star] else if c == '?' then [Any] else if c == '+' then [Plus] else [Lit(c)]
  }

  function WildcardTokens(w: string): seq<Token> {
    if w == "" then [] else CharTokens(w[0]) + WildcardTokens(w[1..])
  }

  lemma TokensOfChar(c: char, rest: string)
    ensures Tokens(CompileChar(c) + rest) == CharTokens(c) + Tokens(rest)
  {
    var t := CompileChar(c) + rest;
    if c == '*' {
      assert t[1..] == "*" + rest && t[1..][1..] == rest;
      assert Tokens(t) == [Any] + ([Star] + Tokens(rest));
    } else if IsEscaped(c) {
      assert t[2..] == rest;
    } else {
      assert t[1..] == rest;
    }
  }

  lemma {:induction false} TokensOfBody(w: string, rest: string)
    ensures Tokens(CompileBody(w) + rest) == WildcardTokens(w) + Tokens(rest)
  {
    hide CompileChar, CharTokens, Tokens;
    if w == "" {
      assert CompileBody(w) + rest == rest;
    } else {
      TokensOfBody(w[1..], rest);
      TokensOfChar(w[0], CompileBody(w[1..]) + rest);
      assert CompileBody(w) + rest == CompileChar(w[0]) + (CompileBody(w[1..]) + rest);
    }
  }

  lemma TokensOfCompiled(w: string)
    ensures Tokens(Compile(w)) == [Bol] + (WildcardTokens(w) + [Eol])
  {
    hide WildcardTokens, CompileBody;
    var body := CompileBody(w) + "$";
    assert Compile(w) == "^" + body && Compile(w)[1..] == body;
    TokensOfBody(w, "$");
    TokensOfEnd();
    TokensOfStart(body);
  }

  lemma TokensOfEnd()
    ensures Tokens("$") == [Eol]
  {
    assert "$"[1..] == "";
  }

  lemma TokensOfStart(body: string)
    ensures Tokens("^" + body) == [Bol] + Tokens(body)
  {
    assert ("^" + body)[1..] == body;
  }

  // ----- the pieces of a wildcard -----

  function AtomOf(c: char): Token {
    if c == '?' then Any else Lit(c)
  }

  /** The pieces of the body; None when a '+' has nothing to repeat. */
  function BodyPieces(w: string): Option<seq<Piece>> {
    if w == "" then ConsPiece(Piece(Eol, Once), Some([]))
    else if w[0] == '+' then None
    else if w[0] == '*' then ConsPiece(Piece(Any, Many), BodyPieces(w[1..]))
    else if |w| > 1 && w[1] == '+' then ConsPiece(Piece(AtomOf(w[0]), AtLeastOnce), BodyPieces(w[2..]))
    else ConsPiece(Piece(AtomOf(w[0]), Once), BodyPieces(w[1..]))
  }

  lemma {:induction false} ParseBody(w: string)
    ensures Parse(WildcardTokens(w) + [Eol]) == BodyPieces(w)
  {
    hide Parse;
    var ts := WildcardTokens(w) + [Eol];
    if w == "" {
      ParseOnce(Eol, []);
      ParseNothing();
      assert ts == [Eol] + [];
    } else if w[0] == '+' {
      ParseLeadingPlus(ts);
    } else if w[0] == '*' {
      ParseBody(w[1..]);
      var rest := WildcardTokens(w[1..]) + [Eol];
      ParseRepeated(Any, Star, rest);
      assert ts == [Any, Star] + rest;
    } else if |w| > 1 && w[1] == '+' {
      ParseBody(w[2..]);
      var rest := WildcardTokens(w[2..]) + [Eol];
      ParseRepeated(AtomOf(w[0]), Plus, rest);
      assert w[1..][1..] == w[2..];
      assert WildcardTokens(w[1..]) == [Plus] + WildcardTokens(w[2..]);
      assert ts == [AtomOf(w[0]), Plus] + rest;
    } else {
      ParseBody(w[1..]);
      var rest := WildcardTokens(w[1..]) + [Eol];
      assert |w| > 1 ==> rest[0] == CharTokens(w[1])[0];
      ParseOnce(AtomOf(w[0]), rest);
      assert ts == [AtomOf(w[0])] + rest;
    }
  }

  lemma ParseNothing()
    ensures Parse([]) == Some([])
  {
  }

  lemma ParseLeadingPlus(ts: seq<Token>)
    requires ts != [] && ts[0].Plus?
    ensures Parse(ts) == None
  {
  }

  lemma ParseCompiled(w: string)
    ensures Parse(Tokens(Compile(w))) == ConsPiece(Piece(Bol, Once), BodyPieces(w))
  {
    hide BodyPieces, Tokens, WildcardTokens, Parse;
    TokensOfCompiled(w);
    ParseBody(w);
    ParseOnce(Bol, WildcardTokens(w) + [Eol]);
  }

  /** An expression that starts with ^ matches somewhere exactly when it matches at the start. */
  lemma AnchoredSearch(ps: seq<Piece>, s: string)
    ensures Regexec([Piece(Bol, Once)] + ps, s) <==> MatchFrom(ps, s, 0)
  {
    var all := [Piece(Bol, Once)] + ps;
    assert all[1..] == ps;
    forall i | 0 <= i <= |s| ensures MatchFrom(all, s, i) <==> i == 0 && MatchFrom(ps, s, 0) {
      assert all[0] == Piece(Bol, Once);
    }
    if MatchFrom(ps, s, 0) { assert MatchFrom(all, s, 0); }
  }

  // ----- without '+', the meaning is preserved -----

  lemma {:induction false} PiecesMatch(w: string, s: string, i: nat)
    requires '+' !in w && i <= |s|
    ensures BodyPieces(w).Some?
    ensures MatchFrom(BodyPieces(w).value, s, i) <==> Matches(w, s[i..])
    decreases |w|, |s| - i
  {
    if w == "" {
      assert BodyPieces(w).value[1..] == [];
    } else {
      assert w[0] in w && forall c :: c in w[1..] ==> c in w;
      if |w| > 1 { assert w[1] in w; }
      PiecesMatch(w[1..], s, i);
      var ps := BodyPieces(w).value;
      assert ps[1..] == BodyPieces(w[1..]).value;
      if i < |s| {
        assert s[i..][0] == s[i] && s[i..][1..] == s[i + 1..];
        if w[0] == '*' {
          PiecesMatch(w, s, i + 1);
        } else {
          PiecesMatch(w[1..], s, i + 1);
        }
      }
    }
  }

  lemma {:induction false} PreservedWithoutPlus(w: string)
    requires '+' !in w
    ensures CompiledCorrectly(w)
  {
    hide BodyPieces, MatchFrom, Matches, Tokens, Parse, Regexec;
    ParseCompiled(w);
    PiecesMatch(w, "", 0);
    var body := BodyPieces(w).value;
    forall s: string ensures Regexec([Piece(Bol, Once)] + body, s) <==> Matches(w, s) {
      PiecesMatch(w, s, 0);
      AnchoredSearch(body, s);
      assert s[0..] == s;
    }
  }

  // ----- with '+', it never is -----

  /** How many characters any match of w has at least. */
  function MinLength(w: string): nat {
    if w == "" then 0 else (if w[0] == '*' then 0 else 1) + MinLength(w[1..])
  }

  lemma {:induction false} MatchIsLong(w: string, s: string)
    requires Matches(w, s)
    ensures |s| >= MinLength(w)
    decreases |w|, |s|
  {
    if w != "" {
      if w[0] != '*' {
        MatchIsLong(w[1..], s[1..]);
      } else if Matches(w[1..], s) {
        MatchIsLong(w[1..], s);
      } else {
        MatchIsLong(w, s[1..]);
      }
    }
  }

  /** A string the compiled expression accepts: no repetitions beyond the first. */
  function Sample(w: string): string {
    if w == "" then ""
    else (if w[0] == '*' || w[0] == '+' then "" else if w[0] == '?' then "x" else [w[0]]) + Sample(w[1..])
  }

  lemma {:induction false} SampleIsShort(w: string)
    ensures |Sample(w)| <= MinLength(w)
    ensures '+' in w ==> |Sample(w)| < MinLength(w)
  {
    if w != "" {
      SampleIsShort(w[1..]);
      assert w == [w[0]] + w[1..];
    }
  }

  lemma {:induction false} SampleMatches(w: string, s: string, i: nat)
    requires BodyPieces(w).Some? && i <= |s| && s[i..] == Sample(w)
    ensures MatchFrom(BodyPieces(w).value, s, i)
  {
    var ps := BodyPieces(w).value;
    if w == "" {
      assert ps[1..] == [];
    } else if w[0] == '*' {
      SampleMatches(w[1..], s, i);
      assert ps[1..] == BodyPieces(w[1..]).value;
    } else {
      assert s[i] == s[i..][0] && s[i + 1..] == s[i..][1..] == Sample(w[1..]);
      if |w| > 1 && w[1] == '+' {
        assert w[1..][1..] == w[2..] && Sample(w[1..]) == Sample(w[2..]);
        SampleMatches(w[2..], s, i + 1);
        var rest := BodyPieces(w[2..]).value;
        assert ps[1..] == rest;
        assert ([Piece(ps[0].atom, Many)] + rest)[1..] == rest;
      } else {
        SampleMatches(w[1..], s, i + 1);
        assert ps[1..] == BodyPieces(w[1..]).value;
      }
    }
  }

  /** A '+' is either undefined where it stands, or makes the expression accept a string that is
      too short for the wildcard. */
  lemma {:induction false} BrokenByPlus(w: string)
    requires '+' in w
    ensures !CompiledCorrectly(w)
  {
    hide BodyPieces, MatchFrom, Matches, Tokens, Parse, Regexec;
    ParseCompiled(w);
    if BodyPieces(w).Some? {
      var body, s := BodyPieces(w).value, Sample(w);
      assert s[0..] == s;
      SampleMatches(w, s, 0);
      AnchoredSearch(body, s);
      SampleIsShort(w);
      if Matches(w, s) { MatchIsLong(w, s); }
      assert Regexec([Piece(Bol, Once)] + body, s) && !Matches(w, s);
    }
  }

  /** The compiler preserves the meaning of a wildcard exactly when it contains no '+'. */
  lemma {:induction false} CompilerCorrectness(w: string)
    ensures CompiledCorrectly(w) <==> '+' !in w
  {
    if '+' in w { BrokenByPlus(w); } else { PreservedWithoutPlus(w); }
  }

  // ----- the filter that is actually applied -----

  /** A bounded copy leaves the destination empty when the source does not fit. */
  function BoundedCopy(s: string, size: nat): string {
    if |s| < size then s else ""
  }

  const FILTER_SIZE := 32

  /** calculateDirHash: the attribute, copied, compiled if a wildcard, and copied again. */
  function PrepareFilter(value: string, wildcard: bool): string {
    var raw := BoundedCopy(value, FILTER_SIZE);
    if raw == "" then "" else if wildcard then BoundedCopy(Compile(raw), FILTER_SIZE) else raw
  }

  /** A filter that is not a wildcard is used as it is, if it has fewer than 32 characters; so is a wildcard's compiled
      form, if both have. */
  lemma PreparedExactly(value: string)
    ensures PrepareFilter(value, false) == if |value| < 32 then value else ""
    ensures PrepareFilter(value, true) == if value != "" && |Compile(value)| < 32 then Compile(value) else ""
  {
    CompileIsLonger(value);
  }

  /** An empty filter text means no filter: everything passes. */
  ghost predicate Passes(filter: string, name: string) {
    filter == "" || (Parse(Tokens(filter)).Some? && Regexec(Parse(Tokens(filter)).value, name))
  }

  /** A wildcard filter selects what it says exactly when its compiled form fits the buffer;
      otherwise it selects everything. */
  lemma WildcardFilter(w: string)
    requires w != "" && '+' !in w
    ensures |Compile(w)| < 32 ==> forall name: string :: Passes(PrepareFilter(w, true), name) <==> Matches(w, name)
    ensures |Compile(w)| >= 32 ==> forall name: string :: Passes(PrepareFilter(w, true), name)
  {
    hide CompileBody, Parse, Tokens, Regexec, Matches;
    PreservedWithoutPlus(w);
    CompileIsLonger(w);
  }

  /** A filter that fits the buffer and is a defined expression selects what it says exactly when it holds
      no '+'. */
  lemma WildcardFilterExactly(w: string)
    requires w != "" && |Compile(w)| < 32 && Parse(Tokens(Compile(w))).Some?
    ensures (forall name: string :: Passes(PrepareFilter(w, true), name) <==> Matches(w, name)) <==> '+' !in w
  {
    hide CompileBody, Parse, Tokens, Regexec, Matches;
    CompilerCorrectness(w);
    CompileIsLonger(w);
    var e := Parse(Tokens(Compile(w))).value;
    assert forall name: string :: Passes(PrepareFilter(w, true), name) <==> Regexec(e, name);
  }

  /** What the compiler emits without a '+' is always a defined expression. */
  lemma PreparedIsDefined(w: string)
    requires '+' !in w && PrepareFilter(w, true) != ""
    ensures Parse(Tokens(PrepareFilter(w, true))).Some?
  {
    hide Parse, Tokens, SameMeaning;
    PreservedWithoutPlus(w);
  }

  lemma {:induction false} CompileIsLonger(w: string)
    ensures |CompileBody(w)| >= |w|
  {
    if w != "" { CompileIsLonger(w[1..]); }
  }

  // ----- wildcards and the emitted text, piece by piece -----

  /** A star matches anything, a question mark any one character, any other character itself. */
  lemma MatchesOne(c: char, s: string)
    ensures Matches([c], s) <==> c == '*' || (|s| == 1 && (c == '?' || s[0] == c))
    ensures Matches("", s) <==> s == ""
  {
    assert ([c])[1..] == "";
    if c == '*' { StarMatches(s); }
  }

  lemma {:induction false} StarMatches(s: string)
    ensures Matches("*", s)
  {
    assert "*"[1..] == "";
    if s != "" { StarMatches(s[1..]); }
  }

  /** A wildcard in two parts matches a string in two parts. */
  lemma {:induction false} MatchesTwo(a: string, b: string, s: string)
    ensures Matches(a + b, s) <==> exists i :: 0 <= i <= |s| && Matches(a, s[..i]) && Matches(b, s[i..])
  {
    if Matches(a + b, s) { var i := SplitMatch(a, b, s); }
    if i :| 0 <= i <= |s| && Matches(a, s[..i]) && Matches(b, s[i..]) {
      JoinMatch(a, b, s[..i], s[i..]);
      assert s == s[..i] + s[i..];
    }
  }

  lemma {:induction false} SplitMatch(a: string, b: string, s: string) returns (i: nat)
    requires Matches(a + b, s)
    ensures i <= |s| && Matches(a, s[..i]) && Matches(b, s[i..])
    decreases |a|, |s|
  {
    if a == "" {
      assert a + b == b && s[0..] == s && s[..0] == "";
      i := 0;
    } else {
      assert (a + b)[0] == a[0] && (a + b)[1..] == a[1..] + b;
      if a[0] == '*' && Matches(a[1..] + b, s) {
        i := SplitMatch(a[1..], b, s);
      } else {
        var j := SplitMatch(if a[0] == '*' then a else a[1..], b, s[1..]);
        i := j + 1;
        assert s[..i][0] == s[0] && s[..i][1..] == s[1..][..j] && s[i..] == s[1..][j..];
      }
    }
  }

  lemma {:induction false} JoinMatch(a: string, b: string, s: string, t: string)
    requires Matches(a, s) && Matches(b, t)
    ensures Matches(a + b, s + t)
    decreases |a|, |s|
  {
    if a == "" {
      assert a + b == b && s + t == t;
    } else {
      assert (a + b)[0] == a[0] && (a + b)[1..] == a[1..] + b;
      if a[0] == '*' && Matches(a[1..], s) {
        JoinMatch(a[1..], b, s, t);
      } else {
        assert (s + t)[0] == s[0] && (s + t)[1..] == s[1..] + t;
        JoinMatch(if a[0] == '*' then a else a[1..], b, s[1..], t);
      }
    }
  }

  /** The emitted text: a star becomes ".*", a question mark ".", the eleven characters the compiler knows as special get a
      backslash, any other character stays; one after the other, between "^" and "$". */
  lemma EmittedText(a: string, b: string, c: char)
    ensures Compile(a) == "^" + CompileBody(a) + "$"
    ensures CompileBody("") == "" && CompileBody(a + b) == CompileBody(a) + CompileBody(b)
    ensures c == '*' ==> CompileBody([c]) == ".*"
    ensures c == '?' ==> CompileBody([c]) == "."
    ensures c in {'(', ')', '[', ']', '$', '^', '.', '{', '}', '|', '\\'} ==> CompileBody([c]) == ['\\', c]
    ensures c !in {'*', '?', '(', ')', '[', ']', '$', '^', '.', '{', '}', '|', '\\'} ==> CompileBody([c]) == [c]
  {
    CompileBodyConcat(a, b);
    assert ([c])[1..] == "" && CompileBody([c]) == CompileChar(c) + "";
  }

  lemma {:induction false} CompileBodyConcat(a: string, b: string)
    ensures CompileBody(a + b) == CompileBody(a) + CompileBody(b)
  {
    hide CompileChar;
    if a == "" {
      assert a + b == b;
    } else {
      CompileBodyConcat(a[1..], b);
      assert (a + b)[0] == a[0] && (a + b)[1..] == a[1..] + b;
      Assoc(CompileChar(a[0]), CompileBody(a[1..]), CompileBody(b));
    }
  }
}
