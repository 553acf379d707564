/** Searches in a manifest: where they start, what they find, and what they miss. */
module ManifestSearch {
  import opened Bytes
  import opened DirWalk
  import opened DirDescent
  import opened BoundedWalk
  import opened Measurement
  import opened MeasuredManifest
  import Text
  import Wildcard

  // ----- where a search starts -----

  /** The directory part of the literal text in front of the first dot or star. */
  function LiteralDirectory(pattern: string): string {
    BeforeLastSlash(UpToPattern(pattern))
  }

  lemma {:induction false} FirstCharStays(s: string)
    requires '/' in s && s[0] != '/'
    ensures BeforeLastSlash(s) != "" && BeforeLastSlash(s)[0] == s[0]
  {
    var n := |s| - 1;
    if s[n] != '/' {
      assert s == s[..n] + [s[n]];
      FirstCharStays(s[..n]);
    }
  }

  lemma PlainPartFirst(pattern: string)
    requires '/' in PlainPart(pattern)
    ensures pattern != "" && PlainPart(pattern) != "" && PlainPart(pattern)[0] == pattern[0]
  {
  }

  /** A search starts at the literal directory of its pattern exactly when the pattern does not start with a dot or a
      star. */
  lemma SearchStartsExactly(pattern: string)
    requires '/' in PlainPart(pattern)
    ensures pattern != "" && (SearchBase(pattern) == LiteralDirectory(pattern) <==> !IsPatternChar(pattern[0]))
  {
    hide BeforeLastSlash;
    PlainPartFirst(pattern);
    if IsPatternChar(pattern[0]) {
      FirstCharStays(PlainPart(pattern));
      assert UpToPattern(pattern) == "" && BeforeLastSlash("") == "" by { NothingBefore(); }
    }
  }

  lemma NothingBefore()
    ensures BeforeLastSlash("") == ""
  {
  }

  // The start of a search for ".*/x.*" is ".*", not the mount point, which is the pattern's literal directory.
  lemma LeadingStarSearch()
    ensures SearchBase(".*/x.*") == ".*" && LiteralDirectory(".*/x.*") == ""
  {
    assert UpToPattern("x.*") == "x" && UpToPattern("/x.*") == "/x";
    assert PlainPart("*/x.*") == "*/x" && PlainPart(".*/x.*") == ".*/x";
    assert ".*/x"[..3] == ".*/" && ".*/"[..2] == ".*";
    assert BeforeLastSlash(".*/") == ".*";
  }

  /** What a search without a directory to start at finds, whatever the pattern matches elsewhere. */
  lemma NoStartNothingFound(w: World, pattern: string, kind: Kind)
    requires ValidWorld(w) && '/' in PlainPart(pattern) && w.dir(SearchBase(pattern)) == None
    ensures Found(w, pattern, kind) == []
  {
  }

  // ----- what a search finds -----

  lemma {:induction false} LinesOfNames(names: seq<string>)
    requires forall i :: 0 <= i < |names| ==> '\n' !in names[i]
    ensures LinesOf(NameLines(names)) == names
  {
    if names != [] {
      LinesOfNames(names[1..]);
      Text.SplitField(names[0], NameLines(names[1..]), '\n');
    }
  }

  /** The path of an entry below the mount point. */
  function PathText(path: seq<string>): string {
    if path == [] then "" else PathText(path[..|path| - 1]) + "/" + path[|path| - 1]
  }

  lemma {:induction false} FullTextIsPath(sp: Spec, path: seq<string>)
    ensures FullText(sp, path) == sp.root + PathText(path)
  {
    if path != [] { FullTextIsPath(sp, path[..|path| - 1]); }
  }

  ghost predicate PlainNames(n: Node) {
    n.Dir? ==> forall c :: c in n.entries ==> '\n' !in c.name && PlainNames(c)
  }

  ghost predicate PlainPath(path: seq<string>) {
    forall i :: 0 <= i < |path| ==> '\n' !in path[i]
  }

  lemma {:induction false} PlainBelow(path: seq<string>, n: Node, v: Visit)
    requires PlainPath(path) && PlainNames(n) && AtOrBelow(path, n, v)
    ensures PlainPath(v.path)
    decreases n
  {
    if v != Visit(path, n) {
      var c :| c in n.entries && AtOrBelow(path + [c.name], c, v);
      PlainBelow(path + [c.name], c, v);
    }
  }

  lemma PlainBelowDir(dir: Node, v: Visit)
    requires dir.Dir? && PlainNames(dir) && Below([], dir, v)
    ensures PlainPath(v.path)
  {
    var n :| n in dir.entries && AtOrBelow([] + [n.name], n, v);
    PlainBelow([] + [n.name], n, v);
  }

  lemma {:induction false} PlainText(path: seq<string>)
    requires PlainPath(path)
    ensures '\n' !in PathText(path)
  {
    if path != [] { PlainText(path[..|path| - 1]); }
  }

  /** A line that searches for entries by a pattern. */
  ghost predicate SearchLine(line: string, pattern: string) {
    AttributeOr(line, "Path=") == pattern && Contains(line, "SearchType=") && '/' in PlainPart(pattern)
  }

  /** The paths of the visits, below the directory the search starts at. */
  function Paths(base: string, vs: seq<Visit>): (names: seq<string>)
    ensures |names| == |vs|
  {
    seq(|vs|, i requires 0 <= i < |vs| => base + PathText(vs[i].path))
  }

  predicate OfKind(kind: Kind, n: Node) {
    match n
    case File(_) => kind == FileKind
    case Link(_) => kind == SymlinkKind
    case Dir(_, _) => kind == DirKind
    case Special(_) => true
  }

  /** A search finds exactly the entries of its kind (and special files) below its starting directory whose path the
      pattern matches, each once. */
  lemma {:induction false} SearchFinds(w: World, kind: Kind, pattern: string, stack: Stack) returns (vs: seq<Visit>)
    requires ValidWorld(w) && '/' in PlainPart(pattern) && w.regex(pattern).Some?
    requires Measurable(w, SearchBase(pattern), stack) && PlainNames(Top(stack)) && '\n' !in SearchBase(pattern)
    ensures NoRepeats(vs)
    ensures forall v :: v in vs <==>
              && Below([], Top(stack), v) && v.path != []
              && OfKind(kind, v.node) && w.regex(pattern).value(SearchBase(pattern) + PathText(v.path))
    ensures Found(w, pattern, kind) == Paths(SearchBase(pattern), vs)
  {
    hide Walk, Walked, GoodTree, AllFit, ValidOrder, ValidStack, NoRepeats, PlainPart, SearchBase, Below, FullText, LinesOf, NameLines,
      PlainNames, PathText;
    var base := SearchBase(pattern);
    var sp := SearchSpec(kind, w.regex(pattern).value, base);
    StackOf(w, base, stack);
    WalkCorrect(w.order, w.order, sp, Top(stack));
    vs := Walk(w.order, sp, [], Top(stack));
    FullTextIsPath(sp, []);
    assert PathText([]) == "" by { NoPath(); }
    assert FullText(sp, []) == base;
    FittingWalk(w.order, sp, Room(w), stack, []);
    FitsAtStart(Room(w), base, Top(stack));
    forall i | 0 <= i < |vs| ensures vs[i].path != [] && '\n' !in Names(sp, vs)[i] && Names(sp, vs)[i] == base + PathText(vs[i].path) {
      assert vs[i] in vs;
      PlainBelowDir(Top(stack), vs[i]);
      PlainText(vs[i].path);
      FullTextIsPath(sp, vs[i].path);
    }
    LinesOfNames(Names(sp, vs));
    assert Names(sp, vs) == Paths(base, vs);
    forall v: Visit | v.path != []
      ensures Emits(sp, v.path, v.node) <==> OfKind(kind, v.node) && w.regex(pattern).value(base + PathText(v.path))
    {
      FullTextIsPath(sp, v.path);
    }
  }

  lemma NoPath()
    ensures PathText([]) == ""
  {
  }

  /** The entries found are what the line measures. */
  lemma SearchLineTargets(w: World, line: string, kind: Kind, pattern: string)
    requires ValidWorld(w)
    ensures SearchLine(line, pattern) ==> Targets(w, line, kind) == Found(w, pattern, kind)
  {
    hide Contains, AttributeOr, Found;
    if SearchLine(line, pattern) { PlainPartFirst(pattern); }
  }

  // ----- what a search misses -----

  /** Whatever the tree looks like, a search writes only paths below its start. */
  lemma SearchConfined(w: World, kind: Kind, pattern: string) returns (names: seq<string>)
    requires ValidWorld(w) && SearchText(w, pattern, kind).Some?
    ensures SearchText(w, pattern, kind) == Some(NameLines(names)) && AllStartWith(names, SearchBase(pattern) + "/")
  {
    hide Walked, NameLines, SearchBase, ValidOrder, ValidStack;
    var base := SearchBase(pattern);
    var sp := SearchSpec(kind, w.regex(pattern).value, base);
    names := Walked(w.order, sp, Room(w), w.dir(base).value, base);
    WalkedConfined(w.order, sp, Room(w), w.dir(base).value, base);
  }

  /** A path below the mount point: one name or more, none empty or with a slash. */
  ghost predicate IsPath(path: seq<string>) {
    path != [] && forall i :: 0 <= i < |path| ==> path[i] != "" && '/' !in path[i]
  }

  /** Every path the pattern matches lies below the directory where the search starts. */
  ghost predicate Covers(base: string, matcher: string -> bool) {
    forall path :: IsPath(path) && matcher(PathText(path)) ==> base + "/" <= PathText(path)
  }

  /** Whatever stands in front of a match, it remains one. */
  ghost predicate Unanchored(matcher: string -> bool) {
    forall s: string, x: string :: matcher(s) ==> matcher(x + s)
  }

  lemma {:induction false} PathTextCons(name: string, path: seq<string>)
    ensures PathText([name] + path) == "/" + name + PathText(path)
  {
    var all := [name] + path;
    if path == [] {
      assert all[..0] == [] && all[0] == name;
    } else {
      var n := |path| - 1;
      PathTextCons(name, path[..n]);
      assert all[..|all| - 1] == [name] + path[..n] && all[|all| - 1] == path[n];
    }
  }

  lemma {:induction false} PathStartsWithSlash(path: seq<string>)
    requires path != []
    ensures PathText(path) != "" && PathText(path)[0] == '/'
  {
    if |path| > 1 { PathStartsWithSlash(path[..|path| - 1]); }
  }

  /** A name longer than any given text. */
  function LongName(n: nat): (name: string)
    ensures |name| == n && forall i :: 0 <= i < n ==> name[i] == 'z'
  {
    seq(n, i => 'z')
  }

  /** A search by an unanchored pattern covers all it matches exactly when it starts at the mount point itself: below
      any other start, what the pattern matches can also be found elsewhere. */
  lemma {:induction false} SearchCoversExactly(base: string, matcher: string -> bool, some: seq<string>)
    requires Unanchored(matcher) && IsPath(some) && matcher(PathText(some))
    ensures Covers(base, matcher) <==> base == ""
  {
    hide PathText;
    if base == "" {
      forall path | IsPath(path) && matcher(PathText(path)) ensures base + "/" <= PathText(path) { PathStartsWithSlash(path); }
    } else {
      var name := LongName(|base|);
      var elsewhere := [name] + some;
      PathTextCons(name, some);
      var t := PathText(elsewhere);
      assert t == ("/" + name) + PathText(some) && t[|base|] == name[|base| - 1];
      assert (base + "/")[|base|] == '/';
      assert IsPath(elsewhere);
    }
  }

  /** A pattern that does not begin with a slash, such as an anchored one, covers nothing that it matches. */
  lemma RelativeSearchMisses(pattern: string, matcher: string -> bool)
    requires '/' in PlainPart(pattern) && pattern[0] != '/'
    ensures Covers(SearchBase(pattern), matcher) <==> forall path :: IsPath(path) ==> !matcher(PathText(path))
  {
    hide PathText, BeforeLastSlash;
    PlainPartFirst(pattern);
    FirstCharStays(PlainPart(pattern));
    var base := SearchBase(pattern);
    forall path | IsPath(path) ensures !(base + "/" <= PathText(path)) {
      PathStartsWithSlash(path);
      assert (base + "/")[0] == base[0];
    }
  }

  // ----- expressions without '^' are unanchored -----

  ghost predicate NoBol(ps: seq<Wildcard.Piece>) {
    forall i :: 0 <= i < |ps| ==> ps[i].atom != Wildcard.Bol
  }

  lemma {:induction false} MatchShifted(ps: seq<Wildcard.Piece>, s: string, x: string, i: nat)
    requires NoBol(ps) && i <= |s| && Wildcard.MatchFrom(ps, s, i)
    ensures Wildcard.MatchFrom(ps, x + s, |x| + i)
    decreases |ps|, |s| - i
  {
    if ps != [] {
      var p := ps[0];
      match p.repeat
      case Once => MatchShifted(ps[1..], s, x, i + Wildcard.Width(p.atom));
      case Many =>
        if Wildcard.MatchFrom(ps[1..], s, i) {
          MatchShifted(ps[1..], s, x, i);
        } else {
          MatchShifted(ps, s, x, i + 1);
        }
      case AtLeastOnce =>
        MatchShifted([Wildcard.Piece(p.atom, Wildcard.Many)] + ps[1..], s, x, i + 1);
    }
  }

  /** A defined expression without '^' is unanchored. */
  lemma UnanchoredExpression(matcher: string -> bool, text: string)
    requires text != "" && Wildcard.Parse(Wildcard.Tokens(text)).Some? && Decides(matcher, text)
    requires NoBol(Wildcard.Parse(Wildcard.Tokens(text)).value)
    ensures Unanchored(matcher)
  {
    hide Wildcard.Parse, Wildcard.Tokens, Wildcard.MatchFrom, NoBol;
    var ps := Wildcard.Parse(Wildcard.Tokens(text)).value;
    forall s: string, x: string | matcher(s) ensures matcher(x + s) {
      var i :| 0 <= i <= |s| && Wildcard.MatchFrom(ps, s, i);
      MatchShifted(ps, s, x, i);
    }
  }

  // ----- the start of a search, literally -----

  lemma {:induction false} PlainPrefix(a: string, rest: string)
    requires (forall i :: 0 <= i < |a| ==> a[i] != '.' && a[i] != '*') && (rest == "" || rest[0] == '.' || rest[0] == '*')
    ensures UpToPattern(a + rest) == a
  {
    if a == "" {
      assert a + rest == rest;
    } else {
      PlainPrefix(a[1..], rest);
      assert (a + rest)[1..] == a[1..] + rest;
    }
  }

  lemma {:induction false} SlashCut(dir: string, name: string)
    requires '/' !in name
    ensures BeforeLastSlash(dir + "/" + name) == dir
  {
    var t := dir + "/" + name;
    if name == "" {
      assert t == dir + "/" && t[..|t| - 1] == dir;
    } else {
      var n := |name| - 1;
      assert name[n] in name && t[|t| - 1] == name[n];
      assert t[..|t| - 1] == dir + "/" + name[..n];
      SlashCut(dir, name[..n]);
    }
  }

  lemma {:induction false} LeadingKept(lead: string, s: string)
    requires (forall i :: 0 <= i < |lead| ==> lead[i] == '.' || lead[i] == '*') && s != "" && s[0] != '.' && s[0] != '*'
    ensures PlainPart(lead + s) == lead + UpToPattern(s)
  {
    if lead == "" {
      assert lead + s == s;
    } else {
      LeadingKept(lead[1..], s);
      assert (lead + s)[1..] == lead[1..] + s;
    }
  }

  /** A pattern "lead dir / name rest", where lead is all dots and stars, neither dir nor name holds one, and rest begins
      with one if it is not empty: the search starts at "lead dir". */
  lemma SearchBaseOf(lead: string, dir: string, name: string, rest: string)
    requires forall i :: 0 <= i < |lead| ==> lead[i] == '.' || lead[i] == '*'
    requires forall i :: 0 <= i < |dir| ==> dir[i] != '.' && dir[i] != '*'
    requires forall i :: 0 <= i < |name| ==> name[i] != '.' && name[i] != '*' && name[i] != '/'
    requires rest == "" || rest[0] == '.' || rest[0] == '*'
    ensures SearchBase(lead + dir + "/" + name + rest) == lead + dir
  {
    var s := dir + "/" + name + rest;
    assert lead + dir + "/" + name + rest == lead + s;
    LeadingKept(lead, s);
    PlainPrefix(dir + "/" + name, rest);
    assert s == (dir + "/" + name) + rest;
    assert lead + (dir + "/" + name) == (lead + dir) + "/" + name;
    SlashCut(lead + dir, name);
  }
}
