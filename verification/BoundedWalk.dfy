/** walkDirRecurse for every directory tree: it may visit dot entries, and what ends it then is the limit on path
    lengths. */
module BoundedWalk {
  import opened Bytes
  import opened DirWalk
  import opened DirDescent

  // ----- one entry -----

  predicate Fits(limit: nat, text: string, name: string) {
    |text| + 1 + |name| < limit
  }

  /** The path of an entry. A copy that does not fit leaves nothing, and so the path of the directory itself. */
  function FilePath(limit: nat, text: string, name: string): (file: string)
    ensures text + "/" <= file
  {
    if Fits(limit, text, name) then text + "/" + name else text + "/"
  }

  /** The directory that path leads to, if it is one. */
  function Met(limit: nat, text: string, stack: Stack, d: Dirent): Option<Stack> {
    if Fits(limit, text, d.name) then Target(stack, d) else Some(stack)
  }

  predicate Selected(sp: Spec, limit: nat, text: string, stack: Stack, d: Dirent) {
    if Met(limit, text, stack, d).Some? then sp.dirs else KindSelected(sp, d.node.value)
  }

  /** The name an entry is tested and written by. */
  function Tested(sp: Spec, limit: nat, text: string, d: Dirent): string {
    if sp.files && sp.links && !sp.dirs then d.name else FilePath(limit, text, d.name)
  }

  predicate Written(sp: Spec, limit: nat, text: string, stack: Stack, d: Dirent) {
    && Selected(sp, limit, text, stack, d)
    && (sp.including.None? || sp.including.value(Tested(sp, limit, text, d)))
    && (sp.excluding.None? || !sp.excluding.value(Tested(sp, limit, text, d)))
  }

  lemma TargetValid(stack: Stack, d: Dirent)
    requires ValidStack(stack) && d in Dirents(Top(stack)) && Target(stack, d).Some?
    ensures ValidStack(Target(stack, d).value)
  {
    hide ProperNames;
  }

  /** What the loop over a directory goes through: everything behind the first two entries. */
  function Visited(o: Order, stack: Stack): (ds: seq<Dirent>)
    requires ValidOrder(o) && ValidStack(stack)
    ensures forall d :: d in ds ==> d in Dirents(Top(stack))
  {
    FirstTwoAreDots(o, Top(stack));
    ListingSorted(o, Top(stack));
    Listing(o, Top(stack))[2..]
  }

  // ----- the walk -----

  /** The names written by the walk of a directory reached by a path, in order; nothing if the path is too long. */
  function Walked(o: Order, sp: Spec, limit: nat, stack: Stack, text: string): seq<string>
    requires ValidOrder(o) && ValidStack(stack)
    decreases limit - |text|, 1, 0
  {
    if |text| + 1 >= limit then [] else WalkedEntries(o, sp, limit, stack, text, Visited(o, stack))
  }

  function WalkedEntries(o: Order, sp: Spec, limit: nat, stack: Stack, text: string, ds: seq<Dirent>): seq<string>
    requires ValidOrder(o) && ValidStack(stack) && |text| + 1 < limit && forall d :: d in ds ==> d in Dirents(Top(stack))
    decreases limit - |text|, 0, |ds|
  {
    if ds == [] then [] else
    assert ds[0] in ds;
    WalkedEntry(o, sp, limit, stack, text, ds[0]) + WalkedEntries(o, sp, limit, stack, text, ds[1..])
  }

  function WalkedEntry(o: Order, sp: Spec, limit: nat, stack: Stack, text: string, d: Dirent): seq<string>
    requires ValidOrder(o) && ValidStack(stack) && |text| + 1 < limit && d in Dirents(Top(stack))
    decreases limit - |text|, 0, 0
  {
    (match Met(limit, text, stack, d)
     case None => []
     case Some(next) =>
       MetValid(limit, text, stack, d);
       Walked(o, sp, limit, next, FilePath(limit, text, d.name)))
    + if Written(sp, limit, text, stack, d) then [Tested(sp, limit, text, d)] else []
  }

  lemma MetValid(limit: nat, text: string, stack: Stack, d: Dirent)
    requires ValidStack(stack) && d in Dirents(Top(stack)) && Met(limit, text, stack, d).Some?
    ensures ValidStack(Met(limit, text, stack, d).value)
  {
    hide ValidStack;
    if Fits(limit, text, d.name) { TargetValid(stack, d); }
  }

  // ----- the walk as a program -----

  class OutputFile {
    var text: string

    constructor ()
      ensures text == ""
    {
      text := "";
    }
  }

  /** walkDirRecurse: skip two entries, descend into each directory, then test and write the entry itself. */
  method WalkDirRecurse(o: Order, sp: Spec, limit: nat, stack: Stack, text: string, fd: OutputFile) returns (ok: bool)
    requires ValidOrder(o) && ValidStack(stack)
    modifies fd
    ensures ok <==> |text| + 1 < limit
    ensures fd.text == old(fd.text) + NameLines(Walked(o, sp, limit, stack, text))
    decreases limit - |text|
  {
    hide NameLines, WalkedEntries, Written, Tested, Met, FilePath, Dirents, ValidStack, ValidOrder, Visited;
    NoLines();
    if |text| + 1 >= limit { return false; }
    var entries := Visited(o, stack);
    ghost var all := old(fd.text) + NameLines(Walked(o, sp, limit, stack, text));
    assert entries[0..] == entries;
    for i := 0 to |entries|
      invariant fd.text + NameLines(WalkedEntries(o, sp, limit, stack, text, entries[i..])) == all
    {
      var d := entries[i];
      assert d in entries;
      NextEntry(fd.text, o, sp, limit, stack, text, entries, i);
      var filePath := FilePath(limit, text, d.name);
      var next := Met(limit, text, stack, d);
      if next.Some? {
        MetValid(limit, text, stack, d);
        var _ := WalkDirRecurse(o, sp, limit, next.value, filePath, fd);
      }
      if Written(sp, limit, text, stack, d) {
        fd.text := fd.text + (Tested(sp, limit, text, d) + "\n");
      }
    }
    NoEntries(o, sp, limit, stack, text);
    assert entries[|entries|..] == [];
    return true;
  }

  lemma NoEntries(o: Order, sp: Spec, limit: nat, stack: Stack, text: string)
    requires ValidOrder(o) && ValidStack(stack) && |text| + 1 < limit
    ensures WalkedEntries(o, sp, limit, stack, text, []) == []
  {
  }

  /** What the turn for the i-th entry adds to the text: the contents of a directory, then the entry's own line. */
  lemma NextEntry(before: string, o: Order, sp: Spec, limit: nat, stack: Stack, text: string, ds: seq<Dirent>, i: nat)
    requires ValidOrder(o) && ValidStack(stack) && |text| + 1 < limit && i < |ds| && forall d :: d in ds ==> d in Dirents(Top(stack))
    ensures ds[i] in Dirents(Top(stack)) && (Met(limit, text, stack, ds[i]).Some? ==> ValidStack(Met(limit, text, stack, ds[i]).value))
    ensures var next := Met(limit, text, stack, ds[i]);
            var after := if next.None? then before
                         else before + NameLines(Walked(o, sp, limit, next.value, FilePath(limit, text, ds[i].name)));
            before + NameLines(WalkedEntries(o, sp, limit, stack, text, ds[i..])) ==
            (if Written(sp, limit, text, stack, ds[i]) then after + (Tested(sp, limit, text, ds[i]) + "\n") else after)
            + NameLines(WalkedEntries(o, sp, limit, stack, text, ds[i + 1..]))
  {
    hide NameLines, Written, Tested, Met, FilePath, Dirents, ValidStack, ValidOrder, Walked;
    var d := ds[i];
    assert d in ds && ds[i..][0] == d && ds[i..][1..] == ds[i + 1..];
    if Met(limit, text, stack, d).Some? { MetValid(limit, text, stack, d); }
    var inside := if Met(limit, text, stack, d).None? then [] else Walked(o, sp, limit, Met(limit, text, stack, d).value, FilePath(limit, text, d.name));
    var own := if Written(sp, limit, text, stack, d) then [Tested(sp, limit, text, d)] else [];
    NoLines();
    LinesOfEntry(before, inside, own, WalkedEntries(o, sp, limit, stack, text, ds[i + 1..]));
  }

  lemma NoLines()
    ensures NameLines([]) == ""
  {
  }

  lemma LinesOfEntry(before: string, inside: seq<string>, own: seq<string>, rest: seq<string>)
    requires |own| <= 1
    ensures before + NameLines((inside + own) + rest) ==
            (before + NameLines(inside) + if own == [] then "" else own[0] + "\n") + NameLines(rest)
  {
    NameLinesConcat(inside + own, rest);
    NameLinesConcat(inside, own);
    var mine := if own == [] then "" else own[0] + "\n";
    assert NameLines(own) == mine by { if own != [] { assert own[1..] == []; } }
    hide NameLines;
    Assoc(before, NameLines(inside), mine);
    Assoc(before, NameLines(inside) + mine, NameLines(rest));
  }

  // ----- the order of directory entries does not matter -----

  lemma {:induction false} WalkedUnique(o: Order, o': Order, sp: Spec, limit: nat, stack: Stack, text: string)
    requires ValidOrder(o) && ValidOrder(o') && ValidStack(stack)
    ensures Walked(o, sp, limit, stack, text) == Walked(o', sp, limit, stack, text)
    decreases limit - |text|, 1, 0
  {
    if |text| + 1 < limit {
      ListingUnique(o, o', Top(stack));
      EntriesUnique(o, o', sp, limit, stack, text, Visited(o, stack));
    }
  }

  lemma {:induction false} EntriesUnique(o: Order, o': Order, sp: Spec, limit: nat, stack: Stack, text: string, ds: seq<Dirent>)
    requires ValidOrder(o) && ValidOrder(o') && ValidStack(stack) && |text| + 1 < limit
    requires forall d :: d in ds ==> d in Dirents(Top(stack))
    ensures WalkedEntries(o, sp, limit, stack, text, ds) == WalkedEntries(o', sp, limit, stack, text, ds)
    decreases limit - |text|, 0, |ds|
  {
    hide Written, Tested, Met, Dirents, ValidStack, ValidOrder;
    if ds != [] {
      assert ds[0] in ds;
      if Met(limit, text, stack, ds[0]).Some? {
        MetValid(limit, text, stack, ds[0]);
        WalkedUnique(o, o', sp, limit, Met(limit, text, stack, ds[0]).value, FilePath(limit, text, ds[0].name));
      }
      EntriesUnique(o, o', sp, limit, stack, text, ds[1..]);
    }
  }

  // ----- a walk for full paths never writes a path from elsewhere -----

  ghost predicate AllStartWith(names: seq<string>, prefix: string) {
    forall i :: 0 <= i < |names| ==> prefix <= names[i]
  }

  lemma {:induction false} WalkedConfined(o: Order, sp: Spec, limit: nat, stack: Stack, text: string)
    requires ValidOrder(o) && ValidStack(stack) && !(sp.files && sp.links && !sp.dirs)
    ensures AllStartWith(Walked(o, sp, limit, stack, text), text + "/")
    decreases limit - |text|, 1, 0
  {
    if |text| + 1 < limit { EntriesConfined(o, sp, limit, stack, text, Visited(o, stack)); }
  }

  lemma {:induction false} EntriesConfined(o: Order, sp: Spec, limit: nat, stack: Stack, text: string, ds: seq<Dirent>)
    requires ValidOrder(o) && ValidStack(stack) && |text| + 1 < limit && !(sp.files && sp.links && !sp.dirs)
    requires forall d :: d in ds ==> d in Dirents(Top(stack))
    ensures AllStartWith(WalkedEntries(o, sp, limit, stack, text, ds), text + "/")
    decreases limit - |text|, 0, |ds|
  {
    hide Written, Met, Dirents, ValidStack, ValidOrder;
    if ds != [] {
      assert ds[0] in ds;
      var file := FilePath(limit, text, ds[0].name);
      if Met(limit, text, stack, ds[0]).Some? {
        MetValid(limit, text, stack, ds[0]);
        var inside := Walked(o, sp, limit, Met(limit, text, stack, ds[0]).value, file);
        WalkedConfined(o, sp, limit, Met(limit, text, stack, ds[0]).value, file);
        forall i | 0 <= i < |inside| ensures text + "/" <= inside[i] { LongerPrefix(text + "/", file, inside[i]); }
      }
      EntriesConfined(o, sp, limit, stack, text, ds[1..]);
    }
  }

  lemma LongerPrefix(a: string, b: string, c: string)
    requires a <= b && b + "/" <= c
    ensures a <= c
  {
  }

  // ----- trees in which the limit is never met -----

  /** Every path at or below a directory fits. */
  ghost predicate AllFit(limit: nat, text: string, dir: Node)
    requires dir.Dir?
    decreases dir
  {
    && |text| + 1 < limit
    && forall n :: n in dir.entries ==> Fits(limit, text, n.name) && (n.Dir? ==> AllFit(limit, text + "/" + n.name, n))
  }

  lemma NamesConcat(sp: Spec, a: seq<Visit>, b: seq<Visit>)
    ensures Names(sp, a + b) == Names(sp, a) + Names(sp, b)
  {
    hide NameOf;
  }

  /** Where all names sort after ".." and all paths fit, the names written are those of the plain recursive walk. */
  lemma {:induction false} FittingWalk(o: Order, sp: Spec, limit: nat, stack: Stack, path: seq<string>)
    requires ValidOrder(o) && ValidStack(stack) && GoodTree(Top(stack)) && AllFit(limit, FullText(sp, path), Top(stack))
    ensures Walked(o, sp, limit, stack, FullText(sp, path)) == Names(sp, Walk(o, sp, path, Top(stack)))
    decreases Top(stack), 1, 0
  {
    hide FullText, WalkAll, WalkedEntries;
    ChildrenListed(o, Top(stack));
    FittingEntries(o, sp, limit, stack, path, Visited(o, stack), Children(o, Top(stack)));
  }

  lemma {:induction false} FittingEntries(o: Order, sp: Spec, limit: nat, stack: Stack, path: seq<string>, ds: seq<Dirent>, ns: seq<Node>)
    requires ValidOrder(o) && ValidStack(stack) && GoodTree(Top(stack)) && AllFit(limit, FullText(sp, path), Top(stack))
    requires forall n :: n in ns ==> n in Top(stack).entries
    requires |ds| == |ns| && forall i :: 0 <= i < |ns| ==> ds[i] == Dirent(ns[i].name, Some(ns[i]))
    requires forall d :: d in ds ==> d in Dirents(Top(stack))
    ensures WalkedEntries(o, sp, limit, stack, FullText(sp, path), ds) == Names(sp, WalkAll(o, sp, path, Top(stack), ns))
    decreases Top(stack), 0, |ns|
  {
    hide Walk, Walked, NameOf, FullText, Names, Dirents, ValidOrder, Children, Emits, Written;
    if ns == [] {
      assert Names(sp, []) == [];
    } else {
      assert ns[0] in ns && ds[0] in ds;
      FittingEntry(o, sp, limit, stack, path, ns[0]);
      FittingEntries(o, sp, limit, stack, path, ds[1..], ns[1..]);
      NamesConcat(sp, WalkNode(o, sp, path + [ns[0].name], ns[0]), WalkAll(o, sp, path, Top(stack), ns[1..]));
    }
  }

  lemma {:induction false} FittingEntry(o: Order, sp: Spec, limit: nat, stack: Stack, path: seq<string>, n: Node)
    requires ValidOrder(o) && ValidStack(stack) && GoodTree(Top(stack)) && AllFit(limit, FullText(sp, path), Top(stack))
    requires n in Top(stack).entries && Dirent(n.name, Some(n)) in Dirents(Top(stack))
    ensures WalkedEntry(o, sp, limit, stack, FullText(sp, path), Dirent(n.name, Some(n))) ==
            Names(sp, WalkNode(o, sp, path + [n.name], n))
    decreases Top(stack), 0, 0
  {
    hide Walk, Walked, FullText, Dirents, ValidOrder, Children;
    var d, below := Dirent(n.name, Some(n)), path + [n.name];
    PathOfChild(sp, path, n.name);
    assert Written(sp, limit, FullText(sp, path), stack, d) <==> Emits(sp, below, n);
    var own := if Emits(sp, below, n) then [Visit(below, n)] else [];
    if n.Dir? {
      TargetValid(stack, d);
      FittingWalk(o, sp, limit, stack + [n], below);
      NamesConcat(sp, Walk(o, sp, below, n), own);
    }
  }

  lemma PathOfChild(sp: Spec, path: seq<string>, name: string)
    ensures FullText(sp, path + [name]) == FullText(sp, path) + "/" + name
    ensures (path + [name])[|path|] == name
  {
    assert (path + [name])[..|path|] == path;
  }

  // ----- when the limit is met -----

  /** No call of the walk is turned away for its path, and no name fails to fit. */
  ghost predicate Uncut(o: Order, limit: nat, stack: Stack, text: string)
    decreases limit - |text|
  {
    && |text| + 1 < limit && stack != [] && Top(stack).Dir?
    && forall i :: 2 <= i < |Listing(o, Top(stack))| ==>
         var d := Listing(o, Top(stack))[i];
         Fits(limit, text, d.name) && (Target(stack, d).Some? ==> Uncut(o, limit, Target(stack, d).value, text + "/" + d.name))
  }

  /** A walk that is not cut off has no endless chain of calls: paths only grow. */
  lemma {:induction false} UncutEnds(o: Order, limit: nat, stack: Stack, text: string, f: nat -> Stack)
    requires Uncut(o, limit, stack, text)
    ensures !EndlessDescent(o, stack, f)
    decreases limit - |text|
  {
    hide Listing;
    if EndlessDescent(o, stack, f) {
      assert Enters(o, f(0), f(0 + 1));
      var i :| 2 <= i < |Listing(o, Top(stack))| && Target(stack, Listing(o, Top(stack))[i]) == Some(f(1));
      var g := (i: nat) => f(i + 1);
      forall i: nat ensures Enters(o, g(i), g(i + 1)) { assert Enters(o, f(i + 1), f(i + 1 + 1)); }
      UncutEnds(o, limit, f(1), text + "/" + Listing(o, Top(stack))[i].name, g);
      assert false;
    }
  }

  lemma {:induction false} UncutFits(o: Order, limit: nat, stack: Stack, text: string)
    requires ValidOrder(o) && ValidStack(stack) && GoodTree(Top(stack))
    ensures Uncut(o, limit, stack, text) <==> AllFit(limit, text, Top(stack))
    decreases Top(stack)
  {
    hide Listing, ValidOrder, ProperNames, AfterDots, ValidStack;
    StackTop(stack);
    var dir := Top(stack);
    ChildrenListed(o, dir);
    var l := Listing(o, dir);
    forall n | n in dir.entries && n.Dir?
      ensures Uncut(o, limit, stack + [n], text + "/" + n.name) <==> AllFit(limit, text + "/" + n.name, n)
    {
      ChildStack(stack, n);
      UncutFits(o, limit, stack + [n], text + "/" + n.name);
    }
    if Uncut(o, limit, stack, text) {
      forall n | n in dir.entries ensures Fits(limit, text, n.name) && (n.Dir? ==> AllFit(limit, text + "/" + n.name, n)) {
        var i :| 2 <= i < |l| && l[i].node == Some(n);
        assert l[i] == Dirent(n.name, Some(n));
      }
    }
    if AllFit(limit, text, dir) {
      forall i | 2 <= i < |l|
        ensures Fits(limit, text, l[i].name) && (Target(stack, l[i]).Some? ==> Uncut(o, limit, Target(stack, l[i]).value, text + "/" + l[i].name))
      {
        assert l[i].node.value in dir.entries;
      }
    }
  }

  lemma StackTop(stack: Stack)
    requires ValidStack(stack)
    ensures stack != [] && Top(stack).Dir? && ProperNames(Top(stack))
  {
  }

  lemma ChildStack(stack: Stack, n: Node)
    requires ValidStack(stack) && n in Top(stack).entries && n.Dir?
    ensures ValidStack(stack + [n]) && Top(stack + [n]) == n
  {
    hide ProperNames;
  }

  /** The walk is not cut off exactly when every name at every level sorts after ".." and every path fits. */
  lemma {:induction false} UncutExactly(o: Order, limit: nat, stack: Stack, text: string)
    requires ValidOrder(o) && ValidStack(stack)
    ensures Uncut(o, limit, stack, text) <==> GoodTree(Top(stack)) && AllFit(limit, text, Top(stack))
  {
    hide Uncut, GoodTree, AllFit, EndlessDescent;
    if GoodTree(Top(stack)) {
      UncutFits(o, limit, stack, text);
    } else if Uncut(o, limit, stack, text) {
      var f := BadTreeDescends(o, stack);
      UncutEnds(o, limit, stack, text, f);
    }
  }

  lemma {:induction false} AllFitMonotone(limit: nat, limit': nat, text: string, dir: Node)
    requires dir.Dir? && limit <= limit' && AllFit(limit, text, dir)
    ensures AllFit(limit', text, dir)
    decreases dir
  {
    forall n | n in dir.entries && n.Dir? ensures AllFit(limit', text + "/" + n.name, n) {
      AllFitMonotone(limit, limit', text + "/" + n.name, n);
    }
  }

  lemma {:induction false} SomeLimit(text: string, dir: Node) returns (limit: nat)
    requires dir.Dir?
    ensures AllFit(limit, text, dir)
    decreases dir, |dir.entries| + 1
  {
    limit := LimitFor(text, dir, dir.entries);
  }

  lemma {:induction false} LimitFor(text: string, dir: Node, ns: set<Node>) returns (limit: nat)
    requires dir.Dir? && ns <= dir.entries
    ensures |text| + 1 < limit
    ensures forall n :: n in ns ==> Fits(limit, text, n.name) && (n.Dir? ==> AllFit(limit, text + "/" + n.name, n))
    decreases dir, |ns|
  {
    if ns == {} { return |text| + 2; }
    var n :| n in ns;
    var a := LimitFor(text, dir, ns - {n});
    var b: nat := |text| + |n.name| + 2;
    if n.Dir? { var c := SomeLimit(text + "/" + n.name, n); b := b + c; AllFitMonotone(c, b, text + "/" + n.name, n); }
    limit := a + b;
    forall m | m in ns ensures Fits(limit, text, m.name) && (m.Dir? ==> AllFit(limit, text + "/" + m.name, m)) {
      if m.Dir? { AllFitMonotone(if m == n then b else a, limit, text + "/" + m.name, m); }
    }
  }

  /** However long paths may be, a tree with a name that does not sort after ".." drives the walk into the limit;
      every other tree is walked in full under some limit. */
  lemma {:induction false} LimitMetExactly(o: Order, stack: Stack, text: string)
    requires ValidOrder(o) && ValidStack(stack)
    ensures (exists limit: nat :: Uncut(o, limit, stack, text)) <==> GoodTree(Top(stack))
  {
    hide Uncut, GoodTree, AllFit;
    forall limit: nat ensures Uncut(o, limit, stack, text) <==> GoodTree(Top(stack)) && AllFit(limit, text, Top(stack)) {
      UncutExactly(o, limit, stack, text);
    }
    if GoodTree(Top(stack)) {
      var limit := SomeLimit(text, Top(stack));
      assert Uncut(o, limit, stack, text);
    }
  }

  // ----- each entry, literally -----

  predicate LetThrough(sp: Spec, name: string) {
    (sp.including.None? || sp.including.value(name)) && (sp.excluding.None? || !sp.excluding.value(name))
  }

  predicate BaseNamesOnly(sp: Spec) {
    sp.files && sp.links && !sp.dirs
  }

  /** What an entry whose path fits contributes: a directory, a dot entry among them, first what is in it, then itself if
      directories are wanted; anything else itself, if its kind is wanted. */
  lemma FittingName(o: Order, sp: Spec, limit: nat, stack: Stack, text: string, d: Dirent)
    requires ValidOrder(o) && ValidStack(stack) && d in Dirents(Top(stack)) && |text| + 1 + |d.name| < limit
    ensures var file := text + "/" + d.name;
            var tested := if BaseNamesOnly(sp) then d.name else file;
            var written := WalkedEntry(o, sp, limit, stack, text, d);
            var own := if LetThrough(sp, tested) then [tested] else [];
            match d.node
            case None =>
              var next := if d.name == "." then stack else if |stack| == 1 then stack else stack[..|stack| - 1];
              ValidStack(next) && written == Walked(o, sp, limit, next, file) + if sp.dirs then own else []
            case Some(File(_)) => written == if sp.files then own else []
            case Some(Link(_)) => written == if sp.links then own else []
            case Some(Special(_)) => written == own
            case Some(Dir(_, _)) =>
              ValidStack(stack + [d.node.value])
              && written == Walked(o, sp, limit, stack + [d.node.value], file) + if sp.dirs then own else []
  {
    hide Walked, Dirents, ProperNames;
    if Met(limit, text, stack, d).Some? { MetValid(limit, text, stack, d); }
  }

  /** A name that does not fit: the directory itself is walked again, under its path with a slash. */
  lemma LongNameReenters(o: Order, sp: Spec, limit: nat, stack: Stack, text: string, d: Dirent)
    requires ValidOrder(o) && ValidStack(stack) && d in Dirents(Top(stack)) && |text| + 1 < limit <= |text| + 1 + |d.name|
    ensures var tested := if BaseNamesOnly(sp) then d.name else text + "/";
            WalkedEntry(o, sp, limit, stack, text, d) ==
            Walked(o, sp, limit, stack, text + "/") + if sp.dirs && LetThrough(sp, tested) then [tested] else []
  {
    hide Walked, Dirents;
  }

  /** A directory: all entries of its sorted listing behind the first two, one after the other; nothing if its path is too
      long. */
  lemma WalkedInOrder(o: Order, sp: Spec, limit: nat, stack: Stack, text: string, ds: seq<Dirent>, d: Dirent)
    requires ValidOrder(o) && ValidStack(stack) && d in Dirents(Top(stack)) && forall e :: e in ds ==> e in Dirents(Top(stack))
    ensures |text| + 1 >= limit ==> Walked(o, sp, limit, stack, text) == []
    ensures |text| + 1 < limit ==>
      && |Listing(o, Top(stack))| >= 2 && (forall e :: e in Listing(o, Top(stack))[2..] ==> e in Dirents(Top(stack)))
      && Walked(o, sp, limit, stack, text) == WalkedEntries(o, sp, limit, stack, text, Listing(o, Top(stack))[2..])
      && WalkedEntries(o, sp, limit, stack, text, []) == []
      && WalkedEntries(o, sp, limit, stack, text, [d] + ds) ==
         WalkedEntry(o, sp, limit, stack, text, d) + WalkedEntries(o, sp, limit, stack, text, ds)
  {
    hide Listing, Dirents, WalkedEntry, ValidStack, ValidOrder;
    StackTop(stack);
    FirstTwoAreDots(o, Top(stack));
    assert Visited(o, stack) == Listing(o, Top(stack))[2..];
    assert ([d] + ds)[1..] == ds;
  }
}
