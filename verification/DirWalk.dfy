/** The recursive directory walk: sorted entries, children before their directory, filtered by kind
    and by the include and exclude patterns. */
module DirWalk {
  import opened Bytes

  // ----- file trees -----

  datatype Node = File(name: string) | Link(name: string) | Special(name: string) | Dir(name: string, entries: set<Node>)

  /** What scandir returns: the two dot entries and the children. */
  datatype Dirent = Dirent(name: string, node: Option<Node>)

  function Dirents(dir: Node): set<Dirent>
    requires dir.Dir?
  {
    {Dirent(".", None), Dirent("..", None)} + set n | n in dir.entries :: Dirent(n.name, Some(n))
  }

  /** Siblings have different names, none of them a dot entry. */
  ghost predicate ProperNames(dir: Node)
    requires dir.Dir?
  {
    && (forall a, b :: a in dir.entries && b in dir.entries && a.name == b.name ==> a == b)
    && (forall a :: a in dir.entries ==> a.name != "." && a.name != "..")
  }

  // ----- the order of names -----

  /** strcmp order. */
  predicate Less(a: string, b: string) {
    b != "" && (a == "" || a[0] < b[0] || (a[0] == b[0] && Less(a[1..], b[1..])))
  }

  lemma {:induction false} LessTotal(a: string, b: string)
    ensures a != b ==> Less(a, b) || Less(b, a)
    ensures !(Less(a, b) && Less(b, a)) && !Less(a, a)
  {
    if a != "" && b != "" && a[0] == b[0] {
      LessTotal(a[1..], b[1..]);
      assert a == [a[0]] + a[1..] && b == [b[0]] + b[1..];
    }
    if a != "" { LessTotal(a[1..], a[1..]); }
  }

  lemma {:induction false} LessTransitive(a: string, b: string, c: string)
    requires Less(a, b) && Less(b, c)
    ensures Less(a, c)
  {
    if a != "" && a[0] == b[0] == c[0] { LessTransitive(a[1..], b[1..], c[1..]); }
  }

  ghost predicate Sorted(s: seq<Dirent>) {
    forall i, j :: 0 <= i < j < |s| ==> Less(s[i].name, s[j].name)
  }

  function Insert(x: Dirent, s: seq<Dirent>): seq<Dirent> {
    if s == [] || Less(x.name, s[0].name) then [x] + s else [s[0]] + Insert(x, s[1..])
  }

  function Sort(s: seq<Dirent>): seq<Dirent> {
    if s == [] then [] else Insert(s[0], Sort(s[1..]))
  }

  ghost predicate DistinctNames(s: seq<Dirent>) {
    forall i, j :: 0 <= i < j < |s| ==> s[i].name != s[j].name
  }

  lemma {:induction false} InsertContents(x: Dirent, s: seq<Dirent>)
    ensures forall d :: d in Insert(x, s) <==> d == x || d in s
  {
    if s != [] && !Less(x.name, s[0].name) {
      InsertContents(x, s[1..]);
      assert s == [s[0]] + s[1..];
    }
  }

  lemma {:induction false} InsertSorted(x: Dirent, s: seq<Dirent>)
    requires Sorted(s) && forall d :: d in s ==> d.name != x.name
    ensures Sorted(Insert(x, s))
  {
    hide Less;
    if s != [] {
      LessTotal(x.name, s[0].name);
      if Less(x.name, s[0].name) {
        forall j | 1 <= j < |s| ensures Less(x.name, s[j].name) { LessTransitive(x.name, s[0].name, s[j].name); }
      } else {
        InsertSorted(x, s[1..]);
        InsertContents(x, s[1..]);
        assert s[0] in s;
        forall d | d in s[1..] ensures Less(s[0].name, d.name) { }
      }
    }
  }

  lemma {:induction false} SortKeeps(s: seq<Dirent>)
    requires DistinctNames(s)
    ensures Sorted(Sort(s)) && forall d :: d in Sort(s) <==> d in s
  {
    hide Insert;
    if s != [] {
      SortKeeps(s[1..]);
      InsertContents(s[0], Sort(s[1..]));
      InsertSorted(s[0], Sort(s[1..]));
      assert s == [s[0]] + s[1..];
    }
  }

  ghost predicate SameContents(a: seq<Dirent>, b: seq<Dirent>) {
    forall d :: d in a <==> d in b
  }

  lemma SameFirst(a: seq<Dirent>, b: seq<Dirent>)
    requires Sorted(a) && Sorted(b) && SameContents(a, b) && a != [] && b != []
    ensures a[0] == b[0]
  {
    hide Less;
    assert a[0] in b && b[0] in a;
    var i :| 0 <= i < |a| && a[i] == b[0];
    var j :| 0 <= j < |b| && b[j] == a[0];
    LessTotal(a[0].name, b[0].name);
  }

  lemma SameTail(a: seq<Dirent>, b: seq<Dirent>)
    requires Sorted(a) && Sorted(b) && SameContents(a, b) && a != [] && b != [] && a[0] == b[0]
    ensures SameContents(a[1..], b[1..])
  {
    FirstOnce(a);
    FirstOnce(b);
    assert forall d :: d in a <==> d == a[0] || d in a[1..] by { assert a == [a[0]] + a[1..]; }
    assert forall d :: d in b <==> d == b[0] || d in b[1..] by { assert b == [b[0]] + b[1..]; }
  }

  lemma FirstOnce(a: seq<Dirent>)
    requires Sorted(a) && a != []
    ensures a[0] !in a[1..]
  {
    hide Less;
    LessTotal(a[0].name, a[0].name);
  }

  /** There is only one way to sort: equal contents, equal sequences. */
  lemma {:induction false} SortedUnique(a: seq<Dirent>, b: seq<Dirent>)
    requires Sorted(a) && Sorted(b) && SameContents(a, b)
    ensures a == b
  {
    assert a == [] <==> b == [] by {
      if a != [] { assert a[0] in a; }
      if b != [] { assert b[0] in b; }
    }
    if a != [] {
      SameFirst(a, b);
      SameTail(a, b);
      SortedUnique(a[1..], b[1..]);
    }
  }

  // ----- scandir -----

  /** The order in which a directory happens to return its entries: each of them once. */
  type Order = set<Dirent> -> seq<Dirent>

  ghost predicate ValidOrder(o: Order) {
    forall s: set<Dirent> ::
      && (forall d :: d in o(s) <==> d in s)
      && (forall i, j :: 0 <= i < j < |o(s)| ==> o(s)[i] != o(s)[j])
  }

  function Listing(o: Order, dir: Node): seq<Dirent>
    requires dir.Dir?
  {
    Sort(o(Dirents(dir)))
  }

  ghost predicate AfterDots(dir: Node)
    requires dir.Dir?
  {
    forall n :: n in dir.entries ==> Less("..", n.name)
  }

  lemma ListingSorted(o: Order, dir: Node)
    requires dir.Dir? && ValidOrder(o) && ProperNames(dir)
    ensures Sorted(Listing(o, dir)) && forall d :: d in Listing(o, dir) <==> d in Dirents(dir)
  {
    hide Less, Sort;
    var s := o(Dirents(dir));
    forall i, j | 0 <= i < j < |s| ensures s[i].name != s[j].name {
      assert s[i] in Dirents(dir) && s[j] in Dirents(dir) && s[i] != s[j];
    }
    SortKeeps(s);
  }

  /** The listing does not depend on the order the directory returned. */
  lemma ListingUnique(o: Order, o': Order, dir: Node)
    requires dir.Dir? && ValidOrder(o) && ValidOrder(o') && ProperNames(dir)
    ensures Listing(o, dir) == Listing(o', dir)
  {
    hide Listing, Less, Dirents;
    ListingSorted(o, dir);
    ListingSorted(o', dir);
    SortedUnique(Listing(o, dir), Listing(o', dir));
  }

  lemma DotsOrder()
    ensures Less(".", "..")
  {
    assert "."[1..] == "" && ".."[1..] == ".";
  }

  /** Positions in a sorted listing follow the names. */
  lemma Position(l: seq<Dirent>, i: nat, j: nat)
    requires Sorted(l) && i < |l| && j < |l| && Less(l[i].name, l[j].name)
    ensures i < j
  {
    hide Less;
    LessTotal(l[i].name, l[j].name);
  }

  lemma DotsFirst(l: seq<Dirent>, dir: Node, j: nat)
    requires dir.Dir? && Sorted(l) && AfterDots(dir) && forall d :: d in l <==> d in Dirents(dir)
    requires j < |l| && l[j] == Dirent("..", None)
    ensures j == 1 && l[0] == Dirent(".", None)
  {
    hide Less;
    forall k | 0 <= k < j ensures l[k] == Dirent(".", None) {
      assert l[k] in l && Less(l[k].name, "..");
      LessTotal(l[k].name, "..");
    }
    LessTotal(".", ".");
    assert Dirent(".", None) in Dirents(dir);
    var i :| 0 <= i < |l| && l[i] == Dirent(".", None);
    DotsOrder();
    Position(l, i, j);
    assert j > 1 ==> Less(l[0].name, l[1].name);
  }

  lemma RestAfterDots(l: seq<Dirent>, dir: Node)
    requires dir.Dir? && Sorted(l) && ProperNames(dir) && forall d :: d in l <==> d in Dirents(dir)
    requires |l| >= 2 && l[..2] == [Dirent(".", None), Dirent("..", None)]
    ensures AfterDots(dir)
  {
    hide Less;
    assert l[0] == l[..2][0] && l[1] == l[..2][1];
    forall n | n in dir.entries ensures Less("..", n.name) {
      var d := Dirent(n.name, Some(n));
      assert d in Dirents(dir);
      var k :| 0 <= k < |l| && l[k] == d;
    }
  }

  /** Skipping the first two entries skips exactly the dot entries if and only if every name sorts
      after "..". */
  lemma FirstTwoAreDots(o: Order, dir: Node)
    requires dir.Dir? && ValidOrder(o) && ProperNames(dir)
    ensures |Listing(o, dir)| >= 2
    ensures Listing(o, dir)[..2] == [Dirent(".", None), Dirent("..", None)] <==> AfterDots(dir)
  {
    hide Listing, Less, AfterDots;
    ListingSorted(o, dir);
    var l := Listing(o, dir);
    assert Dirent(".", None) in Dirents(dir) && Dirent("..", None) in Dirents(dir);
    var i :| 0 <= i < |l| && l[i] == Dirent(".", None);
    var j :| 0 <= j < |l| && l[j] == Dirent("..", None);
    DotsOrder();
    Position(l, i, j);
    if AfterDots(dir) { DotsFirst(l, dir, j); }
    if l[..2] == [Dirent(".", None), Dirent("..", None)] { RestAfterDots(l, dir); }
  }

  /** Otherwise the skip costs a child: one of the first two entries is a file, link or directory of the tree,
      and the walk never sees it. */
  lemma SkippedChild(o: Order, dir: Node) returns (n: Node)
    requires dir.Dir? && ValidOrder(o) && ProperNames(dir) && !AfterDots(dir)
    ensures n in dir.entries && !Less("..", n.name) && |Listing(o, dir)| >= 2
    ensures Dirent(n.name, Some(n)) in Listing(o, dir)[..2] && Dirent(n.name, Some(n)) !in Listing(o, dir)[2..]
  {
    hide Listing, Less;
    ListingSorted(o, dir);
    FirstTwoAreDots(o, dir);
    var l := Listing(o, dir);
    assert Dirent(".", None) in Dirents(dir) && Dirent("..", None) in Dirents(dir);
    var dot :| 0 <= dot < |l| && l[dot] == Dirent(".", None);
    var dots :| 0 <= dots < |l| && l[dots] == Dirent("..", None);
    DotsOrder();
    Position(l, dot, dots);
    var i: nat := if l[0].node.None? then 1 else 0;
    assert l[i] in l;
    if l[i].node.None? { DotsAreFirst(l, dir); assert false; }
    n := l[i].node.value;
    if Less("..", n.name) { Position(l, dots, i); }
    assert l[..2][i] == l[i];
    forall k | 2 <= k < |l| ensures l[k].name != n.name { LessTotal(n.name, n.name); }
  }

  /** If neither of the first two entries is a child, they are the dot entries. */
  lemma DotsAreFirst(l: seq<Dirent>, dir: Node)
    requires dir.Dir? && Sorted(l) && |l| >= 2 && forall d :: d in l <==> d in Dirents(dir)
    requires l[0].node.None? && l[1].node.None?
    ensures l[..2] == [Dirent(".", None), Dirent("..", None)]
  {
    hide Less;
    assert l[0] in l && l[1] in l;
    assert Less(l[0].name, l[1].name);
    DotsOrder();
    LessTotal(".", "..");
    LessTotal(l[0].name, l[0].name);
  }

  /** A name such as "#x" is enough. */
  lemma HashNameSkipped(o: Order)
    requires ValidOrder(o)
    ensures var dir := Dir("d", {File("#x")});
            ProperNames(dir) && !AfterDots(dir) && Listing(o, dir)[..1] == [Dirent("#x", Some(File("#x")))]
  {
    hide Listing;
    var dir, x := Dir("d", {File("#x")}), Dirent("#x", Some(File("#x")));
    assert !Less("..", "#x") && Less("#x", ".") && Less("#x", "..");
    ListingSorted(o, dir);
    FirstTwoAreDots(o, dir);
    var l := Listing(o, dir);
    assert File("#x") in dir.entries;
    assert x in Dirents(dir) && l[0] in l;
    var i :| 0 <= i < |l| && l[i] == x;
    LessTotal(l[0].name, "#x");
  }

  // ----- the walk -----

  /** Proper names that all sort after "..", at every level. */
  ghost predicate GoodTree(dir: Node)
    requires dir.Dir?
  {
    ProperNames(dir) && AfterDots(dir) && forall n :: n in dir.entries && n.Dir? ==> GoodTree(n)
  }

  lemma ChildrenListed(o: Order, dir: Node)
    requires dir.Dir? && ValidOrder(o) && ProperNames(dir) && AfterDots(dir)
    ensures var l := Listing(o, dir);
            && |l| >= 2 && Sorted(l)
            && (forall i :: 2 <= i < |l| ==> l[i].node.Some? && l[i].node.value in dir.entries && l[i].node.value.name == l[i].name)
            && (forall n :: n in dir.entries ==> exists i :: 2 <= i < |l| && l[i].node == Some(n))
  {
    hide Listing, Less;
    ListingSorted(o, dir);
    FirstTwoAreDots(o, dir);
    var l := Listing(o, dir);
    assert l[0] == l[..2][0] && l[1] == l[..2][1];
    LessTotal(".", ".");
    LessTotal("..", "..");
    forall i | 2 <= i < |l| ensures l[i].node.Some? && l[i].node.value in dir.entries && l[i].node.value.name == l[i].name {
      assert l[i] in l && l[i] in Dirents(dir);
      assert Less(l[0].name, l[i].name) && Less(l[1].name, l[i].name);
    }
    forall n | n in dir.entries ensures exists i :: 2 <= i < |l| && l[i].node == Some(n) {
      var d := Dirent(n.name, Some(n));
      assert d in Dirents(dir);
      var k :| 0 <= k < |l| && l[k] == d;
    }
  }

  /** The nodes of the entries behind the first two. */
  function NodesBehindDots(l: seq<Dirent>): (ns: seq<Node>)
    requires |l| >= 2 && forall i :: 2 <= i < |l| ==> l[i].node.Some?
    ensures |ns| == |l| - 2 && forall i :: 0 <= i < |ns| ==> ns[i] == l[i + 2].node.value
  {
    seq(|l| - 2, i requires 0 <= i < |l| - 2 => l[i + 2].node.value)
  }

  lemma ChildrenMeaning(o: Order, dir: Node)
    requires dir.Dir? && ValidOrder(o) && ProperNames(dir) && AfterDots(dir)
    ensures |Listing(o, dir)| >= 2 && forall i :: 2 <= i < |Listing(o, dir)| ==> Listing(o, dir)[i].node.Some?
    ensures var ns := NodesBehindDots(Listing(o, dir));
            && (forall n :: n in ns <==> n in dir.entries)
            && (forall i, j :: 0 <= i < j < |ns| ==> ns[i].name != ns[j].name)
  {
    hide Listing, Less;
    ChildrenListed(o, dir);
    SortedNodes(Listing(o, dir), NodesBehindDots(Listing(o, dir)), dir);
  }

  /** The children of a directory in the order the walk visits them. */
  function Children(o: Order, dir: Node): (ns: seq<Node>)
    requires dir.Dir? && ValidOrder(o) && GoodTree(dir)
    ensures forall n :: n in ns <==> n in dir.entries
    ensures forall i, j :: 0 <= i < j < |ns| ==> ns[i].name != ns[j].name
  {
    ChildrenMeaning(o, dir);
    NodesBehindDots(Listing(o, dir))
  }

  lemma SortedNodes(l: seq<Dirent>, ns: seq<Node>, dir: Node)
    requires dir.Dir? && |l| >= 2 && Sorted(l) && |ns| == |l| - 2
    requires forall i :: 2 <= i < |l| ==> l[i].node.Some? && l[i].node.value in dir.entries && l[i].node.value.name == l[i].name
    requires forall n :: n in dir.entries ==> exists i :: 2 <= i < |l| && l[i].node == Some(n)
    requires forall i :: 0 <= i < |ns| ==> ns[i] == l[i + 2].node.value
    ensures forall n :: n in ns <==> n in dir.entries
    ensures forall i, j :: 0 <= i < j < |ns| ==> ns[i].name != ns[j].name
  {
    hide Less;
    forall n | n in dir.entries ensures n in ns {
      var i :| 2 <= i < |l| && l[i].node == Some(n);
      assert ns[i - 2] == n;
    }
    forall i, j | 0 <= i < j < |ns| ensures ns[i].name != ns[j].name {
      assert Less(l[i + 2].name, l[j + 2].name);
      LessTotal(l[i + 2].name, l[i + 2].name);
    }
  }

  /** Which kinds are wanted, the optional patterns, and where the walk started (below the mount point). */
  datatype Spec = Spec(files: bool, links: bool, dirs: bool,
                       including: Option<string -> bool>, excluding: Option<string -> bool>, root: string)

  /** A node met at a path of names below the starting directory. */
  datatype Visit = Visit(path: seq<string>, node: Node)

  predicate KindSelected(sp: Spec, n: Node) {
    match n
    case File(_) => sp.files
    case Link(_) => sp.links
    case Dir(_, _) => sp.dirs
    case Special(_) => true
  }

  function FullText(sp: Spec, path: seq<string>): string {
    if path == [] then sp.root else FullText(sp, path[..|path| - 1]) + "/" + path[|path| - 1]
  }

  /** A walk for files and links only tests and writes base names, any other walk full paths. */
  function TestedName(sp: Spec, path: seq<string>): string
    requires path != []
  {
    if sp.files && sp.links && !sp.dirs then path[|path| - 1] else FullText(sp, path)
  }

  predicate Emits(sp: Spec, path: seq<string>, n: Node)
    requires path != []
  {
    && KindSelected(sp, n)
    && (sp.including.None? || sp.including.value(TestedName(sp, path)))
    && (sp.excluding.None? || !sp.excluding.value(TestedName(sp, path)))
  }

  function Walk(o: Order, sp: Spec, path: seq<string>, dir: Node): seq<Visit>
    requires dir.Dir? && ValidOrder(o) && GoodTree(dir)
    decreases dir, 1, 0
  {
    WalkAll(o, sp, path, dir, Children(o, dir))
  }

  function WalkAll(o: Order, sp: Spec, path: seq<string>, dir: Node, ns: seq<Node>): seq<Visit>
    requires dir.Dir? && ValidOrder(o) && GoodTree(dir) && forall n :: n in ns ==> n in dir.entries
    decreases dir, 0, |ns|
  {
    if ns == [] then [] else
    assert ns[0] in ns;
    WalkNode(o, sp, path + [ns[0].name], ns[0]) + WalkAll(o, sp, path, dir, ns[1..])
  }

  /** A directory's contents come before the directory itself. */
  function WalkNode(o: Order, sp: Spec, path: seq<string>, n: Node): seq<Visit>
    requires path != [] && ValidOrder(o) && (n.Dir? ==> GoodTree(n))
    decreases n, 2, 0
  {
    (if n.Dir? then Walk(o, sp, path, n) else []) + (if Emits(sp, path, n) then [Visit(path, n)] else [])
  }

  // ----- the emitted text does not depend on directory order -----

  lemma {:induction false} WalkUnique(o: Order, o': Order, sp: Spec, path: seq<string>, dir: Node)
    requires dir.Dir? && ValidOrder(o) && ValidOrder(o') && GoodTree(dir)
    ensures Walk(o, sp, path, dir) == Walk(o', sp, path, dir)
    decreases dir, 1, 0
  {
    ListingUnique(o, o', dir);
    assert Children(o, dir) == Children(o', dir);
    WalkAllUnique(o, o', sp, path, dir, Children(o, dir));
  }

  lemma {:induction false} WalkAllUnique(o: Order, o': Order, sp: Spec, path: seq<string>, dir: Node, ns: seq<Node>)
    requires dir.Dir? && ValidOrder(o) && ValidOrder(o') && GoodTree(dir) && forall n :: n in ns ==> n in dir.entries
    ensures WalkAll(o, sp, path, dir, ns) == WalkAll(o', sp, path, dir, ns)
    decreases dir, 0, |ns|
  {
    hide Emits, Children;
    if ns != [] {
      assert ns[0] in ns;
      if ns[0].Dir? { WalkUnique(o, o', sp, path + [ns[0].name], ns[0]); }
      WalkAllUnique(o, o', sp, path, dir, ns[1..]);
    }
  }

  // ----- every selected descendant, exactly once -----

  /** v is a node somewhere below dir, at its path. */
  ghost predicate Below(path: seq<string>, dir: Node, v: Visit)
    requires dir.Dir?
  {
    exists n :: n in dir.entries && AtOrBelow(path + [n.name], n, v)
  }

  ghost predicate AtOrBelow(path: seq<string>, n: Node, v: Visit)
    decreases n, 1
  {
    v == Visit(path, n) || (n.Dir? && exists c :: c in n.entries && AtOrBelow(path + [c.name], c, v))
  }

  lemma {:induction false} NodeMembers(o: Order, sp: Spec, path: seq<string>, n: Node, v: Visit)
    requires path != [] && ValidOrder(o) && (n.Dir? ==> GoodTree(n))
    ensures v in WalkNode(o, sp, path, n) <==> AtOrBelow(path, n, v) && v.path != [] && Emits(sp, v.path, v.node)
    decreases n, 1, 0
  {
    hide Emits, Children;
    if n.Dir? {
      AllMembers(o, sp, path, n, Children(o, n), v);
    }
  }

  lemma {:induction false} AllMembers(o: Order, sp: Spec, path: seq<string>, dir: Node, ns: seq<Node>, v: Visit)
    requires dir.Dir? && ValidOrder(o) && GoodTree(dir) && forall n :: n in ns ==> n in dir.entries
    ensures v in WalkAll(o, sp, path, dir, ns) <==>
            (exists n :: n in ns && AtOrBelow(path + [n.name], n, v)) && v.path != [] && Emits(sp, v.path, v.node)
    decreases dir, 0, |ns|
  {
    hide Emits, Children, AtOrBelow;
    if ns != [] {
      assert ns[0] in ns;
      NodeMembers(o, sp, path + [ns[0].name], ns[0], v);
      AllMembers(o, sp, path, dir, ns[1..], v);
      assert ns == [ns[0]] + ns[1..];
    }
  }

  lemma {:induction false} PathsExtend(path: seq<string>, n: Node, v: Visit)
    requires AtOrBelow(path, n, v)
    ensures path <= v.path && (v.path == path ==> v.node == n)
    decreases n
  {
    if v != Visit(path, n) {
      var c :| c in n.entries && AtOrBelow(path + [c.name], c, v);
      PathsExtend(path + [c.name], c, v);
    }
  }

  ghost predicate NoRepeats(vs: seq<Visit>) {
    forall i, j :: 0 <= i < j < |vs| ==> vs[i] != vs[j]
  }

  lemma ConcatNoRepeats(a: seq<Visit>, b: seq<Visit>)
    requires NoRepeats(a) && NoRepeats(b) && forall v :: v in a ==> v !in b
    ensures NoRepeats(a + b)
  {
    var c := a + b;
    forall i, j | 0 <= i < j < |c| ensures c[i] != c[j] {
      if i < |a| <= j { assert c[i] in a && c[j] in b; }
    }
  }

  lemma {:induction false} NodeOnce(o: Order, sp: Spec, path: seq<string>, n: Node)
    requires path != [] && ValidOrder(o) && (n.Dir? ==> GoodTree(n))
    ensures NoRepeats(WalkNode(o, sp, path, n))
    decreases n, 1, 0
  {
    hide Emits, Children, AtOrBelow;
    if n.Dir? {
      var inside := Walk(o, sp, path, n);
      AllOnce(o, sp, path, n, Children(o, n));
      forall v | v in inside ensures v != Visit(path, n) {
        AllMembers(o, sp, path, n, Children(o, n), v);
        var c :| c in n.entries && AtOrBelow(path + [c.name], c, v);
        PathsExtend(path + [c.name], c, v);
      }
      ConcatNoRepeats(inside, if Emits(sp, path, n) then [Visit(path, n)] else []);
    }
  }

  lemma {:induction false} AllOnce(o: Order, sp: Spec, path: seq<string>, dir: Node, ns: seq<Node>)
    requires dir.Dir? && ValidOrder(o) && GoodTree(dir) && forall n :: n in ns ==> n in dir.entries
    requires forall i, j :: 0 <= i < j < |ns| ==> ns[i].name != ns[j].name
    ensures NoRepeats(WalkAll(o, sp, path, dir, ns))
    decreases dir, 0, |ns|
  {
    hide Emits, Children, AtOrBelow;
    if ns != [] {
      assert ns[0] in ns;
      NodeOnce(o, sp, path + [ns[0].name], ns[0]);
      AllOnce(o, sp, path, dir, ns[1..]);
      var a, b := WalkNode(o, sp, path + [ns[0].name], ns[0]), WalkAll(o, sp, path, dir, ns[1..]);
      forall v | v in a ensures v !in b {
        NodeMembers(o, sp, path + [ns[0].name], ns[0], v);
        AllMembers(o, sp, path, dir, ns[1..], v);
        DifferentSubtrees(path, ns, v);
      }
      ConcatNoRepeats(a, b);
    }
  }

  lemma DifferentSubtrees(path: seq<string>, ns: seq<Node>, v: Visit)
    requires ns != [] && forall i, j :: 0 <= i < j < |ns| ==> ns[i].name != ns[j].name
    requires AtOrBelow(path + [ns[0].name], ns[0], v)
    ensures forall n :: n in ns[1..] ==> !AtOrBelow(path + [n.name], n, v)
  {
    hide AtOrBelow;
    PathsExtend(path + [ns[0].name], ns[0], v);
    assert v.path[|path|] == (path + [ns[0].name])[|path|];
    forall n | n in ns[1..] ensures !AtOrBelow(path + [n.name], n, v) {
      assert (path + [n.name])[|path|] != v.path[|path|];
      Elsewhere(path + [n.name], n, v);
    }
  }

  lemma Elsewhere(path: seq<string>, n: Node, v: Visit)
    requires !(path <= v.path)
    ensures !AtOrBelow(path, n, v)
  {
    if AtOrBelow(path, n, v) { PathsExtend(path, n, v); }
  }

  /** The walk emits every descendant that is selected and passes the patterns, nothing else, and each once;
      the result is the same for every order in which directories return their entries. */
  lemma WalkCorrect(o: Order, o': Order, sp: Spec, dir: Node)
    requires dir.Dir? && ValidOrder(o) && ValidOrder(o') && GoodTree(dir)
    ensures forall v :: v in Walk(o, sp, [], dir) <==> Below([], dir, v) && v.path != [] && Emits(sp, v.path, v.node)
    ensures NoRepeats(Walk(o, sp, [], dir))
    ensures Walk(o, sp, [], dir) == Walk(o', sp, [], dir)
  {
    hide Emits, Children, AtOrBelow;
    forall v ensures v in Walk(o, sp, [], dir) <==> Below([], dir, v) && v.path != [] && Emits(sp, v.path, v.node) {
      AllMembers(o, sp, [], dir, Children(o, dir), v);
    }
    AllOnce(o, sp, [], dir, Children(o, dir));
    WalkUnique(o, o', sp, [], dir);
  }

  // ----- what is written -----

  /** The name an emitted node is tested and written by. */
  function NameOf(sp: Spec, v: Visit): string {
    if v.path == [] then "" else TestedName(sp, v.path)
  }

  function Names(sp: Spec, vs: seq<Visit>): (names: seq<string>)
    ensures |names| == |vs|
  {
    seq(|vs|, i requires 0 <= i < |vs| => NameOf(sp, vs[i]))
  }

  /** One name per line. */
  function NameLines(names: seq<string>): string {
    if names == [] then "" else names[0] + "\n" + NameLines(names[1..])
  }

  lemma {:induction false} NameLinesConcat(a: seq<string>, b: seq<string>)
    ensures NameLines(a + b) == NameLines(a) + NameLines(b)
  {
    if a == [] {
      assert a + b == b;
    } else {
      NameLinesConcat(a[1..], b);
      assert (a + b)[1..] == a[1..] + b;
      Assoc(a[0] + "\n", NameLines(a[1..]), NameLines(b));
    }
  }

  // ----- the order of what is written -----

  /** Contents come before their directory; entries of one directory come in the order of their names. */
  predicate Precedes(a: seq<string>, b: seq<string>) {
    a != [] && (b == [] || (if a[0] == b[0] then Precedes(a[1..], b[1..]) else Less(a[0], b[0])))
  }

  /** The order leaves no choice. */
  lemma {:induction false} PrecedesStrict(a: seq<string>, b: seq<string>)
    ensures !(Precedes(a, b) && Precedes(b, a))
    ensures a != b ==> Precedes(a, b) || Precedes(b, a)
  {
    hide Less;
    if a != [] && b != [] {
      LessTotal(a[0], b[0]);
      if a[0] == b[0] {
        PrecedesStrict(a[1..], b[1..]);
        assert a == [a[0]] + a[1..] && b == [b[0]] + b[1..];
      }
    }
  }

  /** Visits below a path of length k, in order. */
  ghost predicate Ordered(vs: seq<Visit>, k: nat) {
    && (forall i :: 0 <= i < |vs| ==> k <= |vs[i].path|)
    && forall i, j :: 0 <= i < j < |vs| ==> Precedes(vs[i].path[k..], vs[j].path[k..])
  }

  lemma ChildrenSorted(o: Order, dir: Node)
    requires dir.Dir? && ValidOrder(o) && GoodTree(dir)
    ensures forall i, j :: 0 <= i < j < |Children(o, dir)| ==> Less(Children(o, dir)[i].name, Children(o, dir)[j].name)
  {
    hide Less, Listing;
    ChildrenListed(o, dir);
  }

  lemma {:induction false} NodeOrdered(o: Order, sp: Spec, path: seq<string>, n: Node)
    requires path != [] && ValidOrder(o) && (n.Dir? ==> GoodTree(n))
    ensures Ordered(WalkNode(o, sp, path, n), |path|)
    decreases n, 1, 0
  {
    hide Emits, Children, AtOrBelow, Less;
    if n.Dir? {
      var inside := Walk(o, sp, path, n);
      ChildrenSorted(o, n);
      AllOrdered(o, sp, path, n, Children(o, n));
      forall i | 0 <= i < |inside| ensures |path| < |inside[i].path| {
        assert inside[i] in inside;
        var c := BelowAll(o, sp, path, n, Children(o, n), inside[i]);
      }
    }
  }

  lemma BelowAll(o: Order, sp: Spec, path: seq<string>, dir: Node, ns: seq<Node>, v: Visit) returns (n: Node)
    requires dir.Dir? && ValidOrder(o) && GoodTree(dir) && (forall m :: m in ns ==> m in dir.entries) && v in WalkAll(o, sp, path, dir, ns)
    ensures n in ns && path + [n.name] <= v.path
  {
    hide Emits, AtOrBelow;
    AllMembers(o, sp, path, dir, ns, v);
    n :| n in ns && AtOrBelow(path + [n.name], n, v);
    PathsExtend(path + [n.name], n, v);
  }

  lemma {:induction false} AllOrdered(o: Order, sp: Spec, path: seq<string>, dir: Node, ns: seq<Node>)
    requires dir.Dir? && ValidOrder(o) && GoodTree(dir) && forall n :: n in ns ==> n in dir.entries
    requires forall i, j :: 0 <= i < j < |ns| ==> Less(ns[i].name, ns[j].name)
    ensures Ordered(WalkAll(o, sp, path, dir, ns), |path|)
    decreases dir, 0, |ns|
  {
    hide Emits, Children, AtOrBelow, Less, GoodTree, ValidOrder;
    if ns != [] {
      assert ns[0] in ns;
      if ns[0].Dir? { GoodChild(dir, ns[0]); }
      var first, k := path + [ns[0].name], |path|;
      var a, b := WalkNode(o, sp, first, ns[0]), WalkAll(o, sp, path, dir, ns[1..]);
      NodeOrdered(o, sp, first, ns[0]);
      AllOrdered(o, sp, path, dir, ns[1..]);
      forall i | 0 <= i < |a| ensures first <= a[i].path {
        assert a[i] in a;
        NodeMembers(o, sp, first, ns[0], a[i]);
        PathsExtend(first, ns[0], a[i]);
      }
      forall j | 0 <= j < |b| ensures exists n :: n in ns[1..] && path + [n.name] <= b[j].path {
        assert b[j] in b;
        var n := BelowAll(o, sp, path, dir, ns[1..], b[j]);
      }
      OrderedJoin(a, b, path, ns[0].name, ns[1..]);
    }
  }

  lemma GoodChild(dir: Node, n: Node)
    requires dir.Dir? && GoodTree(dir) && n in dir.entries && n.Dir?
    ensures GoodTree(n)
  {
  }

  lemma OrderedJoin(a: seq<Visit>, b: seq<Visit>, path: seq<string>, name: string, ns: seq<Node>)
    requires Ordered(a, |path| + 1) && Ordered(b, |path|)
    requires forall i :: 0 <= i < |a| ==> path + [name] <= a[i].path
    requires forall j :: 0 <= j < |b| ==> exists n :: n in ns && path + [n.name] <= b[j].path
    requires forall n :: n in ns ==> Less(name, n.name)
    ensures Ordered(a + b, |path|)
  {
    hide Less;
    var c, k := a + b, |path|;
    forall i, j | 0 <= i < j < |c| ensures Precedes(c[i].path[k..], c[j].path[k..]) {
      if j < |a| {
        HeadName(path, name, a[i].path);
        HeadName(path, name, a[j].path);
      } else if i < |a| {
        HeadName(path, name, a[i].path);
        var n :| n in ns && path + [n.name] <= b[j - |a|].path;
        HeadName(path, n.name, b[j - |a|].path);
        LessTotal(name, n.name);
      }
    }
  }

  lemma HeadName(path: seq<string>, name: string, p: seq<string>)
    requires path + [name] <= p
    ensures p[|path|..] != [] && p[|path|..][0] == name && p[|path|..][1..] == p[|path| + 1..]
  {
    assert p[|path|] == (path + [name])[|path|];
  }

  /** The walk writes contents before their directory, and the entries of a directory in the order of their names. */
  lemma WalkOrdered(o: Order, sp: Spec, dir: Node)
    requires dir.Dir? && ValidOrder(o) && GoodTree(dir)
    ensures Ordered(Walk(o, sp, [], dir), 0)
  {
    hide Less, Emits, Children;
    ChildrenSorted(o, dir);
    AllOrdered(o, sp, [], dir, Children(o, dir));
  }
}
