/** When the directory walk comes to an end. Skipping two entries instead of the two dot entries may leave a dot
    entry to be visited, and the walk then leaves the directory upwards or enters it again. */
module DirDescent {
  import opened Bytes
  import opened DirWalk

  /** Where the walk stands in the file system: the directories from the root down to the current one. */
  type Stack = seq<Node>

  ghost predicate Proper(n: Node) {
    n.Dir? ==> ProperNames(n) && forall c :: c in n.entries ==> Proper(c)
  }

  ghost predicate ValidStack(stack: Stack) {
    && stack != []
    && (forall i :: 0 <= i < |stack| ==> stack[i].Dir? && Proper(stack[i]))
    && (forall i :: 0 < i < |stack| ==> stack[i] in stack[i - 1].entries)
  }

  function Top(stack: Stack): Node
    requires stack != []
  {
    stack[|stack| - 1]
  }

  /** ".." of the root is the root. */
  function Parent(stack: Stack): Stack {
    if |stack| <= 1 then stack else stack[..|stack| - 1]
  }

  /** Where an entry of the listing leads, if it is a directory. */
  function Target(stack: Stack, d: Dirent): Option<Stack> {
    match d.node
    case None => Some(if d.name == "." then stack else Parent(stack))
    case Some(n) => if n.Dir? then Some(stack + [n]) else None
  }

  /** The walk of one directory calls itself on another: an entry behind the first two leads there. */
  ghost predicate Enters(o: Order, stack: Stack, next: Stack) {
    && stack != [] && Top(stack).Dir?
    && exists i :: 2 <= i < |Listing(o, Top(stack))| && Target(stack, Listing(o, Top(stack))[i]) == Some(next)
  }

  /** A chain of calls that never ends. */
  ghost predicate EndlessDescent(o: Order, stack: Stack, f: nat -> Stack) {
    f(0) == stack && forall i: nat :: Enters(o, f(i), f(i + 1))
  }

  // ----- without a dot entry to visit, the walk only goes down -----

  lemma EntersChild(o: Order, stack: Stack, next: Stack)
    requires ValidStack(stack) && ValidOrder(o) && GoodTree(Top(stack)) && Enters(o, stack, next)
    ensures |next| == |stack| + 1 && next[..|stack|] == stack
    ensures Top(next) in Top(stack).entries && Top(next).Dir? && GoodTree(Top(next)) && ValidStack(next)
  {
    hide Listing, AfterDots, ProperNames;
    ChildrenListed(o, Top(stack));
  }

  lemma {:induction false} NoEndlessDescent(o: Order, stack: Stack, f: nat -> Stack)
    requires ValidStack(stack) && ValidOrder(o) && GoodTree(Top(stack))
    ensures !EndlessDescent(o, stack, f)
    decreases Top(stack)
  {
    hide Enters, GoodTree;
    if EndlessDescent(o, stack, f) {
      assert Enters(o, f(0), f(0 + 1));
      EntersChild(o, stack, f(1));
      var g := (i: nat) => f(i + 1);
      forall i: nat ensures Enters(o, g(i), g(i + 1)) { assert Enters(o, f(i + 1), f(i + 1 + 1)); }
      NoEndlessDescent(o, f(1), g);
      assert false;
    }
  }

  // ----- with one, it never ends -----

  /** A directory with a name that sorts before ".." is left upwards. */
  lemma EntersParent(o: Order, stack: Stack)
    requires ValidStack(stack) && ValidOrder(o) && !AfterDots(Top(stack))
    ensures Enters(o, stack, Parent(stack))
  {
    hide Listing, Less, AfterDots;
    var dir := Top(stack);
    ListingSorted(o, dir);
    FirstTwoAreDots(o, dir);
    var l := Listing(o, dir);
    assert Dirent("..", None) in Dirents(dir) && Dirent(".", None) in Dirents(dir);
    var i :| 0 <= i < |l| && l[i] == Dirent(".", None);
    var j :| 0 <= j < |l| && l[j] == Dirent("..", None);
    DotsOrder();
    Position(l, i, j);
    assert Target(stack, l[j]) == Some(Parent(stack));
  }

  /** Any other directory is entered from its parent. */
  lemma EntersEveryChild(o: Order, stack: Stack, n: Node)
    requires ValidStack(stack) && ValidOrder(o) && AfterDots(Top(stack)) && n in Top(stack).entries && n.Dir?
    ensures Enters(o, stack, stack + [n]) && ValidStack(stack + [n])
  {
    hide Listing, AfterDots;
    ChildrenListed(o, Top(stack));
    var i :| 2 <= i < |Listing(o, Top(stack))| && Listing(o, Top(stack))[i].node == Some(n);
    assert Target(stack, Listing(o, Top(stack))[i]) == Some(stack + [n]);
  }

  lemma Prepend(o: Order, stack: Stack, next: Stack, g: nat -> Stack) returns (f: nat -> Stack)
    requires Enters(o, stack, next) && EndlessDescent(o, next, g)
    ensures EndlessDescent(o, stack, f)
  {
    hide Enters;
    f := (i: nat) => if i == 0 then stack else g(i - 1);
    forall i: nat ensures Enters(o, f(i), f(i + 1)) {
      if i > 0 { assert Enters(o, g(i - 1), g(i - 1 + 1)); }
    }
  }

  /** Out through "..": the walk either comes back down, or goes up to the root and stays there. */
  lemma {:induction false} LeavesForever(o: Order, stack: Stack) returns (f: nat -> Stack)
    requires ValidStack(stack) && ValidOrder(o) && !AfterDots(Top(stack))
    ensures EndlessDescent(o, stack, f)
    decreases |stack|
  {
    hide Enters, AfterDots;
    EntersParent(o, stack);
    var up := Parent(stack);
    if |stack| == 1 {
      f := (i: nat) => stack;
    } else if AfterDots(Top(up)) {
      EntersEveryChild(o, up, Top(stack));
      assert up + [Top(stack)] == stack;
      f := (i: nat) => if i % 2 == 0 then stack else up;
    } else {
      var g := LeavesForever(o, up);
      f := Prepend(o, stack, up, g);
    }
  }

  lemma {:induction false} BadTreeDescends(o: Order, stack: Stack) returns (f: nat -> Stack)
    requires ValidStack(stack) && ValidOrder(o) && !GoodTree(Top(stack))
    ensures EndlessDescent(o, stack, f)
    decreases Top(stack)
  {
    hide Enters, AfterDots, EndlessDescent;
    if AfterDots(Top(stack)) {
      var n :| n in Top(stack).entries && n.Dir? && !GoodTree(n);
      EntersEveryChild(o, stack, n);
      var g := BadTreeDescends(o, stack + [n]);
      f := Prepend(o, stack, stack + [n], g);
    } else {
      f := LeavesForever(o, stack);
    }
  }

  /** Wherever in the file system it starts, the walk has an endless chain of calls, which nothing but the limit
      on path lengths cuts off, if and only if some directory at or below its start holds a name that does not
      sort after "..". */
  lemma {:induction false} WalkEndsExactly(o: Order, stack: Stack)
    requires ValidStack(stack) && ValidOrder(o)
    ensures (exists f :: EndlessDescent(o, stack, f)) <==> !GoodTree(Top(stack))
  {
    hide EndlessDescent, GoodTree;
    if GoodTree(Top(stack)) {
      forall f ensures !EndlessDescent(o, stack, f) { NoEndlessDescent(o, stack, f); }
    } else {
      var f := BadTreeDescends(o, stack);
    }
  }
}
