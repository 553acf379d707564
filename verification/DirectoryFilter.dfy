/** Directory measurement end to end: wildcard filters, compiled and applied by the walk. */
module DirectoryFilter {
  import opened Bytes
  import opened DirWalk
  import opened Wildcard

  /** A filter handed to the walk: none for an empty text, else one that decides as the expression does. */
  ghost predicate Compiled(filter: Option<string -> bool>, text: string) {
    && (filter.None? <==> text == "")
    && (filter.Some? ==> forall name: string :: filter.value(name) <==> Passes(text, name))
  }

  predicate TooLong(w: string) {
    |Compile(w)| >= FILTER_SIZE
  }

  /** What a wildcard attribute selects: a missing or too long one selects everything. */
  predicate Selects(w: string, name: string) {
    w == "" || TooLong(w) || Matches(w, name)
  }

  /** What a wildcard attribute rejects: a missing or too long one rejects nothing. */
  predicate Rejects(w: string, name: string) {
    w != "" && !TooLong(w) && Matches(w, name)
  }

  /** Without a '+', the prepared filter selects and rejects as the wildcard says. */
  lemma PassesAsWritten(w: string, name: string)
    requires '+' !in w
    ensures Passes(PrepareFilter(w, true), name) <==> Selects(w, name)
    ensures (PrepareFilter(w, true) != "" && Passes(PrepareFilter(w, true), name)) <==> Rejects(w, name)
  {
    hide Matches, Parse, Tokens, Regexec, CompileBody;
    if w != "" {
      WildcardFilter(w);
      CompileIsLonger(w);
    }
  }

  predicate Lets(filter: Option<string -> bool>, name: string) {
    filter.None? || filter.value(name)
  }

  predicate Stops(filter: Option<string -> bool>, name: string) {
    filter.Some? && filter.value(name)
  }

  /** Whatever the two filters are, the walk lists exactly the files, links and special files below the directory
      whose base name the first lets through and the second does not stop, each once. */
  lemma {:induction false} FilteredWalk(o: Order, sp: Spec, dir: Node)
    requires dir.Dir? && ValidOrder(o) && GoodTree(dir) && sp.files && sp.links && !sp.dirs
    ensures forall v :: v in Walk(o, sp, [], dir) <==>
              && Below([], dir, v) && v.path != [] && !v.node.Dir?
              && Lets(sp.including, v.path[|v.path| - 1]) && !Stops(sp.excluding, v.path[|v.path| - 1])
    ensures NoRepeats(Walk(o, sp, [], dir))
  {
    hide Walk, Below, GoodTree, ValidOrder, NoRepeats;
    WalkCorrect(o, o, sp, dir);
  }

  /** A compiled wildcard without a '+' lets through and stops what it says. */
  lemma CompiledFilter(filter: Option<string -> bool>, w: string, name: string)
    requires '+' !in w && Compiled(filter, PrepareFilter(w, true))
    ensures Lets(filter, name) <==> Selects(w, name)
    ensures Stops(filter, name) <==> Rejects(w, name)
  {
    hide Selects, Rejects, PrepareFilter;
    PassesAsWritten(w, name);
    PassesEmpty(name);
  }

  lemma PassesEmpty(name: string)
    ensures Passes("", name)
  {
  }

  /** A directory measured with wildcard Include and Exclude attributes lists exactly the files, links and
      special files below it whose base name the include selects and the exclude does not reject, each once. */
  lemma {:induction false} WildcardWalk(o: Order, sp: Spec, dir: Node, including: string, excluding: string)
    requires dir.Dir? && ValidOrder(o) && GoodTree(dir) && sp.files && sp.links && !sp.dirs
    requires '+' !in including && Compiled(sp.including, PrepareFilter(including, true))
    requires '+' !in excluding && Compiled(sp.excluding, PrepareFilter(excluding, true))
    ensures forall v :: v in Walk(o, sp, [], dir) <==>
              && Below([], dir, v) && v.path != [] && !v.node.Dir?
              && Selects(including, v.path[|v.path| - 1]) && !Rejects(excluding, v.path[|v.path| - 1])
    ensures NoRepeats(Walk(o, sp, [], dir))
  {
    hide Walk, Below, Selects, Rejects, GoodTree, ValidOrder, NoRepeats, PrepareFilter, Lets, Stops, Compiled;
    FilteredWalk(o, sp, dir);
    forall name: string
      ensures (Lets(sp.including, name) <==> Selects(including, name)) && (Stops(sp.excluding, name) <==> Rejects(excluding, name))
    {
      CompiledFilter(sp.including, including, name);
      CompiledFilter(sp.excluding, excluding, name);
    }
  }
}
