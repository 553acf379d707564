/** What a manifest measures: which lines count, what a directory's digest covers, what a search finds. */
module MeasuredManifest {
  import opened Bytes
  import opened DirWalk
  import opened DirDescent
  import opened BoundedWalk
  import opened DirectoryFilter
  import opened Measurement
  import Hex
  import Text
  import Wildcard

  // ----- the order of directory entries does not matter -----

  ghost predicate OnlyOrderDiffers(w: World, w': World) {
    w' == w.(order := w'.order) && ValidWorld(w) && ValidWorld(w')
  }

  lemma SameWalkText(w: World, w': World, sp: Spec, path: string)
    requires OnlyOrderDiffers(w, w')
    ensures WalkText(w, sp, path) == WalkText(w', sp, path)
  {
    hide Walked, NameLines, ValidStack, ValidOrder;
    if w.dir(path).Some? { WalkedUnique(w.order, w'.order, sp, Room(w), w.dir(path).value, path); }
  }

  lemma SameTargets(w: World, w': World, line: string, kind: Kind)
    requires OnlyOrderDiffers(w, w')
    ensures Targets(w, line, kind) == Targets(w', line, kind) && LineAfter(w, line, kind) == LineAfter(w', line, kind)
  {
    hide ValidWorld, WalkText, SearchBase, PlainPart, LinesOf, Contains, AttributeOr;
    var pattern := AttributeOr(line, "Path=");
    var base := SearchBase(pattern);
    if w.regex(pattern).Some? { SameWalkText(w, w', SearchSpec(kind, w.regex(pattern).value, base), base); }
  }

  lemma SameMeasure(h: HashFunction, w: World, w': World, kind: Kind, path: string, including: string, excluding: string)
    requires OnlyOrderDiffers(w, w')
    ensures Measure(h, w, kind, path, including, excluding) == Measure(h, w', kind, path, including, excluding)
  {
    hide ValidWorld, WalkText, TextBytes, Hex.Encode;
    SameWalkText(w, w', DirSpec(w, path, including, excluding), path);
  }

  lemma {:induction false} SameMeasureAll(h: HashFunction, w: World, w': World, kind: Kind, paths: seq<string>, including: string, excluding: string)
    requires OnlyOrderDiffers(w, w')
    ensures MeasureAll(h, w, kind, paths, including, excluding) == MeasureAll(h, w', kind, paths, including, excluding)
  {
    hide OnlyOrderDiffers, Measure;
    if paths != [] {
      SameMeasureAll(h, w, w', kind, paths[..|paths| - 1], including, excluding);
      SameMeasure(h, w, w', kind, paths[|paths| - 1], including, excluding);
    }
  }

  lemma SamePathItems(h: HashFunction, w: World, w': World, line: string, kind: Kind)
    requires OnlyOrderDiffers(w, w')
    ensures PathItems(h, w, line, kind) == PathItems(h, w', line, kind)
  {
    hide Targets, MeasureAll, ValidWorld;
    SameTargets(w, w', line, kind);
    SameMeasureAll(h, w, w', kind, Targets(w, line, kind), "", "");
  }

  lemma SameDirItems(h: HashFunction, w: World, w': World, line: string)
    requires OnlyOrderDiffers(w, w')
    ensures DirItems(h, w, line) == DirItems(h, w', line)
  {
    hide Targets, MeasureAll, ValidWorld, AttributeOr, Wildcard.PrepareFilter;
    var wildcard := AttributeOr(line, "FilterType=") == "wildcard";
    SameTargets(w, w', line, DirKind);
    SameMeasureAll(h, w, w', DirKind, Targets(w, line, DirKind), Wildcard.PrepareFilter(AttributeOr(line, "Include="), wildcard),
                   Wildcard.PrepareFilter(AttributeOr(line, "Exclude="), wildcard));
  }

  lemma SameLineItems(h: HashFunction, w: World, w': World, line: string)
    requires OnlyOrderDiffers(w, w')
    ensures LineItems(h, w, line) == LineItems(h, w', line)
  {
    hide Contains, LineAfter, PathItems, DirItems, ValidWorld;
    var l1 := if Contains(line, "<File Path=") then LineAfter(w, line, FileKind) else line;
    var l2 := if Contains(l1, "<Symlink Path=") then LineAfter(w, l1, SymlinkKind) else l1;
    SameTargets(w, w', line, FileKind);
    SameTargets(w, w', l1, SymlinkKind);
    SamePathItems(h, w, w', line, FileKind);
    SamePathItems(h, w, w', l1, SymlinkKind);
    SameDirItems(h, w, w', l2);
  }

  /** The whole measurement is the same for every order in which directories return their entries. */
  lemma {:induction false} OrderIrrelevant(h: HashFunction, w: World, w': World, lines: seq<string>)
    requires OnlyOrderDiffers(w, w')
    ensures Process(h, w, lines) == Process(h, w', lines)
  {
    hide LineItems, OnlyOrderDiffers, XmlItems, OpensManifest, WantsSha384, OpenElement, UpTo;
    if lines != [] {
      var line := lines[|lines| - 1];
      OrderIrrelevant(h, w, w', lines[..|lines| - 1]);
      SameLineItems(h, w, w', line);
      SameLineItems(h, w, w', OpenElement(line));
    }
  }

  // ----- which lines count -----

  /** The measured entries among the items of the measurement file. */
  function Measurements(items: seq<Item>): seq<Item> {
    if items == [] then [] else
    Measurements(items[..|items| - 1]) + if items[|items| - 1].Measured? then [items[|items| - 1]] else []
  }

  lemma {:induction false} MeasurementsConcat(a: seq<Item>, b: seq<Item>)
    ensures Measurements(a + b) == Measurements(a) + Measurements(b)
  {
    if b == [] {
      assert a + b == a;
    } else {
      MeasurementsConcat(a, b[..|b| - 1]);
      assert (a + b)[..|a + b| - 1] == a + b[..|b| - 1];
    }
  }

  /** The chain runs over the measured entries alone. */
  lemma {:induction false} ChainOfMeasurements(h: HashFunction, items: seq<Item>)
    ensures Chain(h, items) == Chain(h, Measurements(items))
  {
    hide DigestBytes;
    if items != [] {
      var init, last := items[..|items| - 1], items[|items| - 1];
      ChainOfMeasurements(h, init);
      if last.Measured? {
        assert Measurements(items)[..|Measurements(items)| - 1] == Measurements(init);
      } else {
        assert Measurements(items) == Measurements(init);
      }
    }
  }

  ghost predicate AllMeasured(items: seq<Item>) {
    forall i :: 0 <= i < |items| ==> items[i].Measured?
  }

  lemma {:induction false} MeasurementsOfAll(items: seq<Item>)
    requires AllMeasured(items)
    ensures Measurements(items) == items
  {
    if items != [] { MeasurementsOfAll(items[..|items| - 1]); }
  }

  lemma {:induction false} MeasureAllMeasures(h: HashFunction, w: World, kind: Kind, paths: seq<string>, including: string, excluding: string)
    requires ValidWorld(w)
    ensures AllMeasured(MeasureAll(h, w, kind, paths, including, excluding))
  {
    hide ContentOf, Hex.Encode;
    if paths != [] { MeasureAllMeasures(h, w, kind, paths[..|paths| - 1], including, excluding); }
  }

  lemma LineItemsMeasure(h: HashFunction, w: World, line: string)
    requires ValidWorld(w)
    ensures AllMeasured(LineItems(h, w, line))
  {
    hide Contains, LineAfter, MeasureAll, Targets, AttributeOr, Wildcard.PrepareFilter, ValidWorld;
    forall ps, inc, exc, kind ensures AllMeasured(MeasureAll(h, w, kind, ps, inc, exc)) {
      MeasureAllMeasures(h, w, kind, ps, inc, exc);
    }
  }

  /** The first line that opens the manifest and names an algorithm. */
  function Opening(lines: seq<string>): (n: nat)
    ensures n <= |lines|
    ensures forall i :: 0 <= i < n ==> !OpensManifest(lines[i])
    ensures n < |lines| ==> OpensManifest(lines[n])
  {
    if lines == [] || OpensManifest(lines[0]) then 0 else 1 + Opening(lines[1..])
  }

  /** A line as it is searched for entries: the opening line is renamed first. */
  function Searched(line: string): string {
    if OpensManifest(line) then OpenElement(line) else line
  }

  /** The entries a list of lines asks for, in order. */
  function Asked(h: HashFunction, w: World, lines: seq<string>): seq<Item>
    requires ValidWorld(w)
  {
    if lines == [] then [] else Asked(h, w, lines[..|lines| - 1]) + LineItems(h, w, Searched(lines[|lines| - 1]))
  }

  /** Every line that opens the manifest asks for SHA-384. */
  ghost predicate NoneRefused(lines: seq<string>) {
    forall i :: 0 <= i < |lines| && OpensManifest(lines[i]) ==> WantsSha384(lines[i])
  }

  ghost predicate Supported(lines: seq<string>) {
    (exists i :: 0 <= i < |lines| && OpensManifest(lines[i])) && NoneRefused(lines)
  }

  lemma OpeningSnoc(lines: seq<string>)
    requires lines != []
    ensures var n := |lines| - 1;
            Opening(lines) == if Opening(lines[..n]) < n then Opening(lines[..n]) else if OpensManifest(lines[n]) then n else |lines|
  {
    hide OpensManifest;
    var n := |lines| - 1;
    var a, b := Opening(lines), Opening(lines[..n]);
    assert forall i :: 0 <= i < n ==> lines[..n][i] == lines[i];
    assert b < n ==> OpensManifest(lines[b]);
    assert a < |lines| ==> OpensManifest(lines[a]);
  }

  lemma StepMeasures(h: HashFunction, w: World, p: Progress, line: string)
    requires ValidWorld(w) && !p.refused
    ensures var q := ProcessLine(h, w, p, line);
            && (q.refused <==> OpensManifest(line) && !WantsSha384(line))
            && (!q.refused ==> q.digestCheck == (p.digestCheck || OpensManifest(line)))
            && (!q.refused ==>
                 Measurements(q.items) == Measurements(p.items) + if q.digestCheck then LineItems(h, w, Searched(line)) else [])
  {
    hide LineItems, Contains, WantsSha384, OpenElement, UpTo, ValidWorld, OpensManifest, Measurements;
    var found := LineItems(h, w, Searched(line));
    var q := ProcessLine(h, w, p, line);
    var text := XmlItems(line) + if OpensManifest(line) then [Copied(UpTo(OpenElement(line), '\n'))] else [];
    LineItemsMeasure(h, w, Searched(line));
    MeasurementsOfAll(found);
    NothingMeasured(text);
    MeasurementsConcat(p.items, text);
    MeasurementsConcat(p.items + text, if q.digestCheck then found else []);
    if !q.refused { assert q.items == p.items + text + if q.digestCheck then found else []; }
    NothingMeasured([]);
  }

  lemma {:induction false} NothingMeasured(items: seq<Item>)
    requires forall i :: 0 <= i < |items| ==> !items[i].Measured?
    ensures Measurements(items) == []
  {
    if items != [] { NothingMeasured(items[..|items| - 1]); }
  }

  /** A manifest is refused exactly when some opening line asks for another algorithm; otherwise what is measured
      is what the lines from the first opening line on ask for, and nothing before it. */
  lemma {:induction false} MeasuredLines(h: HashFunction, w: World, lines: seq<string>)
    requires ValidWorld(w)
    ensures var p := Process(h, w, lines);
            && (p.refused <==> !NoneRefused(lines))
            && (!p.refused ==> p.digestCheck == (Opening(lines) < |lines|))
            && (!p.refused ==> Measurements(p.items) == Asked(h, w, lines[Opening(lines)..]))
  {
    hide ProcessLine, LineItems, WantsSha384, OpensManifest, Searched, ValidWorld;
    if lines != [] {
      var n := |lines| - 1;
      var init, line := lines[..n], lines[n];
      MeasuredLines(h, w, init);
      OpeningSnoc(lines);
      assert NoneRefused(lines) <==> NoneRefused(init) && (OpensManifest(line) ==> WantsSha384(line));
      var p := Process(h, w, init);
      if !p.refused {
        StepMeasures(h, w, p, line);
        var k := Opening(lines);
        if k < |lines| {
          var tail := lines[k..];
          assert tail[..|tail| - 1] == if k < n then init[Opening(init)..] else [];
          assert tail[|tail| - 1] == line;
          if k == n { assert init[Opening(init)..] == []; }
        }
      }
    }
  }

  /** The run succeeds exactly for supported manifests, and the hash printed last is then the chain over exactly
      the entries asked for from the first opening line on. */
  lemma {:induction false} CumulativeHashOfManifest(h: HashFunction, w: World, lines: seq<string>)
    requires ValidWorld(w)
    ensures var p := Process(h, w, lines);
            && (p.digestCheck && !p.refused <==> Supported(lines))
            && (Supported(lines) ==> Chain(h, p.items) == Chain(h, Asked(h, w, lines[Opening(lines)..])))
  {
    hide Process, Chain, Measurements, OpensManifest, WantsSha384, Asked, ValidWorld;
    MeasuredLines(h, w, lines);
    ChainOfMeasurements(h, Process(h, w, lines).items);
  }

  /** A last line without a line feed is not looked at. */
  lemma UnterminatedLineIgnored(manifest: string, tail: string)
    requires (manifest == "" || manifest[|manifest| - 1] == '\n') && '\n' !in tail
    ensures ManifestLines(manifest + tail) == ManifestLines(manifest)
  {
    hide Text.Split;
    SplitTail(manifest, tail);
    assert LinesOf(manifest + tail) == LinesOf(manifest);
  }

  lemma {:induction false} SplitTail(s: string, tail: string)
    requires (s == "" || s[|s| - 1] == '\n') && '\n' !in tail
    ensures Text.Split(s + tail, '\n') == LinesOf(s) + [tail]
    decreases |s|
  {
    hide Text.Split;
    if s == "" {
      assert s + tail == tail;
      Text.SplitLast(tail, '\n');
      Text.SplitLast(s, '\n');
    } else {
      var first, rest := UpTo(s, '\n'), After(s, '\n');
      FirstLine(s);
      SplitTail(rest, tail);
      Text.SplitField(first, rest, '\n');
      Text.SplitField(first, rest + tail, '\n');
      assert s + tail == first + "\n" + (rest + tail);
      assert LinesOf(s) == [first] + LinesOf(rest);
    }
  }

  lemma {:induction false} FirstLine(s: string)
    requires s != "" && s[|s| - 1] == '\n'
    ensures var first, rest := UpTo(s, '\n'), After(s, '\n');
            s == first + "\n" + rest && '\n' !in first && (rest == "" || rest[|rest| - 1] == '\n')
  {
    if s[0] != '\n' {
      FirstLine(s[1..]);
      assert s == [s[0]] + s[1..];
    }
  }

  // ----- a measured directory -----

  /** The name last in the path of each visit. */
  function BaseNames(vs: seq<Visit>): (names: seq<string>)
    requires BelowStart(vs)
    ensures |names| == |vs|
  {
    seq(|vs|, i requires 0 <= i < |vs| => vs[i].path[|vs[i].path| - 1])
  }

  ghost predicate BelowStart(vs: seq<Visit>) {
    forall i :: 0 <= i < |vs| ==> vs[i].path != []
  }

  /** A line that names a directory and filters, without a search. */
  ghost predicate DirLine(line: string, path: string, wildcard: bool, including: string, excluding: string) {
    && AttributeOr(line, "Path=") == path != "" && !Contains(line, "SearchType=")
    && (AttributeOr(line, "FilterType=") == "wildcard" <==> wildcard)
    && AttributeOr(line, "Include=") == including && AttributeOr(line, "Exclude=") == excluding
  }

  predicate ValidFilter(w: World, text: string) {
    text == "" || w.regex(text).Some?
  }

  /** A directory whose walk is not cut off. */
  ghost predicate Measurable(w: World, path: string, stack: Stack) {
    w.dir(path) == Some(stack) && ValidStack(stack) && GoodTree(Top(stack)) && AllFit(Room(w), path, Top(stack))
  }

  /** The digest of a directory line whose filters compile is the hash of the base names, one per line, of exactly the
      files, links and special files below the directory that the prepared include lets through and the prepared
      exclude does not stop, each once. */
  lemma {:induction false} DirDigest(h: HashFunction, w: World, path: string, including: string, excluding: string, stack: Stack)
      returns (vs: seq<Visit>)
    requires ValidWorld(w) && Measurable(w, path, stack)
    ensures NoRepeats(vs) && BelowStart(vs)
    ensures forall v :: v in vs <==>
              && Below([], Top(stack), v) && v.path != [] && !v.node.Dir?
              && Lets(Filter(w, including), v.path[|v.path| - 1]) && !Stops(Filter(w, excluding), v.path[|v.path| - 1])
    ensures Measure(h, w, DirKind, path, including, excluding) ==
            [Measured(DirKind, path, including, excluding, Hex.Encode(h(TextBytes(NameLines(BaseNames(vs))))))]
  {
    hide Walk, Below, GoodTree, AllFit, ValidStack, ValidOrder, NoRepeats, TextBytes, Hex.Encode, NameLines, Walked, Lets, Stops, Filter;
    var sp := DirSpec(w, path, including, excluding);
    StackOf(w, path, stack);
    FilteredWalk(w.order, sp, Top(stack));
    vs := Walk(w.order, sp, [], Top(stack));
    forall i | 0 <= i < |vs| ensures vs[i].path != [] { assert vs[i] in vs; }
    assert FullText(sp, []) == path;
    FittingWalk(w.order, sp, Room(w), stack, []);
    assert Names(sp, vs) == BaseNames(vs);
    FitsAtStart(Room(w), path, Top(stack));
  }

  lemma FitsAtStart(limit: nat, text: string, dir: Node)
    requires dir.Dir? && AllFit(limit, text, dir)
    ensures |text| + 1 < limit
  {
  }

  /** What a directory line measures: the directory, by its prepared filters, provided that they compile. */
  lemma DirLineItems(h: HashFunction, w: World, line: string, path: string, wildcard: bool, including: string, excluding: string)
    requires ValidWorld(w)
    ensures var inc, exc := Wildcard.PrepareFilter(including, wildcard), Wildcard.PrepareFilter(excluding, wildcard);
            DirLine(line, path, wildcard, including, excluding) ==>
            DirItems(h, w, line) == if ValidFilter(w, inc) && ValidFilter(w, exc) then Measure(h, w, DirKind, path, inc, exc) else []
  {
    hide Contains, AttributeOr, Wildcard.PrepareFilter, Measure, ValidWorld;
    if DirLine(line, path, wildcard, including, excluding) { assert Targets(w, line, DirKind) == [path]; }
    OnePath(h, w, DirKind, path, Wildcard.PrepareFilter(including, wildcard), Wildcard.PrepareFilter(excluding, wildcard));
  }

  lemma OnePath(h: HashFunction, w: World, kind: Kind, path: string, including: string, excluding: string)
    requires ValidWorld(w)
    ensures MeasureAll(h, w, kind, [path], including, excluding) == Measure(h, w, kind, path, including, excluding)
  {
    hide Measure, ValidWorld;
    assert [path][..0] == [];
  }

  // ----- a directory measured with wildcards -----

  /** The library's matcher decides as the standard says, on expressions the standard defines. */
  ghost predicate PosixRegex(w: World) {
    forall text: string :: Wildcard.Parse(Wildcard.Tokens(text)).Some? ==> w.regex(text).Some? && Decides(w.regex(text).value, text)
  }

  ghost predicate Decides(matcher: string -> bool, text: string) {
    forall name: string :: matcher(name) <==> Wildcard.Passes(text, name)
  }

  lemma PreparedFilter(w: World, value: string)
    requires PosixRegex(w) && '+' !in value
    ensures var text := Wildcard.PrepareFilter(value, true);
            Compiled(Filter(w, text), text) && ValidFilter(w, text)
  {
    hide Wildcard.Parse, Wildcard.Tokens, Wildcard.PrepareFilter, Wildcard.Passes;
    var text := Wildcard.PrepareFilter(value, true);
    if text != "" { Wildcard.PreparedIsDefined(value); }
  }

  /** With wildcard filters that hold no '+', the digest of a directory line covers exactly the names that the include
      selects and the exclude does not reject, as written in the manifest. */
  lemma {:induction false} WildcardDirDigest(h: HashFunction, w: World, line: string, path: string, including: string, excluding: string, stack: Stack)
      returns (vs: seq<Visit>)
    requires ValidWorld(w) && PosixRegex(w) && Measurable(w, path, stack)
    requires '+' !in including && '+' !in excluding
    ensures NoRepeats(vs) && BelowStart(vs)
    ensures forall v :: v in vs <==>
              && Below([], Top(stack), v) && v.path != [] && !v.node.Dir?
              && Selects(including, v.path[|v.path| - 1]) && !Rejects(excluding, v.path[|v.path| - 1])
    ensures DirLine(line, path, true, including, excluding) ==>
            DirItems(h, w, line) ==
            [Measured(DirKind, path, Wildcard.PrepareFilter(including, true), Wildcard.PrepareFilter(excluding, true),
                      Hex.Encode(h(TextBytes(NameLines(BaseNames(vs))))))]
  {
    hide Below, Selects, Rejects, NoRepeats, Wildcard.PrepareFilter, Compiled, PosixRegex, TextBytes, Hex.Encode, NameLines, Lets, Stops,
      Filter, ValidFilter, DirLine, DirItems, Measure, ValidWorld, Measurable;
    var inc, exc := Wildcard.PrepareFilter(including, true), Wildcard.PrepareFilter(excluding, true);
    PreparedFilter(w, including);
    PreparedFilter(w, excluding);
    StackOf(w, path, stack);
    vs := DirDigest(h, w, path, inc, exc, stack);
    DirLineItems(h, w, line, path, true, including, excluding);
    forall name: string
      ensures (Lets(Filter(w, inc), name) <==> Selects(including, name)) && (Stops(Filter(w, exc), name) <==> Rejects(excluding, name))
    {
      CompiledFilter(Filter(w, inc), including, name);
      CompiledFilter(Filter(w, exc), excluding, name);
    }
  }

  lemma StackOf(w: World, path: string, stack: Stack)
    requires Measurable(w, path, stack)
    ensures stack != [] && Top(stack).Dir?
  {
  }

  // ----- files and links -----

  /** An entry of a kind and path whose digest is the hash of some content, in lower-case hexadecimal. */
  ghost predicate EntryOver(h: HashFunction, e: Item, kind: Kind, path: string, content: seq<byte>) {
    && e.Measured? && e.kind == kind && e.path == path && e.including == "" && e.excluding == ""
    && |e.digest| % 2 == 0 && Hex.IsHex(e.digest) && Hex.IsLowerHex(e.digest) && Hex.Decode(e.digest) == h(content)
  }

  /** Exactly one entry over a content that can be read, none otherwise. */
  ghost predicate EntryIfRead(h: HashFunction, items: seq<Item>, kind: Kind, path: string, content: Option<seq<byte>>) {
    if content.None? then items == [] else |items| == 1 && EntryOver(h, items[0], kind, path, content.value)
  }

  /** What a link is measured by: its own path, followed by its target. */
  function LinkContent(w: World, path: string): Option<seq<byte>> {
    match w.symlink(path)
    case None => None
    case Some(target) => Some(TextBytes(path + target))
  }

  lemma FileEntry(h: HashFunction, w: World, path: string)
    requires ValidWorld(w)
    ensures EntryIfRead(h, Measure(h, w, FileKind, path, "", ""), FileKind, path, w.file(path))
  {
    hide Hex.Encode, Hex.Decode;
    if w.file(path).Some? {
      Hex.DecodeEncode(h(w.file(path).value));
      Hex.EncodeIsLowerHex(h(w.file(path).value));
    }
  }

  lemma LinkEntry(h: HashFunction, w: World, path: string)
    requires ValidWorld(w)
    ensures EntryIfRead(h, Measure(h, w, SymlinkKind, path, "", ""), SymlinkKind, path, LinkContent(w, path))
  {
    hide Hex.Encode, Hex.Decode, TextBytes;
    if w.symlink(path).Some? {
      var c := TextBytes(path + w.symlink(path).value);
      Hex.DecodeEncode(h(c));
      Hex.EncodeIsLowerHex(h(c));
    }
  }

  /** A line that names one file, one link or nothing to measure, without a search. */
  ghost predicate FileLine(line: string, path: string) {
    && Contains(line, "<File Path=") && !Contains(line, "<Symlink Path=") && !Contains(line, "<Dir ")
    && !Contains(line, "SearchType=") && AttributeOr(line, "Path=") == path != ""
  }

  ghost predicate LinkLine(line: string, path: string) {
    && Contains(line, "<Symlink Path=") && !Contains(line, "<File Path=") && !Contains(line, "<Dir ")
    && !Contains(line, "SearchType=") && AttributeOr(line, "Path=") == path != ""
  }

  ghost predicate OtherLine(line: string) {
    !Contains(line, "<File Path=") && !Contains(line, "<Symlink Path=") && !Contains(line, "<Dir ")
  }

  /** A file line yields one entry over the file's content if the file can be read, a link line one over the link's path
      and target, any other line nothing. */
  lemma LineEntries(h: HashFunction, w: World, line: string, path: string)
    requires ValidWorld(w)
    ensures FileLine(line, path) ==> EntryIfRead(h, LineItems(h, w, line), FileKind, path, w.file(path))
    ensures LinkLine(line, path) ==> EntryIfRead(h, LineItems(h, w, line), SymlinkKind, path, LinkContent(w, path))
    ensures OtherLine(line) ==> LineItems(h, w, line) == []
  {
    hide Contains, AttributeOr, Measure, EntryIfRead, LinkContent, ValidWorld, MeasureAll, DirItems;
    FileEntry(h, w, path);
    LinkEntry(h, w, path);
    OnePath(h, w, FileKind, path, "", "");
    OnePath(h, w, SymlinkKind, path, "", "");
    if FileLine(line, path) { assert LineItems(h, w, line) == MeasureAll(h, w, FileKind, [path], "", ""); }
    if LinkLine(line, path) { assert LineItems(h, w, line) == MeasureAll(h, w, SymlinkKind, [path], "", ""); }
  }

  /** The entries of a search, one path after the other. */
  lemma SearchedEntries(h: HashFunction, w: World, kind: Kind, paths: seq<string>, path: string)
    requires ValidWorld(w)
    ensures MeasureAll(h, w, kind, [], "", "") == []
    ensures MeasureAll(h, w, kind, paths + [path], "", "") == MeasureAll(h, w, kind, paths, "", "") + Measure(h, w, kind, path, "", "")
  {
    hide Measure, ValidWorld;
    assert (paths + [path])[..|paths|] == paths;
  }

  /** A search leaves the last path it found in the line buffer, so that the tests that follow look at that path. */
  lemma AfterSearch(h: HashFunction, w: World, line: string, last: string)
    requires ValidWorld(w)
    ensures Contains(line, "<File Path=") && Contains(line, "SearchType=") && Targets(w, line, FileKind) != []
            && Targets(w, line, FileKind)[|Targets(w, line, FileKind)| - 1] == last
            && !Contains(last + "\n", "<Symlink Path=") && !Contains(last + "\n", "<Dir ") ==>
            LineItems(h, w, line) == PathItems(h, w, line, FileKind)
  {
    hide Contains, Targets, PathItems, DirItems, ValidWorld;
  }

  // ----- what one more line does to the printed hash -----

  lemma {:induction false} ChainConcat(h: HashFunction, items: seq<Item>, e: Item)
    requires e.Measured? && |e.digest| % 2 == 0 && Hex.IsHex(e.digest)
    ensures Chain(h, items + [e]) == h(Chain(h, items) + Hex.Decode(e.digest))
  {
    ChainSteps(h, items, "", e);
  }

  /** The chain after one more line of a supported manifest, behind its opening line: a file line folds in the hash of the
      file's content, a link line that of path and target, if they can be read; a line that names nothing leaves it. */
  lemma {:induction false} HashAfterLine(h: HashFunction, w: World, lines: seq<string>, line: string, path: string)
    requires ValidWorld(w) && Supported(lines) && !OpensManifest(line)
    ensures Supported(lines + [line])
    ensures var before, after := Chain(h, Process(h, w, lines).items), Chain(h, Process(h, w, lines + [line]).items);
            && (FileLine(line, path) ==> after == match w.file(path) case None => before case Some(c) => h(before + h(c)))
            && (LinkLine(line, path) ==> after == match LinkContent(w, path) case None => before case Some(c) => h(before + h(c)))
            && (OtherLine(line) ==> after == before)
  {
    hide Process, ProcessLine, Chain, LineItems, Measurements, OpensManifest, WantsSha384, ValidWorld, FileLine, LinkLine, OtherLine,
      LinkContent, Hex.Decode;
    var all := lines + [line];
    var p := Process(h, w, lines);
    assert all[..|lines|] == lines && all[|lines|] == line;
    SupportedSnoc(lines, line);
    MeasuredLines(h, w, lines);
    ProcessSnoc(h, w, lines, line);
    StepMeasures(h, w, p, line);
    LineEntries(h, w, line, path);
    var q, found := Process(h, w, all), LineItems(h, w, line);
    assert Searched(line) == line;
    ChainOfMeasurements(h, p.items);
    ChainOfMeasurements(h, q.items);
    assert q == ProcessLine(h, w, p, line);
    assert Measurements(q.items) == Measurements(p.items) + found;
    if |found| == 1 && found[0].Measured? && |found[0].digest| % 2 == 0 && Hex.IsHex(found[0].digest) {
      assert found == [found[0]];
      ChainConcat(h, Measurements(p.items), found[0]);
    }
    assert Measurements(p.items) + [] == Measurements(p.items);
  }

  lemma SupportedSnoc(lines: seq<string>, line: string)
    requires Supported(lines) && !OpensManifest(line)
    ensures Supported(lines + [line])
  {
    hide OpensManifest, WantsSha384;
    var i :| 0 <= i < |lines| && OpensManifest(lines[i]);
    assert (lines + [line])[i] == lines[i];
  }

  lemma ProcessSnoc(h: HashFunction, w: World, lines: seq<string>, line: string)
    requires ValidWorld(w) && !Process(h, w, lines).refused
    ensures Process(h, w, lines + [line]) == ProcessLine(h, w, Process(h, w, lines), line)
  {
    hide ProcessLine, ValidWorld;
    assert (lines + [line])[..|lines|] == lines;
  }

  /** The lines of a manifest, each with its line feed. */
  lemma ManifestLinesInOrder(line: string, rest: string)
    requires '\n' !in line
    ensures ManifestLines("") == []
    ensures ManifestLines(line + "\n" + rest) == [line + "\n"] + ManifestLines(rest)
  {
    hide Text.Split;
    Text.SplitField(line, rest, '\n');
    Text.SplitLast("", '\n');
    assert LinesOf(line + "\n" + rest) == [line] + LinesOf(rest);
    assert LinesOf("") == [];
  }

  /** The longest path has 4096 characters with its terminator; the mount point's are taken off. */
  lemma RoomExactly(w: World)
    ensures |w.mount| < 4096 ==> Room(w) == 4096 - |w.mount|
    ensures |w.mount| >= 4096 ==> Room(w) == 0
  {
  }

  /** A character below 256 is hashed as that byte. */
  lemma TextBytesExactly(s: string, i: nat)
    requires i < |s| && s[i] as int < 256
    ensures |TextBytes(s)| == |s| && TextBytes(s)[i] == s[i] as int
  {
  }

  /** In front of the opening line only XML declarations are copied; the opening line is written renamed, and it is the
      renamed line that is searched for entries. */
  lemma {:induction false} OpeningLines(h: HashFunction, w: World, lines: seq<string>, line: string)
    requires ValidWorld(w) && forall i :: 0 <= i < |lines| ==> !OpensManifest(lines[i])
    ensures !Process(h, w, lines).refused && !Process(h, w, lines).digestCheck
    ensures lines != [] ==> Process(h, w, lines).items == Process(h, w, lines[..|lines| - 1]).items + XmlItems(lines[|lines| - 1])
    ensures OpensManifest(line) && WantsSha384(line) ==>
      Process(h, w, lines + [line]) ==
      Progress(Process(h, w, lines).items + XmlItems(line) + [Copied(UpTo(OpenElement(line), '\n'))] + LineItems(h, w, OpenElement(line)), true, false)
    ensures OpensManifest(line) && !WantsSha384(line) ==>
      Process(h, w, lines + [line]) == Progress(Process(h, w, lines).items + XmlItems(line), false, true)
  {
    hide OpensManifest, WantsSha384, LineItems, XmlItems, OpenElement, UpTo, ValidWorld;
    if lines != [] { OpeningLines(h, w, lines[..|lines| - 1], line); }
    ProcessSnoc(h, w, lines, line);
  }
}
