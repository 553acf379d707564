/** The workload measurement: one manifest line at a time, each measured entry folded into the
    cumulative hash. */
module Measurement {
  import opened Bytes
  import BoundedWalk
  import DirDescent
  import DirWalk
  import Hex
  import HexCodec
  import ReplaceAll
  import Text
  import Wildcard

  const HASH_SIZE: nat := 48
  const MAX_HASH_LEN: nat := 97

  type HashFunction = seq<byte> -> seq<byte>

  /** SHA-384, uninterpreted but of fixed output length. */
  ghost predicate IsSha384(h: HashFunction) {
    forall x :: |h(x)| == HASH_SIZE
  }

  datatype Kind = FileKind | SymlinkKind | DirKind

  /** The measurement file: text copied from the manifest, and measured entries with their digest. */
  datatype Item = Copied(text: string) | Measured(kind: Kind, path: string, including: string, excluding: string, digest: string)

  ghost function DigestBytes(digest: string): seq<byte> {
    if |digest| % 2 == 0 && Hex.IsHex(digest) then Hex.Decode(digest) else []
  }

  /** The hash chain over the measured entries, from zeros. */
  ghost function Chain(h: HashFunction, items: seq<Item>): seq<byte> {
    if items == [] then Zeros(HASH_SIZE) else
    var before := Chain(h, items[..|items| - 1]);
    match items[|items| - 1]
    case Copied(_) => before
    case Measured(_, _, _, _, digest) => h(before + DigestBytes(digest))
  }

  lemma ChainText(h: HashFunction, items: seq<Item>, t: string)
    ensures Chain(h, items + [Copied(t)]) == Chain(h, items)
  {
    assert (items + [Copied(t)])[..|items|] == items;
  }

  lemma ChainMeasured(h: HashFunction, items: seq<Item>, e: Item, content: seq<byte>)
    requires e.Measured? && e.digest == Hex.Encode(h(content))
    ensures Chain(h, items + [e]) == h(Chain(h, items) + h(content))
  {
    Hex.DecodeEncode(h(content));
    assert (items + [e])[..|items|] == items;
  }

  /** The file system below the mount point, by paths relative to it: contents of files, targets of links, directories with their place in the whole file system, and the order in which directories return their
      entries; the regular expressions that compile; and what a search finds that starts outside the mount point. */
  datatype World = World(mount: string,
                         file: string -> Option<seq<byte>>,
                         symlink: string -> Option<string>,
                         dir: string -> Option<DirDescent.Stack>,
                         order: DirWalk.Order,
                         regex: string -> Option<string -> bool>,
                         outside: (string, Kind) -> seq<string>)

  /** Siblings have different names, and no directory holds a child named as a dot entry. */
  ghost predicate ValidWorld(w: World) {
    DirWalk.ValidOrder(w.order) && forall p :: w.dir(p).Some? ==> DirDescent.ValidStack(w.dir(p).value)
  }

  const FILENAME_MAX: nat := 4096

  /** What the mount point leaves of the longest path. */
  function Room(w: World): nat {
    if |w.mount| < FILENAME_MAX then FILENAME_MAX - |w.mount| else 0
  }

  // ----- reading manifest lines -----

  predicate Contains(line: string, s: string) {
    ReplaceAll.Find(line, s).Some?
  }

  function UpTo(s: string, c: char): string {
    if s == "" || s[0] == c then "" else [s[0]] + UpTo(s[1..], c)
  }

  function After(s: string, c: char): string {
    if s == "" then "" else if s[0] == c then s[1..] else After(s[1..], c)
  }

  /** The quoted value behind a key. */
  function Attribute(line: string, key: string): Option<string> {
    match ReplaceAll.Find(line, key)
    case None => None
    case Some(i) => Some(UpTo(After(line[i..], '"'), '"'))
  }

  lemma {:induction false} UpToQuote(v: string, rest: string, c: char)
    requires c !in v
    ensures UpTo(v + [c] + rest, c) == v && After(v + [c] + rest, c) == rest
  {
    var t := v + [c] + rest;
    if v == "" {
      assert t[0] == c && t[1..] == rest;
    } else {
      assert v[0] in v;
      UpToQuote(v[1..], rest, c);
      assert t[1..] == v[1..] + [c] + rest;
    }
  }

  /** The value read is what stands between the quotes behind the first occurrence of the key. */
  lemma AttributeValue(line: string, key: string, i: nat, v: string, rest: string)
    requires ReplaceAll.Find(line, key) == Some(i) && '"' !in key && '"' !in v
    requires line[i..] == key + ['"'] + (v + ['"'] + rest)
    ensures Attribute(line, key) == Some(v)
  {
    UpToQuote(key, v + ['"'] + rest, '"');
    UpToQuote(v, rest, '"');
  }

  function AttributeOr(line: string, key: string): string {
    match Attribute(line, key)
    case None => ""
    case Some(v) => v
  }

  function Upper(s: string): string {
    if s == "" then "" else [if 'a' <= s[0] <= 'z' then (s[0] as int - 32) as char else s[0]] + Upper(s[1..])
  }

  /** The element renamed from manifest to measurement, and left open. */
  function OpenElement(line: string): string {
    ReplaceAll.ManifestUse();
    ReplaceAll.LowerManifestUse();
    var a := ReplaceAll.ReplaceAllOf(line, "Manifest", "Measurement");
    var b := ReplaceAll.ReplaceAllOf(a, "manifest", "measurement");
    ReplaceAll.ReplaceAllOf(b, "/>", ">")
  }

  /** The line fits the fixed buffers, and so does every intermediate line of the replacement in an opening line. */
  ghost predicate FitsBuffer(line: string) {
    |line| < ReplaceAll.NODE_LEN && (OpensManifest(line) ==> RenameFits(line))
  }

  ghost predicate RenameFits(line: string) {
    ReplaceAll.ManifestUse();
    ReplaceAll.LowerManifestUse();
    var a := ReplaceAll.ReplaceAllOf(line, "Manifest", "Measurement");
    var b := ReplaceAll.ReplaceAllOf(a, "manifest", "measurement");
    |a| < ReplaceAll.NODE_LEN && |b| < ReplaceAll.NODE_LEN
  }

  // ----- what the manifest asks for -----

  /** The text a walk of a directory writes to the temporary file, unless the directory does not exist or its path is
      too long. */
  function WalkText(w: World, sp: DirWalk.Spec, path: string): Option<string>
    requires ValidWorld(w)
  {
    match w.dir(path)
    case None => None
    case Some(stack) =>
      if |path| + 1 >= Room(w) then None
      else Some(DirWalk.NameLines(BoundedWalk.Walked(w.order, sp, Room(w), stack, path)))
  }

  /** A character of a name stands for one byte. */
  function TextBytes(s: string): (b: seq<byte>)
    ensures |b| == |s|
  {
    seq(|s|, i requires 0 <= i < |s| => s[i] as int % 256)
  }

  function Filter(w: World, text: string): Option<string -> bool> {
    if text == "" then None else w.regex(text)
  }

  /** A directory's digest covers the base names of the files and links below it that pass both filters. */
  function DirSpec(w: World, path: string, including: string, excluding: string): DirWalk.Spec {
    DirWalk.Spec(true, true, false, Filter(w, including), Filter(w, excluding), path)
  }

  function ContentOf(w: World, kind: Kind, path: string, including: string, excluding: string): Option<seq<byte>>
    requires ValidWorld(w)
  {
    match kind
    case FileKind => w.file(path)
    case SymlinkKind =>
      (match w.symlink(path)
       case None => None
       case Some(target) => Some(TextBytes(path + target)))
    case DirKind =>
      match WalkText(w, DirSpec(w, path, including, excluding), path)
      case None => None
      case Some(t) => Some(TextBytes(t))
  }

  /** What can be read is measured, what cannot is left out. */
  function Measure(h: HashFunction, w: World, kind: Kind, path: string, including: string, excluding: string): seq<Item>
    requires ValidWorld(w)
  {
    match ContentOf(w, kind, path, including, excluding)
    case None => []
    case Some(c) => [Measured(kind, path, including, excluding, Hex.Encode(h(c)))]
  }

  function MeasureAll(h: HashFunction, w: World, kind: Kind, paths: seq<string>, including: string, excluding: string): seq<Item>
    requires ValidWorld(w)
  {
    if paths == [] then [] else
    MeasureAll(h, w, kind, paths[..|paths| - 1], including, excluding)
    + Measure(h, w, kind, paths[|paths| - 1], including, excluding)
  }

  predicate IsPatternChar(c: char) {
    c == '.' || c == '*'
  }

  /** The pattern up to the end of its first token between dots and stars; dots and stars in front of it stay. */
  function PlainPart(s: string): string {
    if s == "" then "" else if IsPatternChar(s[0]) then [s[0]] + PlainPart(s[1..]) else UpToPattern(s)
  }

  function UpToPattern(s: string): string {
    if s == "" || IsPatternChar(s[0]) then "" else [s[0]] + UpToPattern(s[1..])
  }

  /** What comes before the last slash. */
  function BeforeLastSlash(s: string): string {
    if s == "" then "" else if s[|s| - 1] == '/' then s[..|s| - 1] else BeforeLastSlash(s[..|s| - 1])
  }

  /** Where a search starts. */
  function SearchBase(pattern: string): string {
    BeforeLastSlash(PlainPart(pattern))
  }

  /** A search writes the full paths of the entries of one kind that match the pattern. */
  function SearchSpec(kind: Kind, matcher: string -> bool, base: string): DirWalk.Spec {
    DirWalk.Spec(kind == FileKind, kind == SymlinkKind, kind == DirKind, Some(matcher), None, base)
  }

  /** getMatchingEntries: the text the walk from the search's start leaves. */
  function SearchText(w: World, pattern: string, kind: Kind): Option<string>
    requires ValidWorld(w)
  {
    match w.regex(pattern)
    case None => None
    case Some(matcher) =>
      WalkText(w, SearchSpec(kind, matcher, SearchBase(pattern)), SearchBase(pattern))
  }

  /** The lines of a text whose every line is terminated. */
  function LinesOf(text: string): seq<string> {
    var fields := Text.Split(text, '\n');
    fields[..|fields| - 1]
  }

  /** The lines of a manifest that are looked at: reading stops at a last line without a line feed. */
  function ManifestLines(manifest: string): seq<string> {
    var ls := LinesOf(manifest);
    seq(|ls|, i requires 0 <= i < |ls| => ls[i] + "\n")
  }

  /** The lines a search leaves to be read. */
  function Found(w: World, pattern: string, kind: Kind): seq<string>
    requires ValidWorld(w)
  {
    if '/' !in PlainPart(pattern) then w.outside(pattern, kind) else
    match SearchText(w, pattern, kind)
    case None => []
    case Some(t) => LinesOf(t)
  }

  /** The paths a line names: its own, or with SearchType those that match it. */
  function Targets(w: World, line: string, kind: Kind): seq<string>
    requires ValidWorld(w)
  {
    var path := AttributeOr(line, "Path=");
    if path == "" then [] else if Contains(line, "SearchType=") then Found(w, path, kind) else [path]
  }

  function PathItems(h: HashFunction, w: World, line: string, kind: Kind): seq<Item>
    requires ValidWorld(w)
  {
    MeasureAll(h, w, kind, Targets(w, line, kind), "", "")
  }

  /** With SearchType the matching entries are read into the line buffer, which keeps the last of them. */
  function LineAfter(w: World, line: string, kind: Kind): string
    requires ValidWorld(w)
  {
    var ts := Targets(w, line, kind);
    if Contains(line, "SearchType=") && ts != [] then ts[|ts| - 1] + "\n" else line
  }

  function DirItems(h: HashFunction, w: World, line: string): seq<Item>
    requires ValidWorld(w)
  {
    var wildcard := AttributeOr(line, "FilterType=") == "wildcard";
    var including := Wildcard.PrepareFilter(AttributeOr(line, "Include="), wildcard);
    var excluding := Wildcard.PrepareFilter(AttributeOr(line, "Exclude="), wildcard);
    if (including != "" && w.regex(including).None?) || (excluding != "" && w.regex(excluding).None?) then []
    else MeasureAll(h, w, DirKind, Targets(w, line, DirKind), including, excluding)
  }

  /** The three tests in order, each on what the previous ones left in the line buffer. */
  function LineItems(h: HashFunction, w: World, line: string): seq<Item>
    requires ValidWorld(w)
  {
    var isFile := Contains(line, "<File Path=");
    var l1 := if isFile then LineAfter(w, line, FileKind) else line;
    var isLink := Contains(l1, "<Symlink Path=");
    var l2 := if isLink then LineAfter(w, l1, SymlinkKind) else l1;
    (if isFile then PathItems(h, w, line, FileKind) else [])
    + (if isLink then PathItems(h, w, l1, SymlinkKind) else [])
    + (if Contains(l2, "<Dir ") then DirItems(h, w, l2) else [])
  }

  /** The measurement file so far, whether the algorithm is known, and whether it was refused. */
  datatype Progress = Progress(items: seq<Item>, digestCheck: bool, refused: bool)

  predicate OpensManifest(line: string) {
    Contains(line, "<Manifest ") && Contains(line, "DigestAlg=")
  }

  predicate WantsSha384(line: string) {
    Upper(AttributeOr(line, "DigestAlg=")) == "SHA384"
  }

  function XmlItems(line: string): seq<Item> {
    if Contains(line, "<?xml ") then [Copied(UpTo(line, '\n'))] else []
  }

  function ProcessLine(h: HashFunction, w: World, p: Progress, line: string): Progress
    requires ValidWorld(w)
  {
    var items := p.items + XmlItems(line);
    if !OpensManifest(line) then
      Progress(items + (if p.digestCheck then LineItems(h, w, line) else []), p.digestCheck, false)
    else if !WantsSha384(line) then Progress(items, false, true)
    else
      var l := OpenElement(line);
      Progress(items + [Copied(UpTo(l, '\n'))] + LineItems(h, w, l), true, false)
  }

  function Process(h: HashFunction, w: World, lines: seq<string>): Progress
    requires ValidWorld(w)
  {
    if lines == [] then Progress([], false, false) else
    var p := Process(h, w, lines[..|lines| - 1]);
    if p.refused then p else ProcessLine(h, w, p, lines[|lines| - 1])
  }

  class Wml {
    const hash: HashFunction
    const world: World
    var cumulativeHash: seq<byte>
    var cumulativeHashLen: nat
    var fq: seq<Item>

    /** The hash function and the buffer have their sizes. */
    ghost predicate Ready()
      reads this
    {
      IsSha384(hash) && |cumulativeHash| == MAX_HASH_LEN
    }

    ghost predicate Valid()
      reads this
    {
      Ready() && ValidWorld(world)
    }

    /** The cumulative hash is the chain over exactly the entries emitted so far. */
    ghost predicate InStep()
      reads this
    {
      Valid() && cumulativeHashLen == HASH_SIZE && cumulativeHash[..HASH_SIZE] == Chain(hash, fq)
    }

    constructor (hash: HashFunction, world: World)
      requires IsSha384(hash) && ValidWorld(world)
      ensures Valid() && this.hash == hash && this.world == world && fq == []
      ensures cumulativeHash == Zeros(MAX_HASH_LEN)
    {
      this.hash, this.world := hash, world;
      cumulativeHash, cumulativeHashLen, fq := Zeros(MAX_HASH_LEN), 0, [];
    }

    /** initializeHashAlgorithm: fixes the length, keeps the bytes. */
    method InitializeHashAlgorithm()
      requires Valid()
      modifies this`cumulativeHashLen
      ensures Valid() && cumulativeHashLen == HASH_SIZE
    {
      cumulativeHashLen := HASH_SIZE;
    }

    /** generateCumulativeHash, including the branch that leaves a digest of the wrong length out. */
    method GenerateCumulativeHash(digest: string)
      requires Ready() && cumulativeHashLen == HASH_SIZE
      modifies this`cumulativeHash, this`cumulativeHashLen
      ensures Ready() && cumulativeHashLen == HASH_SIZE
      ensures |DigestBytes(digest)| == HASH_SIZE ==>
        cumulativeHash[..HASH_SIZE] == hash(old(cumulativeHash)[..HASH_SIZE] + DigestBytes(digest))
      ensures |DigestBytes(digest)| != HASH_SIZE ==>
        cumulativeHash[..HASH_SIZE] == hash(old(cumulativeHash)[..HASH_SIZE])
    {
      var curHash, curHashLen := ToBytes(digest);
      var ctx := cumulativeHash[..cumulativeHashLen];
      if curHashLen == cumulativeHashLen {
        ctx := ctx + curHash;
      }
      cumulativeHash := hash(ctx) + cumulativeHash[HASH_SIZE..];
      cumulativeHashLen := HASH_SIZE;
    }

    /** generateFileHash: read in chunks of any size the reader returns, hash, and fold. */
    method GenerateFileHash(content: seq<byte>) returns (output: string)
      requires Ready() && cumulativeHashLen == HASH_SIZE
      modifies this`cumulativeHash, this`cumulativeHashLen
      ensures Ready() && cumulativeHashLen == HASH_SIZE
      ensures output == Hex.Encode(hash(content))
      ensures cumulativeHash[..HASH_SIZE] == hash(old(cumulativeHash)[..HASH_SIZE] + hash(content))
    {
      var ctx, pos := [], 0;
      while pos < |content|
        invariant 0 <= pos <= |content| && ctx == content[..pos]
      {
        var n :| 0 < n <= |content| - pos && n <= 65000;
        ctx := ctx + content[pos..pos + n];
        pos := pos + n;
      }
      assert content[..pos] == content;
      output := Hex.Encode(hash(ctx));
      Hex.DecodeEncode(hash(content));
      GenerateCumulativeHash(output);
    }

    /** Walks a directory into a temporary file. */
    method WalkInto(sp: DirWalk.Spec, path: string) returns (text: Option<string>)
      requires ValidWorld(world)
      ensures text == WalkText(world, sp, path)
    {
      hide DirWalk.NameLines, BoundedWalk.Walked, DirDescent.ValidStack, DirWalk.ValidOrder;
      var stack := world.dir(path);
      if stack == None { return None; }
      var file := new BoundedWalk.OutputFile();
      var ok := BoundedWalk.WalkDirRecurse(world.order, sp, Room(world), stack.value, path, file);
      if !ok { return None; }
      assert file.text == DirWalk.NameLines(BoundedWalk.Walked(world.order, sp, Room(world), stack.value, path));
      return Some(file.text);
    }

    /** The three calculate...HashUtil functions: fold first, then emit. */
    method MeasureOne(kind: Kind, path: string, including: string, excluding: string)
      requires InStep()
      modifies this
      ensures InStep() && fq == old(fq) + Measure(hash, world, kind, path, including, excluding)
    {
      hide WalkText, DirDescent.ValidStack, DirWalk.ValidOrder, Chain;
      var content;
      if kind == DirKind {
        var listing := WalkInto(DirSpec(world, path, including, excluding), path);
        content := if listing == None then None else Some(TextBytes(listing.value));
      } else {
        content := ContentOf(world, kind, path, including, excluding);
      }
      if content.Some? {
        var output := GenerateFileHash(content.value);
        var e := Measured(kind, path, including, excluding, output);
        ChainMeasured(hash, fq, e, content.value);
        fq := fq + [e];
      }
    }

    method MeasureEach(kind: Kind, paths: seq<string>, including: string, excluding: string)
      requires InStep()
      modifies this
      ensures InStep() && fq == old(fq) + MeasureAll(hash, world, kind, paths, including, excluding)
    {
      hide Measure, Chain, IsSha384;
      for i := 0 to |paths|
        invariant InStep() && fq == old(fq) + MeasureAll(hash, world, kind, paths[..i], including, excluding)
      {
        MeasureOne(kind, paths[i], including, excluding);
        assert paths[..i + 1][..i] == paths[..i];
      }
      assert paths[..|paths|] == paths;
    }

    /** The line's own path, or the lines that getMatchingEntries leaves in its temporary file. */
    method FindTargets(line: string, kind: Kind) returns (targets: seq<string>)
      requires ValidWorld(world)
      ensures targets == Targets(world, line, kind)
    {
      hide Contains, AttributeOr, WalkText, SearchBase, PlainPart, LinesOf;
      var path := AttributeOr(line, "Path=");
      if path == "" { return []; }
      if !Contains(line, "SearchType=") { return [path]; }
      if '/' !in PlainPart(path) { return world.outside(path, kind); }
      var matcher := world.regex(path);
      if matcher.None? { return []; }
      var base := SearchBase(path);
      var text := WalkInto(SearchSpec(kind, matcher.value, base), base);
      return if text == None then [] else LinesOf(text.value);
    }

    method Emit(t: string)
      requires InStep()
      modifies this`fq
      ensures InStep() && fq == old(fq) + [Copied(t)]
    {
      ChainText(hash, fq, t);
      fq := fq + [Copied(t)];
    }

    /** calculateFileHash and calculateSymlinkHash. */
    method MeasurePath(line: string, kind: Kind) returns (line': string)
      requires InStep()
      modifies this
      ensures InStep() && fq == old(fq) + PathItems(hash, world, line, kind) && line' == LineAfter(world, line, kind)
    {
      hide Contains, AttributeOr, MeasureAll;
      var targets := FindTargets(line, kind);
      MeasureEach(kind, targets, "", "");
      line' := if Contains(line, "SearchType=") && targets != [] then targets[|targets| - 1] + "\n" else line;
    }

    /** calculateDirHash: both filters are prepared before anything is measured. */
    method MeasureDir(line: string)
      requires InStep()
      modifies this
      ensures InStep() && fq == old(fq) + DirItems(hash, world, line)
    {
      hide Contains, AttributeOr, MeasureAll, Wildcard.PrepareFilter, Targets;
      var wildcard := AttributeOr(line, "FilterType=") == "wildcard";
      var including := Wildcard.PrepareFilter(AttributeOr(line, "Include="), wildcard);
      if including != "" && world.regex(including).None? { return; }
      var excluding := Wildcard.PrepareFilter(AttributeOr(line, "Exclude="), wildcard);
      if excluding != "" && world.regex(excluding).None? { return; }
      var targets := FindTargets(line, DirKind);
      MeasureEach(DirKind, targets, including, excluding);
    }

    method MeasureLine(line: string)
      requires InStep()
      modifies this
      ensures InStep() && fq == old(fq) + LineItems(hash, world, line)
    {
      hide Contains, PathItems, LineAfter, DirItems, Chain, IsSha384;
      var l := line;
      if Contains(l, "<File Path=") { l := MeasurePath(l, FileKind); }
      if Contains(l, "<Symlink Path=") { l := MeasurePath(l, SymlinkKind); }
      if Contains(l, "<Dir ") { MeasureDir(l); }
    }

    /** One turn of the main loop. */
    method ReadLine(line: string, digestCheck: bool) returns (p: Progress)
      requires Valid() && FitsBuffer(line) && cumulativeHash[..HASH_SIZE] == Chain(hash, fq) && (digestCheck ==> InStep())
      modifies this
      ensures p == ProcessLine(hash, world, Progress(old(fq), digestCheck, false), line) && fq == p.items
      ensures Valid() && cumulativeHash[..HASH_SIZE] == Chain(hash, fq) && (p.digestCheck ==> InStep())
    {
      hide Contains, LineItems, OpenElement, WantsSha384, RenameFits, UpTo, Chain, IsSha384;
      if Contains(line, "<?xml ") {
        ChainText(hash, fq, UpTo(line, '\n'));
        fq := fq + [Copied(UpTo(line, '\n'))];
      }
      if OpensManifest(line) {
        if !WantsSha384(line) { return Progress(fq, false, true); }
        InitializeHashAlgorithm();
        var l := Rename(line);
        Emit(UpTo(l, '\n'));
        MeasureLine(l);
        return Progress(fq, true, false);
      }
      if digestCheck { MeasureLine(line); }
      return Progress(fq, digestCheck, false);
    }

    /** generateMeasurementLogs: the file lists what the manifest asks for, and ends with the chain over
        exactly the entries it lists. */
    method GenerateMeasurementLogs(manifest: string) returns (result: bool)
      requires Valid() && fq == [] && cumulativeHash == Zeros(MAX_HASH_LEN)
      requires forall i :: 0 <= i < |ManifestLines(manifest)| ==> FitsBuffer(ManifestLines(manifest)[i])
      modifies this
      ensures var p := Process(hash, world, ManifestLines(manifest));
              && result == (p.digestCheck && !p.refused)
              && fq == if !result then p.items else
                   p.items + [Copied("<CumulativeHash>" + Hex.Encode(Chain(hash, p.items)) + "</CumulativeHash>"), Copied("</Measurement>")]
    {
      hide FitsBuffer, ProcessLine, ManifestLines;
      var lines := ManifestLines(manifest);
      var p := Progress([], false, false);
      assert cumulativeHash[..HASH_SIZE] == Chain(hash, fq);
      for i := 0 to |lines|
        invariant p == Process(hash, world, lines[..i]) && !p.refused && fq == p.items
        // at every line the cumulative hash is the chain over the entries emitted so far
        invariant Valid() && cumulativeHash[..HASH_SIZE] == Chain(hash, fq) && (p.digestCheck ==> InStep())
      {
        assert lines[..i + 1][..i] == lines[..i];
        p := ReadLine(lines[i], p.digestCheck);
        if p.refused {
          RefusedStays(hash, world, lines, i + 1);
          return false;
        }
      }
      assert lines[..|lines|] == lines;
      if !p.digestCheck { return false; }
      var text := Hex.Encode(cumulativeHash[..cumulativeHashLen]);
      Emit("<CumulativeHash>" + text + "</CumulativeHash>");
      Emit("</Measurement>");
      return true;
    }
  }

  lemma {:induction false} RefusedStays(h: HashFunction, w: World, lines: seq<string>, n: nat)
    requires ValidWorld(w) && n <= |lines| && Process(h, w, lines[..n]).refused
    ensures Process(h, w, lines) == Process(h, w, lines[..n])
    decreases |lines|
  {
    hide ProcessLine;
    if n == |lines| {
      assert lines[..n] == lines;
    } else {
      assert lines[..|lines| - 1][..n] == lines[..n];
      RefusedStays(h, w, lines[..|lines| - 1], n);
    }
  }

  /** hex2bin into a fixed buffer: the bytes and their number, which is negative on failure. */
  method ToBytes(digest: string) returns (bytes: seq<byte>, n: int)
    ensures |DigestBytes(digest)| == HASH_SIZE ==> bytes == DigestBytes(digest) && n == HASH_SIZE
    ensures |DigestBytes(digest)| != HASH_SIZE ==> n != HASH_SIZE
  {
    hide HexCodec.GoodPairs;
    var chars := new char[|digest|](i requires 0 <= i < |digest| => digest[i]);
    assert chars[..|digest|] == digest;
    var buffer := new byte[MAX_HASH_LEN];
    n := HexCodec.Hex2Bin(chars, |digest|, buffer);
    if |digest| % 2 == 0 { HexCodec.GoodPairsExactly(digest); assert digest[..|digest|] == digest; }
    bytes := if n == HASH_SIZE then buffer[..HASH_SIZE] else [];
  }

  method Rename(line: string) returns (r: string)
    requires |line| < ReplaceAll.NODE_LEN && RenameFits(line)
    ensures r == OpenElement(line)
  {
    hide ReplaceAll.ReplaceAllOf, ReplaceAll.NoOverlap;
    ReplaceAll.ManifestUse();
    ReplaceAll.LowerManifestUse();
    SlashShorter(ReplaceAll.ReplaceAllOf(ReplaceAll.ReplaceAllOf(line, "Manifest", "Measurement"), "manifest", "measurement"));
    var buf := new ReplaceAll.Line(line);
    buf.ReplaceAllStr("Manifest", "Measurement");
    buf.ReplaceAllStr("manifest", "measurement");
    buf.ReplaceAllStr("/>", ">");
    r := buf.text;
  }

  lemma {:induction false} SlashShorter(s: string)
    ensures |ReplaceAll.ReplaceAllOf(s, "/>", ">")| <= |s|
  {
    ReplaceAll.ReplaceAllDropsSlashes(s);
    DropShorter(s);
  }

  lemma {:induction false} DropShorter(s: string)
    ensures |ReplaceAll.DropSlashes(s)| <= |s|
  {
    if s != "" { DropShorter(s[1..]); }
  }

  // ----- reading lines, literally -----

  lemma ContainsExactly(line: string, s: string)
    ensures Contains(line, s) <==> exists pre: string, post: string :: line == pre + s + post
  {
    match ReplaceAll.Find(line, s)
    case Some(i) =>
      assert line == line[..i] + s + line[i + |s|..];
    case None =>
      forall pre: string, post: string ensures line != pre + s + post {
        if line == pre + s + post { assert line[|pre|..|pre| + |s|] == s && ReplaceAll.OccursAt(line, s, |pre|); }
      }
  }

  /** A line opens the manifest exactly when it holds both words, wherever they stand. */
  lemma OpensExactly(line: string)
    ensures OpensManifest(line) <==>
            && (exists pre: string, post: string :: line == pre + "<Manifest " + post)
            && (exists pre: string, post: string :: line == pre + "DigestAlg=" + post)
  {
    hide Contains;
    ContainsExactly(line, "<Manifest ");
    ContainsExactly(line, "DigestAlg=");
  }

  lemma {:induction false} UpperChars(s: string)
    ensures |Upper(s)| == |s|
    ensures forall i :: 0 <= i < |s| ==> Upper(s)[i] == if 'a' <= s[i] <= 'z' then (s[i] as int - 32) as char else s[i]
  {
    if s != "" {
      UpperChars(s[1..]);
      assert forall i :: 1 <= i < |s| ==> Upper(s)[i] == Upper(s[1..])[i - 1] && s[i] == s[1..][i - 1];
    }
  }

  /** The algorithm is accepted exactly when its value spells SHA384 in letters of either case. */
  lemma WantsExactly(line: string)
    ensures var v := AttributeOr(line, "DigestAlg=");
            WantsSha384(line) <==>
            |v| == 6 && v[0] in {'S', 's'} && v[1] in {'H', 'h'} && v[2] in {'A', 'a'} && v[3] == '3' && v[4] == '8' && v[5] == '4'
  {
    hide AttributeOr, Upper;
    var v := AttributeOr(line, "DigestAlg=");
    UpperChars(v);
    assert Upper(v) == "SHA384" <==> |v| == 6 && forall i :: 0 <= i < 6 ==> Upper(v)[i] == "SHA384"[i];
  }

  /** The opening line is written with every Manifest and manifest renamed, in that order, and the slashes in front of a
      '>' dropped. */
  lemma OpenElementMeaning(line: string)
    ensures ReplaceAll.NoOverlap("Manifest", "Measurement") && ReplaceAll.NoOverlap("manifest", "measurement")
    ensures OpenElement(line) ==
            ReplaceAll.DropSlashes(ReplaceAll.OnePass(ReplaceAll.OnePass(line, "Manifest", "Measurement"), "manifest", "measurement"))
  {
    hide ReplaceAll.ReplaceAllOf, ReplaceAll.OnePass, ReplaceAll.DropSlashes, ReplaceAll.NoOverlap;
    ReplaceAll.ManifestUse();
    ReplaceAll.LowerManifestUse();
    var a := ReplaceAll.OnePass(line, "Manifest", "Measurement");
    ReplaceAll.ReplaceAllIsOnePass(line, "Manifest", "Measurement");
    ReplaceAll.ReplaceAllIsOnePass(a, "manifest", "measurement");
    ReplaceAll.ReplaceAllDropsSlashes(ReplaceAll.OnePass(a, "manifest", "measurement"));
  }

  /** The declaration of a line that has one is copied up to the line feed. */
  lemma {:induction false} XmlCopied(text: string, rest: string)
    requires '\n' !in text
    ensures XmlItems(text + "\n" + rest) == if Contains(text + "\n" + rest, "<?xml ") then [Copied(text)] else []
  {
    UpToQuote(text, rest, '\n');
  }

  /** The chain starts at 48 zero bytes; copied text does not count; an entry replaces the value by the hash of the value
      followed by the entry's digest. */
  lemma ChainSteps(h: HashFunction, items: seq<Item>, t: string, e: Item)
    requires e.Measured? && |e.digest| % 2 == 0 && Hex.IsHex(e.digest)
    ensures Chain(h, []) == seq(48, _ => 0 as byte)
    ensures Chain(h, items + [Copied(t)]) == Chain(h, items)
    ensures Chain(h, items + [e]) == h(Chain(h, items) + Hex.Decode(e.digest))
  {
    ChainText(h, items, t);
    assert (items + [e])[..|items|] == items;
  }

  /** A missing attribute reads as the empty text, one that is there as its value. */
  lemma AttributeOrEmpty(line: string, key: string)
    ensures !Contains(line, key) ==> AttributeOr(line, key) == ""
    ensures Contains(line, key) ==> Attribute(line, key) == Some(AttributeOr(line, key))
  {
  }
}
