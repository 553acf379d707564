/** replaceAllStr: replace the first occurrence in place, then start again from the beginning. */
module ReplaceAll {
  import opened Bytes

  predicate OccursAt(s: string, p: string, i: nat) {
    i + |p| <= |s| && s[i..i + |p|] == p
  }

  /** strstr: the first occurrence. */
  function Find(s: string, p: string): (r: Option<nat>)
    ensures r.Some? ==> OccursAt(s, p, r.value) && forall i :: 0 <= i < r.value ==> !OccursAt(s, p, i)
    ensures r.None? ==> forall i: nat :: !OccursAt(s, p, i)
  {
    if OccursAt(s, p, 0) then Some(0)
    else if s == "" then
      assert forall i: nat {:trigger OccursAt(s, p, i)} :: OccursAt(s, p, i) ==> i == 0;
      None
    else
      assert forall i: nat :: i > 0 ==> (OccursAt(s, p, i) <==> OccursAt(s[1..], p, i - 1)) by {
        forall i: nat | i > 0 ensures OccursAt(s, p, i) <==> OccursAt(s[1..], p, i - 1) { OccursShift(s, p, i); }
      }
      match Find(s[1..], p)
      case None => None
      case Some(i) => Some(i + 1)
  }

  lemma OccursShift(s: string, p: string, i: nat)
    requires s != "" && i > 0
    ensures OccursAt(s, p, i) <==> OccursAt(s[1..], p, i - 1)
  {
    if i + |p| <= |s| { assert s[i..i + |p|] == s[1..][i - 1..i - 1 + |p|]; }
  }

  function ReplaceAt(s: string, p: string, r: string, i: nat): string
    requires i + |p| <= |s|
  {
    s[..i] + r + s[i + |p|..]
  }

  // ----- when starting again is safe -----

  /** No occurrence of p can share a character with a copy of r, whatever surrounds it. */
  ghost predicate NoOverlap(p: string, r: string) {
    && 0 < |p| <= |r|
    && (forall j :: 0 < j < |p| ==> p[|p| - j..] != r[..j])
    && (forall t: nat :: !OccursAt(r, p, t))
    && (forall j :: 0 < j < |p| ==> r[|r| - j..] != p[..j])
  }

  ghost predicate Shrinks(p: string, r: string) {
    |r| < |p| || NoOverlap(p, r)
  }

  lemma Inserted(s: string, p: string, r: string, i: nat, a: nat, b: nat)
    requires i + |p| <= |s| && i <= a <= b <= i + |r|
    ensures ReplaceAt(s, p, r, i)[a..b] == r[a - i..b - i]
  {
    var s' := ReplaceAt(s, p, r, i);
    assert s'[i..i + |r|] == r;
    assert s'[a..b] == s'[i..i + |r|][a - i..b - i];
  }

  /** After a replacement, nothing is found up to the end of the inserted text. */
  lemma ClearedBehind(s: string, p: string, r: string, i: nat, k: nat)
    requires NoOverlap(p, r) && OccursAt(s, p, i) && forall j :: 0 <= j < i ==> !OccursAt(s, p, j)
    requires k < i + |r|
    ensures !OccursAt(ReplaceAt(s, p, r, i), p, k)
  {
    var s' := ReplaceAt(s, p, r, i);
    var e := k + |p|;
    if e <= |s'| {
      var found := s'[k..e];
      if e <= i {
        assert s[k..e] == found && !OccursAt(s, p, k);
      } else if k < i {
        Inserted(s, p, r, i, i, e);
        assert found[i - k..] == s'[i..e] && p[|p| - (e - i)..] != r[..e - i];
      } else if e <= i + |r| {
        Inserted(s, p, r, i, k, e);
        assert !OccursAt(r, p, k - i);
      } else {
        var j := i + |r| - k;
        Inserted(s, p, r, i, k, i + |r|);
        assert found[..j] == s'[k..i + |r|] && p[..j] != r[|r| - j..];
      }
    }
  }

  /** How much of the line is still to be searched. */
  function Remaining(s: string, p: string): (n: nat)
  {
    match Find(s, p)
    case None => 0
    case Some(i) => 1 + |s| - i
  }

  function Measure(s: string, p: string, r: string): nat {
    if |r| < |p| then |s| else Remaining(s, p)
  }

  lemma MeasureDrops(s: string, p: string, r: string)
    requires Shrinks(p, r) && Find(s, p).Some?
    ensures Measure(ReplaceAt(s, p, r, Find(s, p).value), p, r) < Measure(s, p, r)
  {
    var i := Find(s, p).value;
    var s' := ReplaceAt(s, p, r, i);
    if |r| >= |p| && Find(s', p).Some? {
      var k := Find(s', p).value;
      if k < i + |r| { ClearedBehind(s, p, r, i, k); }
    }
  }

  function ReplaceAllOf(s: string, p: string, r: string): string
    requires Shrinks(p, r)
    decreases Measure(s, p, r)
  {
    match Find(s, p)
    case None => s
    case Some(i) =>
      MeasureDrops(s, p, r);
      ReplaceAllOf(ReplaceAt(s, p, r, i), p, r)
  }

  lemma {:induction false} NothingLeft(s: string, p: string, r: string)
    requires Shrinks(p, r)
    ensures Find(ReplaceAllOf(s, p, r), p) == None
    decreases Measure(s, p, r)
  {
    hide Measure, Shrinks;
    if Find(s, p).Some? {
      MeasureDrops(s, p, r);
      NothingLeft(ReplaceAt(s, p, r, Find(s, p).value), p, r);
    }
  }

  lemma {:induction false} LineGrows(s: string, p: string, r: string)
    requires Shrinks(p, r) && |r| >= |p|
    ensures |ReplaceAllOf(s, p, r)| >= |s|
    decreases Measure(s, p, r)
  {
    hide Measure, Shrinks;
    if Find(s, p).Some? {
      MeasureDrops(s, p, r);
      LineGrows(ReplaceAt(s, p, r, Find(s, p).value), p, r);
    }
  }

  const NODE_LEN := 512

  class Line {
    var text: string

    constructor (s: string)
      ensures text == s
    {
      text := s;
    }

    /** The recursion over the caller's line, through a fixed buffer that every intermediate line fits. */
    method ReplaceAllStr(search: string, replace: string)
      requires Shrinks(search, replace)
      requires |text| < NODE_LEN && |ReplaceAllOf(text, search, replace)| < NODE_LEN
      modifies this
      ensures text == ReplaceAllOf(old(text), search, replace)
      decreases Measure(text, search, replace)
    {
      hide Shrinks, Measure;
      var ch := Find(text, search);
      if ch == None { return; }
      var buffer := text[..ch.value];
      MeasureDrops(text, search, replace);
      buffer := buffer + replace + text[ch.value + |search|..];
      assert buffer == ReplaceAt(text, search, replace, ch.value);
      if |replace| >= |search| { LineGrows(buffer, search, replace); }
      assert |buffer| < NODE_LEN;
      text := buffer;
      ReplaceAllStr(search, replace);
    }
  }

  // ----- what it computes -----

  /** One pass from left to right, never looking at inserted text. */
  function OnePass(s: string, p: string, r: string): string
    requires p != ""
    decreases |s|
  {
    match Find(s, p)
    case None => s
    case Some(i) => s[..i] + r + OnePass(s[i + |p|..], p, r)
  }

  ghost predicate ClearBefore(pre: string, v: string, p: string) {
    forall i :: 0 <= i < |pre| ==> !OccursAt(pre + v, p, i)
  }

  lemma FindBehind(pre: string, v: string, p: string)
    requires ClearBefore(pre, v, p)
    ensures Find(pre + v, p) == match Find(v, p) case None => None case Some(i) => Some(|pre| + i)
  {
    hide Find, OccursAt;
    var a, b := Find(pre + v, p), Find(v, p);
    if b.Some? {
      OccursBehind(pre, v, p, b.value);
    }
    if a.Some? {
      assert a.value >= |pre|;
      OccursBehind(pre, v, p, a.value - |pre|);
    }
  }

  lemma OccursBehind(pre: string, v: string, p: string, i: nat)
    ensures OccursAt(pre + v, p, |pre| + i) <==> OccursAt(v, p, i)
  {
    if i + |p| <= |v| { assert (pre + v)[|pre| + i..|pre| + i + |p|] == v[i..i + |p|]; }
  }

  /** One replacement behind a cleared prefix: the prefix grows by the inserted text and stays clear. */
  lemma RestartStep(pre: string, v: string, p: string, r: string, i: nat)
    requires NoOverlap(p, r) && ClearBefore(pre, v, p) && Find(v, p) == Some(i) && i + |p| <= |v|
    ensures ReplaceAllOf(pre + v, p, r) == ReplaceAllOf((pre + v[..i] + r) + v[i + |p|..], p, r)
    ensures ClearBefore(pre + v[..i] + r, v[i + |p|..], p)
  {
    hide NoOverlap, Measure, ClearBefore, OccursAt, Find;
    FindBehind(pre, v, p);
    Behind(pre, v, p, r, i);
    ClearAfter(pre + v, p, r, |pre| + i, pre + v[..i] + r, v[i + |p|..]);
  }

  lemma {:induction false} RestartIsOnePass(pre: string, v: string, p: string, r: string)
    requires NoOverlap(p, r) && ClearBefore(pre, v, p)
    ensures ReplaceAllOf(pre + v, p, r) == pre + OnePass(v, p, r)
    decreases |v|
  {
    hide NoOverlap, Measure, ClearBefore, Find;
    NoOverlapNonEmpty(p, r);
    match Find(v, p)
    case None =>
      FindBehind(pre, v, p);
    case Some(i) =>
      var rest := OnePass(v[i + |p|..], p, r);
      RestartStep(pre, v, p, r, i);
      hide ReplaceAllOf;
      RestartIsOnePass(pre + v[..i] + r, v[i + |p|..], p, r);
      Assoc(pre, v[..i] + r, rest);
      Assoc(pre, v[..i], r);
  }

  lemma Behind(pre: string, v: string, p: string, r: string, i: nat)
    requires i + |p| <= |v|
    ensures ReplaceAt(pre + v, p, r, |pre| + i) == (pre + v[..i] + r) + v[i + |p|..]
  {
    var s := pre + v;
    assert s[..|pre| + i] == pre + v[..i] && s[|pre| + i + |p|..] == v[i + |p|..];
  }

  lemma NoOverlapNonEmpty(p: string, r: string)
    requires NoOverlap(p, r)
    ensures p != ""
  {
  }

  lemma ClearAfter(s: string, p: string, r: string, i: nat, pre: string, v: string)
    requires NoOverlap(p, r) && OccursAt(s, p, i) && forall j :: 0 <= j < i ==> !OccursAt(s, p, j)
    requires pre + v == ReplaceAt(s, p, r, i) && |pre| == i + |r|
    ensures ClearBefore(pre, v, p)
  {
    hide NoOverlap;
    forall k | 0 <= k < |pre| ensures !OccursAt(pre + v, p, k) { ClearedBehind(s, p, r, i, k); }
  }

  /** With a replacement that cannot form new occurrences, starting again is the same as one pass. */
  lemma ReplaceAllIsOnePass(s: string, p: string, r: string)
    requires NoOverlap(p, r)
    ensures ReplaceAllOf(s, p, r) == OnePass(s, p, r)
  {
    RestartIsOnePass("", s, p, r);
    assert "" + s == s && "" + OnePass(s, p, r) == OnePass(s, p, r);
  }

  // ----- "/>" becomes ">": here starting again matters -----

  /** Slashes, if any, and then '>'. */
  predicate EndsInGt(t: string) {
    t != "" && (t[0] == '>' || (t[0] == '/' && EndsInGt(t[1..])))
  }

  /** Every run of slashes right before a '>' is dropped. */
  function DropSlashes(s: string): string {
    if s == "" then ""
    else if s[0] == '/' && EndsInGt(s[1..]) then DropSlashes(s[1..])
    else [s[0]] + DropSlashes(s[1..])
  }

  lemma {:induction false} EndsInGtSame(u: string, v: string)
    ensures EndsInGt(u + "/>" + v) == EndsInGt(u + ">" + v)
  {
    if u == "" {
      assert ("" + "/>" + v)[1..] == ">" + v;
    } else {
      EndsInGtSame(u[1..], v);
      assert (u + "/>" + v)[1..] == u[1..] + "/>" + v;
      assert (u + ">" + v)[1..] == u[1..] + ">" + v;
    }
  }

  lemma {:induction false} DropSlashesSame(u: string, v: string)
    ensures DropSlashes(u + "/>" + v) == DropSlashes(u + ">" + v)
  {
    if u == "" {
      assert ("" + "/>" + v)[1..] == ">" + v;
      assert "" + ">" + v == ">" + v;
    } else {
      DropSlashesSame(u[1..], v);
      EndsInGtSame(u[1..], v);
      assert (u + "/>" + v)[1..] == u[1..] + "/>" + v;
      assert (u + ">" + v)[1..] == u[1..] + ">" + v;
    }
  }

  lemma {:induction false} NothingToDrop(s: string)
    requires Find(s, "/>") == None
    ensures DropSlashes(s) == s
    ensures s != "" && s[0] == '/' ==> !EndsInGt(s[1..])
  {
    if s != "" {
      forall i: nat ensures !OccursAt(s[1..], "/>", i) { OccursShift(s, "/>", i + 1); }
      NothingToDrop(s[1..]);
      assert !OccursAt(s, "/>", 0);
      assert |s| > 1 ==> s[0..2] == [s[0], s[1]];
    }
  }

  /** Replacing "/>" by ">" until none is left removes each run of slashes before a '>'. */
  lemma {:induction false} ReplaceAllDropsSlashes(s: string)
    ensures ReplaceAllOf(s, "/>", ">") == DropSlashes(s)
    decreases |s|
  {
    match Find(s, "/>")
    case None => NothingToDrop(s);
    case Some(i) =>
      ReplaceAllDropsSlashes(ReplaceAt(s, "/>", ">", i));
      DropSlashesSame(s[..i], s[i + 2..]);
      assert s == s[..i] + "/>" + s[i + 2..];
  }

  // ----- the three uses -----

  lemma ManifestUse()
    ensures NoOverlap("Manifest", "Measurement")
  {
    var p, r := "Manifest", "Measurement";
    assert forall k :: 1 <= k < |p| ==> p[k] != 'M';
    assert forall k :: 1 <= k < |r| ==> r[k] != 'M';
    NoOverlapByFirst(p, r, |r|);
  }

  lemma LowerManifestUse()
    ensures NoOverlap("manifest", "measurement")
  {
    var p, r := "manifest", "measurement";
    assert forall k :: 1 <= k < |p| ==> p[k] != 'm';
    assert forall k :: 1 <= k < |r| && k != 7 ==> r[k] != 'm';
    assert r[8] == 'e' && p[1] == 'a';
    NoOverlapByFirst(p, r, 7);
  }

  /** p's first character occurs nowhere else in p, and in r only at 0 and m, each time followed by
      something other than p's second character. */
  lemma NoOverlapByFirst(p: string, r: string, m: nat)
    requires 2 <= |p| <= |r| && p[0] == r[0] && p[1] != r[1] && 0 < m
    requires forall k :: 1 <= k < |p| ==> p[k] != p[0]
    requires forall k :: 1 <= k < |r| && k != m ==> r[k] != p[0]
    requires m < |r| ==> m + 1 < |r| && r[m + 1] != p[1]
    ensures NoOverlap(p, r)
  {
    forall j | 0 < j < |p| ensures p[|p| - j..] != r[..j] {
      assert p[|p| - j..][0] == p[|p| - j] && r[..j][0] == r[0];
    }
    forall t: nat ensures !OccursAt(r, p, t) {
      if t + |p| <= |r| { assert r[t..t + |p|][0] == r[t] && r[t..t + |p|][1] == r[t + 1]; }
    }
    forall j | 0 < j < |p| ensures r[|r| - j..] != p[..j] {
      assert r[|r| - j..][0] == r[|r| - j] && p[..j][0] == p[0];
      if |r| - j == m { assert r[m..][1] == r[m + 1] && p[..j][1] == p[1]; }
    }
  }

  // ----- one pass, literally -----

  /** Texts with a separator between each two. */
  function JoinWith(parts: seq<string>, p: string): string
    requires parts != []
  {
    if |parts| == 1 then parts[0] else parts[0] + p + JoinWith(parts[1..], p)
  }

  /** The search string occurs between the parts, and nowhere before. */
  ghost predicate PartsOf(parts: seq<string>, p: string)
    requires parts != []
  {
    if |parts| == 1 then Find(parts[0], p) == None
    else Find(JoinWith(parts, p), p) == Some(|parts[0]|) && PartsOf(parts[1..], p)
  }

  /** One pass puts the replacement wherever the search string stood, and keeps the rest. */
  lemma {:induction false} PartsReplaced(parts: seq<string>, p: string, r: string)
    requires parts != [] && p != "" && PartsOf(parts, p)
    ensures OnePass(JoinWith(parts, p), p, r) == JoinWith(parts, r)
  {
    hide Find;
    if |parts| > 1 {
      PartsReplaced(parts[1..], p, r);
      var s, n := JoinWith(parts, p), |parts[0]|;
      assert s[..n] == parts[0] && s[n + |p|..] == JoinWith(parts[1..], p);
    }
  }

  /** Text without '>' is kept, its slashes too; slashes right in front of a '>' are dropped. */
  lemma {:induction false} SlashesDropped(a: string, k: nat, rest: string)
    requires '>' !in a && (a == "" || a[|a| - 1] != '/')
    ensures DropSlashes(a + seq(k, _ => '/') + ">" + rest) == a + ">" + DropSlashes(rest)
  {
    var t := a + seq(k, _ => '/') + ">" + rest;
    if a == "" {
      DropRun(k, rest);
      assert t == seq(k, _ => '/') + ">" + rest;
    } else {
      assert t[1..] == a[1..] + seq(k, _ => '/') + ">" + rest;
      assert a[0] in a;
      SlashesDropped(a[1..], k, rest);
      if a[0] == '/' { NotSlashesOnly(a[1..], seq(k, _ => '/') + ">" + rest); assert t[1..] == a[1..] + (seq(k, _ => '/') + ">" + rest); }
    }
  }

  lemma {:induction false} DropRun(k: nat, rest: string)
    ensures EndsInGt(seq(k, _ => '/') + ">" + rest)
    ensures DropSlashes(seq(k, _ => '/') + ">" + rest) == ">" + DropSlashes(rest)
  {
    var t := seq(k, _ => '/') + ">" + rest;
    if k == 0 {
      assert t == ">" + rest;
    } else {
      DropRun(k - 1, rest);
      assert t[0] == '/' && t[1..] == seq(k - 1, _ => '/') + ">" + rest;
    }
  }

  lemma {:induction false} NotSlashesOnly(a: string, b: string)
    requires a != "" && '>' !in a && a[|a| - 1] != '/'
    ensures !EndsInGt(a + b)
  {
    assert (a + b)[0] == a[0] && a[0] in a;
    if a[0] == '/' {
      NotSlashesOnly(a[1..], b);
      assert (a + b)[1..] == a[1..] + b;
    }
  }

  lemma {:induction false} SlashesKept(a: string)
    requires '>' !in a
    ensures DropSlashes(a) == a && !EndsInGt(a)
  {
    if a != "" {
      assert a[0] in a;
      SlashesKept(a[1..]);
    }
  }
}
