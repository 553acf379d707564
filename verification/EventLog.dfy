/** The measured-event log and the grouping of digests by (PCR index, bank). */
module EventLog {

  datatype PcrData = PcrData(index: nat, bank: string)

  datatype TpmEvent = TpmEvent(typeId: string, typeName: string, tags: seq<string>, measurement: string)

  datatype PcrEventLog = PcrEventLog(pcr: PcrData, tpmEvents: seq<TpmEvent>)

  /** One digest on its way into the log. */
  datatype Entry = Entry(pcr: PcrData, event: TpmEvent)

  // ----- what the parsers do: find the first group with the key, or open a new one -----

  function Find(logs: seq<PcrEventLog>, pcr: PcrData): (i: nat)
    ensures i <= |logs|
    ensures i < |logs| ==> logs[i].pcr == pcr
    ensures forall j :: 0 <= j < i ==> logs[j].pcr != pcr
  {
    if logs == [] || logs[0].pcr == pcr then 0 else 1 + Find(logs[1..], pcr)
  }

  function Insert(logs: seq<PcrEventLog>, e: Entry): seq<PcrEventLog> {
    var i := Find(logs, e.pcr);
    if i == |logs| then logs + [PcrEventLog(e.pcr, [e.event])]
    else logs[i := PcrEventLog(e.pcr, logs[i].tpmEvents + [e.event])]
  }

  function InsertAll(logs: seq<PcrEventLog>, es: seq<Entry>): seq<PcrEventLog> {
    if es == [] then logs else Insert(InsertAll(logs, es[..|es| - 1]), es[|es| - 1])
  }

  method AddEntry(logs: seq<PcrEventLog>, e: Entry) returns (r: seq<PcrEventLog>)
    ensures r == Insert(logs, e)
  {
    r := logs;
    var found := false;
    var i := 0;
    while i < |logs| && !found
      invariant 0 <= i <= |logs|
      invariant found ==> r == Insert(logs, e)
      invariant !found ==> r == logs && forall j :: 0 <= j < i ==> logs[j].pcr != e.pcr
    {
      if logs[i].pcr == e.pcr {
        r := logs[i := PcrEventLog(logs[i].pcr, logs[i].tpmEvents + [e.event])];
        found := true;
        assert i == Find(logs, e.pcr);
      }
      i := i + 1;
    }
    if !found {
      r := r + [PcrEventLog(e.pcr, [e.event])];
    }
  }

  // ----- what the grouping means -----

  function Keys(logs: seq<PcrEventLog>): (ks: seq<PcrData>)
    ensures |ks| == |logs|
  {
    seq(|logs|, i requires 0 <= i < |logs| => logs[i].pcr)
  }

  /** The keys of the entries, each once, in order of first occurrence. */
  function FirstKeys(es: seq<Entry>): seq<PcrData> {
    if es == [] then [] else
    var ks := FirstKeys(es[..|es| - 1]);
    if es[|es| - 1].pcr in ks then ks else ks + [es[|es| - 1].pcr]
  }

  /** The events of one key, in order. */
  function EventsOf(es: seq<Entry>, k: PcrData): seq<TpmEvent> {
    if es == [] then [] else
    EventsOf(es[..|es| - 1], k) + if es[|es| - 1].pcr == k then [es[|es| - 1].event] else []
  }

  function Groups(es: seq<Entry>): (g: seq<PcrEventLog>)
    ensures |g| == |FirstKeys(es)|
  {
    var ks := FirstKeys(es);
    seq(|ks|, i requires 0 <= i < |ks| => PcrEventLog(ks[i], EventsOf(es, ks[i])))
  }

  ghost predicate Distinct(ks: seq<PcrData>) {
    forall i, j :: 0 <= i < j < |ks| ==> ks[i] != ks[j]
  }

  /** Position of the first entry with key k. */
  function FirstIndex(es: seq<Entry>, k: PcrData): (i: nat)
    ensures i <= |es|
    ensures i < |es| ==> es[i].pcr == k
    ensures forall j :: 0 <= j < i ==> es[j].pcr != k
  {
    if es == [] || es[0].pcr == k then 0 else 1 + FirstIndex(es[1..], k)
  }

  lemma FirstIndexUnique(es: seq<Entry>, k: PcrData, i: nat)
    requires i < |es| && es[i].pcr == k && forall j :: 0 <= j < i ==> es[j].pcr != k
    ensures FirstIndex(es, k) == i
  {
  }

  /** FirstKeys is exactly the set of keys, without repetition, ordered by first occurrence. */
  lemma {:induction false} FirstKeysMeaning(es: seq<Entry>)
    ensures Distinct(FirstKeys(es))
    ensures forall k :: k in FirstKeys(es) <==> FirstIndex(es, k) < |es|
    ensures forall i, j :: 0 <= i < j < |FirstKeys(es)| ==>
      FirstIndex(es, FirstKeys(es)[i]) < FirstIndex(es, FirstKeys(es)[j])
  {
    if es != [] {
      var init, last := es[..|es| - 1], es[|es| - 1];
      FirstKeysMeaning(init);
      forall k ensures FirstIndex(es, k) ==
          if FirstIndex(init, k) < |init| then FirstIndex(init, k)
          else if last.pcr == k then |init| else |es| {
        FirstIndexSnoc(init, last, k);
        assert es == init + [last];
      }
    }
  }

  lemma FirstIndexSnoc(es: seq<Entry>, e: Entry, k: PcrData)
    ensures FirstIndex(es + [e], k) ==
      if FirstIndex(es, k) < |es| then FirstIndex(es, k) else if e.pcr == k then |es| else |es| + 1
  {
    var i := FirstIndex(es, k);
    if i < |es| {
      FirstIndexUnique(es + [e], k, i);
    } else if e.pcr == k {
      FirstIndexUnique(es + [e], k, i);
    }
  }

  lemma EventsOfAbsent(es: seq<Entry>, k: PcrData)
    requires k !in FirstKeys(es)
    ensures EventsOf(es, k) == []
  {
  }

  lemma GroupingSnoc(es: seq<Entry>, e: Entry, k: PcrData)
    ensures FirstKeys(es + [e]) == FirstKeys(es) + if e.pcr in FirstKeys(es) then [] else [e.pcr]
    ensures EventsOf(es + [e], k) == EventsOf(es, k) + if e.pcr == k then [e.event] else []
  {
    assert (es + [e])[..|es|] == es;
  }

  lemma GroupsSnoc(es: seq<Entry>, e: Entry)
    ensures Groups(es + [e]) == Insert(Groups(es), e)
  {
    hide FirstKeys, EventsOf, FirstIndex;
    FirstKeysMeaning(es);
    GroupingSnoc(es, e, e.pcr);
    var g, ks, g' := Groups(es), FirstKeys(es), Groups(es + [e]);
    var i := Find(g, e.pcr);
    if e.pcr in ks {
      var j :| 0 <= j < |ks| && ks[j] == e.pcr;
      assert g[j].pcr == e.pcr;
    } else {
      EventsOfAbsent(es, e.pcr);
    }
    var r := Insert(g, e);
    forall m | 0 <= m < |r| ensures r[m] == g'[m] {
      if m < |ks| {
        assert g[m].pcr == ks[m];
        GroupingSnoc(es, e, ks[m]);
      }
    }
  }

  /** The linear search computes the grouping. */
  lemma {:induction false} InsertAllIsGroups(es: seq<Entry>)
    ensures InsertAll([], es) == Groups(es)
  {
    if es != [] {
      var init, last := es[..|es| - 1], es[|es| - 1];
      InsertAllIsGroups(init);
      GroupsSnoc(init, last);
      assert es == init + [last];
    }
  }

  // ----- conservation -----

  function Flatten(logs: seq<PcrEventLog>): seq<Entry> {
    if logs == [] then [] else Ungroup(logs[0]) + Flatten(logs[1..])
  }

  function Ungroup(g: PcrEventLog): seq<Entry> {
    seq(|g.tpmEvents|, i requires 0 <= i < |g.tpmEvents| => Entry(g.pcr, g.tpmEvents[i]))
  }

  ghost function Bag(logs: seq<PcrEventLog>): multiset<Entry> {
    multiset(Flatten(logs))
  }

  lemma {:induction false} InsertConserves(logs: seq<PcrEventLog>, e: Entry)
    ensures Bag(Insert(logs, e)) == Bag(logs) + multiset{e}
  {
    var r := Insert(logs, e);
    if logs == [] {
      assert r[1..] == [] && Ungroup(r[0]) == [e];
      assert Flatten(r) == [e];
    } else if logs[0].pcr == e.pcr {
      assert r[1..] == logs[1..];
      assert Ungroup(r[0]) == Ungroup(logs[0]) + [e];
    } else {
      InsertConserves(logs[1..], e);
      assert r[0] == logs[0] && r[1..] == Insert(logs[1..], e);
    }
  }

  /** No digest is lost or duplicated. */
  lemma {:induction false} InsertAllConserves(logs: seq<PcrEventLog>, es: seq<Entry>)
    ensures Bag(InsertAll(logs, es)) == Bag(logs) + multiset(es)
  {
    if es != [] {
      var init, last := es[..|es| - 1], es[|es| - 1];
      var before := InsertAll(logs, init);
      assert InsertAll(logs, es) == Insert(before, last);
      assert Bag(Insert(before, last)) == Bag(before) + multiset{last} by { InsertConserves(before, last); }
      assert Bag(before) == Bag(logs) + multiset(init) by { InsertAllConserves(logs, init); }
      assert es == init + [last];
    }
  }

  // ----- algebra of InsertAll -----

  lemma InsertAllNone(logs: seq<PcrEventLog>)
    ensures InsertAll(logs, []) == logs
  {
  }

  lemma InsertAllNext(logs: seq<PcrEventLog>, es: seq<Entry>, i: nat)
    requires i < |es|
    ensures InsertAll(logs, es[..i + 1]) == Insert(InsertAll(logs, es[..i]), es[i])
  {
    assert es[..i + 1][..i] == es[..i];
  }

  lemma {:induction false} InsertAllConcat(logs: seq<PcrEventLog>, a: seq<Entry>, b: seq<Entry>)
    ensures InsertAll(logs, a + b) == InsertAll(InsertAll(logs, a), b)
  {
    if b == [] {
      assert a + b == a;
    } else {
      InsertAllConcat(logs, a, b[..|b| - 1]);
      assert (a + b)[..|a + b| - 1] == a + b[..|b| - 1];
    }
  }

  ghost predicate SameKeys(a: seq<Entry>, b: seq<Entry>) {
    |a| == |b| && forall i :: 0 <= i < |a| ==> a[i].pcr == b[i].pcr
  }

  lemma FindByKeys(a: seq<PcrEventLog>, b: seq<PcrEventLog>, k: PcrData)
    requires Keys(a) == Keys(b)
    ensures Find(a, k) == Find(b, k)
  {
    var i, j := Find(a, k), Find(b, k);
    assert forall m :: 0 <= m < |a| ==> Keys(a)[m] == a[m].pcr && Keys(b)[m] == b[m].pcr;
    assert !(i < j) && !(j < i);
  }

  lemma KeysOfInsert(x: seq<PcrEventLog>, y: seq<PcrEventLog>, d: Entry, e: Entry)
    requires Keys(x) == Keys(y) && d.pcr == e.pcr
    ensures Keys(Insert(x, d)) == Keys(Insert(y, e))
  {
    FindByKeys(x, y, d.pcr);
    assert |x| == |Keys(x)| == |y|;
    forall j | 0 <= j < |x| ensures Keys(Insert(x, d))[j] == Keys(Insert(y, e))[j] {
      assert Keys(x)[j] == Keys(y)[j];
    }
  }

  /** Which groups exist, and where, depends on the keys alone. */
  lemma {:induction false} KeysOfInsertAll(logs: seq<PcrEventLog>, a: seq<Entry>, b: seq<Entry>)
    requires SameKeys(a, b)
    ensures Keys(InsertAll(logs, a)) == Keys(InsertAll(logs, b))
  {
    if a != [] {
      var n := |a| - 1;
      KeysOfInsertAll(logs, a[..n], b[..n]);
      KeysOfInsert(InsertAll(logs, a[..n]), InsertAll(logs, b[..n]), a[n], b[n]);
    }
  }

  /** Grouping forgets nothing: with equal keys, equal logs come from equal entries. */
  lemma {:induction false} InsertAllInjective(logs: seq<PcrEventLog>, a: seq<Entry>, b: seq<Entry>)
    requires SameKeys(a, b) && InsertAll(logs, a) == InsertAll(logs, b)
    ensures a == b
  {
    if a != [] {
      var n := |a| - 1;
      var x, y := InsertAll(logs, a[..n]), InsertAll(logs, b[..n]);
      KeysOfInsertAll(logs, a[..n], b[..n]);
      InsertInjective(x, y, a[n], b[n]);
      InsertAllInjective(logs, a[..n], b[..n]);
      assert a == a[..n] + [a[n]] && b == b[..n] + [b[n]];
    }
  }

  lemma InsertInjective(x: seq<PcrEventLog>, y: seq<PcrEventLog>, d: Entry, e: Entry)
    requires Keys(x) == Keys(y) && d.pcr == e.pcr && Insert(x, d) == Insert(y, e)
    ensures x == y && d == e
  {
    FindByKeys(x, y, d.pcr);
    var i := Find(x, d.pcr);
    var r := Insert(x, d);
    assert |x| == |Keys(x)| == |y|;
    forall j | 0 <= j < |x| ensures x[j] == y[j] {
      assert Keys(x)[j] == Keys(y)[j];
      if j == i {
        var n := |r[i].tpmEvents| - 1;
        assert r[i].tpmEvents[..n] == x[i].tpmEvents && r[i].tpmEvents[..n] == y[i].tpmEvents;
      } else {
        assert r[j] == x[j] && r[j] == y[j];
      }
    }
    assert d.event == r[i].tpmEvents[|r[i].tpmEvents| - 1] == e.event;
  }

  // ----- where each digest is stored -----

  /** How many of the first n entries have key k. */
  function CountKey(es: seq<Entry>, n: nat, k: PcrData): nat
    requires n <= |es|
  {
    if n == 0 then 0 else CountKey(es, n - 1, k) + if es[n - 1].pcr == k then 1 else 0
  }

  lemma {:induction false} EventsOfPlace(es: seq<Entry>, n: nat, i: nat)
    requires i < n <= |es|
    ensures CountKey(es, i, es[i].pcr) < |EventsOf(es[..n], es[i].pcr)| == CountKey(es, n, es[i].pcr)
    ensures EventsOf(es[..n], es[i].pcr)[CountKey(es, i, es[i].pcr)] == es[i].event
  {
    var k := es[i].pcr;
    assert es[..n][..n - 1] == es[..n - 1] && es[..n][n - 1] == es[n - 1];
    EventsOfLength(es, n - 1, k);
    if i < n - 1 { EventsOfPlace(es, n - 1, i); }
  }

  lemma {:induction false} EventsOfLength(es: seq<Entry>, n: nat, k: PcrData)
    requires n <= |es|
    ensures |EventsOf(es[..n], k)| == CountKey(es, n, k)
  {
    if n > 0 {
      EventsOfLength(es, n - 1, k);
      assert es[..n][..n - 1] == es[..n - 1] && es[..n][n - 1] == es[n - 1];
    }
  }

  /** An inserted entry is found in the group of its key, behind as many others as were inserted before it. */
  lemma StoredAt(es: seq<Entry>, i: nat) returns (g: nat)
    requires i < |es|
    ensures var logs := InsertAll([], es);
            && g < |logs| && logs[g].pcr == es[i].pcr
            && |logs[g].tpmEvents| == CountKey(es, |es|, es[i].pcr)
            && CountKey(es, i, es[i].pcr) < |logs[g].tpmEvents| && logs[g].tpmEvents[CountKey(es, i, es[i].pcr)] == es[i].event
  {
    hide InsertAll, EventsOf, CountKey, FirstKeys;
    var k := es[i].pcr;
    InsertAllIsGroups(es);
    FirstKeysMeaning(es);
    EventsOfPlace(es, |es|, i);
    assert es[..|es|] == es;
    if FirstIndex(es, k) == |es| { assert false; }
    assert k in FirstKeys(es);
    g :| 0 <= g < |FirstKeys(es)| && FirstKeys(es)[g] == k;
  }
}
