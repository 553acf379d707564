/** Dropping inactive PCR banks from a quote request: entries are deleted from the shared backing
    array while a loop ranges over the original slice. */
module BankStrip {
  import Bytes

  /** The remaining banks, or an out-of-range slice expression. */
  datatype Outcome = Banks(banks: seq<string>) | Panic

  /** append(banks[:i], banks[i+1:]...) on a slice of length len: the tail moves down by one, and the
      cell behind the new end keeps its old value. */
  function Delete(arr: seq<string>, len: nat, i: nat): (r: seq<string>)
    requires i < len <= |arr|
    ensures |r| == |arr|
  {
    arr[..i] + arr[i + 1..len] + arr[len - 1..]
  }

  /** The loop from iteration i on: it visits every cell of the original slice. */
  function Strip(active: string -> bool, arr: seq<string>, len: nat, i: nat): Outcome
    requires len <= |arr|
    decreases |arr| - i
  {
    if i >= |arr| then Banks(arr[..len])
    else if active(arr[i]) then Strip(active, arr, len, i + 1)
    else if i + 1 > len then Panic
    else Strip(active, Delete(arr, len, i), len - 1, i + 1)
  }

  method ShiftDown(arr: array<string>, len: nat, i: nat)
    requires i < len <= arr.Length
    modifies arr
    ensures arr[..] == Delete(old(arr[..]), len, i)
  {
    for j := i to len - 1
      invariant forall k :: 0 <= k < i ==> arr[k] == old(arr[k])
      invariant forall k :: i <= k < j ==> arr[k] == old(arr[k + 1])
      invariant forall k :: j <= k < arr.Length ==> arr[k] == old(arr[k])
    {
      arr[j] := arr[j + 1];
    }
  }

  method StripInactive(active: string -> bool, arr: array<string>) returns (out: Outcome)
    modifies arr
    ensures out == Strip(active, old(arr[..]), arr.Length, 0)
  {
    var len: nat := arr.Length;
    for i := 0 to arr.Length
      invariant len <= arr.Length
      invariant Strip(active, arr[..], len, i) == Strip(active, old(arr[..]), arr.Length, 0)
    {
      if !active(arr[i]) {
        if i + 1 > len { return Panic; }
        ShiftDown(arr, len, i);
        len := len - 1;
      }
    }
    return Banks(arr[..len]);
  }

  // ----- what the loop computes -----

  function Actives(active: string -> bool, s: seq<string>): (r: seq<string>)
    ensures forall i :: 0 <= i < |r| ==> active(r[i])
  {
    if s == [] then [] else (if active(s[0]) then [s[0]] else []) + Actives(active, s[1..])
  }

  function Copies(z: string, d: nat): (r: seq<string>)
    ensures |r| == d && forall i :: 0 <= i < d ==> r[i] == z
  {
    seq(d, _ => z)
  }

  /** The same loop on values: kept so far, still to visit, and d deletions made; behind the end are
      d copies of the last bank z. The element after a deleted one is kept unseen. */
  function Visit(active: string -> bool, kept: seq<string>, rest: seq<string>, d: nat, z: string): Outcome
    decreases |rest|
  {
    if rest == [] then (if d > 0 && !active(z) then Panic else Banks(kept))
    else if active(rest[0]) then Visit(active, kept + [rest[0]], rest[1..], d, z)
    else if |rest| == 1 then (if d > 0 then Panic else Banks(kept))
    else Visit(active, kept + [rest[1]], rest[2..], d + 1, z)
  }

  lemma {:induction false} StaleTail(active: string -> bool, arr: seq<string>, len: nat, i: nat, z: string)
    requires len <= i <= |arr| && forall j :: i <= j < |arr| ==> arr[j] == z
    ensures Strip(active, arr, len, i) == if i < |arr| && !active(z) then Panic else Banks(arr[..len])
    decreases |arr| - i
  {
    if i < |arr| && active(z) { StaleTail(active, arr, len, i + 1, z); }
  }

  lemma {:induction false} StripIsVisit(active: string -> bool, kept: seq<string>, rest: seq<string>, d: nat, z: string)
    requires rest != [] ==> rest[|rest| - 1] == z
    ensures Strip(active, kept + rest + Copies(z, d), |kept| + |rest|, |kept|) == Visit(active, kept, rest, d, z)
    decreases |rest|
  {
    hide Delete;
    var arr, len, i := kept + rest + Copies(z, d), |kept| + |rest|, |kept|;
    assert rest != [] ==> arr[i] == rest[0];
    if rest == [] {
      StaleTail(active, arr, len, i, z);
      assert arr[..len] == kept;
    } else if active(rest[0]) {
      StripIsVisit(active, kept + [rest[0]], rest[1..], d, z);
      assert arr == (kept + [rest[0]]) + rest[1..] + Copies(z, d);
    } else {
      var arr' := Delete(arr, len, i);
      if |rest| == 1 {
        DeleteLast(kept, d, z);
        assert rest == [z];
        StaleTail(active, arr', len - 1, i + 1, z);
        assert arr'[..len - 1] == kept;
      } else {
        DeleteInside(kept, rest, d, z);
        StripIsVisit(active, kept + [rest[1]], rest[2..], d + 1, z);
      }
    }
  }

  lemma DeleteLast(kept: seq<string>, d: nat, z: string)
    ensures Delete(kept + [z] + Copies(z, d), |kept| + 1, |kept|) == kept + Copies(z, d + 1)
  {
    var arr, i := kept + [z] + Copies(z, d), |kept|;
    assert arr[..i] == kept && arr[i + 1..i + 1] == [] && arr[i..] == [z] + Copies(z, d) == Copies(z, d + 1);
  }

  lemma DeleteInside(kept: seq<string>, rest: seq<string>, d: nat, z: string)
    requires |rest| >= 2 && rest[|rest| - 1] == z
    ensures Delete(kept + rest + Copies(z, d), |kept| + |rest|, |kept|) == (kept + [rest[1]]) + rest[2..] + Copies(z, d + 1)
  {
    var arr, len, i := kept + rest + Copies(z, d), |kept| + |rest|, |kept|;
    assert arr[..i] == kept;
    assert arr[i + 1..len] == rest[1..] == [rest[1]] + rest[2..];
    assert arr[len - 1..] == [z] + Copies(z, d) == Copies(z, d + 1);
  }

  /** No two neighbours are both inactive. */
  ghost predicate NoInactivePair(active: string -> bool, s: seq<string>) {
    forall i :: 0 < i < |s| ==> active(s[i - 1]) || active(s[i])
  }

  /** When the last bank is inactive, it is the only one. */
  ghost predicate LastIsAlone(active: string -> bool, s: seq<string>) {
    s != [] && !active(s[|s| - 1]) ==> forall i :: 0 <= i < |s| - 1 ==> active(s[i])
  }

  lemma {:induction false} VisitKeeps(active: string -> bool, kept: seq<string>, rest: seq<string>, d: nat, z: string)
    requires Visit(active, kept, rest, d, z).Banks?
    ensures kept <= Visit(active, kept, rest, d, z).banks
    decreases |rest|
  {
    if rest != [] {
      if active(rest[0]) { VisitKeeps(active, kept + [rest[0]], rest[1..], d, z); }
      else if |rest| > 1 { VisitKeeps(active, kept + [rest[1]], rest[2..], d + 1, z); }
    }
  }

  ghost predicate Fine(active: string -> bool, rest: seq<string>, d: nat, z: string) {
    if rest == [] then d == 0 || active(z)
    else NoInactivePair(active, rest) && LastIsAlone(active, rest) && (d == 0 || active(z))
  }

  lemma {:induction false} VisitExactly(active: string -> bool, kept: seq<string>, rest: seq<string>, d: nat, z: string)
    requires rest != [] ==> rest[|rest| - 1] == z
    ensures Visit(active, kept, rest, d, z) == Banks(kept + Actives(active, rest)) <==> Fine(active, rest, d, z)
    decreases |rest|
  {
    hide Fine;
    if rest == [] {
      assert kept + Actives(active, rest) == kept;
      FineAtEnd(active, rest, d, z);
    } else if active(rest[0]) {
      VisitExactly(active, kept + [rest[0]], rest[1..], d, z);
      assert kept + Actives(active, rest) == (kept + [rest[0]]) + Actives(active, rest[1..]);
      FineAfterActive(active, rest, d, z);
    } else if |rest| == 1 {
      assert rest[1..] == [] && kept + Actives(active, rest) == kept;
      FineAtEnd(active, rest, d, z);
    } else if active(rest[1]) {
      VisitExactly(active, kept + [rest[1]], rest[2..], d + 1, z);
      assert rest[1..][1..] == rest[2..];
      assert kept + Actives(active, rest) == (kept + [rest[1]]) + Actives(active, rest[2..]);
      FineAfterPair(active, rest, d, z);
    } else {
      PairSurvives(active, kept, rest, d, z);
    }
  }

  lemma PairSurvives(active: string -> bool, kept: seq<string>, rest: seq<string>, d: nat, z: string)
    requires |rest| >= 2 && !active(rest[0]) && !active(rest[1])
    ensures !Fine(active, rest, d, z)
    ensures Visit(active, kept, rest, d, z) != Banks(kept + Actives(active, rest))
  {
    if Visit(active, kept, rest, d, z).Banks? {
      VisitKeeps(active, kept + [rest[1]], rest[2..], d + 1, z);
      var out, want := Visit(active, kept, rest, d, z).banks, kept + Actives(active, rest);
      assert out[|kept|] == rest[1];
      if |want| > |kept| { assert active(want[|kept|]) by { assert want[|kept|] == Actives(active, rest)[0]; } }
    }
  }

  lemma FineAtEnd(active: string -> bool, rest: seq<string>, d: nat, z: string)
    requires rest == [] || rest == [z]
    ensures Fine(active, rest, d, z) <==> d == 0 || active(z)
  {
  }

  lemma FineAfterActive(active: string -> bool, rest: seq<string>, d: nat, z: string)
    requires rest != [] && rest[|rest| - 1] == z && active(rest[0])
    ensures Fine(active, rest[1..], d, z) <==> Fine(active, rest, d, z)
  {
    var t := rest[1..];
    if t == [] {
      assert Fine(active, rest, d, z);
    } else {
      assert forall i :: 0 <= i < |t| ==> t[i] == rest[i + 1];
      assert forall i :: 0 < i < |rest| ==> rest[i] == t[i - 1];
    }
  }

  lemma FineAfterPair(active: string -> bool, rest: seq<string>, d: nat, z: string)
    requires |rest| >= 2 && rest[|rest| - 1] == z && !active(rest[0]) && active(rest[1])
    ensures Fine(active, rest[2..], d + 1, z) <==> Fine(active, rest, d, z)
  {
    var t := rest[2..];
    assert forall i :: 0 <= i < |t| ==> t[i] == rest[i + 2];
    assert forall i :: 2 <= i < |rest| ==> rest[i] == t[i - 2];
    if t != [] && active(z) && NoInactivePair(active, t) {
      forall i | 0 < i < |rest| ensures active(rest[i - 1]) || active(rest[i]) { }
    }
  }

  /** The loop leaves exactly the active banks, in order, if and only if no two inactive banks are
      neighbours and an inactive last bank is the only inactive one. */
  lemma {:induction false} StripExactly(active: string -> bool, banks: seq<string>)
    ensures Strip(active, banks, |banks|, 0) == Banks(Actives(active, banks)) <==>
            NoInactivePair(active, banks) && LastIsAlone(active, banks)
  {
    hide Strip, Visit, Actives, NoInactivePair, LastIsAlone, Fine;
    var z := if banks == [] then "" else banks[|banks| - 1];
    StripFromStart(active, banks, z);
    VisitFromStart(active, banks, z);
    FineFromStart(active, banks, z);
  }

  lemma StripFromStart(active: string -> bool, banks: seq<string>, z: string)
    requires banks != [] ==> banks[|banks| - 1] == z
    ensures Strip(active, banks, |banks|, 0) == Visit(active, [], banks, 0, z)
  {
    hide Strip, Visit;
    StripIsVisit(active, [], banks, 0, z);
    NothingAround(banks, z);
  }

  lemma VisitFromStart(active: string -> bool, banks: seq<string>, z: string)
    requires banks != [] ==> banks[|banks| - 1] == z
    ensures Visit(active, [], banks, 0, z) == Banks(Actives(active, banks)) <==> Fine(active, banks, 0, z)
  {
    hide Visit, Actives, Fine;
    VisitExactly(active, [], banks, 0, z);
    NothingAround(Actives(active, banks), z);
  }

  lemma FineFromStart(active: string -> bool, banks: seq<string>, z: string)
    ensures Fine(active, banks, 0, z) <==> NoInactivePair(active, banks) && LastIsAlone(active, banks)
  {
  }

  lemma NothingAround(s: seq<string>, z: string)
    ensures [] + s + Copies(z, 0) == s && [] + s == s
  {
  }

  /** In particular at most one inactive position is always handled. */
  lemma OneInactive(active: string -> bool, banks: seq<string>, p: nat)
    requires forall i :: 0 <= i < |banks| && i != p ==> active(banks[i])
    ensures Strip(active, banks, |banks|, 0) == Banks(Actives(active, banks))
  {
    StripExactly(active, banks);
  }

  /** Two inactive neighbours: the second one survives. */
  lemma TwoInactiveNeighbours(active: string -> bool, a: string, b: string, c: string)
    requires !active(a) && !active(b) && active(c)
    ensures Strip(active, [a, b, c], 3, 0) == Banks([b, c])
  {
    assert Delete([a, b, c], 3, 0) == [b, c, c];
    assert Strip(active, [b, c, c], 2, 3) == Banks([b, c, c][..2]) && [b, c, c][..2] == [b, c];
    assert Strip(active, [b, c, c], 2, 2) == Strip(active, [b, c, c], 2, 3);
    assert Strip(active, [b, c, c], 2, 1) == Strip(active, [b, c, c], 2, 2);
  }

  /** The active banks are those that are active, in order. */
  lemma {:induction false} ActivesMeaning(active: string -> bool, a: seq<string>, b: seq<string>, bank: string)
    ensures Actives(active, []) == [] && Actives(active, [bank]) == if active(bank) then [bank] else []
    ensures Actives(active, a + b) == Actives(active, a) + Actives(active, b)
  {
    if a == [] {
      assert a + b == b;
    } else {
      ActivesMeaning(active, a[1..], b, bank);
      assert (a + b)[1..] == a[1..] + b && (a + b)[0] == a[0];
      Bytes.Assoc(if active(a[0]) then [a[0]] else [], Actives(active, a[1..]), Actives(active, b));
    }
  }
}
