/** Repairing a damaged version 1 list: holes closed, orphans removed, duplicates kept. */
module Repair {
  import opened Ranked
  import opened ListModel
  import opened RowStore
  import opened Migration

  datatype Read = Whole(items: seq<Raw>) | Corrupt(at: nat)

  /** `to_list` on a version 1 list that may be damaged: fails at the first missing row. */
  method ToList(v: View) returns (r: Read)
    requires Recorded(v)
    ensures r.Whole? ==> r.items == Content(v) && forall i: nat :: i < LengthOf(v.meta.value) ==> i in v.v1
    ensures r.Corrupt? ==> r.at < LengthOf(v.meta.value) && r.at !in v.v1
                           && forall i: nat :: i < r.at ==> i in v.v1
  {
    var items: seq<Raw> := [];
    var i: nat := 0;
    while i < LengthOf(v.meta.value)
      invariant i <= LengthOf(v.meta.value) && items == Present(v.v1, i)
      invariant forall j: nat :: j < i ==> j in v.v1
    {
      if i !in v.v1 {
        return Corrupt(i);
      }
      items := items + [v.v1[i]];
      i := i + 1;
    }
    r := Whole(items);
  }

  /** `verify` and `to_list` agree on what is missing. */
  method VerifyAgreesWithRead(v: View) returns (report: Report, r: Read)
    requires Recorded(v)
    ensures Reports(v, report)
    ensures report.missing == [] <==> r.Whole?
    ensures r.Corrupt? ==> r.at == report.missing[0]
  {
    report := Verify(v);
    r := ToList(v);
    MissingIff(v, report, r);
  }

  lemma MissingIff(v: View, report: Report, r: Read)
    requires Recorded(v) && Reports(v, report)
    requires r.Whole? ==> forall i: nat :: i < LengthOf(v.meta.value) ==> i in v.v1
    requires r.Corrupt? ==> r.at < LengthOf(v.meta.value) && r.at !in v.v1 && forall i: nat :: i < r.at ==> i in v.v1
    ensures report.missing == [] <==> r.Whole?
    ensures r.Corrupt? ==> report.missing != [] && r.at == report.missing[0]
  {
    assert report.missing != [] ==> report.missing[0] in report.missing;
    if r.Corrupt? {
      assert r.at in report.missing;
      var k :| 0 <= k < |report.missing| && report.missing[k] == r.at;
      assert report.missing[0] <= r.at;
    }
  }

  /** The indices of the readable rows, in order. */
  function Readable(v1: map<nat, Raw>, n: nat): (at: seq<nat>)
    ensures |at| == |Present(v1, n)|
  {
    if n == 0 then [] else if n - 1 in v1 then Readable(v1, n - 1) + [n - 1] else Readable(v1, n - 1)
  }

  /** The items that can be read are those of all the rows below the length, in index order. */
  lemma {:induction false} ReadableSpec(v1: map<nat, Raw>, n: nat)
    ensures var at := Readable(v1, n);
            && AscendingNats(at)
            && (forall q :: 0 <= q < |at| ==> q <= at[q] < n && at[q] in v1 && v1[at[q]] == Present(v1, n)[q])
            && (forall i: nat :: i < n && i in v1 ==> i in at)
  {
    if n > 0 {
      ReadableSpec(v1, n - 1);
      var before := Readable(v1, n - 1);
      if n - 1 in v1 && before != [] {
        assert before[|before| - 1] < n - 1;
      }
    }
  }

  /** The first `c` items are in their final rows, the others where they were: each item in a
      row of its own. */
  ghost predicate MovedUpTo(at: seq<nat>, items: seq<Raw>, w: map<nat, Raw>, c: nat) {
    && c <= |items| == |at|
    && (forall q :: 0 <= q < c ==> q in w && w[q] == items[q])
    && (forall q :: c <= q < |items| ==> at[q] in w && w[at[q]] == items[q])
  }

  ghost predicate NothingLost(at: seq<nat>, items: seq<Raw>, base: View, s: View) {
    s.v2 == base.v2 && exists c: nat :: MovedUpTo(at, items, s.v1, c)
  }

  lemma MoveStep(at: seq<nat>, items: seq<Raw>, w: map<nat, Raw>, c: nat)
    requires MovedUpTo(at, items, w, c) && c < |items|
    requires AscendingNats(at) && forall q :: 0 <= q < |at| ==> q <= at[q]
    ensures MovedUpTo(at, items, w[c := items[c]], c + 1)
    ensures c in w && w[c] == items[c] ==> MovedUpTo(at, items, w, c + 1)
  {}

  method MoveDown(store: Store, ghost at: seq<nat>, items: seq<Raw>)
    requires MovedUpTo(at, items, store.db.v1, 0)
    requires AscendingNats(at) && forall q :: 0 <= q < |at| ==> q <= at[q]
    modifies store
    ensures store.db == old(store.db).(v1 := store.db.v1) && MovedUpTo(at, items, store.db.v1, |items|)
    ensures forall i: nat :: i in store.db.v1 ==> i in old(store.db).v1 || i < |items|
    ensures Since(old(store.history), store.history, s => NothingLost(at, items, old(store.db), s))
  {
    ghost var base := store.db;
    var c := 0;
    while c < |items|
      invariant c <= |items| && store.db == base.(v1 := store.db.v1) && MovedUpTo(at, items, store.db.v1, c)
      invariant forall i: nat :: i in store.db.v1 ==> i in base.v1 || i < |items|
      invariant Since(old(store.history), store.history, s => NothingLost(at, items, base, s))
    {
      MoveStep(at, items, store.db.v1, c);
      if c !in store.db.v1 || store.db.v1[c] != items[c] {
        store.Put1(c, items[c]);
      }
      c := c + 1;
    }
  }

  method TrimTail(store: Store, ghost at: seq<nat>, items: seq<Raw>, end: nat)
    requires MovedUpTo(at, items, store.db.v1, |items|)
    requires forall i: nat :: i in store.db.v1 ==> i < end || i < |items|
    modifies store
    ensures store.db == old(store.db).(v1 := store.db.v1) && Dense(store.db.v1, |items|)
    ensures MovedUpTo(at, items, store.db.v1, |items|)
    ensures Since(old(store.history), store.history, s => NothingLost(at, items, old(store.db), s))
  {
    ghost var base := store.db;
    var i := |items|;
    while i < end
      invariant |items| <= i && store.db == base.(v1 := store.db.v1)
      invariant MovedUpTo(at, items, store.db.v1, |items|)
      invariant forall j: nat :: j in store.db.v1 ==> (i <= j < end || j < |items|)
      invariant Since(old(store.history), store.history, s => NothingLost(at, items, base, s))
    {
      store.Delete1(i);
      i := i + 1;
    }
  }

  /** The rewrite: after every row write, each readable item is still in a row of its own. */
  method Densify(store: Store, n: nat, end: nat, items: seq<Raw>)
    requires items == Present(store.db.v1, n)
    requires forall i: nat :: i in store.db.v1 ==> i < end
    modifies store
    ensures store.db == old(store.db).(v1 := store.db.v1)
    ensures Dense(store.db.v1, |items|) && Present(store.db.v1, |items|) == items
    ensures NothingLost(Readable(old(store.db).v1, n), items, old(store.db), store.db)
    ensures Since(old(store.history), store.history,
              s => NothingLost(Readable(old(store.db).v1, n), items, old(store.db), s))
  {
    ghost var base, at := store.db, Readable(store.db.v1, n);
    ReadableSpec(base.v1, n);
    MoveDown(store, at, items);
    ghost var mid, before := store.db, store.history;
    TrimTail(store, at, items, end);
    forall i | |before| <= i < |store.history| ensures NothingLost(at, items, base, store.history[i]) {
      assert NothingLost(at, items, mid, store.history[i]);
    }
    PresentIs(store.db.v1, items);
  }

  ghost predicate EachItemKept(base: View, s: View)
    requires Recorded(base)
  {
    var n := LengthOf(base.meta.value);
    NothingLost(Readable(base.v1, n), Present(base.v1, n), base, s)
  }

  /** `compact` on a version 1 list. It refuses a damaged list with version 2 rows, which is
      what a reverted migration looks like; otherwise it leaves exactly the readable items. */
  method Compact(store: Store, allowReverted: bool, now: string) returns (report: Report, compacted: bool)
    requires Recorded(store.db)
    modifies store
    ensures Reports(old(store.db), report)
    ensures compacted <==> allowReverted || !Damaged(report) || old(store.db).v2 == map[]
    ensures !compacted ==> store.db == old(store.db)
    ensures compacted ==> Recorded(store.db) && Dense(store.db.v1, LengthOf(store.db.meta.value))
    ensures compacted ==> Content(store.db) == Content(old(store.db)) && store.db.v2 == old(store.db).v2
    ensures compacted ==> LengthOf(store.db.meta.value) == |Content(old(store.db))|
    ensures Since(old(store.history), store.history, s => Recorded(old(store.db)) && EachItemKept(old(store.db), s))
    ensures compacted ==> store.db.meta.value - {Length, UpdatedAt} == old(store.db).meta.value - {Length, UpdatedAt}
  {
    report := Verify(store.db);
    assert report.foreign == 0 <==> store.db.v2 == map[];
    if (report.missing != [] || report.orphans != {}) && report.foreign > 0 && !allowReverted {
      return report, false;
    }
    Rewrite(store, report, now);
    compacted := true;
  }

  method Rewrite(store: Store, report: Report, now: string)
    requires Recorded(store.db) && Reports(store.db, report)
    modifies store
    ensures Recorded(store.db) && Dense(store.db.v1, LengthOf(store.db.meta.value))
    ensures Content(store.db) == Content(old(store.db)) && store.db.v2 == old(store.db).v2
    ensures LengthOf(store.db.meta.value) == |Content(old(store.db))|
    ensures Since(old(store.history), store.history, s => Recorded(old(store.db)) && EachItemKept(old(store.db), s))
    ensures store.db.meta.value - {Length, UpdatedAt} == old(store.db).meta.value - {Length, UpdatedAt}
  {
    var n := report.storedLength;
    var items := ReadPresent(store.db.v1, n);
    var end := RowsEnd(n, report.orphans);
    forall i: nat | i in store.db.v1 ensures i < end {
      if i >= n { assert i in report.orphans; }
    }
    Densify(store, n, end, items);
    store.PutMeta(Stamped(Merge(store.db.meta.value, map[Length := Num(|items|)], 0, 0), now));
  }

  /** A repaired list is reported undamaged, and the suspicious neighbours are exactly the equal
      neighbours among the items that could be read before: repair never removes a duplicate. */
  method CompactThenVerify(store: Store, allowReverted: bool, now: string)
      returns (before: Report, compacted: bool, after: Report)
    requires Recorded(store.db)
    modifies store
    ensures Reports(old(store.db), before)
    ensures !compacted ==> after == before && store.db == old(store.db) && Damaged(before) && before.foreign > 0
    ensures compacted ==> !Damaged(after) && after.storedLength == |Content(old(store.db))| && after.foreign == before.foreign
    ensures compacted ==> Content(store.db) == Content(old(store.db)) && forall a: nat ::
                            a in after.adjacent <==> EqualNeighbours(Content(old(store.db)), a)
  {
    before, compacted := Compact(store, allowReverted, now);
    after := before;
    if compacted {
      after := Verify(store.db);
      DenseReport(store.db, after);
    }
  }

  predicate EqualNeighbours(s: seq<Raw>, a: nat) {
    a + 1 < |s| && s[a] == s[a + 1]
  }

  lemma DenseReport(v: View, r: Report)
    requires Recorded(v) && Reports(v, r) && Dense(v.v1, LengthOf(v.meta.value))
    ensures !Damaged(r) && forall a: nat :: a in r.adjacent <==> EqualNeighbours(Content(v), a)
  {
    CleanMeansDense(v, r);
    PresentDense(v.v1, LengthOf(v.meta.value));
    forall a: nat
      ensures a in r.adjacent <==> EqualNeighbours(Content(v), a)
    {
      assert a in r.adjacent <==> AdjacentPair(v.v1, r.storedLength, a);
    }
  }
}
