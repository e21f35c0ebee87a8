/** In-place migration from format 1 to format 2, and the integrity report it acts on. */
module Migration {
  import opened Options
  import opened Keys
  import opened Ranked
  import opened ListModel
  import opened RowStore

  /** `verify()` on a version 1 list. */
  datatype Report = Report(storedLength: nat, missing: seq<nat>, orphans: set<nat>,
                           adjacent: seq<nat>, foreign: nat)

  predicate Damaged(r: Report) {
    r.missing != [] || r.orphans != {}
  }

  predicate HealthyReport(r: Report) {
    !Damaged(r) && r.adjacent == []
  }

  predicate AscendingNats(s: seq<nat>) {
    forall i, j :: 0 <= i < j < |s| ==> s[i] < s[j]
  }

  predicate AdjacentPair(v1: map<nat, Raw>, n: nat, a: nat) {
    a + 1 < n && a in v1 && a + 1 in v1 && v1[a] == v1[a + 1]
  }

  /** The report tells exactly which recorded rows are absent, which rows lie past the
      recorded end, and where two neighbours hold the same bytes. */
  ghost predicate Reports(v: View, r: Report)
    requires Recorded(v)
  {
    var n := LengthOf(v.meta.value);
    && r.storedLength == n
    && AscendingNats(r.missing)
    && (forall i: nat :: i in r.missing <==> i < n && i !in v.v1)
    && (forall i: nat :: i in r.orphans <==> i in v.v1 && n <= i)
    && AscendingNats(r.adjacent)
    && (forall a: nat :: a in r.adjacent <==> AdjacentPair(v.v1, n, a))
    && r.foreign == |v.v2|
  }

  method Verify(v: View) returns (r: Report)
    requires Recorded(v)
    ensures Reports(v, r)
  {
    var n := LengthOf(v.meta.value);
    var missing: seq<nat> := [];
    var adjacent: seq<nat> := [];
    var i: nat := 0;
    while i < n
      invariant i <= n
      invariant AscendingNats(missing) && forall j: nat :: j in missing <==> j < i && j !in v.v1
    {
      assert forall j :: 0 <= j < |missing| ==> missing[j] in missing;
      if i !in v.v1 { missing := missing + [i]; }
      i := i + 1;
    }
    var a: nat := 0;
    while a + 1 < n
      invariant a == 0 || a < n
      invariant AscendingNats(adjacent) && forall j: nat :: j in adjacent <==> j < a && AdjacentPair(v.v1, n, j)
    {
      assert forall j :: 0 <= j < |adjacent| ==> adjacent[j] in adjacent;
      if a in v.v1 && a + 1 in v.v1 && v.v1[a] == v.v1[a + 1] { adjacent := adjacent + [a]; }
      a := a + 1;
    }
    var orphans := set j | j in v.v1 && n <= j;
    r := Report(n, missing, orphans, adjacent, |v.v2|);
  }

  /** A clean report and a list without holes or orphans are the same thing. */
  lemma CleanMeansDense(v: View, r: Report)
    requires Recorded(v) && Reports(v, r)
    ensures !Damaged(r) <==> Dense(v.v1, LengthOf(v.meta.value))
  {
    var n := LengthOf(v.meta.value);
    if !Damaged(r) {
      forall i: nat ensures i in v.v1 <==> i < n {
        assert i !in r.missing && i !in r.orphans;
      }
    }
    assert r.missing != [] ==> r.missing[0] in r.missing;
    if Dense(v.v1, n) {
      assert r.orphans == {};
    }
  }

  /** Reading the stored values in index order, holes skipped. */
  method ReadPresent(v1: map<nat, Raw>, n: nat) returns (s: seq<Raw>)
    ensures s == Present(v1, n)
  {
    s := [];
    var i: nat := 0;
    while i < n
      invariant i <= n && s == Present(v1, i)
    {
      if i in v1 { s := s + [v1[i]]; }
      i := i + 1;
    }
  }

  /** `max([stored_length - 1, *orphans], default=-1) + 1`. */
  method RowsEnd(n: nat, orphans: set<nat>) returns (end: nat)
    ensures n <= end && (forall o :: o in orphans ==> o < end)
    ensures end == n || end - 1 in orphans
  {
    end := n;
    var todo := orphans;
    while todo != {}
      invariant todo <= orphans && n <= end && (forall o :: o in orphans && o !in todo ==> o < end)
      invariant end == n || end - 1 in orphans
      decreases |todo|
    {
      var o :| o in todo;
      if o >= end { end := o + 1; }
      todo := todo - {o};
    }
  }

  // ---- migration ----

  datatype Result = NameHasHash | AlreadyV2 | Refused(report: Report) | Migrated(count: nat)

  /** The metadata after the flip: everything the row held, minus `length`, marked format 2. */
  function Flipped(m: Meta, now: string): Meta {
    Stamped((m - {Length})[Format := Num(2)][EverChanged := Flag(true)], now)
  }

  ghost function FreshRows(g: KeyGen, values: seq<Raw>): Rows {
    RowsOf(NKeys(g, None, |values|), values)
  }

  ghost predicate Submap<K>(small: map<K, Raw>, big: map<K, Raw>) {
    forall i :: i in small ==> i in big && small[i] == big[i]
  }

  ghost predicate OnlyLost1(base: View, s: View, names: set<nat>) {
    s.meta == base.meta && s.v2 == base.v2 && Submap(s.v1, base.v1) && Submap(base.v1 - names, s.v1)
  }

  ghost predicate OnlyLost2(base: View, s: View, names: set<Rank>) {
    OnlyV2Changed(base, s) && Submap(s.v2, base.v2) && Submap(base.v2 - names, s.v2)
  }

  ghost predicate OnlyV2Changed(base: View, s: View) {
    s.meta == base.meta && s.v1 == base.v1
  }

  /** A state a migration of `base` can be stopped in. Before the flip only scratch rows have
      changed; after it the new rows are complete and only old rows can have gone. */
  ghost predicate MidMigration(g: KeyGen, base: View, s: View, now: string) {
    if IsV2(base) then SweepSafe(base, s)
    else
      || (s.meta == base.meta && s.v1 == base.v1)
      || (&& s.meta == Some(Flipped(base.meta.value, now))
          && s.v2 == FreshRows(g, Content(base))
          && Submap(s.v1, base.v1))
  }

  /** Wherever a migration stops, the list reads as it did before. */
  lemma StoppedMigrationReads(g: KeyGen, base: View, s: View, now: string)
    requires Sound(g) && (IsV2(base) || Recorded(base)) && MidMigration(g, base, s, now)
    requires base.meta.Some? || Healthy(g, base)
    ensures Content(s) == Content(base)
    ensures IsV2(s) || Recorded(s)
    ensures Healthy(g, base) ==> Healthy(g, s)
  {
    if !IsV2(base) {
      FreshRowsRead(g, Content(base));
    }
  }

  lemma FreshRowsRead(g: KeyGen, values: seq<Raw>)
    requires Sound(g)
    ensures Items(FreshRows(g, values)) == values
    ensures Sorted(FreshRows(g, values).Keys) == NKeys(g, None, |values|)
    ensures AllKeys(g, FreshRows(g, values))
  {
    var ks := NKeys(g, None, |values|);
    NKeysAscend(g, None, |values|);
    RowsOfItems(ks, values);
    forall k | k in FreshRows(g, values) ensures g.isKey(k) {
      var i := IndexOf(ks, FreshRows(g, values).Keys, k);
    }
  }

  /** `batch_delete` of version 1 item rows, in whatever order the backend takes them. */
  method DeleteRows1(store: Store, names: set<nat>)
    modifies store
    ensures store.db == old(store.db).(v1 := old(store.db).v1 - names)
    ensures Since(old(store.history), store.history,
              s => OnlyLost1(old(store.db), s, names))
  {
    ghost var base := store.db;
    var todo := names;
    while todo != {}
      invariant todo <= names && store.db == base.(v1 := base.v1 - (names - todo))
      invariant Since(old(store.history), store.history,
                  s => OnlyLost1(base, s, names))
      decreases |todo|
    {
      var i :| i in todo;
      store.Delete1(i);
      todo := todo - {i};
      assert base.v1 - (names - todo) == base.v1 - (names - todo - {i}) - {i};
    }
    assert names - todo == names;
  }

  /** The same for version 2 item rows. */
  method DeleteRows2(store: Store, names: set<Rank>)
    modifies store
    ensures store.db == old(store.db).(v2 := old(store.db).v2 - names)
    ensures Since(old(store.history), store.history,
              s => OnlyLost2(old(store.db), s, names))
  {
    ghost var base := store.db;
    var todo := names;
    while todo != {}
      invariant todo <= names && store.db == base.(v2 := base.v2 - (names - todo))
      invariant Since(old(store.history), store.history,
                  s => OnlyLost2(base, s, names))
      decreases |todo|
    {
      var k :| k in todo;
      store.Delete2(k);
      todo := todo - {k};
      assert base.v2 - (names - todo) == base.v2 - (names - todo - {k}) - {k};
    }
    assert names - todo == names;
  }

  /** `sweep_foreign_format_rows`: delete the rows of the format the list is not in, unless
      its metadata says that it never changed format. */
  method SweepForeign(store: Store) returns (swept: nat)
    modifies store
    ensures swept == |Foreign1(old(store.db))| + |Foreign2(old(store.db))|
    ensures store.db == old(store.db).(v1 := old(store.db).v1 - Foreign1(old(store.db)),
                                       v2 := old(store.db).v2 - Foreign2(old(store.db)))
    ensures Since(old(store.history), store.history, s => SweepSafe(old(store.db), s))
  {
    ghost var base := store.db;
    if store.db.meta.Some? && NeverChanged(store.db.meta.value) {
      return 0;
    }
    var one := if store.db.meta.None? || FormatOf(store.db.meta.value) == 2 then store.db.v1.Keys else {};
    var two := if store.db.meta.None? || FormatOf(store.db.meta.value) != 2 then store.db.v2.Keys else {};
    DeleteRows1(store, one);
    ghost var mid, midHistory := store.db, store.history;
    DeleteRows2(store, two);
    forall i | |midHistory| <= i < |store.history| ensures SweepSafe(base, store.history[i]) {
      SweepStep(base, mid, store.history[i], one, two);
    }
    forall i | |old(store.history)| <= i < |midHistory| ensures SweepSafe(base, store.history[i]) {
      assert midHistory[i] == store.history[i] && OnlyLost1(base, midHistory[i], one);
      SweepStep(base, midHistory[i], midHistory[i], one, {});
    }
    swept := |one| + |two|;
  }

  lemma SweepStep(base: View, mid: View, s: View, one: set<nat>, two: set<Rank>)
    requires OnlyLost1(base, mid, one) && OnlyLost2(mid, s, two)
    requires IsV2(base) && base.meta.Some? ==> two == {}
    requires !IsV2(base) ==> one == {}
    ensures SweepSafe(base, s)
  {
    if one == {} {
      assert base.v1 - one == base.v1;
      assert mid.v1 == base.v1;
    }
    if two == {} {
      assert mid.v2 - two == mid.v2;
      assert s.v2 == mid.v2;
    }
  }

  function Foreign1(v: View): set<nat> {
    if (v.meta.Some? && NeverChanged(v.meta.value)) || !IsV2(v) then {} else v.v1.Keys
  }

  function Foreign2(v: View): set<Rank> {
    if v.meta.None? then v.v2.Keys
    else if NeverChanged(v.meta.value) || IsV2(v) then {}
    else v.v2.Keys
  }

  /** A sweep touches no row its list reads. */
  ghost predicate SweepSafe(base: View, s: View) {
    && s.meta == base.meta
    && Submap(s.v1, base.v1) && Submap(s.v2, base.v2)
    && (base.meta.Some? && IsV2(base) ==> s.v2 == base.v2)
    && (!IsV2(base) ==> s.v1 == base.v1)
  }

  method WriteRows(store: Store, ks: seq<Rank>, values: seq<Raw>)
    requires |ks| == |values| && store.db.v2 == map[]
    modifies store
    ensures store.db == old(store.db).(v2 := RowsOf(ks, values))
    ensures Since(old(store.history), store.history,
              s => OnlyV2Changed(old(store.db), s))
  {
    ghost var base := store.db;
    var i := 0;
    while i < |ks|
      invariant i <= |ks| && store.db == base.(v2 := RowsOf(ks[..i], values[..i]))
      invariant Since(old(store.history), store.history, s => OnlyV2Changed(base, s))
    {
      store.Put2(ks[i], values[i]);
      assert ks[..i + 1][..i] == ks[..i] && values[..i + 1][..i] == values[..i];
      i := i + 1;
    }
    assert ks[..i] == ks && values[..i] == values;
  }

  /** `migrate_to_v2`. Every state its row writes pass through reads as the original list. */
  method MigrateToV2(store: Store, g: KeyGen, hasHash: bool, allowDamaged: bool, now: string)
      returns (r: Result, ks: seq<Rank>)
    requires Sound(g) && (IsV2(store.db) || Recorded(store.db))
    modifies store
    ensures Since(old(store.history), store.history, s => MidMigration(g, old(store.db), s, now))
    ensures r.NameHasHash? <==> hasHash
    ensures r.AlreadyV2? <==> !hasHash && IsV2(old(store.db))
    ensures r.Refused? <==> !hasHash && !IsV2(old(store.db)) && !allowDamaged
                            && !Dense(old(store.db).v1, LengthOf(old(store.db).meta.value))
    ensures r.Refused? ==> Damaged(r.report) && Reports(old(store.db), r.report)
    ensures r.NameHasHash? || r.Refused? ==> store.db == old(store.db)
    ensures r.AlreadyV2? ==>
              store.db == old(store.db).(v1 := old(store.db).v1 - Foreign1(old(store.db)),
                                         v2 := old(store.db).v2 - Foreign2(old(store.db)))
    ensures r.Migrated? ==> ks == Sorted(store.db.v2.Keys) && r.count == |Content(old(store.db))|
    ensures r.Migrated? ==>
              store.db == View(Some(Flipped(old(store.db).meta.value, now)), map[], FreshRows(g, Content(old(store.db))))
  {
    ks := [];
    if hasHash {
      return NameHasHash, ks;
    }
    ghost var base := store.db;
    if IsV2(store.db) {
      var _ := SweepForeign(store);
      return AlreadyV2, ks;
    }
    var report := Verify(store.db);
    CleanMeansDense(store.db, report);
    if Damaged(report) && !allowDamaged {
      return Refused(report), ks;
    }
    ks, r := CopyAndFlip(store, g, report, now);
  }

  /** The row writes of a migration: copy, flip the metadata, delete the old rows. */
  method CopyAndFlip(store: Store, g: KeyGen, report: Report, now: string) returns (ks: seq<Rank>, r: Result)
    requires Sound(g) && Recorded(store.db) && Reports(store.db, report)
    modifies store
    ensures Since(old(store.history), store.history, s => MidMigration(g, old(store.db), s, now))
    ensures ks == Sorted(store.db.v2.Keys) && r == Migrated(|Content(old(store.db))|)
    ensures store.db == View(Some(Flipped(old(store.db).meta.value, now)), map[], FreshRows(g, Content(old(store.db))))
  {
    ghost var base := store.db;
    var values := ReadPresent(store.db.v1, report.storedLength);
    ks := CopyRows(store, g, values);
    store.PutMeta(Flipped(store.db.meta.value, now));
    ghost var flipped, before := store.db, store.history;
    assert MidMigration(g, base, flipped, now);
    var end := RowsEnd(report.storedLength, report.orphans);
    DropRows1(store, end);
    forall i | |before| <= i < |store.history| ensures MidMigration(g, base, store.history[i], now) {
      assert OnlyLost1(flipped, store.history[i], Indices(end));
    }
    forall j: nat | j in base.v1 ensures j < end {
      if j >= report.storedLength { assert j in report.orphans; }
    }
    assert store.db.v1 == map[];
    FreshRowsRead(g, values);
    r := Migrated(|values|);
  }

  /** Clear what a previous attempt left and write a fresh, complete set of rows. */
  method CopyRows(store: Store, g: KeyGen, values: seq<Raw>) returns (ks: seq<Rank>)
    modifies store
    ensures ks == NKeys(g, None, |values|)
    ensures store.db == old(store.db).(v2 := FreshRows(g, values))
    ensures Since(old(store.history), store.history, s => OnlyV2Changed(old(store.db), s))
  {
    DeleteRows2(store, store.db.v2.Keys);
    assert store.db.v2 == map[];
    ks := NKeys(g, None, |values|);
    WriteRows(store, ks, values);
  }

  function Indices(end: nat): (b: set<nat>)
    ensures forall j: nat :: j in b <==> j < end
  {
    if end == 0 then {} else Indices(end - 1) + {end - 1}
  }

  method DropRows1(store: Store, end: nat)
    modifies store
    ensures store.db.meta == old(store.db).meta && store.db.v2 == old(store.db).v2
    ensures forall j: nat :: j in store.db.v1 <==> j in old(store.db).v1 && end <= j
    ensures Since(old(store.history), store.history, s => OnlyLost1(old(store.db), s, Indices(end)))
  {
    ghost var base := store.db;
    var i := 0;
    while i < end
      invariant i <= end && OnlyLost1(base, store.db, Indices(end))
      invariant forall j: nat :: j in store.db.v1 <==> j in base.v1 && i <= j
      invariant Since(old(store.history), store.history, s => OnlyLost1(base, s, Indices(end)))
    {
      store.Delete1(i);
      i := i + 1;
    }
  }

  // ---- a migration whose list was deleted while it was copied ----

  /** The rows that still hold what the migration wrote under their ranks, up to the `n`th. */
  ghost predicate StillOurs(rows: Rows, ks: seq<Rank>, values: seq<Raw>, n: nat, k: Rank)
    requires |ks| == |values|
  {
    k in rows && exists i :: 0 <= i < n && i < |ks| && ks[i] == k && rows[k] == values[i]
  }

  /** The rollback: conditional deletes, so that of a list created meanwhile under the same name
      only rows go that hold the very bytes the migration wrote there. */
  method RollBack(store: Store, ks: seq<Rank>, values: seq<Raw>)
    requires |ks| == |values| && Ascending(ks)
    modifies store
    ensures store.db == old(store.db).(v2 := store.db.v2)
    ensures forall k :: k in store.db.v2 <==> k in old(store.db).v2 && !StillOurs(old(store.db).v2, ks, values, |ks|, k)
    ensures Submap(store.db.v2, old(store.db).v2)
  {
    ghost var base := store.db;
    Distinct(ks);
    var i := 0;
    while i < |ks|
      invariant i <= |ks| && store.db == base.(v2 := store.db.v2) && Submap(store.db.v2, base.v2)
      invariant forall k :: k in store.db.v2 <==> k in base.v2 && !StillOurs(base.v2, ks, values, i, k)
    {
      ghost var before := store.db.v2;
      var deleted := store.DeleteIf2(ks[i], values[i]);
      RollBackStep(base.v2, before, store.db.v2, ks, values, i);
      i := i + 1;
    }
  }

  lemma RollBackStep(base: Rows, before: Rows, after: Rows, ks: seq<Rank>, values: seq<Raw>, i: nat)
    requires i < |ks| == |values| && Ascending(ks) && Submap(before, base)
    requires forall k :: k in before <==> k in base && !StillOurs(base, ks, values, i, k)
    requires after == if ks[i] in before && before[ks[i]] == values[i] then before - {ks[i]} else before
    ensures Submap(after, base)
    ensures forall k :: k in after <==> k in base && !StillOurs(base, ks, values, i + 1, k)
  {
    Distinct(ks);
    forall k
      ensures StillOurs(base, ks, values, i + 1, k) <==>
              StillOurs(base, ks, values, i, k) || (k in base && k == ks[i] && base[k] == values[i])
    {
      if k in base && k == ks[i] && base[k] == values[i] {
        assert StillOurs(base, ks, values, i + 1, k);
      }
      if StillOurs(base, ks, values, i, k) {
        var j :| 0 <= j < i && j < |ks| && ks[j] == k && base[k] == values[j];
        assert j < i + 1;
      }
    }
  }

  /** A list that starts empty and is only appended to has the keys a migration generates. */
  lemma AppendsAreFresh(g: KeyGen, items: seq<Raw>, x: Raw)
    requires Sound(g)
    ensures FreshRows(g, items + [x]) == FreshRows(g, items)[After(g, LastOf(Sorted(FreshRows(g, items).Keys))) := x]
  {
    var n := |items|;
    var ks, ls := NKeys(g, None, n), NKeys(g, None, n + 1);
    FreshRowsRead(g, items);
    forall i | 0 <= i < n
      ensures ks[i] == ls[i]
    {
      NKeysPrefix(g, None, n, n + 1, i);
    }
    NKeysStep(g, None, n + 1, n);
    assert ls[..n] == ks && (items + [x])[..n] == items;
  }

  /** Keys are generated deterministically, so the items of a list created meanwhile and appended to
      have the ranks of the migrated ones. The rollback deletes exactly those that are, byte for
      byte, the migrated item at the same position. */
  lemma SuccessorIsSpared(g: KeyGen, values: seq<Raw>, successor: seq<Raw>, i: nat)
    requires Sound(g) && i < |successor|
    ensures var rows, ks, k := FreshRows(g, successor), NKeys(g, None, |values|), NKeys(g, None, |successor|)[i];
            && Items(rows) == successor && k in rows && rows[k] == successor[i]
            && (StillOurs(rows, ks, values, |ks|, k) <==> i < |values| && values[i] == successor[i])
  {
    var rows, ks, ls := FreshRows(g, successor), NKeys(g, None, |values|), NKeys(g, None, |successor|);
    FreshRowsRead(g, successor);
    assert Items(rows)[i] == rows[ls[i]];
    if i < |values| {
      NKeysPrefix(g, None, |values|, |successor|, i);
    }
    forall j | 0 <= j < |ks| && ks[j] == ls[i]
      ensures j == i
    {
      SameKeySamePlace(g, |values|, |successor|, j, i);
    }
  }

  lemma SameKeySamePlace(g: KeyGen, m: nat, n: nat, j: nat, i: nat)
    requires Sound(g) && j < m && i < n && NKeys(g, None, m)[j] == NKeys(g, None, n)[i]
    ensures j == i
  {
    var all := NKeys(g, None, m + n);
    NKeysAscend(g, None, m + n);
    NKeysPrefix(g, None, m, m + n, j);
    NKeysPrefix(g, None, n, m + n, i);
    Distinct(all);
  }
}
