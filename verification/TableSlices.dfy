/** The property table seen one list at a time: what a list reads is a slice of the table, and
    writing or deleting any row changes the slice of its own list only. */
module TableSlices {
  import opened Options
  import opened Decimals
  import opened Order
  import opened Keys
  import opened Ranked
  import opened RowNames

  type Table = map<string, string>

  /** Every row whose name starts with `list:` is some list's row; other names are plain
      properties. */
  ghost predicate WellFormed(t: Table) {
    forall key :: key in t && "list:" <= key ==> IsRow(key)
  }

  ghost predicate IsRow(key: string) {
    exists r :: Proper(r) && Render(r) == key
  }

  datatype Slice = Slice(meta: Option<string>, v1: map<nat, string>, v2: map<Rank, string>)

  /** The row names a version 1 and a version 2 range read of the list select. */
  function Names1(t: Table, name: string): set<string> {
    set key | key in t && Own1(name, key)
  }

  function Names2(t: Table, name: string): set<string> {
    set key | key in t && Own2(name, key)
  }

  function IndicesOf(t: Table, name: string): set<nat> {
    set key | key in Names1(t, name) :: Parse(Drop(key, |Prefix(name)|))
  }

  function RanksOf(t: Table, name: string): set<Rank> {
    set key | key in Names2(t, name) :: Drop(key, |Prefix(name)| + 1)
  }

  lemma OwnIndex(t: Table, name: string, i: nat)
    requires WellFormed(t)
    ensures i in IndicesOf(t, name) <==> Render(Item1(name, i)) in t
  {
    var row := Render(Item1(name, i));
    Isolation1(name, Item1(name, i));
    DecimalParses(i);
    assert Drop(row, |Prefix(name)|) == Decimal(i);
    if row in t {
      assert row in Names1(t, name);
    }
    if i in IndicesOf(t, name) {
      var key :| key in Names1(t, name) && Parse(Drop(key, |Prefix(name)|)) == i;
      RowOf(t, name, key);
      var r :| Proper(r) && Render(r) == key;
      Isolation1(name, r);
      SuffixHasNoDash(r);
      assert Drop(key, |Prefix(name)|) == Suffix(r);
    }
  }

  lemma Rejoin(a: string, b: string, rest: string, key: string)
    requires a + b <= key && key[|a| + |b|..] == rest
    ensures key == a + (b + rest)
  {
    assert key == key[..|a| + |b|] + key[|a| + |b|..];
  }

  lemma RankRow(name: string, rank: Rank)
    ensures Drop(Render(Item2(name, rank)), |Prefix(name)| + 1) == rank
  {}

  lemma OwnRank(t: Table, name: string, rank: Rank)
    requires WellFormed(t) && IsRank(rank)
    ensures rank in RanksOf(t, name) <==> Render(Item2(name, rank)) in t
  {
    if Render(Item2(name, rank)) in t {
      RankIsRead(t, name, rank);
    }
    if rank in RanksOf(t, name) {
      ReadRankIsRow(t, name, rank);
    }
  }

  lemma RankIsRead(t: Table, name: string, rank: Rank)
    requires IsRank(rank) && Render(Item2(name, rank)) in t
    ensures rank in RanksOf(t, name)
  {
    Isolation2(name, Item2(name, rank));
    RankRow(name, rank);
    assert Render(Item2(name, rank)) in Names2(t, name);
  }

  lemma ReadRankIsRow(t: Table, name: string, rank: Rank)
    requires rank in RanksOf(t, name)
    ensures Render(Item2(name, rank)) in t
  {
    var key :| key in Names2(t, name) && Drop(key, |Prefix(name)| + 1) == rank;
    Own2Is(name, key);
    Rejoin(Prefix(name), "#", rank, key);
  }

  /** A selected row starts with `list:`, so it is some list's row. */
  lemma RowOf(t: Table, name: string, key: string)
    requires WellFormed(t) && key in t && (Own1(name, key) || Own2(name, key))
    ensures IsRow(key)
  {
    Own1Is(name, key);
    Own2Is(name, key);
    assert Prefix(name)[..5] == "list:" && (Prefix(name) + "#")[..5] == "list:";
    assert key[..5] == "list:";
  }

  function Get(t: Table, key: string): string {
    if key in t then t[key] else ""
  }

  /** What the list's own reads return. */
  function SliceOf(t: Table, name: string): Slice {
    Slice(
      if Render(MetaRow(name)) in t then Some(t[Render(MetaRow(name))]) else None,
      map i | i in IndicesOf(t, name) :: Get(t, Render(Item1(name, i))),
      map k | k in RanksOf(t, name) :: Get(t, Render(Item2(name, k))))
  }

  function Put(s: Slice, r: Row, value: string): Slice {
    match r
    case MetaRow(_) => s.(meta := Some(value))
    case Item1(_, i) => s.(v1 := s.v1[i := value])
    case Item2(_, k) => s.(v2 := s.v2[k := value])
  }

  function Remove(s: Slice, r: Row): Slice {
    match r
    case MetaRow(_) => s.(meta := None)
    case Item1(_, i) => s.(v1 := s.v1 - {i})
    case Item2(_, k) => s.(v2 := s.v2 - {k})
  }

  lemma StaysWellFormed(t: Table, r: Row, value: string)
    requires WellFormed(t) && Proper(r)
    ensures WellFormed(t[Render(r) := value]) && WellFormed(t - {Render(r)})
  {
    assert IsRow(Render(r));
  }

  lemma SameItems1(t: Table, name: string, v1: map<nat, string>)
    requires WellFormed(t)
    requires forall i: nat :: i in v1 <==> Render(Item1(name, i)) in t
    requires forall i: nat :: i in v1 ==> v1[i] == Get(t, Render(Item1(name, i)))
    ensures SliceOf(t, name).v1 == v1
  {
    var u := SliceOf(t, name).v1;
    forall i: nat ensures i in u <==> i in v1 { OwnIndex(t, name, i); }
  }

  lemma SameItems2(t: Table, name: string, v2: map<Rank, string>)
    requires WellFormed(t) && forall k :: k in v2 ==> IsRank(k)
    requires forall k :: IsRank(k) ==> (k in v2 <==> Render(Item2(name, k)) in t)
    requires forall k :: k in v2 ==> v2[k] == Get(t, Render(Item2(name, k)))
    ensures SliceOf(t, name).v2 == v2
  {
    var u := SliceOf(t, name).v2;
    forall k ensures k in u <==> k in v2 {
      if IsRank(k) { OwnRank(t, name, k); }
    }
  }

  /** Two slices with the same rows are the same. */
  lemma SameSlice(t: Table, name: string, s: Slice)
    requires WellFormed(t)
    requires s.meta == SliceOf(t, name).meta
    requires forall i: nat :: i in s.v1 <==> Render(Item1(name, i)) in t
    requires forall i: nat :: i in s.v1 ==> s.v1[i] == Get(t, Render(Item1(name, i)))
    requires forall k :: k in s.v2 ==> IsRank(k)
    requires forall k :: IsRank(k) ==> (k in s.v2 <==> Render(Item2(name, k)) in t)
    requires forall k :: k in s.v2 ==> s.v2[k] == Get(t, Render(Item2(name, k)))
    ensures SliceOf(t, name) == s
  {
    SameItems1(t, name, s.v1);
    SameItems2(t, name, s.v2);
  }

  /** The rows of `t'` are those of `t`, except perhaps row `r`. */
  ghost predicate SameBut(t: Table, t': Table, r: Row) {
    forall key :: key != Render(r) ==> (key in t <==> key in t') && Get(t, key) == Get(t', key)
  }

  lemma IndexStays(t: Table, t': Table, r: Row, name: string, i: nat)
    requires WellFormed(t) && WellFormed(t') && Proper(r) && SameBut(t, t', r) && r != Item1(name, i)
    ensures var s, s' := SliceOf(t, name), SliceOf(t', name);
            (i in s.v1 <==> i in s'.v1) && (i in s.v1 ==> s'.v1[i] == s.v1[i])
  {
    var q := Item1(name, i);
    if Render(q) == Render(r) { RenderInjective(q, r); }
    OwnIndex(t, name, i);
    OwnIndex(t', name, i);
    assert Get(t, Render(q)) == Get(t', Render(q));
  }

  lemma RankStays(t: Table, t': Table, r: Row, name: string, k: Rank)
    requires WellFormed(t) && WellFormed(t') && Proper(r) && SameBut(t, t', r) && r != Item2(name, k)
    ensures var s, s' := SliceOf(t, name), SliceOf(t', name);
            (k in s.v2 <==> k in s'.v2) && (k in s.v2 ==> s'.v2[k] == s.v2[k])
  {
    var q := Item2(name, k);
    if IsRank(k) {
      if Render(q) == Render(r) { RenderInjective(q, r); }
      OwnRank(t, name, k);
      OwnRank(t', name, k);
      assert Get(t, Render(q)) == Get(t', Render(q));
    }
  }

  lemma MetaStays(t: Table, t': Table, r: Row, name: string)
    requires Proper(r) && SameBut(t, t', r) && r != MetaRow(name)
    ensures SliceOf(t', name).meta == SliceOf(t, name).meta
  {
    var q := MetaRow(name);
    if Render(q) == Render(r) { RenderInjective(q, r); }
    assert Get(t, Render(q)) == Get(t', Render(q));
  }

  ghost predicate SameSliceBut(s: Slice, s': Slice, r: Row, name: string) {
    && (r != MetaRow(name) ==> s'.meta == s.meta)
    && (forall i: nat :: r != Item1(name, i) ==> (i in s.v1 <==> i in s'.v1) && (i in s.v1 ==> s'.v1[i] == s.v1[i]))
    && (forall k :: r != Item2(name, k) ==> (k in s.v2 <==> k in s'.v2) && (k in s.v2 ==> s'.v2[k] == s.v2[k]))
  }

  lemma OtherRowsStay(t: Table, t': Table, r: Row, name: string)
    requires WellFormed(t) && WellFormed(t') && Proper(r) && SameBut(t, t', r)
    ensures SameSliceBut(SliceOf(t, name), SliceOf(t', name), r, name)
  {
    if r != MetaRow(name) { MetaStays(t, t', r, name); }
    forall i: nat | r != Item1(name, i)
      ensures var s, s' := SliceOf(t, name), SliceOf(t', name);
              (i in s.v1 <==> i in s'.v1) && (i in s.v1 ==> s'.v1[i] == s.v1[i])
    {
      IndexStays(t, t', r, name, i);
    }
    forall k | r != Item2(name, k)
      ensures var s, s' := SliceOf(t, name), SliceOf(t', name);
              (k in s.v2 <==> k in s'.v2) && (k in s.v2 ==> s'.v2[k] == s.v2[k])
    {
      RankStays(t, t', r, name, k);
    }
  }

  /** The slice a write of `r` produces, recognised by its rows. */
  lemma PutRecognised(s: Slice, s': Slice, r: Row, value: string, name: string)
    requires SameSliceBut(s, s', r, name)
    requires r == MetaRow(name) ==> s'.meta == Some(value)
    requires r.Item1? && r.name == name ==> r.index in s'.v1 && s'.v1[r.index] == value
    requires r.Item2? && r.name == name ==> r.rank in s'.v2 && s'.v2[r.rank] == value
    ensures s' == if r.name == name then Put(s, r, value) else s
  {
    var e := if r.name == name then Put(s, r, value) else s;
    assert s'.v1 == e.v1;
    assert s'.v2 == e.v2;
  }

  lemma RemoveRecognised(s: Slice, s': Slice, r: Row, name: string)
    requires SameSliceBut(s, s', r, name)
    requires r == MetaRow(name) ==> s'.meta == None
    requires r.Item1? && r.name == name ==> r.index !in s'.v1
    requires r.Item2? && r.name == name ==> r.rank !in s'.v2
    ensures s' == if r.name == name then Remove(s, r) else s
  {
    var e := if r.name == name then Remove(s, r) else s;
    assert s'.v1 == e.v1;
    assert s'.v2 == e.v2;
  }

  /** A write of one row changes its own list's slice in that place, and no other list's. */
  lemma WriteIsLocal(t: Table, r: Row, value: string, name: string)
    requires WellFormed(t) && Proper(r)
    ensures SliceOf(t[Render(r) := value], name)
         == if r.name == name then Put(SliceOf(t, name), r, value) else SliceOf(t, name)
  {
    var t' := t[Render(r) := value];
    StaysWellFormed(t, r, value);
    assert SameBut(t, t', r);
    OtherRowsStay(t, t', r, name);
    if r.Item1? { OwnIndex(t', r.name, r.index); }
    if r.Item2? { OwnRank(t', r.name, r.rank); }
    PutRecognised(SliceOf(t, name), SliceOf(t', name), r, value, name);
  }

  lemma DeleteIsLocal(t: Table, r: Row, name: string)
    requires WellFormed(t) && Proper(r)
    ensures SliceOf(t - {Render(r)}, name)
         == if r.name == name then Remove(SliceOf(t, name), r) else SliceOf(t, name)
  {
    var t' := t - {Render(r)};
    StaysWellFormed(t, r, "");
    assert SameBut(t, t', r);
    OtherRowsStay(t, t', r, name);
    if r.Item1? { OwnIndex(t', r.name, r.index); }
    if r.Item2? { OwnRank(t', r.name, r.rank); }
    RemoveRecognised(SliceOf(t, name), SliceOf(t', name), r, name);
  }

  lemma SliceRows(t: Table, name: string)
    requires WellFormed(t)
    ensures var s := SliceOf(t, name);
            && (forall i: nat :: i in s.v1 <==> Render(Item1(name, i)) in t)
            && (forall k :: k in s.v2 ==> IsRank(k))
            && (forall k :: IsRank(k) ==> (k in s.v2 <==> Render(Item2(name, k)) in t))
  {
    var s := SliceOf(t, name);
    forall i: nat ensures i in s.v1 <==> Render(Item1(name, i)) in t { OwnIndex(t, name, i); }
    forall k | IsRank(k) ensures k in s.v2 <==> Render(Item2(name, k)) in t { OwnRank(t, name, k); }
  }

  /** A plain property's row is in no list. */
  lemma PlainWriteIsInvisible(t: Table, key: string, value: string, name: string)
    requires WellFormed(t) && !("list:" <= key)
    ensures SliceOf(t[key := value], name) == SliceOf(t, name)
  {
    assert forall r :: Render(r)[..5] == "list:";
    assert forall r :: Render(r) != key;
    SliceRows(t, name);
    SameSlice(t[key := value], name, SliceOf(t, name));
  }

  lemma RangeDelete1(t: Table, victim: string, name: string)
    requires WellFormed(t)
    ensures var s := SliceOf(t, name); SliceOf(t - Names1(t, victim), name) == (if name == victim then s.(v1 := map[]) else s)
  {
    var s := SliceOf(t, name);
    SliceRows(t, name);
    Isolation1(victim, MetaRow(name));
    forall i: nat ensures Own1(victim, Render(Item1(name, i))) <==> name == victim {
      Isolation1(victim, Item1(name, i));
    }
    forall k | IsRank(k) ensures !Own1(victim, Render(Item2(name, k))) {
      Isolation1(victim, Item2(name, k));
    }
    SameSlice(t - Names1(t, victim), name, if name == victim then s.(v1 := map[]) else s);
  }

  lemma RangeDelete2(t: Table, victim: string, name: string)
    requires WellFormed(t)
    ensures var s := SliceOf(t, name); SliceOf(t - Names2(t, victim), name) == (if name == victim then s.(v2 := map[]) else s)
  {
    var s := SliceOf(t, name);
    SliceRows(t, name);
    Isolation2(victim, MetaRow(name));
    forall i: nat ensures !Own2(victim, Render(Item1(name, i))) {
      Isolation2(victim, Item1(name, i));
    }
    forall k | IsRank(k) ensures Own2(victim, Render(Item2(name, k))) <==> name == victim {
      Isolation2(victim, Item2(name, k));
    }
    SameSlice(t - Names2(t, victim), name, if name == victim then s.(v2 := map[]) else s);
  }

  /** Deleting everything a range read selected, as `clear`, `delete`, the sweep and migration
      do, empties that range of the list and leaves every other list as it was. */
  lemma RangeDeleteIsLocal(t: Table, victim: string, name: string)
    requires WellFormed(t)
    ensures var s := SliceOf(t, name);
            && SliceOf(t - Names1(t, victim), name) == (if name == victim then s.(v1 := map[]) else s)
            && SliceOf(t - Names2(t, victim), name) == (if name == victim then s.(v2 := map[]) else s)
  {
    RangeDelete1(t, victim, name);
    RangeDelete2(t, victim, name);
  }

  /** `prop_name[5:-5]`. */
  function ListNameOf(row: string): string {
    if |row| >= 10 then row[5..|row| - 5] else ""
  }

  /** `list_all` returns exactly the lists that have a metadata row. */
  lemma ListAllIsComplete(t: Table, name: string)
    requires WellFormed(t)
    ensures (exists row :: row in t && LooksLikeMeta(row) && ListNameOf(row) == name)
            <==> SliceOf(t, name).meta.Some?
  {
    MetaRowLooks(name);
    if row :| row in t && LooksLikeMeta(row) && ListNameOf(row) == name {
      var r :| Proper(r) && Render(r) == row;
      MetaNamesInvert(r);
    }
  }

  // ---- the last rank ----

  /** `get_last_in_range`: the bytewise greatest row between the bounds, whosever it is. */
  method GreatestRow(rows: set<string>, lower: string, upper: string) returns (top: Option<string>)
    ensures top.None? <==> forall r :: r in rows ==> !InBytes(r, lower, upper)
    ensures top.Some? ==> top.value in rows && InBytes(top.value, lower, upper)
    ensures top.Some? ==> forall r :: r in rows && InBytes(r, lower, upper) ==> AtMost(r, top.value)
  {
    top := None;
    var todo := rows;
    while todo != {}
      invariant todo <= rows
      invariant top.None? ==> forall r :: r in rows && r !in todo ==> !InBytes(r, lower, upper)
      invariant top.Some? ==> top.value in rows && InBytes(top.value, lower, upper)
      invariant top.Some? ==> forall r :: r in rows && r !in todo && InBytes(r, lower, upper) ==> AtMost(r, top.value)
      decreases |todo|
    {
      var row :| row in todo;
      if InBytes(row, lower, upper) && (top.None? || Less(top.value, row)) {
        forall r | r in rows && top.Some? && AtMost(r, top.value)
          ensures AtMost(r, row)
        {
          if r != top.value { Transitive(r, top.value, row); }
        }
        top := Some(row);
      } else if top.Some? {
        Total(top.value, row);
      }
      todo := todo - {row};
    }
  }

  lemma GreatestIsLast(ranks: set<Rank>, x: Rank)
    requires x in ranks && forall y :: y in ranks ==> AtMost(y, x)
    ensures LastOf(Sorted(ranks)) == Some(x)
  {
    var ks := Sorted(ranks);
    var i := IndexOf(ks, ranks, x);
    var last := ks[|ks| - 1];
    assert AtMost(last, x);
    if i < |ks| - 1 {
      Asymmetric(x, last);
    }
  }

  /** `_v2_last_rank`: one greatest-row read; a full read only when the greatest row in the byte
      range has no rank, as a sibling list's may not. Either way, the last of the list's ranks. */
  method LastRank(t: Table, name: string) returns (last: Option<Rank>)
    ensures last == LastOf(Sorted(SliceOf(t, name).v2.Keys))
  {
    assert SliceOf(t, name).v2.Keys == RanksOf(t, name);
    var top := GreatestRow(t.Keys, Prefix(name) + "#", Prefix(name) + "$");
    if top.None? {
      assert RanksOf(t, name) == {};
      return None;
    }
    var candidate := Drop(top.value, |Prefix(name)| + 1);
    if IsRank(candidate) {
      assert top.value in Names2(t, name);
      forall rank | rank in RanksOf(t, name)
        ensures AtMost(rank, candidate)
      {
        var row :| row in Names2(t, name) && Drop(row, |Prefix(name)| + 1) == rank;
        GreatestRowIsLastRank(name, t.Keys, top.value, row);
      }
      GreatestIsLast(RanksOf(t, name), candidate);
      return Some(candidate);
    }
    var ranks := SortKeys(RanksOf(t, name));
    last := LastOf(ranks);
  }
}
