/** The list kept in internal attributes: one attribute per item, shift loops, and a store that
    deletes an attribute set to anything Python calls false. */
module AttributeList {
  import opened Options
  import opened Ranked
  import opened PyList
  import opened ListModel
  import opened Shift
  import opened Migration

  /** `set_attr`: "empty data means delete". `falsy` says which texts decode to what Python
      calls false: `None`, `False`, zero, and the empty string, list and object. */
  function PutRow(falsy: Match, v: IndexRows, i: nat, item: Raw): IndexRows {
    if falsy(item) then v - {i} else v[i := item]
  }

  predicate AllTruthy(falsy: Match, items: seq<Raw>) {
    forall i :: 0 <= i < |items| ==> !falsy(items[i])
  }

  /** The items an operation stores. */
  function Stores(op: Op): seq<Raw> {
    match op
    case Append(x) => [x]
    case Extend(xs) => xs
    case Insert(_, x) => [x]
    case SetItem(_, x) => [x]
    case _ => []
  }

  datatype ListMeta = ListMeta(length: nat, updated: string, description: string, explanation: string)

  function DefaultMeta(now: string): ListMeta {
    ListMeta(0, now, "", "")
  }

  /** What the users have said about the list. */
  function Notes(meta: Option<ListMeta>): (string, string) {
    if meta.Some? then (meta.value.description, meta.value.explanation) else ("", "")
  }

  class AttributeStore {
    const falsy: Match
    var meta: Option<ListMeta>
    var rows: IndexRows
    /** Every state the item rows have been in. */
    var history: seq<IndexRows>

    constructor (falsy: Match, meta: Option<ListMeta>, rows: IndexRows)
      requires forall i :: i in rows ==> !falsy(rows[i])
      ensures this.falsy == falsy && this.meta == meta && this.rows == rows && history == [rows] && Valid()
    {
      this.falsy, this.meta, this.rows, history := falsy, meta, rows, [rows];
    }

    ghost predicate Valid()
      reads this
    {
      forall i :: i in rows ==> !falsy(rows[i])
    }

    method SetAttr(i: nat, item: Raw)
      requires Valid()
      modifies this`rows, this`history
      ensures Valid() && rows == PutRow(falsy, old(rows), i, item) && history == old(history) + [rows]
    {
      rows := PutRow(falsy, rows, i, item);
      history := history + [rows];
    }

    method DeleteAttr(i: nat)
      requires Valid()
      modifies this`rows, this`history
      ensures Valid() && rows == old(rows) - {i} && history == old(history) + [rows]
    {
      rows := rows - {i};
      history := history + [rows];
    }
  }

  ghost predicate Through(before: seq<IndexRows>, after: seq<IndexRows>, p: IndexRows -> bool) {
    before <= after && forall i :: |before| <= i < |after| ==> p(after[i])
  }

  /** Appending puts the list's next row in place exactly when the item is truthy. */
  lemma AppendKeepsDense(falsy: Match, v: IndexRows, n: nat, item: Raw)
    requires Dense(v, n)
    ensures Dense(PutRow(falsy, v, n, item), n + 1) <==> !falsy(item)
    ensures !falsy(item) ==> Present(PutRow(falsy, v, n, item), n + 1) == Present(v, n) + [item]
  {
    var w := PutRow(falsy, v, n, item);
    if falsy(item) {
      assert n !in w;
    } else {
      PresentSame(v, w, n);
    }
  }

  lemma SetKeepsDense(falsy: Match, v: IndexRows, n: nat, i: nat, item: Raw)
    requires Dense(v, n) && i < n
    ensures Dense(PutRow(falsy, v, i, item), n) <==> !falsy(item)
    ensures |Present(v, n)| == n
    ensures !falsy(item) ==> Present(PutRow(falsy, v, i, item), n) == Present(v, n)[i := item]
  {
    PresentDense(v, n);
    var w := PutRow(falsy, v, i, item);
    if falsy(item) {
      assert i !in w;
    } else {
      PresentDense(w, n);
    }
  }

  /** The rows after the first `k` appends of an `extend`. */
  function PutAll(falsy: Match, v: IndexRows, n: nat, items: seq<Raw>, k: nat): IndexRows
    requires k <= |items|
  {
    if k == 0 then v else PutRow(falsy, PutAll(falsy, v, n, items, k - 1), n + k - 1, items[k - 1])
  }

  lemma {:induction false} PutAllHas(falsy: Match, v: IndexRows, n: nat, items: seq<Raw>, k: nat, i: nat)
    requires Dense(v, n) && k <= |items|
    ensures i in PutAll(falsy, v, n, items, k) <==> i < n || (i < n + k && !falsy(items[i - n]))
  {
    if k > 0 {
      PutAllHas(falsy, v, n, items, k - 1, i);
    }
  }

  /** A falsy item anywhere in an `extend` leaves a hole that the later appends do not fill. */
  lemma ExtendKeepsDense(falsy: Match, v: IndexRows, n: nat, items: seq<Raw>)
    requires Dense(v, n)
    ensures Dense(PutAll(falsy, v, n, items, |items|), n + |items|) <==> AllTruthy(falsy, items)
  {
    var w := PutAll(falsy, v, n, items, |items|);
    forall i: nat
      ensures i in w <==> i < n || (i < n + |items| && !falsy(items[i - n]))
    {
      PutAllHas(falsy, v, n, items, |items|, i);
    }
    if Dense(w, n + |items|) {
      forall j | 0 <= j < |items|
        ensures !falsy(items[j])
      {
        assert n + j in w;
      }
    }
  }

  lemma PrefixSnoc(s: seq<Raw>, items: seq<Raw>, i: nat)
    requires i < |items|
    ensures (s + items[..i]) + [items[i]] == s + items[..i + 1]
  {}

  lemma {:induction false} ExtendAppends(falsy: Match, v: IndexRows, n: nat, items: seq<Raw>, k: nat)
    requires Dense(v, n) && k <= |items| && AllTruthy(falsy, items)
    ensures Dense(PutAll(falsy, v, n, items, k), n + k)
    ensures Present(PutAll(falsy, v, n, items, k), n + k) == Present(v, n) + items[..k]
  {
    if k > 0 {
      var before, m := PutAll(falsy, v, n, items, k - 1), n + k - 1;
      ExtendAppends(falsy, v, n, items, k - 1);
      AppendKeepsDense(falsy, before, m, items[k - 1]);
      PrefixSnoc(Present(v, n), items, k - 1);
    }
  }

  /** `insert` moves the rows from `index` on up, and stores a truthy item in between; for a falsy one
      it leaves the gap. */
  ghost predicate InsertedAt(falsy: Match, v: IndexRows, w: IndexRows, index: nat, n: nat, item: Raw) {
    && ShiftedUp(v, w[index := item], index, n, item)
    && (if falsy(item) then index !in w else w == w[index := item])
  }

  /** The last write of `insert`: every old item keeps a row whatever is inserted; a falsy item
      leaves a hole where it should be. */
  lemma InsertEnds(falsy: Match, v: IndexRows, w: IndexRows, index: nat, n: nat, item: Raw)
    requires index <= n && UpLoop(v, w, index - 1, n)
    ensures MidUpAt(v, PutRow(falsy, w, index, item), index, n)
    ensures InsertedAt(falsy, v, PutRow(falsy, w, index, item), index, n, item)
  {
    UpEnd(v, w, index, n, item);
    var u := PutRow(falsy, w, index, item);
    assert u[index := item] == w[index := item];
    assert !falsy(item) ==> u == u[index := item];
    forall j: nat | j in v && j < n
      ensures HeldAt(v, j, u, if index <= j then j + 1 else j)
    {
      assert HeldAt(v, j, w[index := item], if index <= j then j + 1 else j);
    }
  }

  class ListAttribute {
    const store: AttributeStore
    var metaCache: Option<ListMeta>
    var now: string

    constructor (store: AttributeStore, now: string)
      requires store.Valid()
      ensures Valid() && this.store == store
    {
      this.store, this.now, metaCache := store, now, None;
    }

    /** The only instance writing the list: what it remembers is what is stored. */
    ghost predicate Valid()
      reads this, store
    {
      && store.Valid()
      && (metaCache.Some? ==>
            if store.meta.Some? then metaCache == store.meta else metaCache.value.length == 0 && Notes(metaCache) == ("", ""))
    }

    ghost function Recorded(): nat
      reads store
    {
      if store.meta.Some? then store.meta.value.length else 0
    }

    ghost predicate Healthy()
      reads this, store
    {
      Valid() && Dense(store.rows, Recorded())
    }

    ghost function Abs(): seq<Raw>
      reads this, store
    {
      Present(store.rows, Recorded())
    }

    method LoadMetadata() returns (m: ListMeta)
      requires Valid()
      modifies this`metaCache
      ensures Valid() && metaCache == Some(m) && m.length == Recorded() && Notes(metaCache) == Notes(store.meta)
    {
      if metaCache.None? {
        metaCache := Some(if store.meta.Some? then store.meta.value else DefaultMeta(now));
      }
      m := metaCache.value;
    }

    method SaveMetadata(m: ListMeta)
      requires Valid()
      modifies this`metaCache, store`meta
      ensures Valid() && store.meta == Some(m.(updated := now)) && metaCache == store.meta
    {
      store.meta := Some(m.(updated := now));
      metaCache := store.meta;
    }

    method SaveLength(n: nat)
      requires Valid()
      modifies this`metaCache, store`meta
      ensures Valid() && store.meta.Some? && Recorded() == n && Notes(store.meta) == old(Notes(store.meta))
    {
      var meta := LoadMetadata();
      SaveMetadata(meta.(length := n));
    }

    method Length() returns (n: nat)
      requires Valid()
      modifies this`metaCache
      ensures Valid() && n == Recorded()
    {
      var meta := LoadMetadata();
      n := meta.length;
    }

    /** Out of range, or in range and not there. */
    method GetItem(index: int) returns (a: Answer)
      requires Valid()
      modifies this`metaCache
      ensures Valid()
      ensures a == if InRange(index, Recorded()) && At(index, Recorded()) in store.rows
                   then Item(store.rows[At(index, Recorded())]) else Failed(IndexError)
    {
      var n := Length();
      var i := if index < 0 then n + index else index;
      if i < 0 || i >= n {
        return Failed(IndexError);
      }
      if i !in store.rows {
        return Failed(IndexError);
      }
      return Item(store.rows[i]);
    }

    method SetItem(index: int, value: Raw) returns (a: Answer)
      requires Valid()
      modifies this`metaCache, store
      ensures Notes(store.meta) == old(Notes(store.meta))
      ensures Valid() && Recorded() == old(Recorded())
      ensures a == if InRange(index, Recorded()) then Done else Failed(IndexError)
      ensures store.rows == if a == Done then PutRow(store.falsy, old(store.rows), At(index, Recorded()), value) else old(store.rows)
      ensures old(Healthy()) ==> (Healthy() <==> a != Done || !store.falsy(value))
      ensures old(Healthy()) && Healthy() ==> (Abs(), a) == Apply(Op.SetItem(index, value), old(Abs()))
    {
      var n := Length();
      PresentDenseIf(store.rows, n);
      var i := if index < 0 then n + index else index;
      if i < 0 || i >= n {
        return Failed(IndexError);
      }
      if old(Healthy()) {
        SetKeepsDense(store.falsy, store.rows, n, i, value);
      }
      store.SetAttr(i, value);
      SaveLength(n);
      a := Done;
    }

    /** On any list, healthy or not: the rows above move down, and a hole with them. */
    method DelItem(index: int) returns (a: Answer)
      requires Valid()
      modifies this`metaCache, store
      ensures Notes(store.meta) == old(Notes(store.meta))
      ensures Valid() && old(store.history) <= store.history
      ensures a == if InRange(index, old(Recorded())) then Done else Failed(IndexError)
      ensures a == Done ==> Recorded() == old(Recorded()) - 1
      ensures a == Done ==> var at := At(index, old(Recorded()));
                            && ShiftedDown(old(store.rows), store.rows, at, old(Recorded()))
                            && Through(old(store.history), store.history, s => MidDown(old(store.rows), s, at))
      ensures a != Done ==> store.rows == old(store.rows) && Recorded() == old(Recorded())
      ensures old(Healthy()) ==> Healthy() && |old(Abs())| == old(Recorded())
      ensures old(Healthy()) && a == Done ==> Abs() == Deleted(old(Abs()), At(index, |old(Abs())|))
    {
      var n := Length();
      PresentDenseIf(store.rows, n);
      var i := if index < 0 then n + index else index;
      if i < 0 || i >= n {
        return Failed(IndexError);
      }
      ShiftRowsDown(i, n);
      SaveLength(n - 1);
      if old(Healthy()) {
        ShiftDownDeletes(old(store.rows), store.rows, i, n);
        ShiftDownFills(old(store.rows), store.rows, i, n);
      }
      a := Done;
    }

    method ShiftRowsDown(index: nat, n: nat)
      requires store.Valid() && index < n
      modifies store`rows, store`history
      ensures store.Valid() && ShiftedDown(old(store.rows), store.rows, index, n)
      ensures Through(old(store.history), store.history, s => MidDown(old(store.rows), s, index))
    {
      ghost var base := store.rows;
      store.DeleteAttr(index);
      var i := index + 1;
      DownStep(base, store.rows, index, i);
      while i < n
        invariant i <= n && store.Valid()
        invariant DownLoop(base, store.rows, index, i)
        invariant Through(old(store.history), store.history, s => MidDown(base, s, index))
      {
        DownStep(base, store.rows, index, i);
        if i in store.rows {
          MoveDown(i);
        }
        i := i + 1;
        DownStep(base, store.rows, index, i);
      }
    }

    /** Two writes: the copy one lower, then the deletion. */
    method MoveDown(i: nat)
      requires store.Valid() && i > 0 && i in store.rows
      modifies store`rows, store`history
      ensures store.Valid() && store.rows == old(store.rows)[i - 1 := old(store.rows)[i]] - {i}
      ensures store.history == old(store.history) + [old(store.rows)[i - 1 := old(store.rows)[i]], store.rows]
    {
      var data := store.rows[i];
      store.SetAttr(i - 1, data);
      store.DeleteAttr(i);
    }

    method Append(item: Raw) returns (a: Answer)
      requires Valid()
      modifies this`metaCache, store
      ensures Notes(store.meta) == old(Notes(store.meta))
      ensures Valid() && a == Done && Recorded() == old(Recorded()) + 1
      ensures store.rows == PutRow(store.falsy, old(store.rows), old(Recorded()), item)
      ensures old(Healthy()) ==> (Healthy() <==> !store.falsy(item))
      ensures old(Healthy()) && Healthy() ==> Abs() == old(Abs()) + [item]
    {
      var n := Length();
      if old(Healthy()) {
        AppendKeepsDense(store.falsy, store.rows, n, item);
      }
      store.SetAttr(n, item);
      SaveLength(n + 1);
      a := Done;
    }

    method Extend(items: seq<Raw>) returns (a: Answer)
      requires Valid()
      modifies this`metaCache, store
      ensures Notes(store.meta) == old(Notes(store.meta))
      ensures Valid() && a == Done && Recorded() == old(Recorded()) + |items|
      ensures store.rows == PutAll(store.falsy, old(store.rows), old(Recorded()), items, |items|)
      ensures old(Healthy()) ==> (Healthy() <==> AllTruthy(store.falsy, items))
      ensures old(Healthy()) && Healthy() ==> Abs() == old(Abs()) + items
    {
      ghost var base, n := store.rows, Recorded();
      var i := 0;
      while i < |items|
        invariant i <= |items| && Valid() && Recorded() == n + i && Notes(store.meta) == old(Notes(store.meta))
        invariant store.rows == PutAll(store.falsy, base, n, items, i)
      {
        var _ := Append(items[i]);
        i := i + 1;
      }
      if old(Healthy()) {
        ExtendKeepsDense(store.falsy, base, n, items);
        if AllTruthy(store.falsy, items) {
          ExtendAppends(store.falsy, base, n, items, |items|);
          assert items[..|items|] == items;
        }
      }
      a := Done;
    }

    method Insert(index: int, item: Raw) returns (a: Answer)
      requires Valid()
      modifies this`metaCache, store
      ensures Notes(store.meta) == old(Notes(store.meta))
      ensures Valid() && a == Done && Recorded() == old(Recorded()) + 1
      ensures var pos, n := InsertPos(index, old(Recorded())), old(Recorded());
              && InsertedAt(store.falsy, old(store.rows), store.rows, pos, n, item)
              && Through(old(store.history), store.history, s => MidUp(old(store.rows), s, pos, n))
      ensures old(Healthy()) ==> (Healthy() <==> !store.falsy(item))
      ensures old(Healthy()) && Healthy() ==> Abs() == Inserted(old(Abs()), InsertPos(index, |old(Abs())|), item)
    {
      var n := Length();
      PresentDenseIf(store.rows, n);
      var pos := if index < 0 then (if n + index < 0 then 0 else n + index) else index;
      if pos > n {
        pos := n;
      }
      ShiftRowsUp(pos, n, item);
      SaveLength(n + 1);
      if old(Healthy()) && !store.falsy(item) {
        ShiftUpInserts(old(store.rows), store.rows, pos, n, item);
        ShiftUpFills(old(store.rows), store.rows, pos, n, item);
      }
      a := Done;
    }

    method ShiftRowsUp(index: nat, n: nat, item: Raw)
      requires store.Valid() && index <= n
      modifies store`rows, store`history
      ensures store.Valid()
      ensures InsertedAt(store.falsy, old(store.rows), store.rows, index, n, item)
      ensures Through(old(store.history), store.history, s => MidUp(old(store.rows), s, index, n))
    {
      ghost var base := store.rows;
      var i: int := n - 1;
      while i >= index
        invariant index - 1 <= i && store.Valid()
        invariant UpLoop(base, store.rows, i, n)
        invariant Through(old(store.history), store.history, s => MidUp(base, s, index, n))
      {
        UpStep(base, store.rows, i, n);
        if i in store.rows {
          var data := store.rows[i];
          store.SetAttr(i + 1, data);
        }
        i := i - 1;
      }
      InsertEnds(store.falsy, base, store.rows, index, n, item);
      store.SetAttr(index, item);
    }

    /** A missing row is an error and changes nothing. */
    method Pop(index: int) returns (a: Answer)
      requires Valid()
      modifies this`metaCache, store
      ensures Notes(store.meta) == old(Notes(store.meta))
      ensures Valid()
      ensures a == if InRange(index, old(Recorded())) && At(index, old(Recorded())) in old(store.rows)
                   then Item(old(store.rows)[At(index, old(Recorded()))]) else Failed(IndexError)
      ensures a.Failed? ==> store.rows == old(store.rows) && Recorded() == old(Recorded())
      ensures old(Healthy()) ==> Healthy() && |old(Abs())| == old(Recorded())
      ensures old(Healthy()) && a.Item? ==>
                (a.item, Abs()) == (old(Abs())[At(index, |old(Abs())|)], Deleted(old(Abs()), At(index, |old(Abs())|)))
    {
      var n := Length();
      PresentDenseIf(store.rows, n);
      if n == 0 {
        return Failed(IndexError);
      }
      var i := if index == -1 then n - 1 else index;
      a := GetItem(i);
      if a.Failed? {
        return;
      }
      var _ := DelItem(i);
    }

    /** What a read of each position finds. */
    ghost function Slots(): (s: seq<Option<Raw>>)
      requires Valid()
      reads this, store
      ensures |s| == Recorded()
    {
      RowSlots(store.rows, Recorded())
    }

    /** The enumeration of `remove`: where it stops, at a missing row or at the first match. */
    method Find(p: Match) returns (i: nat)
      requires Valid()
      modifies this`metaCache
      ensures Valid() && i == FirstStop(Slots(), p, 0, Recorded())
    {
      var n := Length();
      ghost var slots := Slots();
      i := 0;
      while i < n
        invariant i <= n == |slots| && Valid() && n == Recorded() && slots == Slots()
        invariant FirstStop(slots, p, 0, n) == FirstStop(slots, p, i, n)
      {
        var item := GetItem(i);
        if item.Failed? || p(item.item) {
          return;
        }
        i := i + 1;
      }
    }

    /** A missing row before the first match is an error and changes nothing. */
    method Remove(p: Match) returns (a: Answer)
      requires Valid()
      modifies this`metaCache, store
      ensures Notes(store.meta) == old(Notes(store.meta))
      ensures Valid()
      ensures var i, n := FirstStop(old(Slots()), p, 0, old(Recorded())), old(Recorded());
              && a == (if i == n then Failed(ValueError) else if old(Slots())[i].None? then Failed(IndexError) else Done)
              && (a == Done ==> Recorded() == n - 1 && ShiftedDown(old(store.rows), store.rows, i, n))
      ensures a.Failed? ==> store.rows == old(store.rows) && Recorded() == old(Recorded())
      ensures old(Healthy()) ==> Healthy() && (Abs(), a) == Apply(Op.Remove(p), old(Abs()))
    {
      var n := Length();
      PresentDenseIf(store.rows, n);
      if Healthy() {
        StopIsIndex(Slots(), Abs(), p, 0, n);
      }
      var i := Find(p);
      if i == n {
        return Failed(ValueError);
      }
      if i !in store.rows {
        return Failed(IndexError);
      }
      a := DelItem(i);
    }

    /** `slice`, and `to_list` over the whole list: complete, or an error at the first hole. */
    method ReadRange(start: nat, end: nat) returns (a: Answer)
      requires Valid() && start <= end <= Recorded()
      modifies this`metaCache
      ensures Valid()
      ensures a.Many? || a == Failed(IndexError)
      ensures a.Many? <==> forall i: nat :: start <= i < end ==> i in store.rows
      ensures a.Many? ==> |a.items| == end - start && forall i :: 0 <= i < end - start ==> a.items[i] == store.rows[start + i]
    {
      var items: seq<Raw> := [];
      var i := start;
      while i < end
        invariant start <= i <= end && Valid() && |items| == i - start
        invariant forall j: nat :: start <= j < i ==> j in store.rows && items[j - start] == store.rows[j]
      {
        var item := GetItem(i);
        if item.Failed? {
          return item;
        }
        items := items + [item.item];
        i := i + 1;
      }
      return Many(items);
    }

    method ToList() returns (a: Answer)
      requires Valid()
      modifies this`metaCache
      ensures Valid()
      ensures a == if Filled(store.rows, Recorded()) then Many(Abs()) else Failed(IndexError)
    {
      var n := Length();
      a := ReadRange(0, n);
      if a.Many? {
        PresentIs(store.rows, a.items);
      }
    }

    method Slice(start: int, end: int) returns (a: Answer)
      requires Valid()
      modifies this`metaCache
      ensures Valid()
      ensures a.Many? <==> forall i: nat :: SliceBounds(start, end, Recorded()).0 <= i < SliceBounds(start, end, Recorded()).1
                                            ==> i in store.rows
      ensures a.Many? || a == Failed(IndexError)
      ensures Healthy() ==>
                |Abs()| == Recorded() && a == Many(Abs()[SliceBounds(start, end, |Abs()|).0..SliceBounds(start, end, |Abs()|).1])
    {
      var n := Length();
      PresentDenseIf(store.rows, n);
      var s0 := if start < 0 then (if n + start < 0 then 0 else n + start) else start;
      var e0 := if end < 0 then (if n + end < 0 then 0 else n + end) else end;
      var s := if s0 > n then n else s0;
      var e := if e0 > n then n else e0;
      e := if e < s then s else e;
      assert SliceBounds(start, end, n) == (s, e);
      a := ReadRange(s, e);
      if Healthy() {
        RangeIsSlice(store.rows, n, s, e, a.items);
      }
    }

    /** Rows past the recorded end, if there are any, stay. */
    method Clear()
      requires Valid()
      modifies this`metaCache, store
      ensures store.meta == Some(DefaultMeta(now))
      ensures Valid() && Recorded() == 0 && store.rows == old(store.rows) - Indices(old(Recorded()))
      ensures old(Healthy()) ==> Healthy() && store.rows == map[]
    {
      var n := Length();
      DeleteRows(n);
      SaveMetadata(DefaultMeta(now));
    }

    method Delete()
      requires Valid()
      modifies this`metaCache, store
      ensures Valid() && store.meta == None && store.rows == old(store.rows) - Indices(old(Recorded()))
      ensures old(Healthy()) ==> Healthy() && store.rows == map[]
    {
      var n := Length();
      DeleteRows(n);
      store.meta := None;
      metaCache := None;
    }

    method DeleteRows(n: nat)
      requires store.Valid()
      modifies store`rows, store`history
      ensures store.Valid() && store.rows == old(store.rows) - Indices(n)
    {
      ghost var base := store.rows;
      var i := 0;
      while i < n
        invariant i <= n && store.Valid() && store.rows == base - Indices(i)
      {
        store.DeleteAttr(i);
        i := i + 1;
      }
    }
  }

  lemma RangeIsSlice(v: IndexRows, n: nat, start: nat, end: nat, items: seq<Raw>)
    requires Dense(v, n) && start <= end <= n && |items| == end - start
    requires forall i :: 0 <= i < end - start ==> items[i] == v[start + i]
    ensures end <= |Present(v, n)| && items == Present(v, n)[start..end]
  {
    PresentDense(v, n);
  }

  lemma PresentDenseIf(v: IndexRows, n: nat)
    ensures Dense(v, n) ==> |Present(v, n)| == n && forall i :: 0 <= i < n ==> Present(v, n)[i] == v[i]
  {
    if Dense(v, n) {
      PresentDense(v, n);
    }
  }

  /** The operations this list offers. */
  predicate Offered(op: Op) {
    !op.RemoveWhere? && !op.UpdateWhere? && !op.IndexOf?
  }

  method Do(l: ListAttribute, op: Op) returns (a: Answer)
    requires l.Healthy() && Offered(op) && AllTruthy(l.store.falsy, Stores(op))
    modifies l`metaCache, l.store
    ensures l.Healthy() && (l.Abs(), a) == Apply(op, old(l.Abs()))
  {
    assert forall x :: Stores(op) == [x] ==> Stores(op)[0] == x;
    match op
    case Append(x) => a := l.Append(x);
    case Extend(xs) => a := l.Extend(xs);
    case Insert(i, x) => a := l.Insert(i, x);
    case SetItem(i, x) => a := l.SetItem(i, x);
    case DelItem(i) => a := l.DelItem(i);
    case Pop(i) => a := l.Pop(i);
    case Remove(p) => a := l.Remove(p);
    case GetItem(i) => a := l.GetItem(i); PresentDenseIf(l.store.rows, l.Recorded());
    case Slice(s, e) => a := l.Slice(s, e);
    case ToList => a := l.ToList();
    case Len => var n := l.Length(); PresentDenseIf(l.store.rows, n); a := Number(n);
  }

  lemma ApplyNext(ops: seq<Op>, s: seq<Raw>, n: nat, t: seq<Raw>, answers: seq<Answer>)
    requires n < |ops| && (t, answers) == ApplyAll(ops, s, n)
    ensures ApplyAll(ops, s, n + 1) == (Apply(ops[n], t).0, answers + [Apply(ops[n], t).1])
  {}

  /** A third representation of the same list: any run that stores truthy items only answers as
      a plain Python list does. */
  method RunAll(l: ListAttribute, ops: seq<Op>) returns (answers: seq<Answer>)
    requires l.Healthy()
    requires forall i :: 0 <= i < |ops| ==> Offered(ops[i]) && AllTruthy(l.store.falsy, Stores(ops[i]))
    modifies l`metaCache, l.store
    ensures l.Healthy() && (l.Abs(), answers) == ApplyAll(ops, old(l.Abs()), |ops|)
  {
    var done := 0;
    answers := [];
    while done < |ops|
      invariant done <= |ops| && l.Healthy()
      invariant (l.Abs(), answers) == ApplyAll(ops, old(l.Abs()), done)
    {
      ghost var before := l.Abs();
      var a := Do(l, ops[done]);
      ApplyNext(ops, old(l.Abs()), done, before, answers);
      answers := answers + [a];
      done := done + 1;
    }
  }
}
