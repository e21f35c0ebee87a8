/** The version 1 shift loops: closing the gap behind a deleted row, and opening one for an
    inserted row, one row write at a time. */
module Shift {
  import opened Ranked
  import opened ListModel
  import opened RowStore

  type IndexRows = map<nat, Raw>

  /** Row `i` of `w` is what row `j` of `v` is: the same value, or absent like it. */
  predicate SameRow(w: IndexRows, i: nat, v: IndexRows, j: nat) {
    (i in w <==> j in v) && (i in w ==> w[i] == v[j])
  }

  predicate Dropped(v: IndexRows, w: IndexRows, j: nat) {
    SameRow(w, j, v, j + 1)
  }

  /** An occupied row has moved up; above an empty one nothing has changed. */
  predicate Raised(v: IndexRows, w: IndexRows, j: nat) {
    if j in v then j + 1 in w && w[j + 1] == v[j] else SameRow(w, j + 1, v, j + 1)
  }

  predicate Rose(v: IndexRows, w: IndexRows, j: nat) {
    SameRow(w, j + 1, v, j)
  }

  /** `w` is `v` with row `index` gone and the rows up to `n`, holes included, one lower. */
  ghost predicate ShiftedDown(v: IndexRows, w: IndexRows, index: nat, n: nat) {
    && (forall j: nat :: j < index || n <= j ==> SameRow(w, j, v, j))
    && (forall j: nat :: index <= j && j + 1 < n ==> Dropped(v, w, j))
    && (index < n ==> n - 1 !in w)
  }

  /** `w` is `v` with `item` at `index` and the rows up to `n` one higher. A hole does not
      travel: the row above it keeps what it held. */
  ghost predicate ShiftedUp(v: IndexRows, w: IndexRows, index: nat, n: nat, item: Raw) {
    && (forall j: nat :: j < index || n < j ==> SameRow(w, j, v, j))
    && index in w && w[index] == item
    && (forall j: nat :: index <= j < n ==> Raised(v, w, j))
  }

  ghost predicate HeldAt(v: IndexRows, j: nat, w: IndexRows, i: nat) {
    j in v && i in w && w[i] == v[j]
  }

  /** Some prefix of the items above `index` has moved down, the rest has not: every item
      but the deleted one is in a row of its own. */
  ghost predicate MidDown(v: IndexRows, w: IndexRows, index: nat) {
    exists c: nat :: MidDownAt(v, w, index, c)
  }

  ghost predicate MidDownAt(v: IndexRows, w: IndexRows, index: nat, c: nat) {
    forall j: nat :: j in v && j != index ==> HeldAt(v, j, w, if index < j < c then j - 1 else j)
  }

  /** Some suffix of the items from `index` on has moved up, the rest has not. */
  ghost predicate MidUp(v: IndexRows, w: IndexRows, index: nat, n: nat) {
    exists c: nat :: index <= c && MidUpAt(v, w, c, n)
  }

  ghost predicate MidUpAt(v: IndexRows, w: IndexRows, c: nat, n: nat) {
    forall j: nat :: j in v && j < n ==> HeldAt(v, j, w, if c <= j then j + 1 else j)
  }

  ghost predicate OnlyV1Changed(a: View, b: View) {
    a.meta == b.meta && a.v2 == b.v2
  }

  /** The gap has travelled from `index` to just below row `i`. */
  ghost predicate DownLoop(v: IndexRows, w: IndexRows, index: nat, i: nat) {
    && index < i
    && (forall j: nat :: j < index || i <= j ==> SameRow(w, j, v, j))
    && (forall j: nat :: index <= j && j + 1 < i ==> Dropped(v, w, j))
    && i - 1 !in w
  }

  lemma DownStep(v: IndexRows, w: IndexRows, index: nat, i: nat)
    requires DownLoop(v, w, index, i)
    ensures MidDownAt(v, w, index, i)
    ensures i in w ==> MidDownAt(v, w[i - 1 := w[i]], index, i)
    ensures DownLoop(v, if i in w then w[i - 1 := w[i]] - {i} else w, index, i + 1)
  {
    assert SameRow(w, i, v, i);
    forall j: nat | j in v && j != index
      ensures HeldAt(v, j, w, if index < j < i then j - 1 else j)
      ensures i in w ==> HeldAt(v, j, w[i - 1 := w[i]], if index < j < i then j - 1 else j)
    {
      if index < j < i { assert Dropped(v, w, j - 1); } else { assert SameRow(w, j, v, j); }
    }
    var u := if i in w then w[i - 1 := w[i]] - {i} else w;
    forall j: nat | j < index || i + 1 <= j ensures SameRow(u, j, v, j) { assert SameRow(w, j, v, j); }
    forall j: nat | index <= j && j + 1 < i + 1 ensures Dropped(v, u, j) {
      if j + 1 < i { assert Dropped(v, w, j); }
    }
  }

  ghost predicate DownSafe(base: View, s: View, index: nat) {
    OnlyV1Changed(base, s) && MidDown(base.v1, s.v1, index)
  }

  method ShiftDown(store: Store, index: nat, n: nat)
    requires index < n
    modifies store
    ensures OnlyV1Changed(old(store.db), store.db)
    ensures ShiftedDown(old(store.db).v1, store.db.v1, index, n)
    ensures Since(old(store.history), store.history, s => DownSafe(old(store.db), s, index))
  {
    ghost var base := store.db;
    store.Delete1(index);
    var i := index + 1;
    DownStep(base.v1, store.db.v1, index, i);
    while i < n
      invariant i <= n && OnlyV1Changed(base, store.db)
      invariant DownLoop(base.v1, store.db.v1, index, i)
      invariant Since(old(store.history), store.history, s => DownSafe(base, s, index))
    {
      DownStep(base.v1, store.db.v1, index, i);
      if i in store.db.v1 {
        var value := store.db.v1[i];
        store.Put1(i - 1, value);
        store.Delete1(i);
      }
      i := i + 1;
      DownStep(base.v1, store.db.v1, index, i);
    }
  }

  /** Rows above `i` have been copied one up, down to but excluding row `i`. */
  ghost predicate UpLoop(v: IndexRows, w: IndexRows, i: int, n: nat) {
    && -1 <= i < n
    && (forall j: nat :: j <= i + 1 || n < j ==> SameRow(w, j, v, j))
    && (forall j: nat :: i < j < n ==> Raised(v, w, j))
  }

  lemma UpStep(v: IndexRows, w: IndexRows, i: nat, n: nat)
    requires UpLoop(v, w, i, n)
    ensures i in w ==> MidUpAt(v, w[i + 1 := w[i]], i, n)
    ensures UpLoop(v, if i in w then w[i + 1 := w[i]] else w, i - 1, n)
  {
    assert SameRow(w, i, v, i) && SameRow(w, i + 1, v, i + 1);
    var u := if i in w then w[i + 1 := w[i]] else w;
    forall j: nat | i - 1 < j < n ensures Raised(v, u, j) { if j > i { assert Raised(v, w, j); } }
    forall j: nat | j <= i || n < j ensures SameRow(u, j, v, j) { assert SameRow(w, j, v, j); }
    if i in w {
      forall j: nat | j in v && j < n ensures HeldAt(v, j, u, if i <= j then j + 1 else j) {
        if i <= j { assert Raised(v, u, j); } else { assert SameRow(u, j, v, j); }
      }
    }
  }

  lemma UpEnd(v: IndexRows, w: IndexRows, index: nat, n: nat, item: Raw)
    requires index <= n && UpLoop(v, w, index - 1, n)
    ensures MidUpAt(v, w[index := item], index, n)
    ensures ShiftedUp(v, w[index := item], index, n, item)
  {
    var u := w[index := item];
    forall j: nat | index <= j < n ensures Raised(v, u, j) { assert Raised(v, w, j); }
    forall j: nat | j < index || n < j ensures SameRow(u, j, v, j) { assert SameRow(w, j, v, j); }
    forall j: nat | j in v && j < n ensures HeldAt(v, j, u, if index <= j then j + 1 else j) {
      if index <= j { assert Raised(v, u, j); } else { assert SameRow(u, j, v, j); }
    }
  }

  ghost predicate UpSafe(base: View, s: View, index: nat, n: nat) {
    OnlyV1Changed(base, s) && MidUp(base.v1, s.v1, index, n)
  }

  method ShiftUp(store: Store, index: nat, n: nat, item: Raw)
    requires index <= n
    modifies store
    ensures OnlyV1Changed(old(store.db), store.db)
    ensures ShiftedUp(old(store.db).v1, store.db.v1, index, n, item)
    ensures Since(old(store.history), store.history, s => UpSafe(old(store.db), s, index, n))
  {
    ghost var base := store.db;
    var i: int := n - 1;
    while i >= index
      invariant index - 1 <= i && OnlyV1Changed(base, store.db)
      invariant UpLoop(base.v1, store.db.v1, i, n)
      invariant Since(old(store.history), store.history, s => UpSafe(base, s, index, n))
    {
      UpStep(base.v1, store.db.v1, i, n);
      if i in store.db.v1 {
        var value := store.db.v1[i];
        store.Put1(i + 1, value);
      }
      i := i - 1;
    }
    UpEnd(base.v1, store.db.v1, index, n, item);
    store.Put1(index, item);
  }

  /** The loops make no holes, and no rows past the end. */
  lemma ShiftDownFills(v: IndexRows, w: IndexRows, index: nat, n: nat)
    requires index < n && ShiftedDown(v, w, index, n)
    ensures Filled(v, n) ==> Filled(w, n - 1)
    ensures Dense(v, n) ==> Dense(w, n - 1)
  {
    if Filled(v, n) {
      forall i: nat | i < n - 1 ensures i in w {
        if i < index { assert SameRow(w, i, v, i); } else { assert Dropped(v, w, i); }
      }
    }
    if Dense(v, n) {
      forall i: nat | n - 1 <= i ensures i !in w {
        if n <= i { assert SameRow(w, i, v, i); }
      }
      assert Filled(w, n - 1);
    }
  }

  lemma ShiftUpFills(v: IndexRows, w: IndexRows, index: nat, n: nat, item: Raw)
    requires index <= n && ShiftedUp(v, w, index, n, item)
    ensures Filled(v, n) ==> Filled(w, n + 1)
    ensures Dense(v, n) ==> Dense(w, n + 1)
  {
    if Filled(v, n) {
      forall i: nat | i < n + 1 ensures i in w {
        if i < index { assert SameRow(w, i, v, i); } else if i > index { assert Raised(v, w, i - 1); }
      }
    }
    forall i: nat | n < i ensures i in w <==> i in v {
      assert SameRow(w, i, v, i);
    }
  }

  /** On a list without holes the loops are sequence deletion and insertion. */
  lemma ShiftDownDeletes(v: IndexRows, w: IndexRows, index: nat, n: nat)
    requires Filled(v, n) && index < n && ShiftedDown(v, w, index, n)
    ensures Filled(w, n - 1) && |Present(v, n)| == n
    ensures Present(w, n - 1) == Deleted(Present(v, n), index)
  {
    PresentDense(v, n);
    ShiftDownFills(v, w, index, n);
    PresentDense(w, n - 1);
    var a, b := Present(w, n - 1), Deleted(Present(v, n), index);
    forall i: nat | i < |a| ensures a[i] == b[i] {
      if i < index { assert SameRow(w, i, v, i); } else { assert Dropped(v, w, i); }
    }
  }

  lemma ShiftUpInserts(v: IndexRows, w: IndexRows, index: nat, n: nat, item: Raw)
    requires Filled(v, n) && index <= n && ShiftedUp(v, w, index, n, item)
    ensures Filled(w, n + 1) && |Present(v, n)| == n
    ensures Present(w, n + 1) == Inserted(Present(v, n), index, item)
  {
    PresentDense(v, n);
    ShiftUpFills(v, w, index, n, item);
    PresentDense(w, n + 1);
    var a, b := Present(w, n + 1), Inserted(Present(v, n), index, item);
    forall i: nat | i < |a| ensures a[i] == b[i] {
      if i < index { assert SameRow(w, i, v, i); }
      else if i > index { assert Raised(v, w, i - 1); }
    }
  }

  /** A hole above the deleted row is afterwards exactly one lower, and no other hole appears. */
  lemma HolesShiftByOne(v: IndexRows, w: IndexRows, index: nat, n: nat, h: nat)
    requires index < n && ShiftedDown(v, w, index, n) && index <= h && h + 1 < n
    ensures h !in w <==> h + 1 !in v
  {
    assert Dropped(v, w, h);
  }

  /** Insertion moves every row up by one if and only if no hole precedes an occupied row or
      the end in the moved stretch; otherwise the row above a hole is there twice. */
  lemma InsertNeedsNoHoles(v: IndexRows, w: IndexRows, index: nat, n: nat, item: Raw)
    requires index <= n && ShiftedUp(v, w, index, n, item)
    ensures (forall j: nat :: index <= j < n ==> Rose(v, w, j))
            <==> (forall j: nat :: index <= j < n && j !in v ==> j + 1 !in v)
  {
    if forall j: nat :: index <= j < n ==> Rose(v, w, j) {
      forall j: nat | index <= j < n && j !in v ensures j + 1 !in v {
        assert Rose(v, w, j) && Raised(v, w, j);
      }
    }
    if forall j: nat :: index <= j < n && j !in v ==> j + 1 !in v {
      forall j: nat | index <= j < n ensures Rose(v, w, j) {
        assert Raised(v, w, j);
      }
    }
  }
}
