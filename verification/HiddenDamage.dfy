/** Which changes to a damaged version 1 list leave one that looks undamaged, so that the next
    mutation migrates it and the damage can no longer be reported. */
module HiddenDamage {
  import opened Options
  import opened Ranked
  import opened PyList
  import opened ListModel
  import opened Shift
  import opened Migration
  import opened ListFacts

  ghost predicate NoRepeats(s: seq<Raw>) {
    forall i, j :: 0 <= i && j == i + 1 && j < |s| ==> s[i] != s[j]
  }

  /** Rows at exactly the indices below `n`, whatever is or is not at `i`. */
  ghost predicate AllBut(v1: map<nat, Raw>, n: nat, i: nat) {
    forall j: nat :: j != i ==> (j in v1 <==> j < n)
  }

  /** The damage to `v` that the call hides: a row past the end that is overwritten or taken in, a
      hole that is filled, deleted or closed, equal neighbours that are parted. A deletion may also
      just bring the list down to the limit. */
  ghost predicate Hides(op: Op, v: View, hasHash: bool, lazyMax: int)
    requires Recorded(v)
  {
    var v1, n := v.v1, LengthIn(v);
    && !hasHash && 0 < lazyMax
    && match op
       case Append(x) => n + 1 <= lazyMax && Dense(v1, n + 1) && NoRepeats(Present(v1, n) + [x])
       case Insert(index, x) =>
         var pos := InsertPos(index, n);
         n + 1 <= lazyMax && (PartsOrCovers(v1, n, pos, x) || TakesIn(v1, n, pos, x))
       case SetItem(index, x) =>
         InRange(index, n) && n <= lazyMax && FillsOrMends(v1, n, At(index, n), x)
       case DelItem(index) =>
         InRange(index, n) && n - 1 <= lazyMax && ClosesOrMends(v1, n, At(index, n), lazyMax)
       case _ => false
  }

  /** An insert overwrites a row just past the end, or parts two equal neighbours. */
  ghost predicate PartsOrCovers(v1: map<nat, Raw>, n: nat, pos: nat, x: Raw) {
    && pos <= n && AllBut(v1, n, n) && pos <= |Present(v1, n)|
    && (n in v1 || !NoRepeats(Present(v1, n)))
    && NoRepeats(Inserted(Present(v1, n), pos, x))
  }

  /** The last recorded row is missing and the one past the end is there: an insert before both
      makes the latter the last item. */
  ghost predicate TakesIn(v1: map<nat, Raw>, n: nat, pos: nat, x: Raw) {
    && pos < n && n - 1 !in v1 && n in v1 && AllBut(v1, n + 1, n - 1) && pos <= |Present(v1, n + 1)|
    && NoRepeats(Inserted(Present(v1, n + 1), pos, x))
  }

  /** An assignment fills the only hole, or changes one of two equal neighbours. */
  ghost predicate FillsOrMends(v1: map<nat, Raw>, n: nat, i: nat, x: Raw) {
    && AllBut(v1, n, i) && (i !in v1 || !NoRepeats(Present(v1, n)))
    && NoRepeats(Present(v1[i := x], n))
  }

  /** A deletion closes the only hole, or removes one of two equal neighbours. */
  ghost predicate ClosesOrMends(v1: map<nat, Raw>, n: nat, i: nat, lazyMax: int) {
    && AllBut(v1, n, i) && (i !in v1 || !NoRepeats(Present(v1, n)) || n > lazyMax)
    && NoRepeats(Present(v1 - {i}, n))
  }

  lemma TwinsAreRepeats(v1: map<nat, Raw>, n: nat)
    requires Filled(v1, n)
    ensures NoTwins(v1, n) <==> NoRepeats(Present(v1, n))
  {
    PresentDense(v1, n);
    var s := Present(v1, n);
    if NoTwins(v1, n) {
      forall i, j | 0 <= i && j == i + 1 && j < |s|
        ensures s[i] != s[j]
      {
        assert !AdjacentPair(v1, n, i);
      }
    } else {
      var a: nat :| AdjacentPair(v1, n, a);
      var b := a + 1;
      assert s[a] == s[b];
    }
  }

  lemma MigratesIff(v: View, n: nat, hasHash: bool, lazyMax: int)
    requires Recorded(v) && n == LengthIn(v)
    ensures LazyMigrates(v, hasHash, lazyMax) <==>
            0 < lazyMax && n <= lazyMax && !hasHash && Dense(v.v1, n) && NoRepeats(Present(v.v1, n))
  {
    if Dense(v.v1, n) {
      TwinsAreRepeats(v.v1, n);
    }
  }

  /** The rows without the one at `i`, in order. */
  lemma {:induction false} PresentWithout(v1: map<nat, Raw>, n: nat, i: nat)
    requires i < n && forall j: nat :: j < n && j != i ==> j in v1
    ensures var s := Present(v1 - {i}, n);
            && |s| == n - 1 && (forall j :: 0 <= j < i ==> s[j] == v1[j])
            && (forall j, l :: i < l < n && j == l - 1 ==> s[j] == v1[l])
  {
    if i == n - 1 {
      PresentDense(v1, i);
      PresentSame(v1 - {i}, v1, i);
    } else {
      PresentWithout(v1, n - 1, i);
    }
  }

  lemma SetHides(index: int, x: Raw, v: View, w: View, hasHash: bool, lazyMax: int)
    requires Recorded(v) && RowsAfter(SetItem(index, x), v, w)
    ensures !LazyMigrates(v, hasHash, lazyMax) && LazyMigrates(w, hasHash, lazyMax) <==> Hides(SetItem(index, x), v, hasHash, lazyMax)
  {
    var n := LengthIn(v);
    var i := At(index, n);
    MigratesIff(v, n, hasHash, lazyMax);
    MigratesIff(w, n, hasHash, lazyMax);
    if Dense(w.v1, n) {
      forall j: nat | j != i
        ensures j in v.v1 <==> j < n
      {
        assert j in w.v1 <==> j < n;
      }
    }
    assert AllBut(v.v1, n, i) <==> Dense(w.v1, n);
    assert AllBut(v.v1, n, i) ==> (Dense(v.v1, n) <==> i in v.v1);
  }

  lemma DeletedRows(v1: map<nat, Raw>, w1: map<nat, Raw>, i: nat, n: nat)
    requires ShiftedDown(v1, w1, i, n) && i < n
    ensures AllBut(v1, n, i) <==> Dense(w1, n - 1)
    ensures AllBut(v1, n, i) ==> Present(w1, n - 1) == Present(v1 - {i}, n)
  {
    if AllBut(v1, n, i) {
      forall j: nat
        ensures j in w1 <==> j < n - 1
      {
        if i <= j && j + 1 < n { assert Dropped(v1, w1, j); } else { assert j == n - 1 || SameRow(w1, j, v1, j); }
      }
      PresentDense(w1, n - 1);
      PresentWithout(v1, n, i);
      var s, t := Present(w1, n - 1), Present(v1 - {i}, n);
      forall j | 0 <= j < n - 1
        ensures s[j] == t[j]
      {
        if i <= j { assert Dropped(v1, w1, j); } else { assert SameRow(w1, j, v1, j); }
      }
    }
    if Dense(w1, n - 1) {
      forall j: nat | j != i
        ensures j in v1 <==> j < n
      {
        if i < j < n { assert Dropped(v1, w1, j - 1); } else { assert SameRow(w1, j, v1, j); }
      }
    }
  }

  lemma DeleteHides(index: int, v: View, w: View, hasHash: bool, lazyMax: int)
    requires Recorded(v) && RowsAfter(DelItem(index), v, w)
    ensures !LazyMigrates(v, hasHash, lazyMax) && LazyMigrates(w, hasHash, lazyMax) <==> Hides(DelItem(index), v, hasHash, lazyMax)
  {
    var n := LengthIn(v);
    var i := At(index, n);
    MigratesIff(v, n, hasHash, lazyMax);
    MigratesIff(w, n - 1, hasHash, lazyMax);
    DeletedRows(v.v1, w.v1, i, n);
    assert AllBut(v.v1, n, i) ==> (Dense(v.v1, n) <==> i in v.v1);
    assert Dense(v.v1, n) ==> AllBut(v.v1, n, i);
  }

  /** A hole below an occupied row makes the shift copy that row. */
  lemma InnerHoleRepeats(v1: map<nat, Raw>, w1: map<nat, Raw>, pos: nat, n: nat, x: Raw, j: nat)
    requires ShiftedUp(v1, w1, pos, n, x) && pos <= j && j + 1 < n && j !in v1 && Dense(w1, n + 1)
    ensures AdjacentPair(w1, n + 1, j + 1)
  {
    assert Raised(v1, w1, j) && Raised(v1, w1, j + 1);
    assert j + 1 in w1 && j + 2 in w1;
  }

  /** Where an insert may have left a list without holes and orphans. */
  lemma InsertedFrom(v1: map<nat, Raw>, w1: map<nat, Raw>, pos: nat, n: nat, x: Raw)
    requires ShiftedUp(v1, w1, pos, n, x) && pos <= n && Dense(w1, n + 1) && NoTwins(w1, n + 1)
    ensures AllBut(v1, n, n) || (pos < n && n - 1 !in v1 && n in v1 && AllBut(v1, n + 1, n - 1))
  {
    forall j: nat | j + 1 < n
      ensures j in v1
    {
      if j < pos {
        assert SameRow(w1, j, v1, j);
      } else if j !in v1 {
        InnerHoleRepeats(v1, w1, pos, n, x, j);
        assert false;
      }
    }
    forall j: nat | n < j
      ensures j !in v1
    {
      assert SameRow(w1, j, v1, j);
    }
    if 0 < n == pos {
      assert SameRow(w1, n - 1, v1, n - 1);
    } else if pos < n {
      assert Raised(v1, w1, n - 1);
    }
  }

  lemma InsertCovers(v1: map<nat, Raw>, w1: map<nat, Raw>, pos: nat, n: nat, x: Raw)
    requires ShiftedUp(v1, w1, pos, n, x) && pos <= n && AllBut(v1, n, n)
    ensures |Present(v1, n)| == n && Dense(w1, n + 1) && Present(w1, n + 1) == Inserted(Present(v1, n), pos, x)
  {
    PresentDense(v1, n);
    ShiftUpInserts(v1, w1, pos, n, x);
    forall j: nat
      ensures j in w1 <==> j < n + 1
    {
      if j < pos || n < j { assert SameRow(w1, j, v1, j); } else if pos < j { assert Raised(v1, w1, j - 1); }
    }
  }

  /** Without the missing last row, the rows after the insert are as many as the recorded ones. */
  lemma TakenInRows(v1: map<nat, Raw>, w1: map<nat, Raw>, pos: nat, n: nat, x: Raw)
    requires ShiftedUp(v1, w1, pos, n, x) && pos < n && n - 1 !in v1 && n in v1 && AllBut(v1, n + 1, n - 1)
    ensures Dense(w1, n + 1) && w1[pos] == x && w1[n] == v1[n]
    ensures forall j: nat :: j < pos ==> w1[j] == v1[j]
    ensures forall j, l: nat :: pos <= j && l == j + 1 && l < n ==> w1[l] == v1[j]
  {
    forall j: nat
      ensures j in w1 <==> j < n + 1
      ensures j < pos ==> w1[j] == v1[j]
    {
      if j < pos || n < j { assert SameRow(w1, j, v1, j); } else if pos < j { assert Raised(v1, w1, j - 1); }
    }
    forall j, l: nat | pos <= j && l == j + 1 && l < n
      ensures w1[l] == v1[j]
    {
      assert Raised(v1, w1, j);
    }
    assert Raised(v1, w1, n - 1);
  }

  lemma InsertTakesIn(v1: map<nat, Raw>, w1: map<nat, Raw>, pos: nat, n: nat, x: Raw)
    requires ShiftedUp(v1, w1, pos, n, x) && pos < n && n - 1 !in v1 && n in v1 && AllBut(v1, n + 1, n - 1)
    ensures |Present(v1, n + 1)| == n && Dense(w1, n + 1) && Present(w1, n + 1) == Inserted(Present(v1, n + 1), pos, x)
  {
    TakenInRows(v1, w1, pos, n, x);
    assert v1 - {n - 1} == v1;
    PresentWithout(v1, n + 1, n - 1);
    PresentDense(w1, n + 1);
    SameInserted(Present(v1, n + 1), Present(w1, n + 1), v1, w1, pos, n, x);
  }

  lemma SameInserted(s: seq<Raw>, t: seq<Raw>, v1: map<nat, Raw>, w1: map<nat, Raw>, pos: nat, n: nat, x: Raw)
    requires pos < n == |s| && |t| == n + 1 && Dense(w1, n + 1) && n in v1 && AllBut(v1, n + 1, n - 1)
    requires (forall j :: 0 <= j < n - 1 ==> s[j] == v1[j]) && s[n - 1] == v1[n]
    requires forall j :: 0 <= j <= n ==> t[j] == w1[j]
    requires w1[pos] == x && w1[n] == v1[n] && forall j: nat :: j < pos ==> w1[j] == v1[j]
    requires forall j, l: nat :: pos <= j && l == j + 1 && l < n ==> w1[l] == v1[j]
    ensures t == Inserted(s, pos, x)
  {
    var u := Inserted(s, pos, x);
    forall j | 0 <= j < n + 1
      ensures t[j] == u[j]
    {
      if pos < j < n { assert w1[j] == v1[j - 1]; }
    }
  }

  lemma InsertHides(index: int, x: Raw, v: View, w: View, hasHash: bool, lazyMax: int)
    requires Recorded(v) && RowsAfter(Insert(index, x), v, w)
    ensures !LazyMigrates(v, hasHash, lazyMax) && LazyMigrates(w, hasHash, lazyMax) <==> Hides(Insert(index, x), v, hasHash, lazyMax)
  {
    var n := LengthIn(v);
    var pos := InsertPos(index, n);
    MigratesIff(v, n, hasHash, lazyMax);
    MigratesIff(w, n + 1, hasHash, lazyMax);
    if AllBut(v.v1, n, n) {
      InsertCovers(v.v1, w.v1, pos, n, x);
      assert Dense(v.v1, n) <==> n !in v.v1;
    } else if pos < n && n - 1 !in v.v1 && n in v.v1 && AllBut(v.v1, n + 1, n - 1) {
      InsertTakesIn(v.v1, w.v1, pos, n, x);
    } else if Dense(w.v1, n + 1) {
      if NoTwins(w.v1, n + 1) {
        InsertedFrom(v.v1, w.v1, pos, n, x);
      }
      TwinsAreRepeats(w.v1, n + 1);
    }
  }

  lemma RepeatsSnoc(s: seq<Raw>, x: Raw)
    ensures NoRepeats(s + [x]) <==> NoRepeats(s) && (s != [] ==> s[|s| - 1] != x)
  {
    var t := s + [x];
    if NoRepeats(t) {
      assert forall i :: 0 <= i < |s| ==> t[i] == s[i];
      assert s != [] ==> t[|s| - 1] != t[|s|];
    }
  }

  lemma AppendHidesOrphan(x: Raw, v: View, w: View, hasHash: bool, lazyMax: int)
    requires Recorded(v) && RowsAfter(Append(x), v, w)
    ensures !LazyMigrates(v, hasHash, lazyMax) && LazyMigrates(w, hasHash, lazyMax) <==> Hides(Append(x), v, hasHash, lazyMax)
  {
    var n := LengthIn(v);
    AppendHides(x, v, w, hasHash, lazyMax);
    if Dense(v.v1, n + 1) {
      TwinsAreRepeats(v.v1, n);
      PresentDense(v.v1, n);
      RepeatsSnoc(Present(v.v1, n), x);
    }
  }

  /** Every change to version 1 rows is one of four. It takes a list that may not be migrated to one
      that may if and only if it hides the damage in one of the ways above. */
  lemma MutationHides(op: Op, v: View, w: View, hasHash: bool, lazyMax: int)
    requires Recorded(v) && RowsAfter(op, v, w)
    ensures !LazyMigrates(v, hasHash, lazyMax) && LazyMigrates(w, hasHash, lazyMax) <==> Hides(op, v, hasHash, lazyMax)
  {
    match op
    case Append(x) => AppendHidesOrphan(x, v, w, hasHash, lazyMax);
    case Insert(index, x) => InsertHides(index, x, v, w, hasHash, lazyMax);
    case SetItem(index, x) => SetHides(index, x, v, w, hasHash, lazyMax);
    case DelItem(index) => DeleteHides(index, v, w, hasHash, lazyMax);
  }

  ghost function Rows1(n: nat, v1: map<nat, Raw>, now: string): View {
    View(Some(DefaultV1(now)[Length := Num(n)]), v1, map[])
  }

  lemma Rows1Facts(n: nat, v1: map<nat, Raw>, now: string)
    ensures Recorded(Rows1(n, v1, now)) && LengthIn(Rows1(n, v1, now)) == n
  {
    ResetMeta(now);
  }

  /** One damaged list for each of the four calls: a row past the end of an empty list, a row past
      the end of a list of one, and twice a list of two whose first row is missing. */
  lemma AppendCanHide(a: Raw, z: Raw, now: string)
    ensures var v := Rows1(0, map[0 := z], now); Recorded(v) && Hides(Append(a), v, false, 10)
  {
    Rows1Facts(0, map[0 := z], now);
  }

  lemma InsertCanHide(a: Raw, b: Raw, z: Raw, now: string)
    requires a != b
    ensures var v := Rows1(1, map[0 := a, 1 := z], now); Recorded(v) && Hides(Insert(0, b), v, false, 10)
  {
    var v1: map<nat, Raw> := map[0 := a, 1 := z];
    Rows1Facts(1, v1, now);
    PresentIs(v1, [a]);
    assert Inserted([a], 0, b) == [b, a];
    assert PartsOrCovers(v1, 1, 0, b);
  }

  lemma SetCanHide(a: Raw, b: Raw, now: string)
    requires a != b
    ensures var v := Rows1(2, map[1 := a], now); Recorded(v) && Hides(SetItem(0, b), v, false, 10)
  {
    var v1: map<nat, Raw> := map[1 := a];
    Rows1Facts(2, v1, now);
    PresentIs(v1[0 := b], [b, a]);
    assert FillsOrMends(v1, 2, 0, b);
  }

  lemma DeleteCanHide(a: Raw, now: string)
    ensures var v := Rows1(2, map[1 := a], now); Recorded(v) && Hides(DelItem(0), v, false, 10)
  {
    var v1: map<nat, Raw> := map[1 := a];
    Rows1Facts(2, v1, now);
    PresentWithout(v1, 2, 0);
    assert ClosesOrMends(v1, 2, 0, 10);
  }
}
