/** Rebalancing a version 2 list: short, evenly spaced ranks for the same items. */
module Rebalance {
  import opened Order
  import opened Options
  import opened Keys
  import opened Ranked
  import opened ListModel
  import opened RowStore
  import opened Migration

  /** The rows contain the items, in this order, each in a row of its own. */
  ghost predicate Holds(rows: Rows, items: seq<Raw>) {
    exists at :: HoldsAt(rows, items, at)
  }

  ghost predicate HoldsAt(rows: Rows, items: seq<Raw>, at: seq<Rank>) {
    && |at| == |items| && Ascending(at)
    && forall i :: 0 <= i < |at| ==> at[i] in rows && rows[at[i]] == items[i]
  }

  /** `rank` lies in the slot of target `i`: at or above it, below the next target. */
  ghost predicate InSlot(targets: seq<Rank>, i: nat, rank: Rank) {
    && i < |targets|
    && AtMost(targets[i], rank)
    && (i + 1 < |targets| ==> Less(rank, targets[i + 1]))
  }

  ghost predicate Free(olds: seq<Rank>, i: nat, rank: Rank) {
    i < |olds| && (rank !in olds || rank == olds[i])
  }

  /** The first `i` items have new ranks, one per slot, none of them another item's old rank. */
  ghost predicate Written(targets: seq<Rank>, olds: seq<Rank>, ws: seq<Rank>) {
    && |ws| <= |targets| == |olds|
    && forall j :: 0 <= j < |ws| ==> InSlot(targets, j, ws[j]) && Free(olds, j, ws[j])
  }

  lemma WrittenAscends(targets: seq<Rank>, olds: seq<Rank>, ws: seq<Rank>)
    requires Written(targets, olds, ws) && Ascending(targets)
    ensures Ascending(ws)
  {
    forall i, j | 0 <= i < j < |ws| ensures Less(ws[i], ws[j]) {
      assert Less(ws[i], targets[i + 1]);
      if i + 1 < j {
        assert Less(targets[i + 1], targets[j]);
        Transitive(ws[i], targets[i + 1], targets[j]);
      }
      if targets[j] != ws[j] { Transitive(ws[i], targets[j], ws[j]); }
    }
  }

  /** What the write loop has stored: every old row untouched, every new row complete. */
  ghost predicate Copied(rows: Rows, olds: seq<Rank>, items: seq<Raw>, ws: seq<Rank>) {
    && |olds| == |items| && |ws| <= |items|
    && (forall j :: 0 <= j < |olds| ==> olds[j] in rows && rows[olds[j]] == items[j])
    && (forall j :: 0 <= j < |ws| ==> ws[j] in rows && rows[ws[j]] == items[j])
    && (forall k :: k in rows ==> k in olds || k in ws)
  }

  lemma CopyStep(rows: Rows, targets: seq<Rank>, olds: seq<Rank>, items: seq<Raw>, ws: seq<Rank>, rank: Rank)
    requires Written(targets, olds, ws) && Ascending(targets) && Ascending(olds)
    requires Copied(rows, olds, items, ws) && |ws| < |items|
    requires InSlot(targets, |ws|, rank) && Free(olds, |ws|, rank)
    ensures Written(targets, olds, ws + [rank])
    ensures Copied(rows[rank := items[|ws|]], olds, items, ws + [rank])
    ensures rank == olds[|ws|] ==> rows[rank := items[|ws|]] == rows
    ensures rank !in olds ==> rank !in rows
  {
    WrittenAscends(targets, olds, ws + [rank]);
    Distinct(ws + [rank]);
    Distinct(olds);
    assert (ws + [rank])[|ws|] == rank;
    forall j | 0 <= j < |ws| ensures ws[j] != rank { assert (ws + [rank])[j] == ws[j]; }
    assert forall j :: 0 <= j < |olds| ==> olds[j] in olds;
  }

  /** The `k`th candidate for a slot: its target, then one bisection towards the next target more
      each time. */
  function Nudged(g: KeyGen, targets: seq<Rank>, i: nat, k: nat): Rank
    requires i < |targets|
  {
    if k == 0 then targets[i] else g.between(Some(Nudged(g, targets, i, k - 1)), Ceiling(targets, i))
  }

  function Ceiling(targets: seq<Rank>, i: nat): Option<Rank> {
    if i + 1 < |targets| then Some(targets[i + 1]) else None
  }

  ghost predicate FreeAt(g: KeyGen, targets: seq<Rank>, olds: seq<Rank>, i: nat, k: nat) {
    i < |targets| && Free(olds, i, Nudged(g, targets, i, k))
  }

  /** One of the nine candidates is no other item's rank. */
  ghost predicate Placeable(g: KeyGen, targets: seq<Rank>, olds: seq<Rank>, i: nat) {
    i < |targets| && exists k: nat :: k <= MAX_RANK_RETRIES && FreeAt(g, targets, olds, i, k)
  }

  /** `rank` is the first candidate that is no other item's rank. */
  ghost predicate Placed(g: KeyGen, targets: seq<Rank>, olds: seq<Rank>, i: nat, rank: Rank) {
    i < |targets| && Free(olds, i, rank) && exists k: nat :: k <= MAX_RANK_RETRIES && rank == Nudged(g, targets, i, k)
                                             && forall j: nat :: j < k ==> !FreeAt(g, targets, olds, i, j)
  }

  ghost predicate AllPlaceable(g: KeyGen, olds: seq<Rank>) {
    forall i :: 0 <= i < |olds| ==> Placeable(g, NKeys(g, None, |olds|), olds, i)
  }

  /** A row goes to its target at the first try exactly if no other item is there. */
  lemma PlacedAtTarget(g: KeyGen, targets: seq<Rank>, olds: seq<Rank>, i: nat, rank: Rank)
    requires Placed(g, targets, olds, i, rank)
    ensures rank == targets[i] <==> Free(olds, i, targets[i])
  {
    assert FreeAt(g, targets, olds, i, 0) <==> Free(olds, i, targets[i]);
  }

  /** The retry loop: nudge the rank up inside its slot until it is free; at most nine tries. */
  method FindRank(g: KeyGen, targets: seq<Rank>, olds: seq<Rank>, i: nat) returns (found: bool, rank: Rank)
    requires Sound(g) && i < |targets| == |olds| && Ascending(targets)
    requires forall j :: 0 <= j < |targets| ==> g.isKey(targets[j])
    ensures found <==> Placeable(g, targets, olds, i)
    ensures found ==> Placed(g, targets, olds, i, rank) && InSlot(targets, i, rank) && g.isKey(rank)
  {
    rank := targets[i];
    var upper := if i + 1 < |targets| then Some(targets[i + 1]) else None;
    var attempt := 0;
    if i + 1 < |targets| { assert Less(targets[i], targets[i + 1]); }
    while attempt <= MAX_RANK_RETRIES
      invariant attempt <= MAX_RANK_RETRIES && rank == Nudged(g, targets, i, attempt)
      invariant InSlot(targets, i, rank) && g.isKey(rank)
      invariant forall j: nat :: j < attempt ==> !FreeAt(g, targets, olds, i, j)
    {
      assert FreeAt(g, targets, olds, i, attempt) <==> Free(olds, i, rank);
      if rank !in olds || rank == olds[i] {
        return true, rank;
      }
      if attempt == MAX_RANK_RETRIES {
        return false, rank;
      }
      assert Bounds(g, Some(rank), upper);
      var next := g.between(Some(rank), upper);
      if targets[i] != rank { Transitive(targets[i], rank, next); }
      rank := next;
      attempt := attempt + 1;
    }
    found := false;
  }

  /** `_v2_compact`, the row part. It is stopped by a collision storm exactly if some row has no
      free candidate; otherwise it leaves the same list under ascending new ranks, each the first
      free candidate. After every single write, and after a storm, the list is still there in full
      and in order. Nothing is written when every row has its target rank. */
  method RebalanceRows(store: Store, g: KeyGen) returns (ok: bool, ranks: seq<Rank>)
    requires Sound(g) && AllKeys(g, store.db.v2)
    modifies store
    ensures store.db == old(store.db).(v2 := store.db.v2) && AllKeys(g, store.db.v2)
    ensures ok ==> ranks == Sorted(store.db.v2.Keys) && Items(store.db.v2) == old(Items(store.db.v2))
    ensures ok <==> AllPlaceable(g, old(Sorted(store.db.v2.Keys)))
    ensures ok ==> Reranked(g, old(Sorted(store.db.v2.Keys)), ranks)
    ensures old(Sorted(store.db.v2.Keys)) == NKeys(g, None, |old(store.db).v2|) ==>
              store.db == old(store.db) && store.history == old(store.history)
    ensures !ok ==> Submap(old(store.db).v2, store.db.v2)
    ensures Since(old(store.history), store.history, s => StillHeld(old(store.db), s))
  {
    ghost var base := store.db;
    var olds := SortKeys(store.db.v2.Keys);
    ghost var items := Items(base.v2);
    var targets := NKeys(g, None, |olds|);
    NKeysAscend(g, None, |olds|);
    ok, ranks := WriteRanks(store, g, olds, targets);
    if !ok {
      CopiedKeeps(store.db.v2, base.v2, ranks);
      return;
    }
    WrittenAscends(targets, olds, ranks);
    DropOld(store, olds, ranks, items);
  }

  /** The write loop. */
  method WriteRanks(store: Store, g: KeyGen, olds: seq<Rank>, targets: seq<Rank>) returns (ok: bool, ranks: seq<Rank>)
    requires Sound(g) && AllKeys(g, store.db.v2) && olds == Sorted(store.db.v2.Keys)
    requires |targets| == |olds| && Ascending(targets) && forall j :: 0 <= j < |targets| ==> g.isKey(targets[j])
    modifies store
    ensures store.db == old(store.db).(v2 := store.db.v2) && AllKeys(g, store.db.v2)
    ensures Written(targets, olds, ranks) && Copied(store.db.v2, olds, old(Items(store.db.v2)), ranks)
    ensures ok <==> forall i :: 0 <= i < |olds| ==> Placeable(g, targets, olds, i)
    ensures ok ==> |ranks| == |olds| && AllPlaced(g, targets, olds, ranks)
    ensures olds == targets ==> ranks == olds && store.db == old(store.db) && store.history == old(store.history)
    ensures Since(old(store.history), store.history, s => StillHeld(old(store.db), s))
  {
    ghost var base, items := store.db, Items(store.db.v2);
    var pairs := store.db.v2;
    ranks := [];
    CopyStart(base.v2);
    while |ranks| < |olds|
      invariant |ranks| <= |olds| && store.db == base.(v2 := store.db.v2) && AllKeys(g, store.db.v2)
      invariant Written(targets, olds, ranks) && Copied(store.db.v2, olds, items, ranks)
      invariant AllPlaced(g, targets, olds, ranks)
      invariant olds == targets ==> store.db == base && store.history == old(store.history) && ranks == olds[..|ranks|]
      invariant Since(old(store.history), store.history, s => StillHeld(base, s))
    {
      var found, rank := WriteRank(store, g, olds, targets, ranks, pairs[olds[|ranks|]], base, items);
      if !found {
        return false, ranks;
      }
      ranks := ranks + [rank];
    }
    ok := true;
  }

  /** One row: left alone at its target, otherwise copied to the first free candidate. */
  method WriteRank(store: Store, g: KeyGen, olds: seq<Rank>, targets: seq<Rank>, ranks: seq<Rank>, value: Raw,
                   ghost base: View, ghost items: seq<Raw>) returns (found: bool, rank: Rank)
    requires Sound(g) && AllKeys(g, store.db.v2) && store.db == base.(v2 := store.db.v2)
    requires |ranks| < |targets| == |olds| && Ascending(targets) && Ascending(olds)
    requires forall j :: 0 <= j < |targets| ==> g.isKey(targets[j])
    requires Written(targets, olds, ranks) && Copied(store.db.v2, olds, items, ranks) && AllPlaced(g, targets, olds, ranks)
    requires items == Items(base.v2) && value == items[|ranks|]
    modifies store
    ensures store.db == base.(v2 := store.db.v2) && AllKeys(g, store.db.v2)
    ensures found <==> Placeable(g, targets, olds, |ranks|)
    ensures !found ==> store.db == old(store.db) && store.history == old(store.history)
    ensures found ==> Written(targets, olds, ranks + [rank]) && Copied(store.db.v2, olds, items, ranks + [rank])
    ensures found ==> AllPlaced(g, targets, olds, ranks + [rank])
    ensures targets[|ranks|] == olds[|ranks|] ==>
              rank == olds[|ranks|] && found && store.db == old(store.db) && store.history == old(store.history)
    ensures Since(old(store.history), store.history, s => StillHeld(base, s))
  {
    var i := |ranks|;
    if targets[i] == olds[i] {
      TargetIsPlaced(g, targets, olds, i);
      rank, found := olds[i], true;
    } else {
      found, rank := FindRank(g, targets, olds, i);
      if !found {
        return;
      }
    }
    CopyStep(store.db.v2, targets, olds, items, ranks, rank);
    PlacedMore(g, targets, olds, ranks, rank);
    if targets[i] != olds[i] {
      store.Put2(rank, value);
      assert HoldsAt(store.db.v2, items, olds);
    }
  }

  lemma PlacedMore(g: KeyGen, targets: seq<Rank>, olds: seq<Rank>, ws: seq<Rank>, rank: Rank)
    requires AllPlaced(g, targets, olds, ws) && |ws| < |targets|
    requires Placed(g, targets, olds, |ws|, rank) && Placeable(g, targets, olds, |ws|)
    ensures AllPlaced(g, targets, olds, ws + [rank])
  {}

  ghost predicate AllPlaced(g: KeyGen, targets: seq<Rank>, olds: seq<Rank>, ws: seq<Rank>) {
    && |ws| <= |targets|
    && forall j :: 0 <= j < |ws| ==> Placed(g, targets, olds, j, ws[j]) && Placeable(g, targets, olds, j)
  }

  /** The new ranks: one per slot, each the first candidate that was free. */
  ghost predicate Reranked(g: KeyGen, olds: seq<Rank>, ranks: seq<Rank>) {
    var targets := NKeys(g, None, |olds|);
    && |ranks| == |olds| && AllPlaced(g, targets, olds, ranks)
    && forall i :: 0 <= i < |ranks| ==> InSlot(targets, i, ranks[i])
  }

  lemma TargetIsPlaced(g: KeyGen, targets: seq<Rank>, olds: seq<Rank>, i: nat)
    requires i < |targets| == |olds| && targets[i] == olds[i]
    ensures Placed(g, targets, olds, i, targets[i]) && Placeable(g, targets, olds, i)
  {
    assert FreeAt(g, targets, olds, i, 0) <==> Free(olds, i, targets[i]);
  }

  // ---- when there is room ----

  /** The other items' ranks that lie in a slot. */
  ghost function Crowd(targets: seq<Rank>, olds: seq<Rank>, i: nat): set<Rank>
    requires i < |olds|
  {
    set k | k in olds && k != olds[i] && InSlot(targets, i, k)
  }

  lemma {:induction false} NudgedInSlot(g: KeyGen, targets: seq<Rank>, i: nat, k: nat)
    requires Sound(g) && i < |targets| && Ascending(targets) && forall j :: 0 <= j < |targets| ==> g.isKey(targets[j])
    ensures InSlot(targets, i, Nudged(g, targets, i, k)) && g.isKey(Nudged(g, targets, i, k))
    ensures k > 0 ==> Less(Nudged(g, targets, i, k - 1), Nudged(g, targets, i, k))
  {
    if i + 1 < |targets| { assert Less(targets[i], targets[i + 1]); }
    if k > 0 {
      NudgedInSlot(g, targets, i, k - 1);
      var below, here := Nudged(g, targets, i, k - 1), Nudged(g, targets, i, k);
      assert Bounds(g, Some(below), Ceiling(targets, i));
      if targets[i] != below { Transitive(targets[i], below, here); }
    }
  }

  /** The first `n` candidates, when all of them are other items' ranks. */
  lemma {:induction false} TakenCandidates(g: KeyGen, targets: seq<Rank>, olds: seq<Rank>, i: nat, n: nat) returns (taken: set<Rank>)
    requires Sound(g) && i < |targets| == |olds| && Ascending(targets)
    requires forall j :: 0 <= j < |targets| ==> g.isKey(targets[j])
    requires forall j: nat :: j < n ==> !FreeAt(g, targets, olds, i, j)
    ensures |taken| == n && taken <= Crowd(targets, olds, i)
    ensures n > 0 ==> forall k :: k in taken ==> AtMost(k, Nudged(g, targets, i, n - 1))
  {
    taken := {};
    if n > 0 {
      var last := Nudged(g, targets, i, n - 1);
      taken := TakenCandidates(g, targets, olds, i, n - 1);
      NudgedInSlot(g, targets, i, n - 1);
      forall k | k in taken
        ensures Less(k, last)
      {
        var below := Nudged(g, targets, i, n - 2);
        if k != below { Transitive(k, below, last); }
      }
      Irreflexive(last);
      assert !FreeAt(g, targets, olds, i, n - 1);
      taken := taken + {last};
    }
  }

  /** There are nine candidates. */
  lemma NineCandidates(g: KeyGen, targets: seq<Rank>, olds: seq<Rank>, i: nat)
    requires i < |targets|
    ensures Placeable(g, targets, olds, i) <==> exists k: nat :: k <= 8 && FreeAt(g, targets, olds, i, k)
  {
    if Placeable(g, targets, olds, i) {
      var k: nat :| k <= MAX_RANK_RETRIES && FreeAt(g, targets, olds, i, k);
      assert k <= 8;
    }
    if exists k: nat :: k <= 8 && FreeAt(g, targets, olds, i, k) {
      var k: nat :| k <= 8 && FreeAt(g, targets, olds, i, k);
      assert k <= MAX_RANK_RETRIES;
    }
  }

  /** They are distinct and all in the slot, so a slot in which at most eight other items' ranks lie
      has room for its item. */
  lemma EightOthersLeaveRoom(g: KeyGen, targets: seq<Rank>, olds: seq<Rank>, i: nat)
    requires Sound(g) && i < |targets| == |olds| && Ascending(targets)
    requires forall j :: 0 <= j < |targets| ==> g.isKey(targets[j])
    requires |Crowd(targets, olds, i)| <= 8
    ensures Placeable(g, targets, olds, i)
  {
    if !Placeable(g, targets, olds, i) {
      NineCandidates(g, targets, olds, i);
      var taken := TakenCandidates(g, targets, olds, i, 9);
      SubsetIsSmaller(taken, Crowd(targets, olds, i));
    }
  }

  lemma SubsetIsSmaller(a: set<Rank>, b: set<Rank>)
    requires a <= b
    ensures |a| <= |b|
  {
    assert b == a + (b - a);
  }

  /** So a list none of whose slots holds more than eight other items' ranks can be rebalanced. */
  lemma UncrowdedIsPlaceable(g: KeyGen, olds: seq<Rank>)
    requires Sound(g) && forall i :: 0 <= i < |olds| ==> |Crowd(NKeys(g, None, |olds|), olds, i)| <= 8
    ensures AllPlaceable(g, olds)
  {
    var targets := NKeys(g, None, |olds|);
    NKeysAscend(g, None, |olds|);
    forall i | 0 <= i < |olds|
      ensures Placeable(g, targets, olds, i)
    {
      EightOthersLeaveRoom(g, targets, olds, i);
    }
  }

  /** Nine are too many: with any key library there is a list of ten items that cannot be
      rebalanced, an item before the first target and the nine candidates of its slot. */
  lemma TenCanStorm(g: KeyGen) returns (olds: seq<Rank>)
    requires Sound(g)
    ensures |olds| == 10 && Ascending(olds) && (forall i :: 0 <= i < 10 ==> g.isKey(olds[i])) && !AllPlaceable(g, olds)
  {
    var targets := NKeys(g, None, 10);
    NKeysAscend(g, None, 10);
    assert Bounds(g, None, Some(targets[0]));
    var first := g.between(None, Some(targets[0]));
    olds := [first] + Candidates(g, targets, 9);
    CandidatesAscend(g, targets, 9, first);
    forall k: nat | k <= 8
      ensures !FreeAt(g, targets, olds, 0, k)
    {
      assert olds[k + 1] == Nudged(g, targets, 0, k);
      assert Less(olds[0], olds[k + 1]);
      Irreflexive(first);
    }
    NineCandidates(g, targets, olds, 0);
    assert !Placeable(g, targets, olds, 0);
  }

  function Candidates(g: KeyGen, targets: seq<Rank>, n: nat): (ks: seq<Rank>)
    requires targets != []
    ensures |ks| == n && forall k :: 0 <= k < n ==> ks[k] == Nudged(g, targets, 0, k)
  {
    if n == 0 then [] else Candidates(g, targets, n - 1) + [Nudged(g, targets, 0, n - 1)]
  }

  lemma AscendingSnoc(ks: seq<Rank>, x: Rank)
    requires Ascending(ks) && ks != [] && Less(ks[|ks| - 1], x)
    ensures Ascending(ks + [x])
  {
    FitsAll(ks, x, |ks|);
  }

  lemma {:induction false} CandidatesAscend(g: KeyGen, targets: seq<Rank>, n: nat, first: Rank)
    requires Sound(g) && targets != [] && Ascending(targets) && forall j :: 0 <= j < |targets| ==> g.isKey(targets[j])
    requires Less(first, targets[0]) && g.isKey(first)
    ensures var ks := [first] + Candidates(g, targets, n); Ascending(ks) && forall k :: 0 <= k < |ks| ==> g.isKey(ks[k])
  {
    if n > 0 {
      CandidatesAscend(g, targets, n - 1, first);
      NudgedInSlot(g, targets, 0, n - 1);
      var ks, last := [first] + Candidates(g, targets, n - 1), Nudged(g, targets, 0, n - 1);
      assert ks[n - 1] == if n == 1 then first else Nudged(g, targets, 0, n - 2);
      AscendingSnoc(ks, last);
      assert [first] + Candidates(g, targets, n) == ks + [last];
    }
  }

  // ---- convergence ----

  /** Once each rank lies in its slot, no target is another item's rank. */
  lemma SlotsAreFree(targets: seq<Rank>, ranks: seq<Rank>, i: nat)
    requires Ascending(targets) && |ranks| == |targets| && i < |ranks|
    requires forall j :: 0 <= j < |ranks| ==> InSlot(targets, j, ranks[j])
    ensures Free(ranks, i, targets[i])
  {
    forall j | 0 <= j < |ranks| && ranks[j] == targets[i]
      ensures j == i
    {
      if j < i {
        assert Less(ranks[j], targets[j + 1]);
        if j + 1 < i { Transitive(ranks[j], targets[j + 1], targets[i]); }
        Irreflexive(targets[i]);
      } else if i < j {
        assert Less(targets[i], targets[j]) && AtMost(targets[j], ranks[j]);
        Asymmetric(targets[i], targets[j]);
      }
    }
  }

  /** Rebalancing converges in two runs: after one that was not stopped, a second is not stopped
      either, and gives every item its target rank. The first already does so exactly if no target
      was another item's rank. */
  lemma RebalanceConverges(g: KeyGen, olds: seq<Rank>, ranks: seq<Rank>, again: seq<Rank>)
    requires Sound(g) && Reranked(g, olds, ranks)
    ensures AllPlaceable(g, ranks)
    ensures Reranked(g, ranks, again) ==> again == NKeys(g, None, |olds|)
    ensures ranks == NKeys(g, None, |olds|) <==>
            forall i :: 0 <= i < |olds| ==> Free(olds, i, NKeys(g, None, |olds|)[i])
  {
    var targets := NKeys(g, None, |olds|);
    NKeysAscend(g, None, |olds|);
    forall i | 0 <= i < |olds|
      ensures Placeable(g, targets, ranks, i)
      ensures Reranked(g, ranks, again) ==> again[i] == targets[i]
      ensures ranks[i] == targets[i] <==> Free(olds, i, targets[i])
    {
      SlotsAreFree(targets, ranks, i);
      assert FreeAt(g, targets, ranks, i, 0);
      PlacedAtTarget(g, targets, olds, i, ranks[i]);
      if Reranked(g, ranks, again) {
        PlacedAtTarget(g, targets, ranks, i, again[i]);
      }
    }
  }

  ghost predicate StillHeld(base: View, s: View) {
    s.meta == base.meta && s.v1 == base.v1 && Holds(s.v2, Items(base.v2))
  }

  lemma CopyStart(rows: Rows)
    ensures Copied(rows, Sorted(rows.Keys), Items(rows), [])
  {
    forall k | k in rows ensures k in Sorted(rows.Keys) {
      var i := Ranked.IndexOf(Sorted(rows.Keys), rows.Keys, k);
    }
  }

  lemma CopiedKeeps(rows: Rows, old_: Rows, ws: seq<Rank>)
    requires Copied(rows, Sorted(old_.Keys), Items(old_), ws)
    ensures Submap(old_, rows)
  {
    forall k | k in old_ ensures k in rows && rows[k] == old_[k] {
      var i := Ranked.IndexOf(Sorted(old_.Keys), old_.Keys, k);
    }
  }

  /** The clean-up loop: delete the old rows that are not also new ones. */
  method DropOld(store: Store, olds: seq<Rank>, ranks: seq<Rank>, ghost items: seq<Raw>)
    requires Copied(store.db.v2, olds, items, ranks) && |ranks| == |items| && Ascending(ranks)
    modifies store
    ensures store.db == old(store.db).(v2 := store.db.v2) && store.db.v2.Keys <= old(store.db).v2.Keys
    ensures Sorted(store.db.v2.Keys) == ranks && Items(store.db.v2) == items
    ensures olds == ranks ==> store.db == old(store.db) && store.history == old(store.history)
    ensures Since(old(store.history), store.history,
              s => OnlyV2Changed(old(store.db), s) && HoldsAt(s.v2, items, ranks))
  {
    OnlyNewLeft(store.db.v2, olds, ranks, items);
    DropLoop(store, olds, ranks, items);
    HeldExactly(store.db.v2, items, ranks);
  }

  method DropLoop(store: Store, olds: seq<Rank>, ranks: seq<Rank>, ghost items: seq<Raw>)
    requires HoldsAt(store.db.v2, items, ranks)
    modifies store
    ensures store.db == old(store.db).(v2 := old(store.db).v2 - Dropped(olds, ranks, |olds|))
    ensures HoldsAt(store.db.v2, items, ranks)
    ensures olds == ranks ==> store.db == old(store.db) && store.history == old(store.history)
    ensures Since(old(store.history), store.history,
              s => OnlyV2Changed(old(store.db), s) && HoldsAt(s.v2, items, ranks))
  {
    ghost var base := store.db;
    var i := 0;
    while i < |olds|
      invariant i <= |olds| && store.db == base.(v2 := base.v2 - Dropped(olds, ranks, i))
      invariant HoldsAt(store.db.v2, items, ranks)
      invariant olds == ranks ==> store.db == base && store.history == old(store.history)
      invariant Since(old(store.history), store.history,
                  s => OnlyV2Changed(base, s) && HoldsAt(s.v2, items, ranks))
    {
      if olds[i] !in ranks {
        HoldsWithout(store.db.v2, items, ranks, olds[i]);
        store.Delete2(olds[i]);
        assert base.v2 - Dropped(olds, ranks, i + 1) == base.v2 - Dropped(olds, ranks, i) - {olds[i]};
      }
      i := i + 1;
    }
  }

  lemma OnlyNewLeft(rows: Rows, olds: seq<Rank>, ranks: seq<Rank>, items: seq<Raw>)
    requires Copied(rows, olds, items, ranks)
    ensures forall k :: k in rows - Dropped(olds, ranks, |olds|) ==> k in ranks
  {
    assert olds[..|olds|] == olds;
    forall k | k in rows - Dropped(olds, ranks, |olds|) ensures k in ranks {
      if k !in ranks { DroppedAll(olds, ranks, |olds|, k); }
    }
  }

  ghost function Dropped(olds: seq<Rank>, ranks: seq<Rank>, i: nat): set<Rank>
    requires i <= |olds|
  {
    if i == 0 then {} else Dropped(olds, ranks, i - 1) + if olds[i - 1] in ranks then {} else {olds[i - 1]}
  }

  lemma {:induction false} DroppedAll(olds: seq<Rank>, ranks: seq<Rank>, i: nat, k: Rank)
    requires i <= |olds| && k !in ranks && k !in Dropped(olds, ranks, i)
    ensures k !in olds[..i]
  {
    if i > 0 {
      DroppedAll(olds, ranks, i - 1, k);
      assert olds[..i] == olds[..i - 1] + [olds[i - 1]];
    }
  }

  lemma HoldsWithout(rows: Rows, items: seq<Raw>, at: seq<Rank>, k: Rank)
    requires HoldsAt(rows, items, at) && k !in at
    ensures HoldsAt(rows - {k}, items, at)
  {}

  lemma HeldExactly(rows: Rows, items: seq<Raw>, at: seq<Rank>)
    requires HoldsAt(rows, items, at) && forall k :: k in rows ==> k in at
    ensures Sorted(rows.Keys) == at && Items(rows) == items
  {
    KeyCount(at, rows.Keys);
    SortedIs(at, rows.Keys);
  }

  lemma {:induction false} KeyCount(at: seq<Rank>, s: set<Rank>)
    requires Ascending(at) && (forall i :: 0 <= i < |at| ==> at[i] in s) && (forall k :: k in s ==> k in at)
    ensures |at| == |s|
  {
    if at == [] {
      assert s == {};
    } else {
      Distinct(at);
      assert at == [at[0]] + at[1..];
      KeyCount(at[1..], s - {at[0]});
    }
  }
}
