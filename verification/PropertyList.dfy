/** One instance of the distributed list: both storage formats, its metadata cache, its rank
    cache and its stashed metadata read. The only writer of its rows while a call runs. */
module PropertyList {
  import opened Options
  import opened Order
  import opened Keys
  import opened Ranked
  import opened PyList
  import opened ListModel
  import opened RowStore
  import opened Shift
  import opened Migration
  import opened Rebalance
  import opened ListFacts

  /** A metadata read taken at dispatch, for the first compare-and-swap to use. */
  datatype Stash = NoStash | Stashed(row: Option<Meta>)

  /** The conditional creates of one `extend`, up to the first key over the cap. */
  method CreateRows(store: Store, candidates: seq<Rank>, items: seq<Raw>, ghost ks: seq<Rank>) returns (n: nat)
    requires |candidates| == |items| && Ascending(candidates) && ks == Sorted(store.db.v2.Keys)
    requires ks != [] ==> forall i :: 0 <= i < |candidates| ==> Less(ks[|ks| - 1], candidates[i])
    modifies store
    ensures n == WithinCap(candidates, 0)
    ensures store.db == old(store.db).(v2 := store.db.v2) && Submap(old(store.db).v2, store.db.v2)
    ensures Sorted(store.db.v2.Keys) == ks + candidates[..n]
    ensures Items(store.db.v2) == Items(old(store.db).v2) + items[..n]
    ensures n == 0 ==> store.db == old(store.db)
  {
    ghost var base := store.db;
    n := 0;
    LandedStart(ks, candidates, items, base.v2);
    while n < |items|
      invariant n <= |items| && store.db == base.(v2 := store.db.v2) && Submap(base.v2, store.db.v2)
      invariant Landed(ks, candidates, items, n, base.v2, store.db.v2)
      invariant n == 0 ==> store.db == base
      invariant WithinCap(candidates, 0) == WithinCap(candidates, n)
    {
      if |candidates[n]| > RANK_MAX_LEN {
        return;
      }
      LandedStep(ks, candidates, items, n, base.v2, store.db.v2);
      var created := store.Create2(candidates[n], items[n]);
      assert created;
      n := n + 1;
    }
  }

  method MatchedIndices(s: seq<Raw>, p: Match) returns (r: seq<nat>)
    ensures r == MatchIndex(s, p, |s|)
    ensures forall k :: 0 <= k < |r| ==> r[k] < |s|
  {
    r := [];
    var i := 0;
    while i < |s|
      invariant i <= |s| && r == MatchIndex(s, p, i) && forall k :: 0 <= k < |r| ==> r[k] < i
    {
      if p(s[i]) { r := r + [i]; }
      i := i + 1;
    }
  }

  class ListProperty {
    const store: Store
    const g: KeyGen
    /** Whether the list's name contains '#', and whether a plain property has that name. */
    const hasHash: bool
    const nameTaken: bool
    var metaCache: Option<Meta>
    var rankCache: Option<seq<Rank>>
    var stash: Stash
    /** ACTINGWEB_LAZY_MIGRATION_MAX_LENGTH and the clock: set by the environment. */
    var lazyMax: int
    var now: string

    constructor (store: Store, g: KeyGen, hasHash: bool, nameTaken: bool, lazyMax: int, now: string)
      requires Sound(g) && (IsV2(store.db) || Recorded(store.db))
      ensures Loaded() && this.store == store && this.g == g && this.hasHash == hasHash
      ensures this.nameTaken == nameTaken && this.lazyMax == lazyMax && this.now == now
    {
      this.store := store;
      this.g := g;
      this.hasHash := hasHash;
      this.nameTaken := nameTaken;
      this.lazyMax := lazyMax;
      this.now := now;
      metaCache, rankCache, stash := None, None, NoStash;
    }

    /** The list, in whichever format it is stored. */
    ghost function Abs(): seq<Raw>
      reads this, store
    {
      Content(store.db)
    }

    /** A list that exists, or one that may be created under this name. */
    predicate Usable()
      reads this, store
    {
      store.db.meta.Some? || (!hasHash && !nameTaken)
    }

    /** What the instance remembers is what is stored. */
    ghost predicate CachesAgree()
      reads this, store
    {
      && (metaCache.Some? ==>
            if store.db.meta.Some? then metaCache == store.db.meta
            else Usable() && FormatOf(metaCache.value) == 2)
      && (rankCache.Some? ==> IsV2(store.db) && rankCache.value == Sorted(store.db.v2.Keys))
    }

    /** Any list whose caches agree with storage, whatever rows there are. */
    ghost predicate Loaded()
      reads this, store
    {
      Sound(g) && (IsV2(store.db) || Recorded(store.db)) && CachesAgree()
    }

    /** It may be damaged, and rows may be left over from another list of that name or from the other
        format; but its ranks are keys, and a list that cannot be created has no rows to change. */
    ghost predicate Valid()
      reads this, store
    {
      Loaded() && Sane(g, store.db) && (Usable() || store.db.v2 == map[])
    }

    /** No hole: every item can be read. Format 2 lists have none. */
    ghost predicate Complete()
      reads store
    {
      NoHoles(store.db)
    }

    /** The rows the next mutation works on: after its lazy migration, if there is one. */
    ghost function Lazy(): View
      reads this, store
    {
      AfterLazy(g, store.db, hasHash, lazyMax, now)
    }

    // ---- metadata ----

    /** `_load_metadata`; `None` stands for the ValueError that refuses to create the list. */
    method LoadMetadata() returns (r: Option<Meta>)
      requires CachesAgree()
      modifies this`metaCache
      ensures CachesAgree()
      ensures r.None? <==> !Usable()
      ensures r.Some? ==> metaCache == r && (store.db.meta.Some? ==> r == store.db.meta)
      ensures r.Some? && store.db.meta.None? ==> FormatOf(r.value) == 2
      ensures r.Some? && store.db.meta.None? && old(metaCache).None? ==> r.value == DefaultV2(now)
    {
      if metaCache.Some? {
        return metaCache;
      }
      if store.db.meta.None? {
        if hasHash || nameTaken {
          return None;
        }
        metaCache := Some(DefaultV2(now));
      } else {
        metaCache := store.db.meta;
      }
      r := metaCache;
    }

    method InvalidateCache()
      modifies this`metaCache, this`rankCache
      ensures metaCache == None && rankCache == None
    {
      metaCache, rankCache := None, None;
    }

    /** `_dispatch_and_stash`: decide the format from storage, not from the cache. */
    method Dispatch() returns (two: bool)
      modifies this`stash
      ensures stash == Stashed(store.db.meta) && two == IsV2(store.db)
    {
      stash := Stashed(store.db.meta);
      two := store.db.meta.None? || FormatOf(store.db.meta.value) == 2;
    }

    /** `_save_metadata` when no other writer interferes: one retry at most, after a stash that
        an earlier call left behind. Answers whether the row could be written. */
    method SaveMetadata(updates: Meta, createIfAbsent: bool, countDelta: int, lengthDelta: int, advisory: bool)
        returns (ok: bool)
      requires CachesAgree()
      requires !createIfAbsent && stash.Stashed? ==> stash.row == store.db.meta
      modifies this`metaCache, this`rankCache, this`stash, store
      ensures store.db.v1 == old(store.db).v1 && store.db.v2 == old(store.db).v2
      ensures old(store.db).meta.Some? ==>
                ok && store.db.meta == Some(Stamped(Merge(old(store.db).meta.value, updates, countDelta, lengthDelta), now))
      ensures old(store.db).meta.None? && (!createIfAbsent || hasHash || nameTaken) ==> store.db.meta == None
      ensures old(store.db).meta.None? && createIfAbsent && !hasHash && !nameTaken ==>
                ok && store.db.meta == Some(Stamped(Merge(DefaultV2(now), updates, countDelta, lengthDelta), now))
      ensures old(store.db).meta.None? && createIfAbsent && (hasHash || nameTaken) ==> !ok
      ensures metaCache == store.db.meta
      ensures rankCache == old(rankCache) || rankCache == None
    {
      var maxAttempts := if advisory then METADATA_CAS_ADVISORY_MAX_ATTEMPTS else METADATA_CAS_MAX_ATTEMPTS;
      var attempt := 0;
      while attempt < maxAttempts
        invariant attempt <= 1 && store.db == old(store.db) && CachesAgree()
        invariant !createIfAbsent && stash.Stashed? ==> stash.row == store.db.meta
        invariant attempt == 1 ==> stash == NoStash
        invariant metaCache == old(metaCache) && rankCache == old(rankCache)
      {
        var stored := store.db.meta;
        if attempt == 0 && stash.Stashed? {
          stored := stash.row;
          stash := NoStash;
        }
        if stored.None? {
          InvalidateCache();
          if !createIfAbsent {
            return true;
          }
          var loaded := LoadMetadata();
          if loaded.None? {
            return false;
          }
          var meta := Stamped(Merge(loaded.value, updates, countDelta, lengthDelta), now);
          store.PutMeta(meta);
          metaCache := Some(meta);
          return true;
        }
        var meta := Stamped(Merge(stored.value, updates, countDelta, lengthDelta), now);
        var swapped := store.CasMeta(stored.value, meta);
        if swapped {
          metaCache := Some(meta);
          return true;
        }
        attempt := attempt + 1;
      }
      ok := advisory;
    }

    /** `_v2_ensure_rank_cache`. */
    method EnsureRankCache(force: bool) returns (ranks: seq<Rank>)
      requires CachesAgree() && IsV2(store.db)
      modifies this`rankCache
      ensures ranks == Sorted(store.db.v2.Keys) && rankCache == Some(ranks)
    {
      if rankCache.Some? && !force {
        return rankCache.value;
      }
      ranks := SortKeys(store.db.v2.Keys);
      rankCache := Some(ranks);
    }

    /** `_v2_last_rank`, on this list's rows. The greatest-row read in the shared table, and what
        makes it fall back to a full read that warms the cache, is `TableSlices.LastRank`. */
    method LastRank() returns (last: Option<Rank>)
      requires CachesAgree() && IsV2(store.db)
      modifies this`rankCache
      ensures CachesAgree() && last == LastOf(Sorted(store.db.v2.Keys))
      ensures rankCache == old(rankCache) || rankCache == Some(Sorted(store.db.v2.Keys))
    {
      var ranks;
      if * {
        ranks := EnsureRankCache(true);
      } else {
        ranks := SortKeys(store.db.v2.Keys);
      }
      last := LastOf(ranks);
    }

    /** `_v2_touch_metadata`: record a committed row change; an exact count wins over a delta.
        The row is created if the list does not exist yet. */
    method TouchMetadata(count: Option<nat>, countDelta: int)
      requires Sound(g) && CachesAgree() && Usable() && Committed2(g, store.db)
      modifies this`metaCache, this`rankCache, this`stash, store
      ensures store.db.v1 == old(store.db).v1 && store.db.v2 == old(store.db).v2
      ensures Valid() && IsV2(store.db) && store.db.meta.Some?
      ensures (if count.Some? then count.value == |store.db.v2| else HintBehind(old(store.db), countDelta))
              ==> HintExact(store.db)
      ensures (old(SweepSound(store.db)) ==> SweepSound(store.db)) && NotesKept(old(store.db), store.db)
    {
      ghost var m := if store.db.meta.Some? then store.db.meta.value else DefaultV2(now);
      TouchFacts(m, count, countDelta, now);
      var _ := SaveMetadata(if count.Some? then map[CountHint := Num(count.value)] else map[],
                            true, if count.Some? then 0 else countDelta, 0, true);
    }

    // ---- reading ----

    /** `__len__`. */
    method ListLength() returns (n: nat)
      requires Valid() && Usable()
      modifies this`metaCache, this`rankCache
      ensures Valid() && n == LengthIn(store.db) && (Complete() ==> n == |Abs()|)
    {
      SlotsAreContent(store.db);
      var meta := LoadMetadata();
      if FormatOf(meta.value) == 2 {
        var ranks := EnsureRankCache(false);
        n := |ranks|;
      } else {
        n := LengthOf(meta.value);
      }
    }

    /** The version 1 item loop over `[lo, hi)`: the items, or an error at the first hole. */
    method ReadRows(lo: nat, hi: nat) returns (a: Answer)
      requires !IsV2(store.db) && lo <= hi <= LengthIn(store.db)
      ensures SlotsRead(Slots(store.db), (lo, hi), a)
    {
      var items: seq<Raw> := [];
      var i := lo;
      ghost var slots := Slots(store.db);
      while i < hi
        invariant lo <= i <= hi && |items| == i - lo
        invariant forall k :: lo <= k < i ==> slots[k].Some?
        invariant forall j, k :: 0 <= j < |items| && k == lo + j ==> slots[k] == Some(items[j])
      {
        if i !in store.db.v1 {
          assert slots[i].None?;
          return Failed(Corruption);
        }
        items := items + [store.db.v1[i]];
        i := i + 1;
      }
      a := Many(items);
    }

    /** `to_list`: the whole list in order, or an error at a hole. */
    method ReadAll() returns (a: Answer)
      requires Valid() && Usable()
      modifies this`metaCache, this`rankCache
      ensures Valid() && a == if Complete() then Many(Abs()) else Failed(Corruption)
    {
      SlotsAreContent(store.db);
      var meta := LoadMetadata();
      if FormatOf(meta.value) == 2 {
        var items := LoadFull();
        a := Many(items);
      } else {
        a := ReadRows(0, LengthOf(meta.value));
        if a.Many? {
          assert a.items == Abs();
        }
      }
    }

    /** `_v2_load_full`. */
    method LoadFull() returns (items: seq<Raw>)
      requires CachesAgree() && IsV2(store.db)
      modifies this`rankCache
      ensures CachesAgree() && items == Abs()
    {
      var ranks := EnsureRankCache(true);
      ghost var all := Abs();
      items := [];
      var i := 0;
      while i < |ranks|
        invariant i <= |ranks| == |all| && |items| == i
        invariant forall j :: 0 <= j < i ==> items[j] == all[j]
      {
        items := items + [store.db.v2[ranks[i]]];
        i := i + 1;
      }
    }

    /** `__getitem__`: out of range and missing are different errors. */
    method GetItem(index: int) returns (a: Answer)
      requires Valid()
      modifies this`metaCache, this`rankCache
      ensures Valid()
      ensures a == if Usable() then Fetched(Slots(store.db), index) else Failed(ValueError)
      ensures Usable() && Complete() ==> a == Apply(Op.GetItem(index), Abs()).1
    {
      SlotsAreContent(store.db);
      var meta := LoadMetadata();
      if meta.None? {
        return Failed(ValueError);
      }
      if FormatOf(meta.value) == 2 {
        var ranks := EnsureRankCache(true);
        if !InRange(index, |ranks|) {
          return Failed(IndexError);
        }
        return Item(store.db.v2[ranks[At(index, |ranks|)]]);
      }
      var n := LengthOf(meta.value);
      if !InRange(index, n) {
        return Failed(IndexError);
      }
      var i := At(index, n);
      return if i in store.db.v1 then Item(store.db.v1[i]) else Failed(Corruption);
    }

    /** `slice`: only a hole within the bounds is an error. */
    method Slice(start: int, end: int) returns (a: Answer)
      requires Valid()
      modifies this`metaCache, this`rankCache
      ensures Valid()
      ensures !Usable() ==> a == Failed(ValueError)
      ensures Usable() ==> SlotsRead(Slots(store.db), SliceBounds(start, end, LengthIn(store.db)), a)
      ensures Usable() && Complete() ==> a == Apply(Op.Slice(start, end), Abs()).1
    {
      SlotsAreContent(store.db);
      ghost var slots, bounds := Slots(store.db), SliceBounds(start, end, LengthIn(store.db));
      var meta := LoadMetadata();
      if meta.None? {
        return Failed(ValueError);
      }
      if FormatOf(meta.value) == 2 {
        var items := LoadFull();
        var b := SliceBounds(start, end, |items|);
        assert b == bounds;
        ReadOfSlots(slots, items, bounds);
        a := Many(items[b.0..b.1]);
      } else {
        var b := SliceBounds(start, end, LengthOf(meta.value));
        assert b == bounds && b == (b.0, b.1);
        a := ReadRows(b.0, b.1);
      }
      assert SlotsRead(slots, bounds, a);
      if Complete() {
        SlotsReadIs(slots, Abs(), bounds, a);
      }
    }

    /** `index`: the first match between normalised bounds, unless a hole comes first. */
    method IndexOf(p: Match, start: int, stop: int, openEnd: bool) returns (a: Answer)
      requires Valid()
      modifies this`metaCache, this`rankCache
      ensures Valid()
      ensures !Usable() ==> a == Failed(ValueError)
      ensures Usable() ==> a == Searched(Slots(store.db), p, SearchBounds(start, stop, openEnd, LengthIn(store.db)))
      ensures Usable() && Complete() ==> a == Apply(Op.IndexOf(p, start, stop, openEnd), Abs()).1
    {
      SlotsAreContent(store.db);
      ghost var slots := Slots(store.db);
      var meta := LoadMetadata();
      if meta.None? {
        return Failed(ValueError);
      }
      if Complete() {
        SearchedIs(slots, Abs(), p, start, stop, openEnd);
      }
      var two := FormatOf(meta.value) == 2;
      var items: seq<Raw> := [];
      if two {
        items := LoadFull();
      }
      var b := SearchBounds(start, stop, openEnd, if two then |items| else LengthOf(meta.value));
      if b.0 > b.1 {
        return Failed(ValueError);
      }
      var i := b.0;
      while i < b.1
        invariant b.0 <= i <= b.1 && FirstStop(slots, p, b.0, b.1) == FirstStop(slots, p, i, b.1)
      {
        if !two && i !in store.db.v1 {
          return Failed(Corruption);
        }
        if p(if two then items[i] else store.db.v1[i]) {
          return Number(i);
        }
        i := i + 1;
      }
      a := Failed(ValueError);
    }

    // ---- changing version 2 rows ----

    /** Refused exactly when the key after the last one is too long. */
    method AppendV2(item: Raw) returns (a: Answer)
      requires Valid() && Usable() && IsV2(store.db)
      modifies this`metaCache, this`rankCache, this`stash, store
      ensures Valid() && Keeps(g, old(store.db), store.db)
      ensures a == if TooLong(EndKey(g, old(store.db).v2)) then Failed(RankCap) else Done
      ensures a != Done ==> store.db == old(store.db)
      ensures Abs() == if a == Done then old(Abs()) + [item] else old(Abs())
      ensures a == Done ==> store.db.v2 == old(store.db).v2[EndKey(g, old(store.db).v2) := item]
      ensures IsV2(store.db) && store.db.v1 == old(store.db).v1
      ensures Usable()
    {
      var last := LastRank();
      var candidate := g.between(last, None);
      if |candidate| > RANK_MAX_LEN {
        return Failed(RankCap);
      }
      ghost var before := store.db;
      assert Bounds(g, last, None);
      InsertRow(before.v2, candidate, item, |before.v2|);
      var created := store.Create2(candidate, item);
      assert created;
      if rankCache.Some? {
        rankCache := Some(rankCache.value + [candidate]);
        assert rankCache.value == Inserted(Sorted(before.v2.Keys), |before.v2|, candidate);
      }
      TouchMetadata(None, 1);
      a := Done;
    }

    /** `_v2_extend`. When the rank cap stops it part way, the rows already created stay, and
        neither the hint nor a warm rank cache learns of them: a hint that was exact stays so
        exactly when no key was too long, or the first one already was. */
    method ExtendV2(items: seq<Raw>) returns (a: Answer, ghost landed: nat)
      requires Valid() && Usable() && IsV2(store.db) && items != []
      modifies this`metaCache, this`rankCache, this`stash, store
      ensures BatchAdded(g, old(store.db), store.db, items, landed, a)
      ensures a == if landed == |items| then Done else Failed(RankCap)
      ensures Abs() == old(Abs()) + items[..landed]
      ensures Sorted(store.db.v2.Keys) == old(Sorted(store.db.v2.Keys)) + EndKeys(g, old(store.db).v2, |items|)[..landed]
      ensures a == Done ==> Valid() && Keeps(g, old(store.db), store.db)
      ensures landed == 0 ==> Valid() && store.db == old(store.db)
      ensures a != Done && landed > 0 && rankCache.Some? ==> |rankCache.value| == |store.db.v2| - landed
      ensures a != Done && old(HintExact(store.db)) ==> HintBehind(store.db, landed)
      ensures old(HintExact(store.db) && HasHint(store.db)) ==>
                (HintExact(store.db) <==> AllOrNothing(EndKeys(g, old(store.db).v2, |items|)))
      ensures IsV2(store.db) && store.db.v1 == old(store.db).v1
    {
      ghost var ks := Sorted(store.db.v2.Keys);
      var candidates, n := CreateAtEnd(items);
      WithinCapEnds(candidates);
      landed := n;
      if n < |items| {
        return Failed(RankCap), landed;
      }
      assert items[..|items|] == items && candidates[..|items|] == candidates;
      if rankCache.Some? {
        rankCache := Some(rankCache.value + candidates);
      }
      KeysStay(g, ks, candidates, store.db.v2);
      TouchMetadata(None, |items|);
      a := Done;
    }

    /** The row writes of `extend`. */
    method CreateAtEnd(items: seq<Raw>) returns (candidates: seq<Rank>, n: nat)
      requires Valid() && IsV2(store.db)
      modifies this`rankCache, store
      ensures candidates == EndKeys(g, old(store.db).v2, |items|) && n == WithinCap(candidates, 0)
      ensures forall i :: 0 <= i < |candidates| ==> g.isKey(candidates[i])
      ensures store.db == old(store.db).(v2 := store.db.v2) && Submap(old(store.db).v2, store.db.v2)
      ensures Sorted(store.db.v2.Keys) == old(Sorted(store.db.v2.Keys)) + candidates[..n]
      ensures Abs() == old(Abs()) + items[..n] && (n == 0 ==> store.db == old(store.db))
      ensures rankCache.Some? ==> rankCache.value == old(Sorted(store.db.v2.Keys))
    {
      var last := LastRank();
      candidates := NKeys(g, last, |items|);
      assert Bounds(g, last, None);
      NKeysAscend(g, last, |items|);
      n := CreateRows(store, candidates, items, Sorted(store.db.v2.Keys));
    }

    /** Refused exactly when the key between the neighbours is too long. */
    method InsertV2(index: int, item: Raw) returns (a: Answer)
      requires Valid() && Usable() && IsV2(store.db)
      modifies this`metaCache, this`rankCache, this`stash, store
      ensures Valid() && Keeps(g, old(store.db), store.db)
      ensures a == if TooLong(GapKey(g, old(Sorted(store.db.v2.Keys)), index)) then Failed(RankCap) else Done
      ensures a != Done ==> store.db == old(store.db)
      ensures Abs() == if a == Done then Apply(Op.Insert(index, item), old(Abs())).0 else old(Abs())
      ensures a == Done ==>
                store.db.v2 == old(store.db).v2[GapKey(g, old(Sorted(store.db.v2.Keys)), index) := item]
      ensures IsV2(store.db) && store.db.v1 == old(store.db).v1
      ensures Usable()
    {
      var ranks := EnsureRankCache(false);
      var pos := InsertPos(index, |ranks|);
      var lower := if pos > 0 then Some(ranks[pos - 1]) else None;
      var upper := if pos < |ranks| then Some(ranks[pos]) else None;
      assert Bounds(g, lower, upper);
      var candidate := g.between(lower, upper);
      if |candidate| > RANK_MAX_LEN {
        return Failed(RankCap);
      }
      InsertRow(store.db.v2, candidate, item, pos);
      var created := store.Create2(candidate, item);
      assert created;
      rankCache := Some(Inserted(ranks, pos, candidate));
      TouchMetadata(None, 1);
      a := Done;
    }

    method SetItemV2(index: int, value: Raw) returns (a: Answer)
      requires Valid() && Usable() && IsV2(store.db)
      modifies this`metaCache, this`rankCache, this`stash, store
      ensures Valid() && Keeps(g, old(store.db), store.db)
      ensures (Abs(), a) == Apply(PyList.SetItem(index, value), old(Abs()))
      ensures IsV2(store.db) && store.db.v1 == old(store.db).v1
      ensures Usable()
    {
      var ranks := EnsureRankCache(true);
      if !InRange(index, |ranks|) {
        return Failed(IndexError);
      }
      var i := At(index, |ranks|);
      UpdateRow(store.db.v2, i, value);
      store.Put2(ranks[i], value);
      TouchMetadata(Some(|ranks|), 0);
      a := Done;
    }

    method DelItemV2(index: int) returns (a: Answer)
      requires Valid() && Usable() && IsV2(store.db)
      modifies this`metaCache, this`rankCache, this`stash, store
      ensures Valid() && Keeps(g, old(store.db), store.db)
      ensures (Abs(), a) == Apply(PyList.DelItem(index), old(Abs()))
      ensures IsV2(store.db) && store.db.v1 == old(store.db).v1
      ensures Usable()
    {
      var ranks := EnsureRankCache(true);
      if !InRange(index, |ranks|) {
        return Failed(IndexError);
      }
      var i := At(index, |ranks|);
      DeleteRow(store.db.v2, i);
      store.Delete2(ranks[i]);
      rankCache := Some(Deleted(ranks, i));
      TouchMetadata(Some(|ranks| - 1), 0);
      a := Done;
    }

    /** `_v2_pop`: the row read is the row deleted. Works on a list that does not exist. */
    method PopV2(index: int) returns (a: Answer)
      requires Valid() && IsV2(store.db)
      modifies this`metaCache, this`rankCache, this`stash, store
      ensures Valid() && Keeps(g, old(store.db), store.db)
      ensures (Abs(), a) == Apply(PyList.Pop(index), old(Abs()))
      ensures a.Failed? ==> store.db == old(store.db)
      ensures IsV2(store.db) && store.db.v1 == old(store.db).v1
      ensures old(Usable()) ==> Usable()
    {
      var ranks := EnsureRankCache(true);
      if !InRange(index, |ranks|) {
        return Failed(IndexError);
      }
      var i := At(index, |ranks|);
      var raw := store.db.v2[ranks[i]];
      DeleteRow(store.db.v2, i);
      var deleted := store.DeleteIf2(ranks[i], raw);
      assert deleted;
      rankCache := Some(Deleted(ranks, i));
      TouchMetadata(Some(|ranks| - 1), 0);
      a := Item(raw);
    }

    method RemoveV2(p: Match) returns (a: Answer)
      requires Valid() && IsV2(store.db)
      modifies this`metaCache, this`rankCache, this`stash, store
      ensures Valid() && Keeps(g, old(store.db), store.db)
      ensures (Abs(), a) == Apply(PyList.Remove(p), old(Abs()))
      ensures a.Failed? ==> store.db == old(store.db)
      ensures IsV2(store.db) && store.db.v1 == old(store.db).v1
      ensures old(Usable()) ==> Usable()
    {
      var ranks := EnsureRankCache(true);
      var i := 0;
      while i < |ranks|
        invariant i <= |ranks| && FirstIndex(Abs(), p, 0, |ranks|) == FirstIndex(Abs(), p, i, |ranks|)
        invariant Valid() && store.db == old(store.db)
      {
        var raw := store.db.v2[ranks[i]];
        if p(raw) {
          DeleteRow(store.db.v2, i);
          var deleted := store.DeleteIf2(ranks[i], raw);
          assert deleted;
          rankCache := Some(Deleted(ranks, i));
          TouchMetadata(Some(|ranks| - 1), 0);
          return Done;
        }
        i := i + 1;
      }
      a := Failed(ValueError);
    }

    /** `delete_by_handle`: `None` is the ValueError that refuses a version 1 list; a handle that
        is no longer current deletes nothing. */
    method DeleteByHandle(rank: Rank, raw: Raw) returns (ok: Option<bool>, ghost at: nat)
      requires Valid()
      modifies this`metaCache, this`rankCache, this`stash, store
      ensures Valid() && Keeps(g, old(store.db), store.db) && (old(Usable()) ==> Usable())
      ensures ok == if !IsV2(old(store.db)) then None
                    else Some(rank in old(store.db).v2 && old(store.db).v2[rank] == raw)
      ensures ok != Some(true) ==> store.db == old(store.db)
      ensures ok == Some(true) ==>
                && at < |old(Abs())| && old(Sorted(store.db.v2.Keys))[at] == rank
                && Abs() == Deleted(old(Abs()), at)
                && Sorted(store.db.v2.Keys) == Deleted(old(Sorted(store.db.v2.Keys)), at)
      ensures IsV2(store.db) == IsV2(old(store.db)) && store.db.v1 == old(store.db).v1
    {
      at := 0;
      var two := Dispatch();
      if !two {
        return None, at;
      }
      var deleted := store.DeleteIf2(rank, raw);
      if !deleted {
        return Some(false), at;
      }
      at := Ranked.IndexOf(old(Sorted(store.db.v2.Keys)), old(store.db).v2.Keys, rank);
      DeleteRow(old(store.db).v2, at);
      if rankCache.Some? {
        var i := 0;
        Distinct(rankCache.value);
        while rankCache.value[i] != rank
          invariant i <= at
          decreases at - i
        {
          i := i + 1;
        }
        rankCache := Some(Deleted(rankCache.value, i));
      }
      TouchMetadata(None, -1);
      ok := Some(true);
    }

    /** `update_by_handle`, likewise. */
    method UpdateByHandle(rank: Rank, raw: Raw, item: Raw) returns (ok: Option<bool>, ghost at: nat)
      requires Valid()
      modifies this`metaCache, this`rankCache, this`stash, store
      ensures Valid() && Keeps(g, old(store.db), store.db) && (old(Usable()) ==> Usable())
      ensures ok == if !IsV2(old(store.db)) then None
                    else Some(rank in old(store.db).v2 && old(store.db).v2[rank] == raw)
      ensures ok != Some(true) ==> store.db == old(store.db)
      ensures ok == Some(true) ==>
                && at < |old(Abs())| && old(Sorted(store.db.v2.Keys))[at] == rank && Abs() == old(Abs())[at := item]
                && Sorted(store.db.v2.Keys) == old(Sorted(store.db.v2.Keys))
      ensures IsV2(store.db) == IsV2(old(store.db)) && store.db.v1 == old(store.db).v1
    {
      at := 0;
      var two := Dispatch();
      if !two {
        return None, at;
      }
      var updated := store.SetIf2(rank, raw, item);
      if !updated {
        return Some(false), at;
      }
      at := Ranked.IndexOf(old(Sorted(store.db.v2.Keys)), old(store.db).v2.Keys, rank);
      UpdateRow(old(store.db).v2, at, item);
      TouchMetadata(None, 0);
      ok := Some(true);
    }

    method RemoveWhereV2(p: Match, firstOnly: bool) returns (a: Answer, ghost order: seq<nat>)
      requires Valid() && IsV2(store.db)
      modifies this`metaCache, this`rankCache, this`stash, store
      ensures Valid() && Keeps(g, old(store.db), store.db)
      ensures (Abs(), a) == Apply(Op.RemoveWhere(p, firstOnly), old(Abs()))
      ensures order == Picked(old(Abs()), p, firstOnly)
      ensures IsV2(store.db) && store.db.v1 == old(store.db).v1
      ensures old(Usable()) ==> Usable()
    {
      ghost var s := Abs();
      var removed;
      ghost var kept;
      removed, kept, order := ScanAndDelete(p, firstOnly);
      ScannedIs(s, p, firstOnly, Abs(), kept, removed, order);
      a := Many(removed);
    }

    /** `order` lists the positions in the order in which their rows went. */
    method ScanAndDelete(p: Match, firstOnly: bool) returns (removed: seq<Raw>, ghost kept: seq<Raw>, ghost order: seq<nat>)
      requires Valid() && IsV2(store.db)
      modifies this`metaCache, this`rankCache, this`stash, store
      ensures Valid() && Keeps(g, old(store.db), store.db)
      ensures Scanned(old(Abs()), p, firstOnly, Abs(), kept, removed, order)
      ensures IsV2(store.db) && store.db.v1 == old(store.db).v1
      ensures old(Usable()) ==> Usable()
    {
      var ranks := EnsureRankCache(true);
      ghost var s, base := Abs(), store.db;
      kept, removed, order := [], [], [];
      var rows := store.db.v2;
      assert |s| == |ranks| && forall j :: 0 <= j < |ranks| ==> ranks[j] in rows && s[j] == rows[ranks[j]];
      WhereStart(s, ranks, p);
      var i := 0;
      while i < |ranks|
        invariant old(Usable()) ==> Usable()
        invariant i <= |ranks| && Valid() && IsV2(store.db) && store.db.v1 == base.v1
        invariant Keeps(g, base, store.db)
        invariant WhereState(s, ranks, p, i, kept, removed, order)
        invariant WhereRows(s, ranks, i, kept, Abs(), Sorted(store.db.v2.Keys))
        invariant firstOnly ==> NoneBefore(s, p, i)
      {
        ghost var before := store.db;
        var next := i + 1;
        var hit;
        hit, kept, removed, order := DeleteIfMatch(ranks, s, p, i, next, kept, removed, order, rows[ranks[i]]);
        KeepsOn(g, base, before, store.db);
        if hit && firstOnly {
          FirstHit(s, p, i, Abs(), kept, removed, order);
          return;
        }
        i := next;
      }
      ScanEnds(s, ranks, p, i, kept, removed, order, Abs(), Sorted(store.db.v2.Keys), firstOnly);
    }

    method DeleteIfMatch(ranks: seq<Rank>, ghost s: seq<Raw>, p: Match, i: nat, ghost next: nat,
                         ghost kept: seq<Raw>, removed: seq<Raw>, ghost order: seq<nat>, raw: Raw)
        returns (hit: bool, ghost kept': seq<Raw>, removed': seq<Raw>, ghost order': seq<nat>)
      requires Valid() && IsV2(store.db) && i < |s| && next == i + 1
      requires WhereState(s, ranks, p, i, kept, removed, order) && raw == s[i]
      requires WhereRows(s, ranks, i, kept, Abs(), Sorted(store.db.v2.Keys))
      modifies this`metaCache, this`rankCache, this`stash, store
      ensures Valid() && Keeps(g, old(store.db), store.db)
      ensures hit == p(raw) && IsV2(store.db) && store.db.v1 == old(store.db).v1
      ensures WhereState(s, ranks, p, next, kept', removed', order')
      ensures WhereRows(s, ranks, next, kept', Abs(), Sorted(store.db.v2.Keys))
      ensures NoneBefore(s, p, i) ==>
                if hit then Abs() == Deleted(s, i) && removed' == [s[i]] && order' == [i] else NoneBefore(s, p, next)
      ensures old(Usable()) ==> Usable()
    {
      WhereStep(s, ranks, p, i, kept, Abs(), Sorted(store.db.v2.Keys), removed, order);
      if NoneBefore(s, p, i) {
        FirstStep(s, ranks, p, i, kept, Abs(), Sorted(store.db.v2.Keys), removed, order);
      }
      hit, kept', removed', order' := p(raw), kept, removed, order;
      if hit {
        Distinct(Sorted(store.db.v2.Keys));
        var ok, at := DeleteByHandle(ranks[i], raw);
        removed', order' := removed + [raw], order + [i];
      } else {
        kept' := kept + [raw];
      }
    }

    method UpdateWhereV2(p: Match, item: Raw, firstOnly: bool) returns (a: Answer)
      requires Valid() && IsV2(store.db)
      modifies this`metaCache, this`rankCache, this`stash, store
      ensures Valid() && Keeps(g, old(store.db), store.db)
      ensures (Abs(), a) == Apply(Op.UpdateWhere(p, item, firstOnly), old(Abs()))
      ensures IsV2(store.db) && store.db.v1 == old(store.db).v1
      ensures old(Usable()) ==> Usable()
    {
      var ranks := EnsureRankCache(true);
      ghost var s, base := Abs(), store.db;
      var rows := store.db.v2;
      var updated: seq<Raw> := [];
      var i := 0;
      while i < |ranks|
        invariant old(Usable()) ==> Usable()
        invariant i <= |ranks| && Valid() && IsV2(store.db) && store.db.v1 == base.v1
        invariant Keeps(g, base, store.db) && Sorted(store.db.v2.Keys) == ranks
        invariant UpdateState(s, p, item, firstOnly, i, Abs(), updated)
      {
        ghost var before := store.db;
        var next := i + 1;
        var hit;
        hit, updated := UpdateIfMatch(ranks, s, p, item, firstOnly, i, next, updated, rows[ranks[i]]);
        KeepsOn(g, base, before, store.db);
        if hit && firstOnly {
          return Many(updated);
        }
        i := next;
      }
      UpdateEnd(s, p, item, firstOnly, Abs(), updated);
      a := Many(updated);
    }

    method UpdateIfMatch(ranks: seq<Rank>, ghost s: seq<Raw>, p: Match, item: Raw, ghost firstOnly: bool, i: nat,
                         ghost next: nat, updated: seq<Raw>, raw: Raw) returns (hit: bool, updated': seq<Raw>)
      requires Valid() && IsV2(store.db) && i < |ranks| == |s| && next == i + 1 && raw == s[i]
      requires Sorted(store.db.v2.Keys) == ranks && UpdateState(s, p, item, firstOnly, i, Abs(), updated)
      modifies this`metaCache, this`rankCache, this`stash, store
      ensures Valid() && Keeps(g, old(store.db), store.db) && (old(Usable()) ==> Usable())
      ensures hit == p(raw) && IsV2(store.db) && store.db.v1 == old(store.db).v1 && Sorted(store.db.v2.Keys) == ranks
      ensures !(hit && firstOnly) ==> UpdateState(s, p, item, firstOnly, next, Abs(), updated')
      ensures hit && firstOnly ==> (Abs(), Many(updated')) == Apply(Op.UpdateWhere(p, item, firstOnly), s)
    {
      UpdateStep(s, p, item, firstOnly, i, Abs(), updated);
      hit, updated' := p(raw), updated;
      if hit {
        Distinct(ranks);
        var ok, at := UpdateByHandle(ranks[i], raw, item);
        updated' := updated + [raw];
      }
    }

    // ---- changing version 1 rows ----

    /** The metadata write after a version 1 row change. */
    method CommitV1(updates: Meta, lengthDelta: int)
      requires Sound(g) && Recorded(store.db) && CachesAgree() && stash == Stashed(store.db.meta)
      requires NamesOnlyLength(updates) && (Length in updates ==> lengthDelta == 0)
      modifies this`metaCache, this`rankCache, this`stash, store
      ensures store.db.v1 == old(store.db).v1 && store.db.v2 == old(store.db).v2
      ensures Valid() && Recorded(store.db) && (old(Exact(store.db)) ==> Exact(store.db)) && NotesKept(old(store.db), store.db)
      ensures LengthOf(store.db.meta.value) == NewLength(LengthOf(old(store.db).meta.value), updates, lengthDelta)
    {
      LengthFacts(store.db.meta.value, updates, lengthDelta, now);
      var _ := SaveMetadata(updates, false, 0, lengthDelta, false);
    }

    method AppendV1(item: Raw)
      requires Valid() && !IsV2(store.db) && stash == Stashed(store.db.meta)
      modifies this`metaCache, this`rankCache, this`stash, store
      ensures Valid() && Keeps(g, old(store.db), store.db)
      ensures RowsAfter(Op.Append(item), old(store.db), store.db)
      ensures old(Complete()) ==> Abs() == Apply(Op.Append(item), old(Abs())).0
    {
      var n := ListLength();
      store.Put1(n, item);
      CommitV1(map[], 1);
      AppendRows(Op.Append(item), old(store.db), store.db);
    }

    method InsertV1(index: int, item: Raw)
      requires Valid() && !IsV2(store.db) && stash == Stashed(store.db.meta)
      modifies this`metaCache, this`rankCache, this`stash, store
      ensures Valid() && Keeps(g, old(store.db), store.db)
      ensures RowsAfter(Op.Insert(index, item), old(store.db), store.db)
      ensures old(Complete()) ==> Abs() == Apply(Op.Insert(index, item), old(Abs())).0
    {
      var n := ListLength();
      ShiftUp(store, InsertPos(index, n), n, item);
      CommitV1(map[], 1);
      InsertRows(Op.Insert(index, item), old(store.db), store.db);
    }

    /** Also fills a hole. */
    method SetItemV1(index: int, value: Raw) returns (a: Answer)
      requires Valid() && !IsV2(store.db) && stash == Stashed(store.db.meta)
      modifies this`metaCache, this`rankCache, this`stash, store
      ensures Valid() && Keeps(g, old(store.db), store.db)
      ensures a == if InRange(index, LengthIn(old(store.db))) then Done else Failed(IndexError)
      ensures if a == Done then RowsAfter(Op.SetItem(index, value), old(store.db), store.db) else store.db == old(store.db)
      ensures old(Complete()) ==> (Abs(), a) == Apply(Op.SetItem(index, value), old(Abs()))
    {
      var n := ListLength();
      if !InRange(index, n) {
        return Failed(IndexError);
      }
      store.Put1(At(index, n), value);
      CommitV1(map[], 0);
      a := Done;
      SetRows(Op.SetItem(index, value), old(store.db), store.db);
    }

    /** Deleting a hole is possible, and holes above move down with the items. */
    method DelItemV1(index: int) returns (a: Answer)
      requires Valid() && !IsV2(store.db) && stash == Stashed(store.db.meta)
      modifies this`metaCache, this`rankCache, this`stash, store
      ensures Valid() && Keeps(g, old(store.db), store.db)
      ensures a == if InRange(index, LengthIn(old(store.db))) then Done else Failed(IndexError)
      ensures if a == Done then RowsAfter(Op.DelItem(index), old(store.db), store.db) else store.db == old(store.db)
      ensures old(Complete()) ==> (Abs(), a) == Apply(Op.DelItem(index), old(Abs()))
    {
      var n := ListLength();
      if !InRange(index, n) {
        return Failed(IndexError);
      }
      ShiftDown(store, At(index, n), n);
      CommitV1(map[Length := Num(n - 1)], 0);
      a := Done;
      DeleteRows(Op.DelItem(index), old(store.db), store.db);
    }

    // ---- format changes ----

    /** `migrate_to_v2` on this instance; `None` is the ValueError for an absent list whose name is
        taken. Migrating a damaged list on request keeps what can be read. */
    method Migrate(allowDamaged: bool) returns (r: Option<Result>)
      requires Valid()
      modifies this`metaCache, this`rankCache, store
      ensures Valid() && Keeps(g, old(store.db), store.db) && Usable() == old(Usable())
      ensures r.None? <==> !hasHash && !old(Usable())
      ensures r.Some? ==> (r.value.NameHasHash? <==> hasHash) && (r.value.AlreadyV2? <==> !hasHash && IsV2(old(store.db)))
      ensures r.Some? ==> (r.value.Refused? <==> !hasHash && !IsV2(old(store.db)) && !allowDamaged
                                                 && !Dense(old(store.db).v1, LengthIn(old(store.db))))
      ensures r.None? || r.value.NameHasHash? || r.value.Refused? ==> store.db == old(store.db)
      ensures r.Some? && r.value.AlreadyV2? ==>
                store.db == old(store.db).(v1 := old(store.db).v1 - Foreign1(old(store.db)),
                                           v2 := old(store.db).v2 - Foreign2(old(store.db)))
      ensures r.Some? && r.value.Migrated? ==>
                store.db == View(Some(Flipped(old(store.db).meta.value, now)), map[], FreshRows(g, old(Abs())))
      ensures old(store.db).meta.Some? ==> Abs() == old(Abs())
      ensures var t := now; Since(old(store.history), store.history, s => MidMigration(g, old(store.db), s, t))
    {
      if hasHash {
        return Some(NameHasHash);
      }
      InvalidateCache();
      var meta := LoadMetadata();
      if meta.None? {
        return None;
      }
      ghost var base := store.db;
      InvalidateCache();
      var result, ks := MigrateToV2(store, g, hasHash, allowDamaged, now);
      if result.Refused? {
        return Some(result);
      }
      MigratedIsSane(g, base, store.db, now);
      if result.Migrated? {
        metaCache, rankCache := store.db.meta, Some(ks);
      }
      r := Some(result);
    }

    /** `_maybe_lazy_migrate`: answers whether the metadata could be loaded. */
    method MaybeLazyMigrate() returns (ok: bool)
      requires Valid()
      modifies this`metaCache, this`rankCache, store
      ensures Valid() && ok == old(Usable()) && Usable() == old(Usable())
      ensures store.db == if ok then old(Lazy()) else old(store.db)
      ensures Abs() == old(Abs()) && Keeps(g, old(store.db), store.db) && LengthIn(store.db) == LengthIn(old(store.db))
    {
      LazyIsSane(g, store.db, hasHash, lazyMax, now);
      var meta := LoadMetadata();
      if meta.None? {
        return false;
      }
      ok := true;
      if FormatOf(meta.value) == 2 || lazyMax <= 0 || LengthOf(meta.value) > lazyMax {
        return;
      }
      MigrateIfHealthy();
    }

    method MigrateIfHealthy()
      requires Valid() && Recorded(store.db) && 0 < lazyMax && LengthOf(store.db.meta.value) <= lazyMax
      modifies this`metaCache, this`rankCache, store
      ensures Valid() && store.db == old(Lazy())
    {
      var report := Verify(store.db);
      LazyDecision(store.db, hasHash, lazyMax, report);
      if HealthyReport(report) {
        var r := Migrate(false);
        assert r.Some? && r.value == if hasHash then NameHasHash else Migrated(r.value.count);
      }
    }

    // ---- the public operations, in whichever format the list is ----

    /** On a list without holes, Python's append; on a damaged one, what happens to its rows. */
    method Append(item: Raw) returns (a: Answer)
      requires Valid()
      modifies this`metaCache, this`rankCache, this`stash, store
      ensures Valid() && Keeps(g, old(store.db), store.db) && Usable() == old(Usable())
      ensures a == if !old(Usable()) then Failed(ValueError)
                   else if KeyTooLong(g, old(Lazy()), Op.Append(item)) then Failed(RankCap) else Done
      ensures a != Done ==> store.db == if old(Usable()) then old(Lazy()) else old(store.db)
      ensures old(Complete()) ==> Abs() == if a == Done then old(Abs()) + [item] else old(Abs())
      ensures old(Usable()) ==> IsV2(store.db) == IsV2(old(Lazy()))
      ensures old(Usable()) && !IsV2(old(Lazy())) ==> RowsAfter(Op.Append(item), old(store.db), store.db)
    {
      var ok := MaybeLazyMigrate();
      if !ok {
        return Failed(ValueError);
      }
      var two := Dispatch();
      if two {
        a := AppendV2(item);
      } else {
        AppendV1(item);
        a := Done;
      }
    }

    /** Stopped by the rank cap, the items before the first key that is too long have been added. */
    method Extend(items: seq<Raw>) returns (a: Answer, ghost landed: nat)
      requires Valid()
      modifies this`metaCache, this`rankCache, this`stash, store
      ensures items == [] ==> a == Done && store.db == old(store.db)
      ensures items != [] && !old(Usable()) ==> a == Failed(ValueError) && store.db == old(store.db)
      ensures items != [] && old(Usable()) && IsV2(old(Lazy())) ==>
                BatchAdded(g, old(Lazy()), store.db, items, landed, a)
      ensures items != [] && old(Usable()) && !IsV2(old(Lazy())) ==> AppendedEach(g, old(store.db), store.db, items, landed, a)
      ensures landed <= |items| && (a == Done ==> landed == |items|) && (a == Failed(ValueError) ==> landed == 0)
      ensures a == Done || !IsV2(old(Lazy())) ==> Valid() && Keeps(g, old(store.db), store.db)
      ensures old(Complete()) ==> Abs() == old(Abs()) + items[..landed]
      ensures old(Usable()) ==> Usable()
    {
      landed := 0;
      assert Abs() + items[..0] == Abs();
      if items == [] {
        return Done, landed;
      }
      var ok := MaybeLazyMigrate();
      if !ok {
        return Failed(ValueError), landed;
      }
      var two := Dispatch();
      if two {
        a, landed := ExtendV2(items);
      } else {
        a, landed := AppendEach(items);
      }
    }

    /** The version 1 loop, one `append` after the other. */
    method AppendEach(items: seq<Raw>) returns (a: Answer, ghost landed: nat)
      requires Valid() && Usable() && !IsV2(Lazy())
      modifies this`metaCache, this`rankCache, this`stash, store
      ensures Valid() && Usable() && Keeps(g, old(store.db), store.db)
      ensures AppendedEach(g, old(store.db), store.db, items, landed, a)
      ensures old(Complete()) ==> Abs() == old(Abs()) + items[..landed]
    {
      ghost var base := store.db;
      landed := 0;
      AppendingStarts(g, base, items, hasHash, lazyMax, now);
      var i := 0;
      while i < |items|
        invariant i <= |items| && landed == i && Valid() && Usable()
        invariant Appending(g, base, store.db, items, i, hasHash, lazyMax)
      {
        a := AppendNext(base, items, i);
        if a != Done {
          return;
        }
        i, landed := i + 1, i + 1;
      }
      a := Done;
    }

    method AppendNext(ghost base: View, items: seq<Raw>, i: nat) returns (a: Answer)
      requires Valid() && Usable() && Recorded(base) && i < |items|
      requires Appending(g, base, store.db, items, i, hasHash, lazyMax)
      modifies this`metaCache, this`rankCache, this`stash, store
      ensures Valid() && Usable()
      ensures a == Done ==> Appending(g, base, store.db, items, i + 1, hasHash, lazyMax)
      ensures a != Done ==> Appending(g, base, store.db, items, i, hasHash, lazyMax)
      ensures a != Done ==> a == Failed(RankCap) && IsV2(store.db) && TooLong(EndKey(g, store.db.v2))
    {
      a := Append(items[i]);
      if a == Done {
        AppendingMore(g, base, old(store.db), store.db, items, i, hasHash, lazyMax, now);
      }
    }

    method Insert(index: int, item: Raw) returns (a: Answer)
      requires Valid()
      modifies this`metaCache, this`rankCache, this`stash, store
      ensures Valid() && Keeps(g, old(store.db), store.db) && Usable() == old(Usable())
      ensures a == if !old(Usable()) then Failed(ValueError)
                   else if KeyTooLong(g, old(Lazy()), Op.Insert(index, item)) then Failed(RankCap) else Done
      ensures a != Done ==> store.db == if old(Usable()) then old(Lazy()) else old(store.db)
      ensures old(Complete()) ==> Abs() == if a == Done then Apply(Op.Insert(index, item), old(Abs())).0 else old(Abs())
      ensures old(Usable()) && !IsV2(old(Lazy())) ==> RowsAfter(Op.Insert(index, item), old(store.db), store.db)
    {
      var ok := MaybeLazyMigrate();
      if !ok {
        return Failed(ValueError);
      }
      var two := Dispatch();
      assert store.db == old(Lazy()) && two == IsV2(store.db);
      if two {
        a := InsertV2(index, item);
      } else {
        assert store.db == old(store.db);
        InsertV1(index, item);
        a := Done;
      }
    }

    method SetItem(index: int, value: Raw) returns (a: Answer)
      requires Valid()
      modifies this`metaCache, this`rankCache, this`stash, store
      ensures Valid() && Keeps(g, old(store.db), store.db) && Usable() == old(Usable())
      ensures a == if !old(Usable()) then Failed(ValueError)
                   else if InRange(index, LengthIn(old(store.db))) then Done else Failed(IndexError)
      ensures !old(Usable()) ==> store.db == old(store.db)
      ensures old(Usable() && Complete()) ==> (Abs(), a) == Apply(Op.SetItem(index, value), old(Abs()))
      ensures old(Usable()) && !IsV2(old(Lazy())) ==>
                if a == Done then RowsAfter(Op.SetItem(index, value), old(store.db), store.db) else store.db == old(store.db)
    {
      SlotsAreContent(store.db);
      var ok := MaybeLazyMigrate();
      if !ok {
        return Failed(ValueError);
      }
      var two := Dispatch();
      if two {
        a := SetItemV2(index, value);
      } else {
        a := SetItemV1(index, value);
      }
    }

    method DelItem(index: int) returns (a: Answer)
      requires Valid()
      modifies this`metaCache, this`rankCache, this`stash, store
      ensures Valid() && Keeps(g, old(store.db), store.db) && Usable() == old(Usable())
      ensures a == if !old(Usable()) then Failed(ValueError)
                   else if InRange(index, LengthIn(old(store.db))) then Done else Failed(IndexError)
      ensures !old(Usable()) ==> store.db == old(store.db)
      ensures old(Usable() && Complete()) ==> (Abs(), a) == Apply(Op.DelItem(index), old(Abs()))
      ensures old(Usable()) && !IsV2(old(Lazy())) ==>
                if a == Done then RowsAfter(Op.DelItem(index), old(store.db), store.db) else store.db == old(store.db)
    {
      SlotsAreContent(store.db);
      var ok := MaybeLazyMigrate();
      if !ok {
        return Failed(ValueError);
      }
      var two := Dispatch();
      if two {
        a := DelItemV2(index);
      } else {
        a := DelItemV1(index);
      }
    }

    /** Reads before it can migrate, so that damage is reported and not repaired silently. */
    method Pop(index: int) returns (a: Answer)
      requires Valid()
      modifies this`metaCache, this`rankCache, this`stash, store
      ensures Valid() && Keeps(g, old(store.db), store.db) && (old(Usable()) ==> Usable())
      ensures a == Fetched(Slots(old(store.db)), index)
      ensures a.Failed? ==> store.db == old(store.db)
      ensures old(Complete()) ==> (Abs(), a) == Apply(Op.Pop(index), old(Abs()))
      ensures a.Item? && !IsV2(old(Lazy())) ==> RowsAfter(Op.DelItem(index), old(store.db), store.db)
    {
      var two := Dispatch();
      if two {
        SlotsAreContent(store.db);
        FetchedIs(Slots(store.db), Abs(), index);
        a := PopV2(index);
      } else {
        a := PopV1(index);
      }
    }

    method PopV1(index: int) returns (a: Answer)
      requires Valid() && !IsV2(store.db)
      modifies this`metaCache, this`rankCache, this`stash, store
      ensures Valid() && Keeps(g, old(store.db), store.db) && Usable()
      ensures a == Fetched(Slots(old(store.db)), index)
      ensures a.Failed? ==> store.db == old(store.db)
      ensures old(Complete()) ==> (Abs(), a) == Apply(Op.Pop(index), old(Abs()))
      ensures a.Item? && !IsV2(old(Lazy())) ==> RowsAfter(Op.DelItem(index), old(store.db), store.db)
    {
      SlotsAreContent(store.db);
      ghost var slots, base := Slots(store.db), store.db;
      var n := ListLength();
      if n == 0 {
        return Failed(IndexError);
      }
      var at := if index == -1 then n - 1 else index;
      a := GetItem(at);
      SameDeletion(slots, index, at, base, base);
      if Complete() {
        FetchedIs(slots, Abs(), index);
      }
      if a.Failed? {
        return;
      }
      if Complete() {
        PopIsDelete(Abs(), index, at);
      }
      var _ := DelItem(at);
      SameDeletion(slots, index, at, base, store.db);
    }

    /** The scan stops at a hole, before anything is deleted. */
    method Remove(p: Match) returns (a: Answer)
      requires Valid()
      modifies this`metaCache, this`rankCache, this`stash, store
      ensures Valid() && Keeps(g, old(store.db), store.db) && (old(Usable()) ==> Usable())
      ensures a == FoundFirst(Slots(old(store.db)), p)
      ensures a.Failed? ==> store.db == old(store.db)
      ensures old(Complete()) ==> (Abs(), a) == Apply(Op.Remove(p), old(Abs()))
      ensures a == Done && !IsV2(old(Lazy())) ==>
                RowsAfter(Op.DelItem(FirstStop(Slots(old(store.db)), p, 0, LengthIn(old(store.db)))), old(store.db), store.db)
    {
      var two := Dispatch();
      if two {
        SlotsAreContent(store.db);
        FoundFirstIs(Slots(store.db), Abs(), p);
        a := RemoveV2(p);
      } else {
        a := RemoveV1(p);
      }
    }

    method RemoveV1(p: Match) returns (a: Answer)
      requires Valid() && !IsV2(store.db)
      modifies this`metaCache, this`rankCache, this`stash, store
      ensures Valid() && Keeps(g, old(store.db), store.db) && Usable()
      ensures a == FoundFirst(Slots(old(store.db)), p)
      ensures a.Failed? ==> store.db == old(store.db)
      ensures old(Complete()) ==> (Abs(), a) == Apply(Op.Remove(p), old(Abs()))
      ensures a == Done && !IsV2(old(Lazy())) ==>
                RowsAfter(Op.DelItem(FirstStop(Slots(old(store.db)), p, 0, LengthIn(old(store.db)))), old(store.db), store.db)
    {
      var found, i := FindFirst(p);
      if found.Failed? {
        return found;
      }
      a := DelItem(i);
    }

    /** What the scan of `remove` comes to, and where. */
    method FindFirst(p: Match) returns (found: Answer, i: nat)
      requires Valid() && !IsV2(store.db)
      modifies this`metaCache, this`rankCache
      ensures Valid() && found == FoundFirst(Slots(store.db), p) && i == FirstStop(Slots(store.db), p, 0, LengthIn(store.db))
      ensures found == Done || found.Failed?
      ensures found == Done ==> InRange(i, LengthIn(store.db)) && At(i, LengthIn(store.db)) == i
      ensures Complete() ==> Apply(Op.Remove(p), Abs()) == if found == Done then Apply(Op.DelItem(i), Abs()) else (Abs(), found)
    {
      SlotsAreContent(store.db);
      if Complete() {
        FoundFirstIs(Slots(store.db), Abs(), p);
      }
      var n := ListLength();
      i := FindStop(p, n);
      found := if i == n then Failed(ValueError) else if i in store.db.v1 then Done else Failed(Corruption);
    }

    /** The scan over version 1 rows. */
    method FindStop(p: Match, n: nat) returns (i: nat)
      requires !IsV2(store.db) && n == LengthIn(store.db)
      ensures i == FirstStop(Slots(store.db), p, 0, n)
    {
      ghost var slots := Slots(store.db);
      i := 0;
      while i < n && i in store.db.v1 && !p(store.db.v1[i])
        invariant i <= n && FirstStop(slots, p, 0, n) == FirstStop(slots, p, i, n)
      {
        i := i + 1;
      }
    }

    /** Version 2 removes in the order in which it returns the items. `order` lists the positions
        in the order in which their rows went. */
    method RemoveWhere(p: Match, firstOnly: bool) returns (a: Answer, ghost order: seq<nat>)
      requires Valid()
      modifies this`metaCache, this`rankCache, this`stash, store
      ensures Valid() && Keeps(g, old(store.db), store.db) && (old(Usable()) ==> Usable())
      ensures !old(Complete()) ==> a == Failed(Corruption) && store.db == old(store.db)
      ensures old(Complete()) ==> (Abs(), a) == Apply(Op.RemoveWhere(p, firstOnly), old(Abs()))
      ensures old(Complete()) ==> order == RemovalOrder(old(Abs()), p, firstOnly, IsV2(old(store.db)))
    {
      var two := Dispatch();
      if two {
        a, order := RemoveWhereV2(p, firstOnly);
        return;
      }
      order := [];
      a := ReadAll();
      if a.Failed? {
        return;
      }
      a, order := RemoveWhereV1(a.items, p, firstOnly);
    }

    /** Version 1 has read the whole list, failing at a hole; it deletes the matches from the last
        to the first, so that no index moves before it is used. */
    method RemoveWhereV1(items: seq<Raw>, p: Match, firstOnly: bool) returns (a: Answer, ghost order: seq<nat>)
      requires Valid() && Usable() && Complete() && items == Abs()
      modifies this`metaCache, this`rankCache, this`stash, store
      ensures Valid() && Usable() && Keeps(g, old(store.db), store.db)
      ensures (Abs(), a) == Apply(Op.RemoveWhere(p, firstOnly), items)
      ensures order == Backwards(Picked(items, p, firstOnly))
    {
      var matched := MatchedIndices(items, p);
      MatchIndexFirst(items, p, |items|);
      if firstOnly {
        BackwardsShort(Picked(items, p, firstOnly));
      }
      order := [];
      if !firstOnly {
        order := DeleteDescending(items, p, matched);
        KeptSplit(items, p, 0);
        assert Abs() == Kept(items, p, |items|);
        MatchIndexValues(items, p, |items|);
        a := Many(Values(items, matched));
      } else if matched != [] {
        order := [matched[0]];
        DeleteAt(matched[0]);
        a := Many([items[matched[0]]]);
      } else {
        a := Many([]);
      }
    }

    method DeleteDescending(items: seq<Raw>, p: Match, matched: seq<nat>) returns (ghost order: seq<nat>)
      requires Valid() && Usable() && Complete() && items == Abs() && matched == MatchIndex(items, p, |items|)
      modifies this`metaCache, this`rankCache, this`stash, store
      ensures Valid() && Usable() && Keeps(g, old(store.db), store.db)
      ensures Abs() == KeptFrom(items, p, 0) && order == Backwards(matched)
    {
      var k := |matched|;
      ghost var base := store.db;
      ghost var b: nat, tail := |items|, KeptFrom(items, p, |items|);
      order := [];
      DescendStart(items, p);
      while k > 0
        invariant 0 <= k <= |matched| && Valid() && Usable() && Complete() && Keeps(g, base, store.db)
        invariant Descended(items, p, matched, k, b, tail, order) && Abs() == Joined(items, b, tail)
      {
        var m := matched[k - 1];
        DescendStep(items, p, matched, k, b, tail, order);
        DeleteAt(m);
        order, tail, b := order + [m], items[m + 1..b] + tail, m;
        k := k - 1;
      }
      DescendEnd(items, p, matched, b, tail, order);
    }

    /** Version 1 reads the whole list first, and fails at a hole. */
    method UpdateWhere(p: Match, item: Raw, firstOnly: bool) returns (a: Answer)
      requires Valid()
      modifies this`metaCache, this`rankCache, this`stash, store
      ensures Valid() && Keeps(g, old(store.db), store.db) && (old(Usable()) ==> Usable())
      ensures !old(Complete()) ==> a == Failed(Corruption) && store.db == old(store.db)
      ensures old(Complete()) ==> (Abs(), a) == Apply(Op.UpdateWhere(p, item, firstOnly), old(Abs()))
    {
      var two := Dispatch();
      if two {
        a := UpdateWhereV2(p, item, firstOnly);
        return;
      }
      a := ReadAll();
      if a.Failed? {
        return;
      }
      a := UpdateWhereV1(a.items, p, item, firstOnly);
    }

    method UpdateWhereV1(items: seq<Raw>, p: Match, item: Raw, firstOnly: bool) returns (a: Answer)
      requires Valid() && Usable() && Complete() && items == Abs()
      modifies this`metaCache, this`rankCache, this`stash, store
      ensures Valid() && Usable() && Keeps(g, old(store.db), store.db)
      ensures (Abs(), a) == Apply(Op.UpdateWhere(p, item, firstOnly), items)
    {
      var matched := MatchedIndices(items, p);
      MatchIndexFirst(items, p, |items|);
      if !firstOnly {
        UpdateEach(items, item, matched);
        OverwrittenAll(items, p, item);
        MatchIndexValues(items, p, |items|);
        a := Many(Values(items, matched));
      } else if matched != [] {
        Overwrite(matched[0], item);
        a := Many([items[matched[0]]]);
      } else {
        a := Many([]);
      }
    }

    method UpdateEach(items: seq<Raw>, item: Raw, matched: seq<nat>)
      requires Valid() && Usable() && Complete() && items == Abs()
      requires forall k :: 0 <= k < |matched| ==> matched[k] < |items|
      modifies this`metaCache, this`rankCache, this`stash, store
      ensures Valid() && Usable() && Keeps(g, old(store.db), store.db)
      ensures Abs() == Overwritten(items, matched, |matched|, item)
    {
      var k := 0;
      while k < |matched|
        invariant k <= |matched| && Valid() && Usable() && Complete() && Keeps(g, old(store.db), store.db)
        invariant Abs() == Overwritten(items, matched, k, item)
      {
        Overwrite(matched[k], item);
        k := k + 1;
      }
    }

    method DeleteAt(i: nat)
      requires Valid() && Usable() && Complete() && i < |Abs()|
      modifies this`metaCache, this`rankCache, this`stash, store
      ensures Valid() && Usable() && Complete() && Keeps(g, old(store.db), store.db)
      ensures Abs() == Deleted(old(Abs()), i)
    {
      DelItemDeletes(Abs(), i);
      var _ := DelItem(i);
    }

    method Overwrite(i: nat, item: Raw)
      requires Valid() && Usable() && Complete() && i < |Abs()|
      modifies this`metaCache, this`rankCache, this`stash, store
      ensures Valid() && Usable() && Complete() && Keeps(g, old(store.db), store.db)
      ensures Abs() == old(Abs())[i := item]
    {
      var _ := SetItem(i, item);
    }

    /** The deletions of `clear` and `delete`: the other format's rows first, then those of this
        one. Refused, like any access, to a list that cannot be created. */
    method DeleteAll() returns (loaded: Option<Meta>)
      requires Loaded()
      modifies this`metaCache, this`rankCache, store
      ensures loaded.None? <==> !old(Usable())
      ensures loaded.Some? ==> (FormatOf(loaded.value) == 2 <==> IsV2(old(store.db)))
      ensures store.db == Emptied(old(store.db)) && rankCache == None && old(Usable()) == Usable()
    {
      ghost var base := store.db;
      SweepLeaves(base);
      InvalidateCache();
      var _ := SweepForeign(store);
      assert store.db == View(base.meta, base.v1 - Foreign1(base), base.v2 - Foreign2(base));
      loaded := LoadMetadata();
      if loaded.None? {
        return;
      }
      if FormatOf(loaded.value) == 2 {
        DeleteRows2(store, store.db.v2.Keys);
        assert store.db.v2 == map[];
      } else {
        DeleteRows1(store, Indices(LengthOf(loaded.value)));
      }
    }

    /** `clear`: dispatches on the stored format, and empties both row ranges as far as it reaches. */
    method Clear() returns (a: Answer)
      requires Loaded()
      modifies this`metaCache, this`rankCache, store
      ensures Valid() && (old(SweepSound(store.db)) ==> Exact(store.db)) && (old(Healthy(g, store.db)) ==> Healthy(g, store.db))
      ensures a == if old(Usable()) then Done else Failed(ValueError)
      ensures Abs() == [] && LengthIn(store.db) == 0
      ensures a == Done ==> store.db.meta == Some(if IsV2(old(store.db)) then DefaultV2(now) else DefaultV1(now))
      ensures store.db.v1 == LeftBehind1(old(store.db)) && store.db.v2 == LeftBehind2(old(store.db))
      ensures old(Usable()) ==> Usable()
    {
      EmptyReads();
      ResetFacts(g, store.db, now);
      var loaded := DeleteAll();
      if loaded.None? {
        metaCache := None;
        return Failed(ValueError);
      }
      var meta := if FormatOf(loaded.value) == 2 then DefaultV2(now) else DefaultV1(now);
      store.PutMeta(meta);
      metaCache := Some(meta);
      if FormatOf(meta) == 2 {
        rankCache := Some([]);
      }
      a := Done;
    }

    /** `delete`. What is left may be read by the next list of that name, and a second `delete`,
        which finds no metadata, sweeps all of it. */
    method Delete() returns (a: Answer)
      requires Loaded()
      modifies this`metaCache, this`rankCache, store
      ensures a == if old(Usable()) then Done else Failed(ValueError)
      ensures store.db == View(None, LeftBehind1(old(store.db)), LeftBehind2(old(store.db)))
      ensures Loaded()
      ensures old(store.db).meta.None? ==> store.db == View(None, map[], map[])
      ensures metaCache == None && rankCache == None
    {
      var loaded := DeleteAll();
      if loaded.None? {
        InvalidateCache();
        return Failed(ValueError);
      }
      store.DropMeta();
      InvalidateCache();
      a := Done;
    }

    /** `set_description`: only the named field and the time stamp change. */
    method SetDescription(description: string) returns (ok: bool)
      requires Valid()
      modifies this`metaCache, this`rankCache, this`stash, store
      ensures Valid() && Abs() == old(Abs()) && (old(Exact(store.db)) ==> Exact(store.db))
      ensures ok == old(Usable())
      ensures ok && old(store.db).meta.Some? ==>
                store.db.meta == Some(old(store.db).meta.value[Description := Str(description)][UpdatedAt := Str(now)])
      ensures ok && old(store.db).meta.None? ==>
                store.db.meta == Some(DefaultV2(now)[Description := Str(description)][UpdatedAt := Str(now)])
      ensures store.db.v1 == old(store.db).v1 && store.db.v2 == old(store.db).v2
    {
      DescribeFacts(if store.db.meta.Some? then store.db.meta.value else DefaultV2(now), description, now);
      ok := SaveMetadata(map[Description := Str(description)], true, 0, 0, false);
    }

    /** `compact` on a version 2 list: the same items, a fresh set of ranks, and a hint that is
        the counted truth whatever drift there was. It is stopped exactly if some row has no free
        candidate, with every item still in place; the rank cache is then out of date. */
    method CompactV2() returns (ok: bool)
      requires Valid() && Usable() && IsV2(store.db)
      modifies this`metaCache, this`rankCache, this`stash, store
      ensures ok <==> AllPlaceable(g, old(Sorted(store.db.v2.Keys)))
      ensures ok ==> Valid() && Usable() && IsV2(store.db) && Abs() == old(Abs())
      ensures ok ==> HintExact(store.db) && (old(SweepSound(store.db)) ==> Exact(store.db)) && NotesKept(old(store.db), store.db)
      ensures ok ==> Reranked(g, old(Sorted(store.db.v2.Keys)), Sorted(store.db.v2.Keys))
      ensures old(Sorted(store.db.v2.Keys)) == NKeys(g, None, |old(store.db).v2|) ==> store.db.v2 == old(store.db).v2
      ensures !ok ==> Submap(old(store.db).v2, store.db.v2) && store.db.meta == old(store.db).meta
      ensures !ok ==> rankCache == Some(old(Sorted(store.db.v2.Keys)))
    {
      var ranks := EnsureRankCache(true);
      ok, ranks := RebalanceRows(store, g);
      if !ok {
        return;
      }
      rankCache := Some(ranks);
      RecordCount(|ranks|);
    }

    /** The counted truth, written over whatever hint there was. */
    method RecordCount(n: nat)
      requires Sound(g) && CachesAgree() && Usable() && Committed2(g, store.db) && n == |store.db.v2|
      modifies this`metaCache, this`rankCache, this`stash, store
      ensures store.db.v1 == old(store.db).v1 && store.db.v2 == old(store.db).v2
      ensures Valid() && Usable() && IsV2(store.db) && HintExact(store.db)
      ensures (old(SweepSound(store.db)) ==> SweepSound(store.db)) && NotesKept(old(store.db), store.db)
    {
      ghost var m := if store.db.meta.Some? then store.db.meta.value else DefaultV2(now);
      TouchFacts(m, Some(n), 0, now);
      var _ := SaveMetadata(map[CountHint := Num(n)], true, 0, 0, false);
      assert store.db.meta == Some(Touched(m, Some(n), 0, now));
    }

    /** Running `compact` again converges: if the first run is not stopped, neither is the second,
        and every item then has its evenly spaced rank; after that nothing is moved any more. */
    method CompactTwice() returns (ok: bool)
      requires Valid() && Usable() && IsV2(store.db)
      modifies this`metaCache, this`rankCache, this`stash, store
      ensures ok <==> AllPlaceable(g, old(Sorted(store.db.v2.Keys)))
      ensures ok ==> Valid() && Usable() && IsV2(store.db) && Abs() == old(Abs())
      ensures ok ==> HintExact(store.db) && (old(SweepSound(store.db)) ==> Exact(store.db)) && NotesKept(old(store.db), store.db)
      ensures ok ==> Sorted(store.db.v2.Keys) == NKeys(g, None, |store.db.v2|)
    {
      ghost var first := Sorted(store.db.v2.Keys);
      ok := CompactV2();
      if !ok {
        return;
      }
      ghost var second := Sorted(store.db.v2.Keys);
      RebalanceConverges(g, first, second, second);
      ok := CompactV2();
      RebalanceConverges(g, first, second, Sorted(store.db.v2.Keys));
    }

    // ---- bulk reads ----

    /** `prime_from_rows` with a full and current dump of the list's rows. */
    method PrimeFromRows(dump: View)
      requires Valid() && dump == store.db
      modifies this`metaCache, this`rankCache
      ensures Valid()
      ensures dump.meta.Some? ==> metaCache == dump.meta
      ensures dump.meta.Some? && IsV2(dump) ==> rankCache == Some(Sorted(store.db.v2.Keys))
    {
      if dump.meta.None? {
        return;
      }
      metaCache := dump.meta;
      if FormatOf(dump.meta.value) == 2 {
        var ranks := SortKeys(dump.v2.Keys);
        rankCache := Some(ranks);
      }
    }

    /** `to_list_from_rows`: reading the dump is reading row by row, holes included. */
    method ToListFromRows(dump: View) returns (a: Answer)
      requires Valid() && Usable() && dump == store.db
      modifies this`metaCache, this`rankCache
      ensures Valid() && a == if Complete() then Many(Abs()) else Failed(Corruption)
    {
      SlotsAreContent(store.db);
      var meta := LoadMetadata();
      ghost var all := Abs();
      var items: seq<Raw> := [];
      var i := 0;
      if FormatOf(meta.value) == 2 {
        var ranks := SortKeys(dump.v2.Keys);
        rankCache := Some(ranks);
        while i < |ranks|
          invariant i <= |ranks| == |all| && |items| == i
          invariant forall j :: 0 <= j < i ==> items[j] == all[j]
        {
          items := items + [dump.v2[ranks[i]]];
          i := i + 1;
        }
        return Many(items);
      }
      ghost var slots := Slots(store.db);
      var n := ListLength();
      while i < n
        invariant 0 <= i <= n == |slots| && |items| == i && Valid() && Usable() && store.db == old(store.db)
        invariant forall j :: 0 <= j < i ==> slots[j] == Some(items[j])
      {
        if i in dump.v1 {
          items := items + [dump.v1[i]];
        } else {
          a := GetItem(i);
          return;
        }
        i := i + 1;
      }
      assert items == all;
      a := Many(items);
    }
  }

  /** A migration stopped before its metadata flip, on a version 1 list that says it never
      changed format, leaves rows which no later sweep looks for: after `delete` they are what
      a new list of the same name consists of. */
  lemma StoppedMigrationOutlivesDelete(g: KeyGen, item: Raw, now: string) returns (base: View, stopped: View, deleted: View)
    requires Sound(g)
    ensures Healthy(g, base) && Exact(base) && Content(base) == [item]
    ensures MidMigration(g, base, stopped, now) && Healthy(g, stopped)
    ensures !SweepSound(stopped) && Foreign2(stopped) == {}
    ensures deleted == View(None, map[], stopped.v2) && IsV2(deleted) && Content(deleted) == [item]
  {
    base, stopped, deleted := HealthyOneItem(item, now), StoppedOneItem(g, item, now), View(None, map[], FreshRows(g, [item]));
    OneItemReads(g, item, now);
    FreshRowsRead(g, [item]);
    assert |stopped.v2| == 1;
  }

  /** A version 1 list of one item, emptied and refilled since it was created. */
  ghost function HealthyOneItem(item: Raw, now: string): View {
    View(Some(DefaultV1(now)[Length := Num(1)]), map[0 := item], map[])
  }

  ghost function StoppedOneItem(g: KeyGen, item: Raw, now: string): View {
    HealthyOneItem(item, now).(v2 := FreshRows(g, [item]))
  }

  lemma OneItemReads(g: KeyGen, item: Raw, now: string)
    ensures Healthy(g, HealthyOneItem(item, now)) && Content(HealthyOneItem(item, now)) == [item]
    ensures Healthy(g, StoppedOneItem(g, item, now))
  {
    ResetMeta(now);
    var m := DefaultV1(now)[Length := Num(1)];
    assert FormatOf(m) == 1 && LengthOf(m) == 1;
    OneRow(g, m, item, map[]);
    OneRow(g, m, item, FreshRows(g, [item]));
  }

  lemma OneRow(g: KeyGen, m: Meta, item: Raw, rows: Rows)
    requires FormatOf(m) == 1 && Length in m && m[Length] == Num(1)
    ensures Healthy(g, View(Some(m), map[0 := item], rows)) && Content(View(Some(m), map[0 := item], rows)) == [item]
  {
    var v1: map<nat, Raw> := map[0 := item];
    PresentIs(v1, [item]);
  }
}
