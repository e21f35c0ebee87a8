/** What the calls on one list mean, as facts about rows, sequences and metadata. */
module ListFacts {
  import opened Order
  import opened Options
  import opened Keys
  import opened Ranked
  import opened PyList
  import opened ListModel
  import opened Shift
  import opened Migration

  /** A stored integer hint is the number of version 2 rows, and version 1 has no hint. A list about
      to be created has no rows yet. */
  ghost predicate HintExact(v: View) {
    if v.meta.None? then v.v2 == map[]
    else CountHint in v.meta.value && v.meta.value[CountHint].Num? ==> IsV2(v) && v.meta.value[CountHint].n == |v.v2|
  }

  /** A list that says (or, being created, will say) that it never changed format has no rows of the
      other format. */
  ghost predicate SweepSound(v: View) {
    v.meta.None? || NeverChanged(v.meta.value) ==> if IsV2(v) then v.v1 == map[] else v.v2 == map[]
  }

  ghost predicate HasHint(v: View) {
    v.meta.Some? && CountHint in v.meta.value && v.meta.value[CountHint].Num?
  }

  ghost predicate Exact(v: View) {
    HintExact(v) && SweepSound(v)
  }

  /** The stored hint lags behind the rows by `d`; a list about to be created starts at zero. */
  ghost predicate HintBehind(v: View, d: int) {
    if v.meta.Some? then CountHint in v.meta.value && v.meta.value[CountHint].Num? ==>
                           v.meta.value[CountHint].n + d == |v.v2|
    else d == |v.v2|
  }

  /** Version 2 rows are in place, the metadata row may still have to be created. */
  ghost predicate Committed2(g: KeyGen, v: View) {
    IsV2(v) && AllKeys(g, v.v2)
  }

  lemma HealthyIs(g: KeyGen, v: View)
    ensures IsV2(v) && v.meta.Some? ==> (Healthy(g, v) <==> AllKeys(g, v.v2) && SweepSound(v))
    ensures v.meta.None? ==> (Healthy(g, v) <==> HintExact(v) && SweepSound(v))
  {}

  /** What the metadata says beside the counts, the format and the time stamp. */
  function Notes(m: Meta): Meta {
    m - {Length, CountHint, UpdatedAt, Format, EverChanged}
  }

  ghost predicate NotesKept(v: View, w: View) {
    v.meta.Some? ==> w.meta.Some? && Notes(w.meta.value) == Notes(v.meta.value)
  }

  lemma TouchFacts(m: Meta, count: Option<nat>, countDelta: int, now: string)
    requires FormatOf(m) == 2
    ensures var r := Touched(m, count, countDelta, now);
            && FormatOf(r) == 2 && Notes(r) == Notes(m)
            && (NeverChanged(r) <==> NeverChanged(m))
            && (count.Some? ==> CountHint in r && r[CountHint] == Num(count.value))
            && (count.None? && CountHint in r && r[CountHint].Num? ==>
                  CountHint in m && m[CountHint].Num?
                  && (m[CountHint].n + countDelta >= 0 ==> r[CountHint].n == m[CountHint].n + countDelta))
  {}

  lemma KeysStay(g: KeyGen, ks: seq<Rank>, ls: seq<Rank>, rows: Rows)
    requires Sorted(rows.Keys) == ks + ls
    requires forall i :: 0 <= i < |ks| ==> g.isKey(ks[i])
    requires forall i :: 0 <= i < |ls| ==> g.isKey(ls[i])
    ensures AllKeys(g, rows)
  {
    forall k | k in rows ensures g.isKey(k) {
      var i := Ranked.IndexOf(ks + ls, rows.Keys, k);
    }
  }

  /** The first `n` candidates have landed, in order, behind the rows that were there. */
  ghost predicate Landed(ks: seq<Rank>, candidates: seq<Rank>, items: seq<Raw>, n: nat, before: Rows, rows: Rows) {
    && n <= |candidates| == |items|
    && Sorted(rows.Keys) == ks + candidates[..n]
    && Items(rows) == Items(before) + items[..n]
  }

  lemma LandedStart(ks: seq<Rank>, candidates: seq<Rank>, items: seq<Raw>, rows: Rows)
    requires |candidates| == |items| && ks == Sorted(rows.Keys)
    ensures Landed(ks, candidates, items, 0, rows, rows)
  {}

  lemma NextIsGreatest(ks: seq<Rank>, candidates: seq<Rank>, n: nat, rows: Rows)
    requires Ascending(candidates) && n < |candidates| && Sorted(rows.Keys) == ks + candidates[..n]
    requires ks != [] ==> Less(ks[|ks| - 1], candidates[n])
    ensures Fits(Sorted(rows.Keys), candidates[n], |rows|) && candidates[n] !in rows
  {
    var all := ks + candidates[..n];
    if n > 0 {
      assert all[|all| - 1] == candidates[n - 1] && Less(candidates[n - 1], candidates[n]);
    }
    FitsAll(all, candidates[n], |all|);
    if candidates[n] in rows {
      var i := Ranked.IndexOf(all, rows.Keys, candidates[n]);
    }
  }

  lemma LandedStep(ks: seq<Rank>, candidates: seq<Rank>, items: seq<Raw>, n: nat, before: Rows, rows: Rows)
    requires Landed(ks, candidates, items, n, before, rows) && n < |items| && Ascending(candidates)
    requires ks != [] ==> Less(ks[|ks| - 1], candidates[n])
    ensures candidates[n] !in rows
    ensures Landed(ks, candidates, items, n + 1, before, rows[candidates[n] := items[n]])
  {
    NextIsGreatest(ks, candidates, n, rows);
    InsertRow(rows, candidates[n], items[n], |rows|);
    assert candidates[..n + 1] == candidates[..n] + [candidates[n]];
    assert items[..n + 1] == items[..n] + [items[n]];
  }

  /** What every call keeps: exactness of the hint and of the sweep's excuse, a list without
      holes, an undamaged list, and what its metadata says. */
  ghost predicate Keeps(g: KeyGen, v: View, w: View) {
    && NotesKept(v, w)
    && (Exact(v) ==> Exact(w))
    && (NoHoles(v) ==> NoHoles(w))
    && (Healthy(g, v) ==> Healthy(g, w))
  }

  lemma KeepsOn(g: KeyGen, u: View, v: View, w: View)
    requires Keeps(g, u, v) && Keeps(g, v, w)
    ensures Keeps(g, u, w)
  {}

  // ---- lazy migration ----

  /** When a mutation migrates the list first: version 1, short enough, and a clean report. */
  ghost predicate LazyMigrates(v: View, hasHash: bool, lazyMax: int) {
    && !IsV2(v) && 0 < lazyMax && LengthOf(v.meta.value) <= lazyMax && !hasHash
    && Dense(v.v1, LengthIn(v)) && NoTwins(v.v1, LengthIn(v))
  }

  /** The rows a mutation works on. */
  ghost function AfterLazy(g: KeyGen, v: View, hasHash: bool, lazyMax: int, now: string): View {
    if LazyMigrates(v, hasHash, lazyMax) then View(Some(Flipped(v.meta.value, now)), map[], FreshRows(g, Content(v))) else v
  }

  lemma LazyIsSane(g: KeyGen, v: View, hasHash: bool, lazyMax: int, now: string)
    requires Sound(g) && Sane(g, v)
    ensures var w := AfterLazy(g, v, hasHash, lazyMax, now);
            Sane(g, w) && Content(w) == Content(v) && LengthIn(w) == LengthIn(v) && Keeps(g, v, w)
            && (w.meta.Some? <==> v.meta.Some?)
  {
    if LazyMigrates(v, hasHash, lazyMax) {
      MigratedIsSane(g, v, AfterLazy(g, v, hasHash, lazyMax, now), now);
      PresentDense(v.v1, LengthIn(v));
    }
  }

  // ---- the rank cap ----

  predicate TooLong(k: Rank) {
    |k| > RANK_MAX_LEN
  }

  /** The key an `append` to these rows would use, and the keys an `extend` would. */
  ghost function EndKey(g: KeyGen, rows: Rows): Rank {
    After(g, LastOf(Sorted(rows.Keys)))
  }

  ghost function EndKeys(g: KeyGen, rows: Rows, n: nat): (ks: seq<Rank>)
    ensures |ks| == n
  {
    NKeys(g, LastOf(Sorted(rows.Keys)), n)
  }

  /** The key between the neighbours of the position `insert` resolves to. */
  function GapKey(g: KeyGen, ks: seq<Rank>, index: int): Rank {
    var pos := InsertPos(index, |ks|);
    g.between(if pos > 0 then Some(ks[pos - 1]) else None, if pos < |ks| then Some(ks[pos]) else None)
  }

  /** How many keys come before the first one over the cap. */
  function WithinCap(ks: seq<Rank>, i: nat): (n: nat)
    requires i <= |ks|
    ensures i <= n <= |ks| && (n < |ks| ==> TooLong(ks[n]))
    ensures forall j :: i <= j < n ==> !TooLong(ks[j])
    decreases |ks| - i
  {
    if i == |ks| || TooLong(ks[i]) then i else WithinCap(ks, i + 1)
  }

  /** No key of the batch is over the cap, or already the first one is. */
  ghost predicate AllOrNothing(ks: seq<Rank>) {
    (forall i :: 0 <= i < |ks| ==> !TooLong(ks[i])) || (ks != [] && TooLong(ks[0]))
  }

  lemma WithinCapEnds(ks: seq<Rank>)
    ensures AllOrNothing(ks) <==> WithinCap(ks, 0) == |ks| || WithinCap(ks, 0) == 0
    ensures (exists i :: 0 <= i < |ks| && TooLong(ks[i])) <==> WithinCap(ks, 0) < |ks|
  {}

  /** Behind a rank of 179 characters, the first of two new keys is within the cap and the second
      is not. */
  lemma CapWithinBatch(item: Raw)
    ensures var last := seq(179, _ => 'V');
            var ks := EndKeys(MidKeys, map[last := item], 2);
            && MidKeys.isKey(last) && |ks[0]| == 180 && |ks[1]| == 181
            && WithinCap(ks, 0) == 1 && !AllOrNothing(ks)
  {
    var last := seq(179, _ => 'V');
    var rows: Rows := map[last := item];
    SortedIs([last], rows.Keys);
    assert After(MidKeys, Some(last)) == last + "V";
    assert IsFraction(last + "V");
    assert After(MidKeys, Some(last + "V")) == last + "V" + "V";
    var ks := NKeys(MidKeys, Some(last), 2);
    assert ks[0] == last + "V" && ks[1] == last + "V" + "V";
    assert WithinCap(ks, 1) == 1;
  }

  /** An adding call whose next key is over the cap, on a list then in format 2. */
  ghost predicate KeyTooLong(g: KeyGen, v: View, op: Op) {
    IsV2(v) && match op
      case Append(_) => TooLong(EndKey(g, v.v2))
      case Extend(xs) => exists i :: 0 <= i < |xs| && TooLong(EndKeys(g, v.v2, |xs|)[i])
      case Insert(index, _) => TooLong(GapKey(g, Sorted(v.v2.Keys), index))
      case _ => false
  }

  /** What an `extend` on format 2 rows does to them. */
  ghost predicate BatchAdded(g: KeyGen, due: View, left: View, items: seq<Raw>, landed: nat, a: Answer) {
    && a == (if KeyTooLong(g, due, Extend(items)) then Failed(RankCap) else Done)
    && landed == WithinCap(EndKeys(g, due.v2, |items|), 0)
    && (a != Done ==> left == due.(v2 := left.v2) && Submap(due.v2, left.v2))
  }

  /** What the refused call has added: of an `extend`, the items before the first key over the cap. */
  ghost function LandedOf(g: KeyGen, due: View, op: Op): seq<Raw> {
    match op
    case Extend(xs) => xs[..WithinCap(EndKeys(g, due.v2, |xs|), 0)]
    case _ => []
  }

  /** The call on `due` needed a key over the cap, and left the list as `left`. */
  ghost predicate CappedAt(g: KeyGen, due: View, op: Op, left: View) {
    && KeyTooLong(g, due, op)
    && left == due.(v2 := left.v2) && Submap(due.v2, left.v2)
    && Content(left) == Content(due) + LandedOf(g, due, op)
    && (!op.Extend? ==> left == due)
  }

  /** A plain list never runs out of keys. */
  lemma NeverCapped(op: Op, s: seq<Raw>)
    ensures Apply(op, s).1 != Failed(RankCap)
  {}

  // ---- version 1 rows, damaged or not ----

  /** What a call does to the rows of a version 1 list, whatever holes it has. */
  ghost predicate RowsAfter(op: Op, v: View, w: View)
    requires Recorded(v)
  {
    var n := LengthOf(v.meta.value);
    && Recorded(w) && w.v2 == v.v2
    && match op
      case Append(x) => w.v1 == v.v1[n := x] && LengthOf(w.meta.value) == n + 1
      case Insert(index, x) => ShiftedUp(v.v1, w.v1, InsertPos(index, n), n, x) && LengthOf(w.meta.value) == n + 1
      case SetItem(index, x) =>
        InRange(index, n) && w.v1 == v.v1[At(index, n) := x] && LengthOf(w.meta.value) == n
      case DelItem(index) =>
        InRange(index, n) && ShiftedDown(v.v1, w.v1, At(index, n), n) && LengthOf(w.meta.value) == n - 1
      case _ => false
  }

  lemma AppendRows(op: Op, v: View, w: View)
    requires Recorded(v) && op.Append? && RowsAfter(op, v, w)
    ensures NoHoles(v) ==> NoHoles(w) && Content(w) == Content(v) + [op.item]
    ensures Dense(v.v1, LengthIn(v)) ==> Dense(w.v1, LengthIn(w))
  {
    PresentSame(v.v1, w.v1, LengthIn(v));
  }

  lemma SetRows(op: Op, v: View, w: View)
    requires Recorded(v) && op.SetItem? && RowsAfter(op, v, w)
    ensures NoHoles(v) ==> NoHoles(w) && (Content(w), Done) == Apply(op, Content(v))
    ensures Dense(v.v1, LengthIn(v)) ==> Dense(w.v1, LengthIn(w))
  {
    if NoHoles(v) {
      PresentDense(v.v1, LengthIn(v));
      PresentIs(w.v1, Content(v)[At(op.index, LengthIn(v)) := op.item]);
    }
  }

  lemma InsertRows(op: Op, v: View, w: View)
    requires Recorded(v) && op.Insert? && RowsAfter(op, v, w)
    ensures NoHoles(v) ==> NoHoles(w) && (Content(w), Done) == Apply(op, Content(v))
    ensures Dense(v.v1, LengthIn(v)) ==> Dense(w.v1, LengthIn(w))
  {
    var n := LengthIn(v);
    ShiftUpFills(v.v1, w.v1, InsertPos(op.index, n), n, op.item);
    if NoHoles(v) {
      ShiftUpInserts(v.v1, w.v1, InsertPos(op.index, n), n, op.item);
    }
  }

  lemma DeleteRows(op: Op, v: View, w: View)
    requires Recorded(v) && op.DelItem? && RowsAfter(op, v, w)
    ensures NoHoles(v) ==> NoHoles(w) && (Content(w), Done) == Apply(op, Content(v))
    ensures Dense(v.v1, LengthIn(v)) ==> Dense(w.v1, LengthIn(w))
  {
    var n := LengthIn(v);
    ShiftDownFills(v.v1, w.v1, At(op.index, n), n);
    if NoHoles(v) {
      ShiftDownDeletes(v.v1, w.v1, At(op.index, n), n);
      DelItemDeletes(Content(v), op.index);
    }
  }

  lemma {:induction false} NoMatchIndex(s: seq<Raw>, p: Match, n: nat)
    requires NoneBefore(s, p, n)
    ensures MatchIndex(s, p, n) == []
  {
    if n > 0 {
      NoMatchIndex(s, p, n - 1);
    }
  }

  /** A read of `[b.0, b.1)`: all its items, or an error exactly if it has a hole. */
  ghost predicate SlotsRead(slots: seq<Option<Raw>>, b: (nat, nat), a: Answer)
    requires b.0 <= b.1 <= |slots|
  {
    && (a == Failed(Corruption) || (a.Many? && |a.items| == b.1 - b.0))
    && (a.Many? <==> forall i :: b.0 <= i < b.1 ==> slots[i].Some?)
    && (a.Many? ==> forall i, k :: 0 <= i < b.1 - b.0 && k == b.0 + i ==> slots[k] == Some(a.items[i]))
  }

  lemma SlotsReadIs(slots: seq<Option<Raw>>, s: seq<Raw>, b: (nat, nat), a: Answer)
    requires b.0 <= b.1 <= |slots| == |s| && SlotsRead(slots, b, a)
    requires forall i :: 0 <= i < |s| ==> slots[i] == Some(s[i])
    ensures a == Many(s[b.0..b.1])
  {
    assert a.Many?;
    forall i | 0 <= i < |a.items|
      ensures a.items[i] == s[b.0..b.1][i]
    {
      assert slots[b.0 + i] == Some(a.items[i]);
    }
    assert a.items == s[b.0..b.1];
  }

  lemma ReadOfSlots(slots: seq<Option<Raw>>, s: seq<Raw>, b: (nat, nat))
    requires b.0 <= b.1 <= |slots| == |s| && forall i :: 0 <= i < |s| ==> slots[i] == Some(s[i])
    ensures SlotsRead(slots, b, Many(s[b.0..b.1]))
  {}

  /** `index` within normalised bounds. */
  function Searched(slots: seq<Option<Raw>>, p: Match, b: (nat, nat)): Answer
    requires b.0 <= |slots| && b.1 <= |slots|
  {
    if b.0 > b.1 || FirstStop(slots, p, b.0, b.1) == b.1 then Failed(ValueError)
    else if slots[FirstStop(slots, p, b.0, b.1)].None? then Failed(Corruption)
    else Number(FirstStop(slots, p, b.0, b.1))
  }

  lemma SearchedIs(slots: seq<Option<Raw>>, s: seq<Raw>, p: Match, start: int, stop: int, openEnd: bool)
    requires |slots| == |s| && forall i :: 0 <= i < |s| ==> slots[i] == Some(s[i])
    ensures Searched(slots, p, SearchBounds(start, stop, openEnd, |s|)) == Apply(Op.IndexOf(p, start, stop, openEnd), s).1
  {
    var b := SearchBounds(start, stop, openEnd, |s|);
    if b.0 <= b.1 {
      StopIsIndex(slots, s, p, b.0, b.1);
    }
  }

  /** Position `j` is searched by `index(value, start, stop)`. */
  predicate InWindow(j: nat, start: int, stop: int, openEnd: bool, n: nat) {
    j < n && !Before(j, start, n) && (openEnd || Before(j, stop, n))
  }

  /** All searched positions before `i` hold an item, and none of them matches. */
  ghost predicate NothingBefore(slots: seq<Option<Raw>>, p: Match, start: int, stop: int, openEnd: bool, i: nat) {
    forall j: nat :: j < i && InWindow(j, start, stop, openEnd, |slots|) ==> slots[j].Some? && !p(slots[j].value)
  }

  /** On a damaged list, `index` answers the first match unless a searched row before it is missing. */
  lemma SearchedMeans(slots: seq<Option<Raw>>, p: Match, start: int, stop: int, openEnd: bool, i: nat)
    ensures var a := Searched(slots, p, SearchBounds(start, stop, openEnd, |slots|));
            && (a == Number(i) <==> InWindow(i, start, stop, openEnd, |slots|) && slots[i].Some? && p(slots[i].value)
                                    && NothingBefore(slots, p, start, stop, openEnd, i))
            && (a == Failed(ValueError) <==> NothingBefore(slots, p, start, stop, openEnd, |slots|))
            && (a == Failed(Corruption) <==> exists k: nat :: InWindow(k, start, stop, openEnd, |slots|) && slots[k].None?
                                                           && NothingBefore(slots, p, start, stop, openEnd, k))
  {
    var b := SearchBounds(start, stop, openEnd, |slots|);
    assert forall j: nat :: InWindow(j, start, stop, openEnd, |slots|) <==> b.0 <= j < b.1;
    if b.0 <= b.1 {
      var k := FirstStop(slots, p, b.0, b.1);
      assert NothingBefore(slots, p, start, stop, openEnd, k);
      assert k < b.1 ==> InWindow(k, start, stop, openEnd, |slots|);
    }
  }

  /** Reading one row of a list that may be damaged. */
  lemma FetchedMeans(v: View, index: int)
    requires Recorded(v)
    ensures var n, a := LengthOf(v.meta.value), Fetched(Slots(v), index);
            var i := if index >= 0 then index else n + index;
            && (!(-n <= index < n) ==> a == Failed(IndexError))
            && (-n <= index < n ==> a == if i in v.v1 then Item(v.v1[i]) else Failed(Corruption))
  {}

  /** The scan of `remove`. */
  function FoundFirst(slots: seq<Option<Raw>>, p: Match): Answer {
    var i := FirstStop(slots, p, 0, |slots|);
    if i == |slots| then Failed(ValueError) else if slots[i].None? then Failed(Corruption) else Done
  }

  lemma FoundFirstIs(slots: seq<Option<Raw>>, s: seq<Raw>, p: Match)
    requires |slots| == |s| && forall i :: 0 <= i < |s| ==> slots[i] == Some(s[i])
    ensures FirstStop(slots, p, 0, |slots|) == FirstIndex(s, p, 0, |s|)
    ensures FoundFirst(slots, p) == Apply(Remove(p), s).1
    ensures FoundFirst(slots, p) == Done ==> Apply(Remove(p), s) == Apply(DelItem(FirstIndex(s, p, 0, |s|)), s)
  {
    StopIsIndex(slots, s, p, 0, |s|);
  }

  /** A read of one position: out of range and missing are different errors. */
  function Fetched(slots: seq<Option<Raw>>, index: int): Answer {
    if !InRange(index, |slots|) then Failed(IndexError)
    else if slots[At(index, |slots|)].None? then Failed(Corruption)
    else Item(slots[At(index, |slots|)].value)
  }

  lemma FetchedIs(slots: seq<Option<Raw>>, s: seq<Raw>, index: int)
    requires |slots| == |s| && forall i :: 0 <= i < |s| ==> slots[i] == Some(s[i])
    ensures Fetched(slots, index) == Apply(GetItem(index), s).1 == Apply(Pop(index), s).1
    ensures Fetched(slots, index).Failed? ==> Apply(Pop(index), s).0 == s
  {}

  /** `pop` has resolved -1 itself; what it deletes is what the index stands for. */
  lemma SameDeletion(slots: seq<Option<Raw>>, index: int, at: int, v: View, w: View)
    requires at == (if index == -1 then |slots| - 1 else index) && (|slots| == 0 ==> index != -1)
    ensures Fetched(slots, at) == Fetched(slots, index)
    ensures Fetched(slots, at).Item? && Recorded(v) && LengthIn(v) == |slots| ==>
              (RowsAfter(DelItem(at), v, w) <==> RowsAfter(DelItem(index), v, w))
  {}

  lemma PopIsDelete(s: seq<Raw>, index: int, at: int)
    requires at == (if index == -1 then |s| - 1 else index) && InRange(at, |s|)
    ensures Apply(Pop(index), s) == (Apply(DelItem(at), s).0, Item(s[At(at, |s|)]))
  {}

  ghost predicate NoTwins(v1: map<nat, Raw>, n: nat) {
    forall a: nat :: !AdjacentPair(v1, n, a)
  }

  /** The report is clean exactly when lazy migration may go ahead. */
  lemma CleanReport(v: View, r: Report)
    requires Recorded(v) && Reports(v, r)
    ensures HealthyReport(r) <==> Dense(v.v1, LengthIn(v)) && NoTwins(v.v1, LengthIn(v))
  {
    CleanMeansDense(v, r);
    if r.adjacent != [] {
      assert AdjacentPair(v.v1, LengthIn(v), r.adjacent[0]);
    } else {
      forall a: nat
        ensures !AdjacentPair(v.v1, LengthIn(v), a)
      {
        assert a !in r.adjacent;
      }
    }
  }

  lemma LazyDecision(v: View, hasHash: bool, lazyMax: int, r: Report)
    requires Recorded(v) && Reports(v, r) && LengthOf(v.meta.value) <= lazyMax && 0 < lazyMax
    ensures LazyMigrates(v, hasHash, lazyMax) <==> HealthyReport(r) && !hasHash
    ensures HealthyReport(r) ==> Dense(v.v1, LengthIn(v))
  {
    CleanReport(v, r);
  }

  predicate Holds(v1: map<nat, Raw>, i: int, x: Raw) {
    i >= 0 && i in v1 && v1[i] == x
  }

  /** `k` more rows at the recorded end. */
  ghost predicate Extended(v: View, w: View, items: seq<Raw>, k: nat) {
    && Recorded(v) && Recorded(w) && k <= |items| && w.v2 == v.v2
    && var n := LengthOf(v.meta.value);
       && LengthOf(w.meta.value) == n + k
       && (forall j :: 0 <= j < k ==> Holds(w.v1, n + j, items[j]))
       && (forall i: nat :: i < n || n + k <= i ==> SameRow(w.v1, i, v.v1, i))
  }

  lemma ExtendedMore(v: View, u: View, w: View, items: seq<Raw>, k: nat)
    requires Extended(v, u, items, k) && k < |items| && RowsAfter(Append(items[k]), u, w)
    ensures Extended(v, w, items, k + 1)
  {
    var n := LengthOf(v.meta.value);
    assert LengthOf(u.meta.value) == n + k;
    forall j | 0 <= j < k + 1
      ensures Holds(w.v1, n + j, items[j])
    {
      assert j < k ==> Holds(u.v1, n + j, items[j]);
    }
    forall i: nat | i < n || n + (k + 1) <= i
      ensures SameRow(w.v1, i, v.v1, i)
    {
      assert SameRow(u.v1, i, v.v1, i);
    }
  }

  /** An append takes a list that may not be migrated to one that may exactly when the damage was
      one orphan at the recorded end, which the append overwrote. */
  lemma AppendHides(item: Raw, v: View, w: View, hasHash: bool, lazyMax: int)
    requires Recorded(v) && RowsAfter(Append(item), v, w)
    ensures !LazyMigrates(v, hasHash, lazyMax) && LazyMigrates(w, hasHash, lazyMax) <==>
            var n := LengthIn(v);
            && n + 1 <= lazyMax && !hasHash && Dense(v.v1, n + 1) && NoTwins(v.v1, n) && (n > 0 ==> v.v1[n - 1] != item)
  {
    var n := LengthIn(v);
    assert FormatOf(v.meta.value) == 1 && LengthIn(w) == n + 1;
    TwinsAfter(item, v, w, n);
    if Dense(w.v1, n + 1) {
      forall i: nat | i != n
        ensures i in v.v1 <==> i < n
      {
        assert i in w.v1 <==> i < n + 1;
      }
      assert n in v.v1 ==> Dense(v.v1, n + 1);
      assert n !in v.v1 ==> Dense(v.v1, n);
    }
    assert Dense(v.v1, n + 1) ==> n in v.v1;
  }

  /** Where the version 1 loop of `extend` is after `i` appends. */
  ghost predicate Appending(g: KeyGen, v: View, w: View, items: seq<Raw>, i: nat, hasHash: bool, lazyMax: int) {
    && i <= |items| && Keeps(g, v, w)
    && (!IsV2(w) ==> Extended(v, w, items, i))
    && (Healthy(g, v) ==> !IsV2(w) && !LazyMigrates(w, hasHash, lazyMax))
    && (NoHoles(v) ==> Content(w) == Content(v) + items[..i])
  }

  lemma AppendingStarts(g: KeyGen, v: View, items: seq<Raw>, hasHash: bool, lazyMax: int, now: string)
    requires Sane(g, v) && !IsV2(AfterLazy(g, v, hasHash, lazyMax, now))
    ensures Appending(g, v, v, items, 0, hasHash, lazyMax)
  {
    assert LazyMigrates(v, hasHash, lazyMax) ==> IsV2(AfterLazy(g, v, hasHash, lazyMax, now));
  }

  lemma AppendingMore(g: KeyGen, v: View, u: View, w: View, items: seq<Raw>, i: nat, hasHash: bool, lazyMax: int, now: string)
    requires Recorded(v) && Appending(g, v, u, items, i, hasHash, lazyMax) && i < |items|
    requires Keeps(g, u, w) && (NoHoles(u) ==> Content(w) == Content(u) + [items[i]])
    requires var l := AfterLazy(g, u, hasHash, lazyMax, now);
             IsV2(w) == IsV2(l) && (!IsV2(l) ==> RowsAfter(Append(items[i]), u, w))
    ensures Appending(g, v, w, items, i + 1, hasHash, lazyMax)
  {
    PrefixSnoc(Content(v), items, i);
    if !IsV2(w) {
      assert !IsV2(u);
      ExtendedMore(v, u, w, items, i);
      AppendHides(items[i], u, w, hasHash, lazyMax);
    }
  }

  /** What the version 1 loop of `extend` leaves. It can only have been stopped after an append
      overwrote an orphan, and with it the evidence that kept the list in version 1. */
  ghost predicate AppendedEach(g: KeyGen, v: View, w: View, items: seq<Raw>, landed: nat, a: Answer) {
    && landed <= |items| && a == (if landed == |items| then Done else Failed(RankCap))
    && (!IsV2(w) ==> a == Done && Extended(v, w, items, |items|))
    && (a != Done ==> IsV2(w) && TooLong(EndKey(g, w.v2)))
    && (Healthy(g, v) ==> !IsV2(w))
  }

  lemma TwinsAfter(item: Raw, v: View, w: View, n: nat)
    requires w.v1 == v.v1[n := item]
    ensures NoTwins(w.v1, n + 1) <==> NoTwins(v.v1, n) && (n > 0 && n - 1 in v.v1 ==> v.v1[n - 1] != item)
  {
    if NoTwins(w.v1, n + 1) {
      forall a: nat
        ensures !AdjacentPair(v.v1, n, a)
      {
        assert !AdjacentPair(w.v1, n + 1, a);
      }
      assert n > 0 ==> !AdjacentPair(w.v1, n + 1, n - 1);
    } else {
      var a: nat :| AdjacentPair(w.v1, n + 1, a);
      assert a + 1 < n ==> AdjacentPair(v.v1, n, a);
    }
  }

  // ---- emptying and deleting ----

  /** The rows that `clear` and `delete` do not reach: version 1 rows past a recorded end, and the
      other format's rows of a list that says it never changed format. */
  ghost function LeftBehind1(v: View): map<nat, Raw> {
    if IsV2(v) then v.v1 - Foreign1(v) else v.v1 - Indices(LengthIn(v))
  }

  ghost function LeftBehind2(v: View): Rows {
    if IsV2(v) then map[] else v.v2 - Foreign2(v)
  }

  ghost function Emptied(v: View): View {
    View(v.meta, LeftBehind1(v), LeftBehind2(v))
  }

  /** Rows of the other format are left exactly if the list wrongly says that it never changed
      format; of its own, exactly if they lie past the end of a version 1 list. */
  lemma EmptiedFacts(g: KeyGen, v: View)
    requires IsV2(v) || Recorded(v)
    ensures !IsV2(v) ==> LeftBehind2(v) == if SweepSound(v) then map[] else v.v2
    ensures IsV2(v) ==> LeftBehind2(v) == map[]
    ensures IsV2(v) ==> LeftBehind1(v) == if v.meta.None? || SweepSound(v) then map[] else v.v1
    ensures !IsV2(v) ==> (LeftBehind1(v) == map[] <==> forall i: nat :: i in v.v1 ==> i < LengthIn(v))
    ensures Healthy(g, v) ==> LeftBehind1(v) == map[]
  {
    if !IsV2(v) && LeftBehind1(v) == map[] {
      forall i: nat | i in v.v1
        ensures i < LengthIn(v)
      {
        assert i !in LeftBehind1(v);
      }
    }
  }

  /** The sweep that comes first. */
  lemma SweepLeaves(v: View)
    ensures IsV2(v) ==> v.v1 - Foreign1(v) == LeftBehind1(v)
    ensures !IsV2(v) ==> v.v1 - Foreign1(v) == v.v1 && v.v2 - Foreign2(v) == LeftBehind2(v)
    ensures v.meta.None? ==> v.v2 - Foreign2(v) == map[] && LeftBehind2(v) == map[]
  {}

  ghost function ResetTo(v: View, now: string): View {
    Emptied(v).(meta := Some(if IsV2(v) then DefaultV2(now) else DefaultV1(now)))
  }

  lemma ResetFacts(g: KeyGen, v: View, now: string)
    requires IsV2(v) || Recorded(v)
    ensures var w := ResetTo(v, now);
            && Content(w) == [] && LengthIn(w) == 0 && IsV2(w) == IsV2(v) && (SweepSound(v) ==> Exact(w))
            && Sane(g, w) && (Healthy(g, v) ==> Healthy(g, w))
  {
    EmptiedFacts(g, v);
    EmptyReads();
    ResetMeta(now);
  }

  lemma ResetMeta(now: string)
    ensures FormatOf(DefaultV2(now)) == 2 && FormatOf(DefaultV1(now)) == 1
    ensures NeverChanged(DefaultV2(now)) && NeverChanged(DefaultV1(now))
    ensures Length in DefaultV1(now) && DefaultV1(now)[Length] == Num(0) && CountHint !in DefaultV1(now)
    ensures CountHint in DefaultV2(now) && DefaultV2(now)[CountHint] == Num(0)
  {}

  // ---- the order of removal ----

  /** The same sequence from the last element to the first. */
  function Backwards<T>(s: seq<T>): (r: seq<T>)
    ensures |r| == |s| && forall i :: 0 <= i < |s| ==> r[i] == s[|s| - 1 - i]
  {
    seq(|s|, i requires 0 <= i < |s| => s[|s| - 1 - i])
  }

  lemma BackwardsShort<T>(s: seq<T>)
    requires |s| <= 1
    ensures Backwards(s) == s
  {}

  /** The positions `remove_where` removes, in the order in which it returns their values. */
  function Picked(s: seq<Raw>, p: Match, firstOnly: bool): seq<nat> {
    var at := MatchIndex(s, p, |s|);
    if firstOnly && at != [] then [at[0]] else at
  }

  /** The positions in the order in which their rows go. */
  function RemovalOrder(s: seq<Raw>, p: Match, firstOnly: bool, two: bool): seq<nat> {
    if two then Picked(s, p, firstOnly) else Backwards(Picked(s, p, firstOnly))
  }

  lemma {:induction false} MatchIndexAscends(s: seq<Raw>, p: Match, n: nat)
    requires n <= |s|
    ensures AscendingNats(MatchIndex(s, p, n)) && forall k :: 0 <= k < |MatchIndex(s, p, n)| ==> MatchIndex(s, p, n)[k] < n
  {
    if n > 0 {
      MatchIndexAscends(s, p, n - 1);
    }
  }

  /** The positions are returned in the order of removal exactly when the list is in format 2 or no
      more than one item goes; the texts, exactly when it is or they read the same backwards. */
  lemma RemovalOrderIs(s: seq<Raw>, p: Match, firstOnly: bool, two: bool)
    ensures var at, gone := Picked(s, p, firstOnly), RemovalOrder(s, p, firstOnly, two);
            && (gone == at <==> two || |at| <= 1)
            && (forall k :: 0 <= k < |at| ==> at[k] < |s|) && (forall k :: 0 <= k < |gone| ==> gone[k] < |s|)
            && (Values(s, gone) == Values(s, at) <==> two || Backwards(Values(s, at)) == Values(s, at))
  {
    MatchIndexAscends(s, p, |s|);
    var at := Picked(s, p, firstOnly);
    if !two && |at| > 1 {
      assert Backwards(at)[0] == at[|at| - 1] != at[0];
    }
    assert Values(s, Backwards(at)) == Backwards(Values(s, at));
  }

  lemma DescribeFacts(m: Meta, description: string, now: string)
    ensures var r := Stamped(Merge(m, map[Description := Str(description)], 0, 0), now);
            && r == m[Description := Str(description)][UpdatedAt := Str(now)]
            && FormatOf(r) == FormatOf(m) && LengthOf(r) == LengthOf(m) && (NeverChanged(r) <==> NeverChanged(m))
            && (Length in r <==> Length in m) && (CountHint in r <==> CountHint in m)
            && (CountHint in m ==> r[CountHint] == m[CountHint]) && (Length in m ==> r[Length] == m[Length])
  {
    assert map[Description := Str(description)] - {Length} == map[Description := Str(description)];
  }

  lemma EmptyReads()
    ensures Sorted({}) == [] && Ranked.Items(map[]) == []
  {
    SortedIs([], {});
  }

  lemma DelItemDeletes(s: seq<Raw>, index: int)
    requires InRange(index, |s|)
    ensures Apply(DelItem(index), s) == (Deleted(s, At(index, |s|)), Done)
  {}

  lemma PrefixSnoc(s: seq<Raw>, items: seq<Raw>, i: nat)
    requires i < |items|
    ensures (s + items[..i]) + [items[i]] == s + items[..i + 1]
  {}

  /** The items with the first `k` of the given positions overwritten. */
  ghost function Overwritten(items: seq<Raw>, at: seq<nat>, k: nat, item: Raw): (r: seq<Raw>)
    requires k <= |at| && forall i :: 0 <= i < |at| ==> at[i] < |items|
    ensures |r| == |items|
  {
    if k == 0 then items else Overwritten(items, at, k - 1, item)[at[k - 1] := item]
  }

  lemma {:induction false} OverwrittenIs(items: seq<Raw>, at: seq<nat>, k: nat, item: Raw, j: nat)
    requires k <= |at| && (forall i :: 0 <= i < |at| ==> at[i] < |items|) && j < |items|
    ensures Overwritten(items, at, k, item)[j] == if j in at[..k] then item else items[j]
  {
    if k > 0 {
      OverwrittenIs(items, at, k - 1, item, j);
      assert at[..k] == at[..k - 1] + [at[k - 1]];
    }
  }

  lemma OverwrittenAll(items: seq<Raw>, p: Match, item: Raw)
    requires forall k :: 0 <= k < |MatchIndex(items, p, |items|)| ==> MatchIndex(items, p, |items|)[k] < |items|
    ensures var at := MatchIndex(items, p, |items|); Overwritten(items, at, |at|, item) == Replaced(items, p, item)
  {
    var at := MatchIndex(items, p, |items|);
    MatchIndexSpec(items, p, |items|);
    var l, r := Overwritten(items, at, |at|, item), Replaced(items, p, item);
    forall j: nat | j < |items|
      ensures l[j] == r[j]
    {
      OverwrittenIs(items, at, |at|, item, j);
      assert at[..|at|] == at;
    }
  }

  /** The list once every match from position `b` on is deleted, `tail` being what is kept of it. */
  ghost function Joined(items: seq<Raw>, b: nat, tail: seq<Raw>): seq<Raw>
    requires b <= |items|
  {
    items[..b] + tail
  }

  lemma DeletedFromJoin(s: seq<Raw>, m: nat, b: nat, tail: seq<Raw>)
    requires m < b <= |s|
    ensures m < |Joined(s, b, tail)| && Deleted(Joined(s, b, tail), m) == Joined(s, m, s[m + 1..b] + tail)
  {}

  /** The matches from position `b` on have been deleted, the last one first. */
  ghost predicate Descended(items: seq<Raw>, p: Match, matched: seq<nat>, k: nat, b: nat, tail: seq<Raw>, order: seq<nat>) {
    && b <= |items| && k <= |matched| && |order| == |matched| - k
    && matched[..k] == MatchIndex(items, p, b) && tail == KeptFrom(items, p, b)
    && forall j, l :: 0 <= j < |order| && l == |matched| - 1 - j ==> order[j] == matched[l]
  }

  lemma DescendStart(items: seq<Raw>, p: Match)
    ensures var at := MatchIndex(items, p, |items|);
            Descended(items, p, at, |at|, |items|, KeptFrom(items, p, |items|), [])
    ensures Joined(items, |items|, KeptFrom(items, p, |items|)) == items
  {
    var at := MatchIndex(items, p, |items|);
    assert at[..|at|] == at;
  }

  lemma DescendStep(items: seq<Raw>, p: Match, matched: seq<nat>, k: nat, b: nat, tail: seq<Raw>, order: seq<nat>)
    requires k > 0 && Descended(items, p, matched, k, b, tail, order)
    ensures var m := matched[k - 1];
            && m < b && m < |Joined(items, b, tail)|
            && Deleted(Joined(items, b, tail), m) == Joined(items, m, items[m + 1..b] + tail)
            && Descended(items, p, matched, k - 1, m, items[m + 1..b] + tail, order + [m])
  {
    LastMatch(items, p, b);
    assert matched[k - 1] == matched[..k][k - 1] && matched[..k][..k - 1] == matched[..k - 1];
    DeletedFromJoin(items, matched[k - 1], b, tail);
  }

  lemma DescendEnd(items: seq<Raw>, p: Match, matched: seq<nat>, b: nat, tail: seq<Raw>, order: seq<nat>)
    requires Descended(items, p, matched, 0, b, tail, order)
    ensures order == Backwards(matched) && Joined(items, b, tail) == KeptFrom(items, p, 0)
  {
    NoMatchLeft(items, p, b);
    assert order == Backwards(matched);
  }

  lemma FlippedNotes(m: Meta, now: string)
    ensures Notes(Flipped(m, now)) == Notes(m)
  {}

  lemma SweptIsSane(g: KeyGen, base: View, s: View)
    requires IsV2(base) && AllKeys(g, base.v2)
    requires s == base.(v1 := base.v1 - Foreign1(base), v2 := base.v2 - Foreign2(base))
    ensures Sane(g, s) && IsV2(s) && Keeps(g, base, s)
    ensures base.meta.Some? ==> s.v2 == base.v2
    ensures Healthy(g, base) ==> Healthy(g, s) && s.v1 == map[]
  {
    assert base.meta.Some? ==> s.v2 == base.v2;
  }

  lemma CopiedIsSane(g: KeyGen, base: View, s: View, now: string)
    requires Sound(g) && Recorded(base)
    requires s == View(Some(Flipped(base.meta.value, now)), map[], FreshRows(g, Content(base)))
    ensures Sane(g, s) && IsV2(s) && Keeps(g, base, s) && Content(s) == Content(base) && Healthy(g, s)
  {
    FlippedNotes(base.meta.value, now);
    FreshRowsRead(g, Content(base));
  }

  lemma MigratedIsSane(g: KeyGen, base: View, s: View, now: string)
    requires Sound(g) && Sane(g, base)
    requires if IsV2(base) then s == base.(v1 := base.v1 - Foreign1(base), v2 := base.v2 - Foreign2(base))
             else s == View(Some(Flipped(base.meta.value, now)), map[], FreshRows(g, Content(base)))
    ensures Sane(g, s) && IsV2(s) && Keeps(g, base, s) && (s.meta.Some? <==> base.meta.Some?)
    ensures base.meta.Some? ==> Content(s) == Content(base)
    ensures IsV2(base) ==> s.meta == base.meta
    ensures !IsV2(base) || Healthy(g, base) ==> Healthy(g, s) && s.v1 == map[]
  {
    if IsV2(base) {
      SweptIsSane(g, base, s);
    } else {
      CopiedIsSane(g, base, s, now);
    }
  }

  // ---- matching positions, as the version 1 scans collect them ----

  function MatchIndex(s: seq<Raw>, p: Match, n: nat): (r: seq<nat>)
    requires n <= |s|
    ensures |r| <= n
  {
    if n == 0 then [] else if p(s[n - 1]) then MatchIndex(s, p, n - 1) + [n - 1] else MatchIndex(s, p, n - 1)
  }

  function Values(s: seq<Raw>, at: seq<nat>): seq<Raw>
    requires forall k :: 0 <= k < |at| ==> at[k] < |s|
  {
    seq(|at|, k requires 0 <= k < |at| => s[at[k]])
  }

  lemma {:induction false} MatchIndexSpec(s: seq<Raw>, p: Match, n: nat)
    requires n <= |s|
    ensures forall j :: 0 <= j < n ==> (j in MatchIndex(s, p, n) <==> p(s[j]))
    ensures forall k :: 0 <= k < |MatchIndex(s, p, n)| ==> MatchIndex(s, p, n)[k] < n
  {
    if n > 0 {
      MatchIndexSpec(s, p, n - 1);
      var r := MatchIndex(s, p, n - 1);
      assert forall k :: 0 <= k < |r| ==> r[k] in r;
    }
  }

  lemma {:induction false} MatchIndexValues(s: seq<Raw>, p: Match, n: nat)
    requires n <= |s|
    ensures forall k :: 0 <= k < |MatchIndex(s, p, n)| ==> MatchIndex(s, p, n)[k] < |s|
    ensures Values(s, MatchIndex(s, p, n)) == Matches(s, p, n)
  {
    if n > 0 {
      MatchIndexValues(s, p, n - 1);
      var r := MatchIndex(s, p, n - 1);
      if p(s[n - 1]) {
        ValuesSnoc(s, r, n - 1);
      }
    }
  }

  lemma ValuesSnoc(s: seq<Raw>, at: seq<nat>, m: nat)
    requires (forall k :: 0 <= k < |at| ==> at[k] < |s|) && m < |s|
    ensures forall k :: 0 <= k < |at + [m]| ==> (at + [m])[k] < |s|
    ensures Values(s, at + [m]) == Values(s, at) + [s[m]]
  {}

  lemma {:induction false} MatchIndexFirst(s: seq<Raw>, p: Match, n: nat)
    requires n <= |s|
    ensures var r := MatchIndex(s, p, n);
            if r == [] then FirstIndex(s, p, 0, |s|) >= n else r[0] == FirstIndex(s, p, 0, |s|) < n
  {
    if n > 0 {
      MatchIndexFirst(s, p, n - 1);
    }
  }

  lemma {:induction false} LastMatch(s: seq<Raw>, p: Match, b: nat)
    requires b <= |s| && MatchIndex(s, p, b) != []
    ensures var r := MatchIndex(s, p, b);
            var m := r[|r| - 1];
            && m < b && p(s[m]) && r[..|r| - 1] == MatchIndex(s, p, m)
            && KeptFrom(s, p, m) == s[m + 1..b] + KeptFrom(s, p, b)
  {
    var c, before := b - 1, MatchIndex(s, p, b - 1);
    if p(s[c]) {
      EmptySlice(s, b, KeptFrom(s, p, b));
      SnocLast(before, c);
    } else {
      LastMatch(s, p, c);
      SliceSnoc(s, before[|before| - 1] + 1, b, KeptFrom(s, p, b));
    }
  }

  lemma SnocLast(r: seq<nat>, m: nat)
    ensures (r + [m])[|r|] == m && (r + [m])[..|r|] == r
  {}

  lemma EmptySlice(s: seq<Raw>, b: nat, tail: seq<Raw>)
    requires b <= |s|
    ensures s[b..b] + tail == tail
  {}

  lemma SliceSnoc(s: seq<Raw>, a: nat, b: nat, tail: seq<Raw>)
    requires a < b <= |s|
    ensures s[a..b - 1] + ([s[b - 1]] + tail) == s[a..b] + tail
  {}

  lemma {:induction false} NoMatchLeft(s: seq<Raw>, p: Match, b: nat)
    requires b <= |s| && MatchIndex(s, p, b) == []
    ensures KeptFrom(s, p, 0) == Joined(s, b, KeptFrom(s, p, b))
  {
    if b > 0 {
      NoMatchLeft(s, p, b - 1);
      SliceSnoc(s, 0, b, KeptFrom(s, p, b));
      assert s[0..b] == s[..b] && s[0..b - 1] == s[..b - 1];
    }
  }

  ghost predicate NamesOnlyLength(updates: Meta) {
    updates.Keys <= {Length} && (Length in updates ==> updates[Length].Num? && updates[Length].n >= 0)
  }

  function NewLength(n: int, updates: Meta, lengthDelta: int): int {
    if Length in updates && updates[Length].Num? then updates[Length].n else NonNegative(n + lengthDelta)
  }

  lemma LengthFacts(m: Meta, updates: Meta, lengthDelta: int, now: string)
    requires FormatOf(m) == 1 && Length in m && m[Length].Num? && LengthOf(m) >= 0
    requires NamesOnlyLength(updates) && (Length in updates ==> lengthDelta == 0)
    ensures var r := Stamped(Merge(m, updates, 0, lengthDelta), now);
            && FormatOf(r) == 1 && Notes(r) == Notes(m) && (NeverChanged(r) <==> NeverChanged(m))
            && Length in r && r[Length] == Num(NewLength(LengthOf(m), updates, lengthDelta))
            && (CountHint in r <==> CountHint in m) && (CountHint in m ==> r[CountHint] == m[CountHint])
  {}

  /** The matching items before `i` have been replaced; with `firstOnly` there were none. */
  ghost predicate UpdateState(s: seq<Raw>, p: Match, item: Raw, firstOnly: bool, i: nat,
                              nowItems: seq<Raw>, updated: seq<Raw>) {
    && i <= |s| == |nowItems|
    && (forall j :: 0 <= j < |s| ==> nowItems[j] == if j < i && p(s[j]) then item else s[j])
    && updated == Matches(s, p, i)
    && (firstOnly ==> FirstIndex(s, p, 0, |s|) >= i)
  }

  lemma UpdateStep(s: seq<Raw>, p: Match, item: Raw, firstOnly: bool, i: nat, nowItems: seq<Raw>, updated: seq<Raw>)
    requires UpdateState(s, p, item, firstOnly, i, nowItems, updated) && i < |s|
    ensures p(s[i]) && !firstOnly ==> UpdateState(s, p, item, firstOnly, i + 1, nowItems[i := item], updated + [s[i]])
    ensures !p(s[i]) ==> UpdateState(s, p, item, firstOnly, i + 1, nowItems, updated)
    ensures p(s[i]) && firstOnly ==>
              (nowItems[i := item], Many(updated + [s[i]])) == Apply(UpdateWhere(p, item, firstOnly), s)
  {
    if firstOnly {
      NoMatches(s, p, i);
      assert nowItems == s;
      assert p(s[i]) ==> FirstIndex(s, p, 0, |s|) == i && updated + [s[i]] == [s[i]];
    }
  }

  lemma UpdateEnd(s: seq<Raw>, p: Match, item: Raw, firstOnly: bool, nowItems: seq<Raw>, updated: seq<Raw>)
    requires UpdateState(s, p, item, firstOnly, |s|, nowItems, updated)
    ensures (nowItems, Many(updated)) == Apply(UpdateWhere(p, item, firstOnly), s)
  {
    if firstOnly {
      NoMatches(s, p, |s|);
      assert nowItems == s;
    } else {
      assert nowItems == Replaced(s, p, item);
    }
  }

  /** The items before `i` have been divided into the kept and the removed ones, in that order ... */
  ghost predicate WhereState(s: seq<Raw>, ranks: seq<Rank>, p: Match, i: nat, kept: seq<Raw>, removed: seq<Raw>,
                             order: seq<nat>) {
    i <= |s| == |ranks| && kept == Kept(s, p, i) && removed == Matches(s, p, i) && order == MatchIndex(s, p, i)
  }

  /** ... and the list now consists of the kept ones and of what has not been looked at. */
  ghost predicate WhereRows(s: seq<Raw>, ranks: seq<Rank>, i: nat, kept: seq<Raw>,
                            nowItems: seq<Raw>, nowRanks: seq<Rank>) {
    && i <= |s| == |ranks|
    && |nowRanks| == |nowItems| == |kept| + |s| - i
    && (forall j :: 0 <= j < |kept| ==> nowItems[j] == kept[j])
    && (forall j, l :: i <= j < |s| && l == |kept| + j - i ==> nowItems[l] == s[j])
    && (forall j, l :: i <= j < |s| && l == |kept| + j - i ==> nowRanks[l] == ranks[j])
  }

  ghost predicate Scanned(s: seq<Raw>, p: Match, firstOnly: bool, nowItems: seq<Raw>, kept: seq<Raw>, removed: seq<Raw>,
                          order: seq<nat>) {
    var i := FirstIndex(s, p, 0, |s|);
    if firstOnly && i < |s| then nowItems == Deleted(s, i) && removed == [s[i]] && order == [i]
    else nowItems == kept == Kept(s, p, |s|) && removed == Matches(s, p, |s|) && order == MatchIndex(s, p, |s|)
  }

  ghost predicate NoneBefore(s: seq<Raw>, p: Match, i: nat) {
    i <= |s| && forall j :: 0 <= j < i ==> !p(s[j])
  }

  lemma ScanEnds(s: seq<Raw>, ranks: seq<Rank>, p: Match, i: nat, kept: seq<Raw>, removed: seq<Raw>, order: seq<nat>,
                 nowItems: seq<Raw>, nowRanks: seq<Rank>, firstOnly: bool)
    requires WhereState(s, ranks, p, i, kept, removed, order) && WhereRows(s, ranks, i, kept, nowItems, nowRanks)
    requires i >= |ranks| && (firstOnly ==> NoneBefore(s, p, i))
    ensures Scanned(s, p, firstOnly, nowItems, kept, removed, order)
  {}

  lemma FirstHit(s: seq<Raw>, p: Match, i: nat, nowItems: seq<Raw>, kept: seq<Raw>, removed: seq<Raw>, order: seq<nat>)
    requires i < |s| && NoneBefore(s, p, i) && p(s[i]) && nowItems == Deleted(s, i) && removed == [s[i]] && order == [i]
    ensures Scanned(s, p, true, nowItems, kept, removed, order)
  {
    FirstIs(s, p, i, 0);
  }

  lemma {:induction false} FirstIs(s: seq<Raw>, p: Match, i: nat, k: nat)
    requires k <= i < |s| && NoneBefore(s, p, i) && p(s[i])
    ensures FirstIndex(s, p, k, |s|) == i
    decreases i - k
  {
    if k < i {
      FirstIs(s, p, i, k + 1);
    }
  }

  lemma ScannedIs(s: seq<Raw>, p: Match, firstOnly: bool, nowItems: seq<Raw>, kept: seq<Raw>, removed: seq<Raw>, order: seq<nat>)
    requires Scanned(s, p, firstOnly, nowItems, kept, removed, order)
    ensures (nowItems, Many(removed)) == Apply(RemoveWhere(p, firstOnly), s) && order == Picked(s, p, firstOnly)
  {
    MatchIndexFirst(s, p, |s|);
    if firstOnly && FirstIndex(s, p, 0, |s|) == |s| {
      NoMatches(s, p, |s|);
      assert s[..|s|] == s;
    }
  }

  lemma WhereStart(s: seq<Raw>, ranks: seq<Rank>, p: Match)
    requires |s| == |ranks|
    ensures WhereState(s, ranks, p, 0, [], [], [])
    ensures WhereRows(s, ranks, 0, [], s, ranks)
  {}

  lemma WhereNext(s: seq<Raw>, ranks: seq<Rank>, i: nat, kept: seq<Raw>, nowItems: seq<Raw>, nowRanks: seq<Rank>)
    requires i < |s| && WhereRows(s, ranks, i, kept, nowItems, nowRanks)
    ensures |kept| < |nowItems| && nowItems[|kept|] == s[i] && nowRanks[|kept|] == ranks[i]
  {}

  lemma WhereHit(s: seq<Raw>, ranks: seq<Rank>, i: nat, kept: seq<Raw>, nowItems: seq<Raw>, nowRanks: seq<Rank>)
    requires i < |s| && WhereRows(s, ranks, i, kept, nowItems, nowRanks)
    ensures WhereRows(s, ranks, i + 1, kept, Deleted(nowItems, |kept|), Deleted(nowRanks, |kept|))
  {
    var k, items', ranks' := |kept|, Deleted(nowItems, |kept|), Deleted(nowRanks, |kept|);
    forall j, l | i + 1 <= j < |s| && l == k + j - (i + 1)
      ensures items'[l] == s[j] && ranks'[l] == ranks[j]
    {
      assert items'[l] == nowItems[l + 1] && ranks'[l] == nowRanks[l + 1];
    }
  }

  lemma WhereMiss(s: seq<Raw>, ranks: seq<Rank>, i: nat, kept: seq<Raw>, nowItems: seq<Raw>, nowRanks: seq<Rank>)
    requires i < |s| && WhereRows(s, ranks, i, kept, nowItems, nowRanks)
    ensures WhereRows(s, ranks, i + 1, kept + [s[i]], nowItems, nowRanks)
  {
    WhereNext(s, ranks, i, kept, nowItems, nowRanks);
  }

  lemma WhereStep(s: seq<Raw>, ranks: seq<Rank>, p: Match, i: nat, kept: seq<Raw>,
                  nowItems: seq<Raw>, nowRanks: seq<Rank>, removed: seq<Raw>, order: seq<nat>)
    requires i < |s| && WhereState(s, ranks, p, i, kept, removed, order)
    requires WhereRows(s, ranks, i, kept, nowItems, nowRanks)
    ensures nowItems[|kept|] == s[i] && nowRanks[|kept|] == ranks[i]
    ensures p(s[i]) ==> WhereState(s, ranks, p, i + 1, kept, removed + [s[i]], order + [i])
                        && WhereRows(s, ranks, i + 1, kept, Deleted(nowItems, |kept|), Deleted(nowRanks, |kept|))
    ensures !p(s[i]) ==> WhereState(s, ranks, p, i + 1, kept + [s[i]], removed, order)
                         && WhereRows(s, ranks, i + 1, kept + [s[i]], nowItems, nowRanks)
  {
    WhereNext(s, ranks, i, kept, nowItems, nowRanks);
    WhereHit(s, ranks, i, kept, nowItems, nowRanks);
    WhereMiss(s, ranks, i, kept, nowItems, nowRanks);
  }

  /** A first hit deletes from the untouched list. */
  lemma FirstStep(s: seq<Raw>, ranks: seq<Rank>, p: Match, i: nat, kept: seq<Raw>, nowItems: seq<Raw>,
                  nowRanks: seq<Rank>, removed: seq<Raw>, order: seq<nat>)
    requires i < |s| && WhereState(s, ranks, p, i, kept, removed, order) && WhereRows(s, ranks, i, kept, nowItems, nowRanks)
    requires NoneBefore(s, p, i)
    ensures nowItems == s && |kept| == i && removed == [] && order == []
    ensures !p(s[i]) ==> NoneBefore(s, p, i + 1)
  {
    NoMatches(s, p, i);
    NoMatchIndex(s, p, i);
    forall j | 0 <= j < |s|
      ensures nowItems[j] == s[j]
    {
      assert j >= i ==> |kept| + j - i == j;
    }
  }

  /** The metadata row after a version 2 touch. */
  function Touched(m: Meta, count: Option<nat>, countDelta: int, now: string): Meta {
    Stamped(Merge(m, if count.Some? then map[CountHint := Num(count.value)] else map[],
                  if count.Some? then 0 else countDelta, 0), now)
  }
}
