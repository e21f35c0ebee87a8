/** The Python list operations that the distributed list imitates, on plain sequences. This is
    the meaning both storage formats must share. */
module PyList {
  import opened Options
  import opened Ranked

  /** A condition on stored items: `decode(raw) == value`, or an identity-field comparison. */
  type Match = Raw -> bool

  datatype Op = Append(item: Raw)
              | Extend(items: seq<Raw>)
              | Insert(index: int, item: Raw)
              | SetItem(index: int, item: Raw)
              | DelItem(index: int)
              | Pop(index: int)
              | Remove(match_: Match)
              | RemoveWhere(match_: Match, firstOnly: bool)
              | UpdateWhere(match_: Match, item: Raw, firstOnly: bool)
              | GetItem(index: int)
              | Slice(start: int, end: int)
              | IndexOf(match_: Match, start: int, stop: int, openEnd: bool)
              | ToList
              | Len

  /** `Corruption` is ListCorruptionError: a recorded item whose row is missing. */
  datatype Error = IndexError | ValueError | RankCap | Corruption

  datatype Answer = Done | Item(item: Raw) | Many(items: seq<Raw>) | Number(n: int) | Failed(error: Error)

  predicate InRange(index: int, n: nat) {
    0 <= index + n && index < n
  }

  /** A possibly negative index, resolved. */
  function At(index: int, n: nat): (i: nat)
    requires InRange(index, n)
    ensures i < n
  {
    if index < 0 then n + index else index
  }

  /** `insert` clamps its position instead of failing. */
  function InsertPos(index: int, n: nat): (pos: nat)
    ensures pos <= n
  {
    if index < 0 then (if n + index < 0 then 0 else n + index)
    else if index > n then n else index
  }

  /** The bounds of `slice(start, end)`: negatives count from the end, then everything is
      clamped into the list. */
  function SliceBounds(start: int, end: int, n: nat): (b: (nat, nat))
    ensures b.0 <= b.1 <= n
  {
    var s0 := if start < 0 then (if n + start < 0 then 0 else n + start) else start;
    var e0 := if end < 0 then (if n + end < 0 then 0 else n + end) else end;
    var s := if s0 > n then n else s0;
    var e := if e0 > n then n else e0;
    (s, if e < s then s else e)
  }

  /** `_normalize_search_bounds`; here the end may lie before the start. */
  function SearchBounds(start: int, stop: int, openEnd: bool, n: nat): (b: (nat, nat))
    ensures b.0 <= n && b.1 <= n
  {
    var s := if start < 0 then (if n + start < 0 then 0 else n + start) else if start < n then start else n;
    var e := if openEnd then n
             else if stop < 0 then (if n + stop < 0 then 0 else n + stop)
             else if stop < n then stop else n;
    (s, e)
  }

  /** The first matching position in `[lo, hi)`, or `hi` if there is none. */
  function FirstIndex(s: seq<Raw>, p: Match, lo: nat, hi: nat): (i: nat)
    requires lo <= hi <= |s|
    ensures lo <= i <= hi
    ensures i < hi ==> p(s[i])
    ensures forall j :: lo <= j < i ==> !p(s[j])
    decreases hi - lo
  {
    if lo == hi || p(s[lo]) then lo else FirstIndex(s, p, lo + 1, hi)
  }

  /** The first position in `[lo, hi)` where a scan stops, at a hole or at a match, or `hi`. */
  function FirstStop(s: seq<Option<Raw>>, p: Match, lo: nat, hi: nat): (i: nat)
    requires lo <= hi <= |s|
    ensures lo <= i <= hi
    ensures i < hi ==> s[i].None? || p(s[i].value)
    ensures forall j :: lo <= j < i ==> s[j].Some? && !p(s[j].value)
    decreases hi - lo
  {
    if lo == hi || s[lo].None? || p(s[lo].value) then lo else FirstStop(s, p, lo + 1, hi)
  }

  /** Without holes, a scan stops at the first match. */
  lemma {:induction false} StopIsIndex(slots: seq<Option<Raw>>, s: seq<Raw>, p: Match, lo: nat, hi: nat)
    requires lo <= hi <= |s| == |slots| && forall i :: 0 <= i < |s| ==> slots[i] == Some(s[i])
    ensures FirstStop(slots, p, lo, hi) == FirstIndex(s, p, lo, hi)
    decreases hi - lo
  {
    if lo < hi && !p(s[lo]) {
      StopIsIndex(slots, s, p, lo + 1, hi);
    }
  }

  /** The items of `s[..n]` that do not match, and those that do, in order. */
  function Kept(s: seq<Raw>, p: Match, n: nat): seq<Raw>
    requires n <= |s|
  {
    if n == 0 then [] else if p(s[n - 1]) then Kept(s, p, n - 1) else Kept(s, p, n - 1) + [s[n - 1]]
  }

  function Matches(s: seq<Raw>, p: Match, n: nat): seq<Raw>
    requires n <= |s|
  {
    if n == 0 then [] else if p(s[n - 1]) then Matches(s, p, n - 1) + [s[n - 1]] else Matches(s, p, n - 1)
  }

  /** The non-matching items of `s[i..]`. */
  function KeptFrom(s: seq<Raw>, p: Match, i: nat): seq<Raw>
    requires i <= |s|
    decreases |s| - i
  {
    if i == |s| then [] else if p(s[i]) then KeptFrom(s, p, i + 1) else [s[i]] + KeptFrom(s, p, i + 1)
  }

  function Replaced(s: seq<Raw>, p: Match, item: Raw): (r: seq<Raw>)
    ensures |r| == |s|
    ensures forall i :: 0 <= i < |s| ==> r[i] == if p(s[i]) then item else s[i]
  {
    seq(|s|, i requires 0 <= i < |s| => if p(s[i]) then item else s[i])
  }

  /** The list after the operation, and what the caller gets. */
  function Apply(op: Op, s: seq<Raw>): (seq<Raw>, Answer) {
    var n := |s|;
    match op
    case Append(x) => (s + [x], Done)
    case Extend(xs) => (s + xs, Done)
    case Insert(index, x) => (Inserted(s, InsertPos(index, n), x), Done)
    case SetItem(index, x) =>
      if InRange(index, n) then (s[At(index, n) := x], Done) else (s, Failed(IndexError))
    case DelItem(index) =>
      if InRange(index, n) then (Deleted(s, At(index, n)), Done) else (s, Failed(IndexError))
    case Pop(index) =>
      if InRange(index, n) then (Deleted(s, At(index, n)), Item(s[At(index, n)])) else (s, Failed(IndexError))
    case Remove(p) =>
      var i := FirstIndex(s, p, 0, n);
      if i < n then (Deleted(s, i), Done) else (s, Failed(ValueError))
    case RemoveWhere(p, first) =>
      var i := FirstIndex(s, p, 0, n);
      if !first then (Kept(s, p, n), Many(Matches(s, p, n)))
      else if i < n then (Deleted(s, i), Many([s[i]]))
      else (s, Many([]))
    case UpdateWhere(p, x, first) =>
      var i := FirstIndex(s, p, 0, n);
      if !first then (Replaced(s, p, x), Many(Matches(s, p, n)))
      else if i < n then (s[i := x], Many([s[i]]))
      else (s, Many([]))
    case GetItem(index) =>
      if InRange(index, n) then (s, Item(s[At(index, n)])) else (s, Failed(IndexError))
    case Slice(start, end) =>
      var b := SliceBounds(start, end, n);
      (s, Many(s[b.0..b.1]))
    case IndexOf(p, start, stop, openEnd) =>
      var b := SearchBounds(start, stop, openEnd, n);
      if b.0 <= b.1 && FirstIndex(s, p, b.0, b.1) < b.1 then (s, Number(FirstIndex(s, p, b.0, b.1)))
      else (s, Failed(ValueError))
    case ToList => (s, Many(s))
    case Len => (s, Number(n))
  }

  /** The list and the answers after the first `n` operations. */
  function ApplyAll(ops: seq<Op>, s: seq<Raw>, n: nat): (r: (seq<Raw>, seq<Answer>))
    requires n <= |ops|
    ensures |r.1| == n
  {
    if n == 0 then (s, [])
    else
      var before := ApplyAll(ops, s, n - 1);
      var last := Apply(ops[n - 1], before.0);
      (last.0, before.1 + [last.1])
  }

  lemma {:induction false} KeptSplit(s: seq<Raw>, p: Match, i: nat)
    requires i <= |s|
    ensures Kept(s, p, i) + KeptFrom(s, p, i) == Kept(s, p, |s|)
    decreases |s| - i
  {
    if i < |s| {
      KeptSplit(s, p, i + 1);
    }
  }

  lemma {:induction false} NoMatches(s: seq<Raw>, p: Match, n: nat)
    requires n <= |s| && forall i :: 0 <= i < n ==> !p(s[i])
    ensures Kept(s, p, n) == s[..n] && Matches(s, p, n) == []
  {
    if n > 0 {
      NoMatches(s, p, n - 1);
      assert s[..n] == s[..n - 1] + [s[n - 1]];
    }
  }

  lemma PartitionSnoc(s: seq<Raw>, kept: seq<Raw>, matches: seq<Raw>, x: Raw)
    requires multiset(s) == multiset(kept) + multiset(matches)
    ensures multiset(s + [x]) == multiset(kept + [x]) + multiset(matches)
    ensures multiset(s + [x]) == multiset(kept) + multiset(matches + [x])
  {}

  lemma SplitSnoc(s: seq<Raw>, p: Match, n: nat)
    requires n < |s|
    ensures s[..n + 1] == s[..n] + [s[n]]
    ensures Kept(s, p, n + 1) == if p(s[n]) then Kept(s, p, n) else Kept(s, p, n) + [s[n]]
    ensures Matches(s, p, n + 1) == if p(s[n]) then Matches(s, p, n) + [s[n]] else Matches(s, p, n)
  {}

  /** Removing by condition loses and invents nothing: what is kept and what is returned
      together are the list. */
  lemma {:induction false} SplitIsPartition(s: seq<Raw>, p: Match, n: nat)
    requires n <= |s|
    ensures multiset(s[..n]) == multiset(Kept(s, p, n)) + multiset(Matches(s, p, n))
  {
    if n > 0 {
      var before, kept, matches := s[..n - 1], Kept(s, p, n - 1), Matches(s, p, n - 1);
      SplitIsPartition(s, p, n - 1);
      SplitSnoc(s, p, n - 1);
      PartitionSnoc(before, kept, matches, s[n - 1]);
    }
  }

  lemma {:induction false} SplitByCondition(s: seq<Raw>, p: Match, n: nat)
    requires n <= |s|
    ensures forall x :: x in Kept(s, p, n) ==> !p(x)
    ensures forall x :: x in Matches(s, p, n) ==> p(x)
  {
    if n > 0 {
      SplitByCondition(s, p, n - 1);
    }
  }

  /** The kept items are, in order, those that match the opposite condition. */
  lemma {:induction false} KeptAreTheOthers(s: seq<Raw>, p: Match, n: nat)
    requires n <= |s|
    ensures Kept(s, p, n) == Matches(s, x => !p(x), n)
  {
    if n > 0 {
      KeptAreTheOthers(s, p, n - 1);
    }
  }

  // ---- what indices and bounds mean ----

  /** Position `j` of a list of length `n` comes before the bound `k`: a bound from 0 on is a
      position, a negative one counts from the end and stops at the front. */
  predicate Before(j: nat, k: int, n: nat) {
    if k >= 0 then j < k else j < n + k
  }

  /** `index(value, start, stop)` answers the least matching position that is not before the start
      and is before the stop, if there is a stop; otherwise there is no such position. */
  lemma IndexOfMeans(p: Match, start: int, stop: int, openEnd: bool, s: seq<Raw>, i: nat)
    ensures Apply(IndexOf(p, start, stop, openEnd), s).0 == s
    ensures Apply(IndexOf(p, start, stop, openEnd), s).1 == Number(i) <==>
            && i < |s| && p(s[i]) && !Before(i, start, |s|) && (openEnd || Before(i, stop, |s|))
            && forall j: nat :: j < i && !Before(j, start, |s|) ==> !p(s[j])
    ensures Apply(IndexOf(p, start, stop, openEnd), s).1 == Failed(ValueError) <==>
            forall j: nat :: j < |s| && !Before(j, start, |s|) && (openEnd || Before(j, stop, |s|)) ==> !p(s[j])
    ensures var a := Apply(IndexOf(p, start, stop, openEnd), s).1; a == Failed(ValueError) || (a.Number? && a.n >= 0)
  {
    var b := SearchBounds(start, stop, openEnd, |s|);
    assert forall j: nat :: j < |s| ==> (Before(j, start, |s|) <==> j < b.0);
    assert forall j: nat :: j < |s| ==> (openEnd || Before(j, stop, |s|) <==> j < b.1);
    if b.0 <= b.1 {
      var k := FirstIndex(s, p, b.0, b.1);
      assert k < b.1 ==> p(s[k]) && !Before(k, start, |s|);
    }
  }

  /** A slice is the stretch of exactly the positions that are not before the start and are before
      the end. */
  lemma SliceMeans(start: int, end: int, s: seq<Raw>)
    ensures exists a: nat, r: seq<Raw> :: a + |r| <= |s| && Apply(Op.Slice(start, end), s) == (s, Many(r)) && IsStretch(s, start, end, a, r)
  {
    var b := SliceBounds(start, end, |s|);
    var r := s[b.0..b.1];
    assert IsStretch(s, start, end, b.0, r);
  }

  ghost predicate IsStretch(s: seq<Raw>, start: int, end: int, a: nat, r: seq<Raw>)
    requires a + |r| <= |s|
  {
    && r == s[a..a + |r|]
    && forall j: nat :: j < |s| ==> (!Before(j, start, |s|) && Before(j, end, |s|) <==> a <= j < a + |r|)
  }

  /** `insert` puts the new item behind exactly the old items at positions before the index. */
  lemma InsertMeans(index: int, x: Raw, s: seq<Raw>)
    ensures var t := Apply(Insert(index, x), s).0;
            && Apply(Insert(index, x), s).1 == Done
            && exists pos: nat :: pos <= |s| && t == s[..pos] + [x] + s[pos..] && forall j: nat :: j < |s| ==> (j < pos <==> Before(j, index, |s|))
  {
    var pos := InsertPos(index, |s|);
    assert forall j: nat :: j < |s| ==> (j < pos <==> Before(j, index, |s|));
  }

  /** A subscript from 0 on is a position, a negative one counts from the end; anything else is an
      index error and changes nothing. */
  lemma SubscriptMeans(index: int, x: Raw, s: seq<Raw>)
    ensures -|s| <= index < |s| ==>
              var i := if index >= 0 then index else |s| + index;
              && Apply(GetItem(index), s) == (s, Item(s[i])) && Apply(SetItem(index, x), s) == (s[i := x], Done)
              && Apply(DelItem(index), s) == (s[..i] + s[i + 1..], Done)
              && Apply(Pop(index), s) == (s[..i] + s[i + 1..], Item(s[i]))
    ensures !(-|s| <= index < |s|) ==>
              && Apply(GetItem(index), s) == (s, Failed(IndexError)) && Apply(SetItem(index, x), s) == (s, Failed(IndexError))
              && Apply(DelItem(index), s) == (s, Failed(IndexError)) && Apply(Pop(index), s) == (s, Failed(IndexError))
  {}
}
