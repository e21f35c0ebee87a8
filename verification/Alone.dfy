/** What a concurrent caller does when nobody interferes: exactly the plain list's call, on the rows
    it starts from. And, in any interleaving, which item a `pop` takes. */
module Alone {
  import opened Options
  import opened Order
  import opened Keys
  import opened Ranked
  import opened PyList
  import opened ListModel
  import opened ListFacts
  import opened Interleaving

  /** What one caller sees and is. */
  datatype Local = Local(rows: Rows, meta: Bytes, p: Proc)

  ghost function Once(g: KeyGen, c: Local, now: string): Local {
    var e := Act(g, c.rows, c.meta, c.p, now);
    Local(e.rows, e.meta, e.p)
  }

  /** The states a caller goes through that moves alone. */
  ghost predicate Trail(g: KeyGen, cs: seq<Local>, times: seq<string>) {
    |cs| == |times| + 1 && forall i :: 0 <= i < |times| ==> Moves(g, cs, times, i)
  }

  ghost predicate Moves(g: KeyGen, cs: seq<Local>, times: seq<string>, i: nat)
    requires i < |times| && |cs| == |times| + 1
  {
    cs[i + 1] == Once(g, cs[i], times[i])
  }

  ghost predicate Starts(g: KeyGen, c: Local, cs: seq<Local>, times: seq<string>) {
    Trail(g, cs, times) && cs[0] == c && Fresh(c.p)
  }

  predicate Finished(p: Proc) {
    p.pc.Returned? && p.touch.None?
  }

  lemma {:induction false} Stays(g: KeyGen, cs: seq<Local>, times: seq<string>, k: nat, n: nat)
    requires Trail(g, cs, times) && k <= n <= |times| && Finished(cs[k].p)
    ensures cs[n] == cs[k]
  {
    if k < n {
      Stays(g, cs, times, k, n - 1);
      assert Moves(g, cs, times, n - 1);
    }
  }

  /** The plain list's call, and its answer. */
  function OpOf(call: Call): Op
    requires !call.DeletingHandle?
  {
    match call
    case Adding(items) => Extend(items)
    case Inserting(index, item, _) => Insert(index, item)
    case Popping(index) => Pop(index)
    case Removing(p) => Remove(p)
    case RemovingWhere(p, first) => RemoveWhere(p, first)
  }

  function AnswerOf(call: Call, o: Outcome): Option<Answer> {
    match o
    case Ok => Some(Done)
    case Got(x) => Some(Item(x))
    case Removed(xs) => Some(Many(xs))
    case Refused => Some(Failed(if call.Popping? then IndexError else ValueError))
    case Capped => Some(Failed(RankCap))
    case Said(_) => None
    case Contention => None
  }

  /** The caller has returned the list's answer, left the list's items, and kept an exact hint. */
  ghost predicate Ends(c: Local, d: Local, op: Op) {
    && Finished(d.p) && AnswerOf(c.p.call, d.p.pc.outcome) == Some(Apply(op, Items(c.rows)).1)
    && Items(d.rows) == Apply(op, Items(c.rows)).0
    && (c.meta.hint == |c.rows| ==> d.meta.hint == |d.rows|)
  }

  // ---- pop ----

  ghost function PopRank(c: Local): Rank
    requires c.p.call.Popping? && InRange(c.p.call.index, |c.rows|)
  {
    Sorted(c.rows.Keys)[At(c.p.call.index, |c.rows|)]
  }

  lemma PopSteps(g: KeyGen, c: Local, cs: seq<Local>, times: seq<string>)
    requires |times| >= 5 && Starts(g, c, cs, times) && c.p.call.Popping? && InRange(c.p.call.index, |c.rows|)
    ensures var d, k := cs[5], PopRank(c);
            && k in c.rows && d.rows == c.rows - {k} && Finished(d.p) && d.p.pc == Returned(Got(c.rows[k]))
            && d.meta.hint == |c.rows| - 1
  {
    var k, n := PopRank(c), |c.rows|;
    var p1 := c.p.(stash := c.meta, pc := PopRead(0));
    assert Moves(g, cs, times, 0);
    assert cs[1] == Local(c.rows, c.meta, p1);
    assert Moves(g, cs, times, 1);
    assert cs[2] == Local(c.rows, c.meta, p1.(pc := PopGet(k, n, 0)));
    assert Moves(g, cs, times, 2);
    assert cs[3] == Local(c.rows, c.meta, p1.(pc := PopDelete(k, c.rows[k], n, 0)));
    var p4 := p1.(pc := Returned(Got(c.rows[k])), removed := p1.removed + [c.rows[k]], touch := NewTouch(Count(n - 1)));
    assert Moves(g, cs, times, 3);
    assert cs[4] == Local(c.rows - {k}, c.meta, p4);
    assert Moves(g, cs, times, 4);
  }

  lemma PopAlone(g: KeyGen, c: Local, cs: seq<Local>, times: seq<string>)
    requires |times| >= 5 && Starts(g, c, cs, times) && c.p.call.Popping?
    ensures Ends(c, cs[|times|], Pop(c.p.call.index))
  {
    var index, n := c.p.call.index, |c.rows|;
    if InRange(index, n) {
      PopSteps(g, c, cs, times);
      DeleteRow(c.rows, At(index, n));
      Stays(g, cs, times, 5, |times|);
    } else {
      var p1 := c.p.(stash := c.meta, pc := PopRead(0));
      assert Moves(g, cs, times, 0);
      assert cs[1] == Local(c.rows, c.meta, p1);
      assert Moves(g, cs, times, 1);
      assert cs[2] == Local(c.rows, c.meta, p1.(pc := Returned(Refused)));
      Stays(g, cs, times, 2, |times|);
    }
  }

  // ---- remove ----

  /** The scan finds the first match. */
  lemma {:induction false} FirstMatching(rows: Rows, ks: seq<Rank>, s: seq<Raw>, p: Match, i: nat)
    requires i <= |ks| == |s| && forall j :: 0 <= j < |ks| ==> ks[j] in rows && rows[ks[j]] == s[j]
    ensures var todo, f := MatchingRows(rows, ks[i..], p), FirstIndex(s, p, i, |s|);
            if f == |s| then todo == [] else todo != [] && todo[0] == (ks[f], s[f])
    decreases |ks| - i
  {
    if i < |ks| {
      assert ks[i..][0] == ks[i] && ks[i..][1..] == ks[i + 1..];
      if !p(s[i]) {
        FirstMatching(rows, ks, s, p, i + 1);
      }
    }
  }

  lemma RemoveSteps(g: KeyGen, c: Local, cs: seq<Local>, times: seq<string>, i: nat)
    requires |times| >= 4 && Starts(g, c, cs, times) && c.p.call.Removing?
    requires i == FirstIndex(Items(c.rows), c.p.call.match_, 0, |c.rows|) < |c.rows|
    ensures var d, k := cs[4], Sorted(c.rows.Keys)[i];
            d.rows == c.rows - {k} && Finished(d.p) && d.p.pc == Returned(Ok) && d.meta.hint == |c.rows| - 1
  {
    var ks, n := Sorted(c.rows.Keys), |c.rows|;
    var k, raw := ks[i], Items(c.rows)[i];
    FirstMatching(c.rows, ks, Items(c.rows), c.p.call.match_, 0);
    assert ks[0..] == ks;
    var p1 := c.p.(stash := c.meta, pc := Scan(0));
    assert Moves(g, cs, times, 0);
    assert cs[1] == Local(c.rows, c.meta, p1);
    assert Moves(g, cs, times, 1);
    assert cs[2] == Local(c.rows, c.meta, p1.(pc := ScanDelete(k, raw, n, 0)));
    var p3 := p1.(pc := Returned(Ok), removed := p1.removed + [raw], touch := NewTouch(Count(n - 1)));
    assert Moves(g, cs, times, 2);
    assert cs[3] == Local(c.rows - {k}, c.meta, p3);
    assert Moves(g, cs, times, 3);
  }

  lemma RemoveAlone(g: KeyGen, c: Local, cs: seq<Local>, times: seq<string>)
    requires |times| >= 4 && Starts(g, c, cs, times) && c.p.call.Removing?
    ensures Ends(c, cs[|times|], Remove(c.p.call.match_))
  {
    var ks, s, p := Sorted(c.rows.Keys), Items(c.rows), c.p.call.match_;
    var i := FirstIndex(s, p, 0, |s|);
    if i < |s| {
      RemoveSteps(g, c, cs, times, i);
      DeleteRow(c.rows, i);
      Stays(g, cs, times, 4, |times|);
    } else {
      FirstMatching(c.rows, ks, s, p, 0);
      assert ks[0..] == ks;
      var p1 := c.p.(stash := c.meta, pc := Scan(0));
      assert Moves(g, cs, times, 0);
      assert cs[1] == Local(c.rows, c.meta, p1);
      assert Moves(g, cs, times, 1);
      assert cs[2] == Local(c.rows, c.meta, p1.(pc := Returned(Refused)));
      Stays(g, cs, times, 2, |times|);
    }
  }

  // ---- delete_by_handle ----

  /** A current handle deletes its row, any other changes nothing. */
  lemma HandleAlone(g: KeyGen, c: Local, cs: seq<Local>, times: seq<string>)
    requires |times| >= 3 && Starts(g, c, cs, times) && c.p.call.DeletingHandle?
    ensures var d, k := cs[|times|], c.p.call.rank;
            var current := k in c.rows && c.rows[k] == c.p.call.raw;
            && Finished(d.p) && d.p.pc == Returned(Said(current))
            && d.rows == (if current then c.rows - {k} else c.rows)
            && (c.meta.hint == |c.rows| ==> d.meta.hint == |d.rows|)
  {
    var k, raw := c.p.call.rank, c.p.call.raw;
    var p1 := c.p.(stash := c.meta, pc := HandleDelete);
    assert Moves(g, cs, times, 0);
    assert cs[1] == Local(c.rows, c.meta, p1);
    if k in c.rows && c.rows[k] == raw {
      var p2 := p1.(pc := Returned(Said(true)), removed := p1.removed + [raw], touch := NewTouch(Delta(-1)));
      assert Moves(g, cs, times, 1);
      assert cs[2] == Local(c.rows - {k}, c.meta, p2);
      assert Moves(g, cs, times, 2);
      assert Finished(cs[3].p);
      Stays(g, cs, times, 3, |times|);
    } else {
      assert Moves(g, cs, times, 1);
      assert cs[2] == Local(c.rows, c.meta, p1.(pc := Returned(Said(false))));
      Stays(g, cs, times, 2, |times|);
    }
  }

  // ---- insert ----

  /** A list with these rows and nothing else. */
  function AsView(rows: Rows): View {
    View(None, map[], rows)
  }

  predicate CacheIsCurrent(call: Call, ks: seq<Rank>) {
    call.Inserting? && call.cache.Some? ==> call.cache.value == ks
  }

  /** Up to the choice of the key. */
  lemma InsertReads(g: KeyGen, c: Local, cs: seq<Local>, times: seq<string>)
    requires |times| >= 2 && Starts(g, c, cs, times) && c.p.call.Inserting? && CacheIsCurrent(c.p.call, Sorted(c.rows.Keys))
    ensures cs[2] == Local(c.rows, c.meta, c.p.(stash := c.meta, pc := CreateAt(Sorted(c.rows.Keys), 0)))
  {
    assert Moves(g, cs, times, 0);
    assert cs[1] == Local(c.rows, c.meta, c.p.(stash := c.meta, pc := ReadRanks(0)));
    assert Moves(g, cs, times, 1);
  }

  lemma InsertSteps(g: KeyGen, c: Local, cs: seq<Local>, times: seq<string>, k: Rank)
    requires |times| >= 4 && Starts(g, c, cs, times) && c.p.call.Inserting? && CacheIsCurrent(c.p.call, Sorted(c.rows.Keys))
    requires k == GapKey(g, Sorted(c.rows.Keys), c.p.call.index) && !TooLong(k) && k !in c.rows
    ensures var d := cs[4];
            && d.rows == c.rows[k := c.p.call.item] && Finished(d.p) && d.p.pc == Returned(Ok)
            && (c.meta.hint == |c.rows| ==> d.meta.hint == |d.rows|)
  {
    InsertReads(g, c, cs, times);
    assert Moves(g, cs, times, 2);
    var p2 := cs[2].p;
    var p3 := p2.(pc := Returned(Ok), added := p2.added + [c.p.call.item], untouched := 1, touch := NewTouch(Delta(1)));
    assert Moves(g, cs, times, 2);
    assert cs[3] == Local(c.rows[k := c.p.call.item], c.meta, p3);
    assert Moves(g, cs, times, 3);
  }

  lemma InsertCapped(g: KeyGen, c: Local, cs: seq<Local>, times: seq<string>)
    requires |times| >= 3 && Starts(g, c, cs, times) && c.p.call.Inserting? && CacheIsCurrent(c.p.call, Sorted(c.rows.Keys))
    requires TooLong(GapKey(g, Sorted(c.rows.Keys), c.p.call.index))
    ensures var d := cs[3]; d.rows == c.rows && Finished(d.p) && d.p.pc == Returned(Capped)
  {
    InsertReads(g, c, cs, times);
    assert Moves(g, cs, times, 2);
  }

  lemma InsertAlone(g: KeyGen, c: Local, cs: seq<Local>, times: seq<string>)
    requires |times| >= 4 && Starts(g, c, cs, times) && c.p.call.Inserting? && Sound(g) && AllKeys(g, c.rows)
    requires CacheIsCurrent(c.p.call, Sorted(c.rows.Keys))
    ensures EndsOrCapped(g, c, cs[|times|], Insert(c.p.call.index, c.p.call.item))
  {
    var k := GapKey(g, Sorted(c.rows.Keys), c.p.call.index);
    if TooLong(k) {
      InsertCapped(g, c, cs, times);
      Stays(g, cs, times, 3, |times|);
    } else {
      var pos := InsertPos(c.p.call.index, |c.rows|);
      GapFits(g, c.rows, pos, k);
      InsertRow(c.rows, k, c.p.call.item, pos);
      InsertSteps(g, c, cs, times, k);
      Stays(g, cs, times, 4, |times|);
    }
  }

  /** The list's call, unless it needs a key over the cap: then the items before that key are there. */
  ghost predicate EndsOrCapped(g: KeyGen, c: Local, d: Local, op: Op) {
    if KeyTooLong(g, AsView(c.rows), op) then
      Finished(d.p) && d.p.pc == Returned(Capped) && Items(d.rows) == Items(c.rows) + LandedOf(g, AsView(c.rows), op)
    else Ends(c, d, op)
  }

  lemma GapFits(g: KeyGen, rows: Rows, pos: nat, k: Rank)
    requires Sound(g) && AllKeys(g, rows) && pos <= |rows|
    requires var ks := Sorted(rows.Keys);
             k == g.between(if pos > 0 then Some(ks[pos - 1]) else None, if pos < |ks| then Some(ks[pos]) else None)
    ensures Fits(Sorted(rows.Keys), k, pos)
  {
    var ks := Sorted(rows.Keys);
    var lo, hi := if pos > 0 then Some(ks[pos - 1]) else None, if pos < |ks| then Some(ks[pos]) else None;
    assert Bounds(g, lo, hi);
  }

  // ---- append and extend ----

  /** After `j` creates. */
  ghost predicate AddedSoFar(g: KeyGen, c: Local, d: Local, j: nat) {
    var ks, items := Sorted(c.rows.Keys), ItemsOf(c.p.call);
    var candidates := NKeys(g, LastOf(ks), |items|);
    && j < |items| && Landed(ks, candidates, items, j, c.rows, d.rows) && |d.rows| == |c.rows| + j
    && d.meta == c.meta
    && d.p == c.p.(stash := c.meta, added := items[..j], untouched := j,
                   pc := Create(if j == 0 then LastOf(ks) else Some(candidates[j - 1]), 0))
  }

  lemma KeysAbove(g: KeyGen, rows: Rows, n: nat)
    requires Sound(g) && AllKeys(g, rows)
    ensures var ks := Sorted(rows.Keys);
            var candidates := NKeys(g, LastOf(ks), n);
            Ascending(candidates) && (ks != [] ==> forall i :: 0 <= i < n ==> Less(ks[|ks| - 1], candidates[i]))
  {
    var last := LastOf(Sorted(rows.Keys));
    assert Bounds(g, last, None);
    NKeysAscend(g, last, n);
  }

  lemma CreateAlone(g: KeyGen, d: Local, last: Option<Rank>, now: string)
    requires d.p.call.Adding? && d.p.pc == Create(last, 0) && d.p.touch == None && |d.p.added| < |d.p.call.items|
    requires !TooLong(After(g, last)) && After(g, last) !in d.rows
    ensures var items, j, k := d.p.call.items, |d.p.added|, After(g, last);
            var p := d.p.(added := d.p.added + [items[j]], untouched := d.p.untouched + 1);
            Once(g, d, now) == Local(d.rows[k := items[j]], d.meta,
                                     if j + 1 == |items| then p.(pc := Returned(Ok), touch := TouchFor(p.untouched))
                                     else p.(pc := Create(Some(k), 0)))
  {}

  /** One create that is within the cap. */
  lemma AddMore(g: KeyGen, c: Local, d: Local, j: nat, now: string)
    requires Sound(g) && AllKeys(g, c.rows) && c.p.call.Adding? && Fresh(c.p) && AddedSoFar(g, c, d, j)
    requires var candidates := EndKeys(g, c.rows, |c.p.call.items|); !TooLong(candidates[j])
    ensures j + 1 < |c.p.call.items| ==> AddedSoFar(g, c, Once(g, d, now), j + 1)
    ensures j + 1 == |c.p.call.items| ==> AddedLast(g, c, Once(g, d, now))
  {
    var ks, items := Sorted(c.rows.Keys), c.p.call.items;
    var candidates := NKeys(g, LastOf(ks), |items|);
    KeysAbove(g, c.rows, |items|);
    NKeysStep(g, LastOf(ks), |items|, j);
    LandedStep(ks, candidates, items, j, c.rows, d.rows);
    CreateAlone(g, d, if j == 0 then LastOf(ks) else Some(candidates[j - 1]), now);
    assert items[..j] + [items[j]] == items[..j + 1];
    assert items[..|items|] == items;
  }

  /** After the last create, before the touch. */
  ghost predicate AddedLast(g: KeyGen, c: Local, d: Local) {
    var items := ItemsOf(c.p.call);
    && Items(d.rows) == Items(c.rows) + items && |d.rows| == |c.rows| + |items| && d.meta == c.meta
    && d.p.pc == Returned(Ok) && d.p.touch == NewTouch(Delta(|items|)) && d.p.stash == c.meta
  }

  lemma {:induction false} AddSteps(g: KeyGen, c: Local, cs: seq<Local>, times: seq<string>, j: nat)
    requires Sound(g) && AllKeys(g, c.rows) && c.p.call.Adding? && Starts(g, c, cs, times)
    requires j < |c.p.call.items| && j + 2 <= |times|
    requires forall i :: 0 <= i < j ==> !TooLong(EndKeys(g, c.rows, |c.p.call.items|)[i])
    ensures AddedSoFar(g, c, cs[j + 2], j)
  {
    if j == 0 {
      var p1 := c.p.(stash := c.meta, pc := ReadLast(0));
      assert Moves(g, cs, times, 0);
      assert cs[1] == Local(c.rows, c.meta, p1);
      var ks := Sorted(c.rows.Keys);
      assert Moves(g, cs, times, 1);
      assert cs[2] == Local(c.rows, c.meta, p1.(pc := Create(LastOf(ks), 0)));
      LandedStart(ks, NKeys(g, LastOf(ks), |c.p.call.items|), c.p.call.items, c.rows);
    } else {
      AddSteps(g, c, cs, times, j - 1);
      assert Moves(g, cs, times, j + 1);
      AddMore(g, c, cs[j + 1], j - 1, times[j + 1]);
    }
  }

  lemma AddNone(g: KeyGen, c: Local, cs: seq<Local>, times: seq<string>)
    requires c.p.call == Adding([]) && Starts(g, c, cs, times) && |times| >= 2
    ensures var d := cs[2]; d.rows == c.rows && d.meta == c.meta && Finished(d.p) && d.p.pc == Returned(Ok)
  {
    assert Moves(g, cs, times, 0);
    assert cs[1] == Local(c.rows, c.meta, c.p.(stash := c.meta, pc := ReadLast(0)));
    assert Moves(g, cs, times, 1);
  }

  /** Stopped at the first key over the cap. */
  lemma AddCapped(g: KeyGen, c: Local, cs: seq<Local>, times: seq<string>, w: nat)
    requires Sound(g) && AllKeys(g, c.rows) && c.p.call.Adding? && Starts(g, c, cs, times)
    requires w < |c.p.call.items| && w + 3 <= |times| && w == WithinCap(EndKeys(g, c.rows, |c.p.call.items|), 0)
    ensures var d := cs[w + 3];
            Finished(d.p) && d.p.pc == Returned(Capped) && Items(d.rows) == Items(c.rows) + c.p.call.items[..w]
  {
    AddSteps(g, c, cs, times, w);
    NKeysStep(g, LastOf(Sorted(c.rows.Keys)), |c.p.call.items|, w);
    var d := cs[w + 2];
    assert Moves(g, cs, times, w + 2);
    assert cs[w + 3] == Local(d.rows, d.meta, d.p.(pc := Returned(Capped)));
  }

  /** All of them, and the touch. */
  lemma AddAll(g: KeyGen, c: Local, cs: seq<Local>, times: seq<string>, n: nat)
    requires Sound(g) && AllKeys(g, c.rows) && c.p.call.Adding? && Starts(g, c, cs, times)
    requires 0 < n == |c.p.call.items| == WithinCap(EndKeys(g, c.rows, n), 0) && n + 3 <= |times|
    ensures var d := cs[n + 3];
            && Finished(d.p) && d.p.pc == Returned(Ok) && Items(d.rows) == Items(c.rows) + c.p.call.items
            && (c.meta.hint == |c.rows| ==> d.meta.hint == |d.rows|)
  {
    AddSteps(g, c, cs, times, n - 1);
    AddMore(g, c, cs[n + 1], n - 1, times[n + 1]);
    assert Moves(g, cs, times, n + 1);
    assert Moves(g, cs, times, n + 2);
    var d := cs[n + 2];
    assert AddedLast(g, c, d);
    assert cs[n + 3] == Local(d.rows, Touch(d.meta, Delta(n), times[n + 2]), d.p.(touch := None, untouched := 0));
  }

  lemma AddAlone(g: KeyGen, c: Local, cs: seq<Local>, times: seq<string>)
    requires Sound(g) && AllKeys(g, c.rows) && c.p.call.Adding? && Starts(g, c, cs, times) && |times| >= |c.p.call.items| + 3
    ensures EndsOrCapped(g, c, cs[|times|], Extend(c.p.call.items))
  {
    var n := |c.p.call.items|;
    var w := WithinCap(EndKeys(g, c.rows, n), 0);
    WithinCapEnds(EndKeys(g, c.rows, n));
    if n == 0 {
      AddNone(g, c, cs, times);
      Stays(g, cs, times, 2, |times|);
    } else if w < n {
      AddCapped(g, c, cs, times, w);
      Stays(g, cs, times, w + 3, |times|);
    } else {
      AddAll(g, c, cs, times, n);
      Stays(g, cs, times, n + 3, |times|);
    }
  }

  // ---- remove_where ----

  lemma {:induction false} MatchingSnoc(rows: Rows, ks: seq<Rank>, k: Rank, p: Match)
    requires k in rows && forall i :: 0 <= i < |ks| ==> ks[i] in rows
    ensures var todo := MatchingRows(rows, ks, p);
            MatchingRows(rows, ks + [k], p) == if p(rows[k]) then todo + [(k, rows[k])] else todo
  {
    if ks == [] {
      assert [k][1..] == [];
    } else {
      assert (ks + [k])[1..] == ks[1..] + [k];
      MatchingSnoc(rows, ks[1..], k, p);
    }
  }

  lemma {:induction false} MatchingSame(rows: Rows, m: Rows, ks: seq<Rank>, p: Match)
    requires forall i :: 0 <= i < |ks| ==> ks[i] in rows && ks[i] in m && rows[ks[i]] == m[ks[i]]
    ensures MatchingRows(rows, ks, p) == MatchingRows(m, ks, p)
  {
    if ks != [] {
      MatchingSame(rows, m, ks[1..], p);
    }
  }

  function Texts(todo: seq<(Rank, Raw)>, n: nat): seq<Raw>
    requires n <= |todo|
  {
    if n == 0 then [] else Texts(todo, n - 1) + [todo[n - 1].1]
  }

  function Ranks(todo: seq<(Rank, Raw)>, n: nat): set<Rank>
    requires n <= |todo|
  {
    if n == 0 then {} else Ranks(todo, n - 1) + {todo[n - 1].0}
  }

  lemma {:induction false} PrefixesSame(s: seq<Raw>, t: seq<Raw>, p: Match, n: nat)
    requires n <= |s| && n <= |t| && s[..n] == t[..n]
    ensures Kept(s, p, n) == Kept(t, p, n) && Matches(s, p, n) == Matches(t, p, n)
  {
    if n > 0 {
      assert s[n - 1] == s[..n][n - 1] && t[n - 1] == t[..n][n - 1];
      assert s[..n - 1] == s[..n][..n - 1] && t[..n - 1] == t[..n][..n - 1];
      PrefixesSame(s, t, p, n - 1);
    }
  }

  lemma {:induction false} TodoPrefix(todo: seq<(Rank, Raw)>, x: (Rank, Raw), n: nat)
    requires n <= |todo|
    ensures Texts(todo + [x], n) == Texts(todo, n) && Ranks(todo + [x], n) == Ranks(todo, n)
  {
    if n > 0 {
      TodoPrefix(todo, x, n - 1);
    }
  }

  /** The found ranks are those of the matching rows. */
  lemma {:induction false} RanksAre(rows: Rows, ks: seq<Rank>, p: Match)
    requires forall i :: 0 <= i < |ks| ==> ks[i] in rows
    ensures var todo := MatchingRows(rows, ks, p); forall k :: k in Ranks(todo, |todo|) <==> k in ks && k in rows && p(rows[k])
  {
    if ks != [] {
      var init, k := ks[..|ks| - 1], ks[|ks| - 1];
      var before := MatchingRows(rows, init, p);
      RanksAre(rows, init, p);
      assert ks == init + [k];
      MatchingSnoc(rows, init, k, p);
      TodoPrefix(before, (k, rows[k]), |before|);
    }
  }

  /** Each found row is there, and was not found before. */
  lemma {:induction false} TodoAt(rows: Rows, ks: seq<Rank>, p: Match, j: nat)
    requires Ascending(ks) && (forall i :: 0 <= i < |ks| ==> ks[i] in rows) && j < |MatchingRows(rows, ks, p)|
    ensures var todo := MatchingRows(rows, ks, p);
            todo[j].0 in rows && rows[todo[j].0] == todo[j].1 && todo[j].0 !in Ranks(todo, j)
  {
    var init, k := ks[..|ks| - 1], ks[|ks| - 1];
    var before := MatchingRows(rows, init, p);
    assert ks == init + [k];
    MatchingSnoc(rows, init, k, p);
    if j < |before| {
      TodoAt(rows, init, p, j);
      TodoPrefix(before, (k, rows[k]), j);
    } else {
      TodoPrefix(before, (k, rows[k]), |before|);
      RanksAre(rows, init, p);
      Distinct(ks);
    }
  }

  ghost function RestOf(rows: Rows, p: Match): Rows {
    map k | k in rows && !p(rows[k]) :: rows[k]
  }

  lemma LastRow(rows: Rows) returns (k: Rank, m: Rows)
    requires rows != map[]
    ensures var ks, s, n := Sorted(rows.Keys), Items(rows), |rows| - 1;
            && n >= 0 && k == ks[n] && k in rows && rows[k] == s[n] && m == rows - {k} && |m| == n
            && Sorted(m.Keys) == ks[..n] && Items(m) == s[..n] && ks == ks[..n] + [k]
  {
    var n := |rows| - 1;
    k := Sorted(rows.Keys)[n];
    m := rows - {k};
    DeleteRow(rows, n);
  }

  /** Without the matching rows the list is what is kept ... */
  lemma {:induction false} RestItems(rows: Rows, p: Match)
    ensures Items(RestOf(rows, p)) == Kept(Items(rows), p, |rows|)
    decreases |rows|
  {
    if rows == map[] {
      assert RestOf(rows, p) == map[];
      EmptyReads();
    } else {
      var k, m := LastRow(rows);
      RestItems(m, p);
      PrefixesSame(Items(rows), Items(m), p, |m|);
      if p(rows[k]) {
        assert RestOf(rows, p) == RestOf(m, p);
      } else {
        RestSnoc(rows, m, k, p);
      }
    }
  }

  /** ... and the texts found are the matches. */
  lemma {:induction false} FoundTexts(rows: Rows, p: Match)
    ensures var todo := MatchingRows(rows, Sorted(rows.Keys), p); Texts(todo, |todo|) == Matches(Items(rows), p, |rows|)
    decreases |rows|
  {
    if rows != map[] {
      var k, m := LastRow(rows);
      var init := Sorted(m.Keys);
      FoundTexts(m, p);
      PrefixesSame(Items(rows), Items(m), p, |m|);
      MatchingSame(rows, m, init, p);
      MatchingSnoc(rows, init, k, p);
      TodoPrefix(MatchingRows(m, init, p), (k, rows[k]), |MatchingRows(m, init, p)|);
    }
  }

  lemma RestSnoc(rows: Rows, m: Rows, k: Rank, p: Match)
    requires rows != map[] && k == Sorted(rows.Keys)[|rows| - 1] && m == rows - {k} && !p(rows[k])
    ensures Items(RestOf(rows, p)) == Items(RestOf(m, p)) + [rows[k]]
  {
    var ks, rest := Sorted(rows.Keys), RestOf(m, p);
    var rs := Sorted(rest.Keys);
    if rs != [] {
      var i := Ranked.IndexOf(ks, rows.Keys, rs[|rs| - 1]);
      assert i < |rows| - 1;
    }
    InsertRow(rest, k, rows[k], |rest|);
    assert RestOf(rows, p) == rest[k := rows[k]];
  }

  ghost predicate WhereSoFar(c: Local, d: Local, todo: seq<(Rank, Raw)>, j: nat) {
    && j <= |todo| && d.rows == c.rows - Ranks(todo, j) && d.p.call == c.p.call
    && d.p.removed == Texts(todo, j) && d.p.pc == WhereNext(todo[j..]) && d.p.touch == None
    && (c.meta.hint == |c.rows| ==> d.meta.hint == |d.rows|)
  }

  lemma WhereStarts(g: KeyGen, c: Local, cs: seq<Local>, times: seq<string>)
    requires |times| >= 2 && Starts(g, c, cs, times) && c.p.call.RemovingWhere?
    ensures WhereSoFar(c, cs[2], MatchingRows(c.rows, Sorted(c.rows.Keys), c.p.call.match_), 0)
  {
    var todo := MatchingRows(c.rows, Sorted(c.rows.Keys), c.p.call.match_);
    assert Moves(g, cs, times, 0);
    assert cs[1] == Local(c.rows, c.meta, c.p.(stash := c.meta, pc := WhereScan));
    assert Moves(g, cs, times, 1);
    assert todo[0..] == todo && c.rows - {} == c.rows;
  }

  /** After the decision to delete the next found row. */
  lemma WhereDecide(g: KeyGen, d: Local, todo: seq<(Rank, Raw)>, t: string)
    requires d.p.pc == WhereNext(todo) && d.p.touch == None && todo != []
    ensures Once(g, d, t) == Local(d.rows, d.meta, d.p.(stash := d.meta, pc := WhereDelete(todo)))
  {}

  lemma WhereStrike(g: KeyGen, d: Local, todo: seq<(Rank, Raw)>, t: string)
    requires d.p.pc == WhereDelete(todo) && d.p.touch == None && todo != [] && d.p.call.RemovingWhere?
    requires todo[0].0 in d.rows && d.rows[todo[0].0] == todo[0].1
    ensures var removed := d.p.removed + [todo[0].1];
            Once(g, d, t) == Local(d.rows - {todo[0].0}, d.meta, d.p.(removed := removed, touch := NewTouch(Delta(-1)),
                                   pc := if d.p.call.firstOnly then Returned(Removed(removed)) else WhereNext(todo[1..])))
  {}

  lemma WhereStop(g: KeyGen, d: Local, t: string)
    requires d.p.pc == WhereNext([]) && d.p.touch == None
    ensures Once(g, d, t) == Local(d.rows, d.meta, d.p.(pc := Returned(Removed(d.p.removed))))
  {}

  lemma TouchAlone(g: KeyGen, d: Local, k: int, t: string)
    requires d.p.touch == NewTouch(Delta(k)) && d.p.stash == d.meta
    ensures Once(g, d, t) == Local(d.rows, Touch(d.meta, Delta(k), t), d.p.(touch := None, untouched := 0))
  {}

  /** A round: the decision, the conditional delete, the touch. */
  lemma WhereRound(g: KeyGen, c: Local, d: Local, todo: seq<(Rank, Raw)>, j: nat, t: string, u: string, v: string)
    requires WhereSoFar(c, d, todo, j) && j < |todo| && c.p.call.RemovingWhere?
    requires todo[j].0 in d.rows && d.rows[todo[j].0] == todo[j].1
    ensures var e := Once(g, Once(g, Once(g, d, t), u), v);
            && e.rows == c.rows - Ranks(todo, j + 1) && e.p.call == c.p.call && e.p.removed == Texts(todo, j + 1) && e.p.touch == None
            && e.p.pc == (if c.p.call.firstOnly then Returned(Removed(Texts(todo, j + 1))) else WhereNext(todo[j + 1..]))
            && (c.meta.hint == |c.rows| ==> e.meta.hint == |e.rows|)
  {
    var rest := todo[j..];
    assert rest[0] == todo[j] && rest[1..] == todo[j + 1..];
    WhereDecide(g, d, rest, t);
    var d1 := Once(g, d, t);
    WhereStrike(g, d1, rest, u);
    TouchAlone(g, Once(g, d1, u), -1, v);
    assert c.rows - Ranks(todo, j + 1) == d.rows - {todo[j].0};
  }

  lemma NextRound(g: KeyGen, c: Local, cs: seq<Local>, times: seq<string>, todo: seq<(Rank, Raw)>, j: nat, i: nat)
    requires Trail(g, cs, times) && i + 3 <= |times| && c.p.call.RemovingWhere? && !c.p.call.firstOnly
    requires WhereSoFar(c, cs[i], todo, j) && j < |todo| && todo[j].0 in cs[i].rows && cs[i].rows[todo[j].0] == todo[j].1
    ensures WhereSoFar(c, cs[i + 3], todo, j + 1)
  {
    assert Moves(g, cs, times, i) && Moves(g, cs, times, i + 1) && Moves(g, cs, times, i + 2);
    WhereRound(g, c, cs[i], todo, j, times[i], times[i + 1], times[i + 2]);
  }

  lemma OnlyRound(g: KeyGen, c: Local, cs: seq<Local>, times: seq<string>, todo: seq<(Rank, Raw)>)
    requires Trail(g, cs, times) && 5 <= |times| && c.p.call.RemovingWhere? && c.p.call.firstOnly
    requires WhereSoFar(c, cs[2], todo, 0) && todo != [] && todo[0].0 in cs[2].rows && cs[2].rows[todo[0].0] == todo[0].1
    ensures var d := cs[5];
            && d.rows == c.rows - {todo[0].0} && Finished(d.p) && d.p.pc == Returned(Removed([todo[0].1]))
            && (c.meta.hint == |c.rows| ==> d.meta.hint == |d.rows|)
  {
    assert Moves(g, cs, times, 2) && Moves(g, cs, times, 3) && Moves(g, cs, times, 4);
    WhereRound(g, c, cs[2], todo, 0, times[2], times[3], times[4]);
    assert Ranks(todo, 1) == {todo[0].0} && Texts(todo, 1) == [todo[0].1];
  }

  lemma {:induction false} WhereRounds(g: KeyGen, c: Local, cs: seq<Local>, times: seq<string>, todo: seq<(Rank, Raw)>, j: nat, i: nat)
    requires Starts(g, c, cs, times) && c.p.call.RemovingWhere? && !c.p.call.firstOnly
    requires todo == MatchingRows(c.rows, Sorted(c.rows.Keys), c.p.call.match_) && j <= |todo| && i == 3 * j + 2 <= |times|
    ensures WhereSoFar(c, cs[i], todo, j)
    decreases j
  {
    if j == 0 {
      WhereStarts(g, c, cs, times);
    } else {
      var h, l: nat := j - 1, i - 3;
      WhereRounds(g, c, cs, times, todo, h, l);
      TodoAt(c.rows, Sorted(c.rows.Keys), c.p.call.match_, h);
      assert cs[l].rows == c.rows - Ranks(todo, h);
      NextRound(g, c, cs, times, todo, h, l);
    }
  }

  lemma {:induction false} TodoLength(rows: Rows, ks: seq<Rank>, p: Match)
    requires forall i :: 0 <= i < |ks| ==> ks[i] in rows
    ensures |MatchingRows(rows, ks, p)| <= |ks|
  {
    if ks != [] {
      TodoLength(rows, ks[1..], p);
    }
  }

  lemma AllGone(rows: Rows, p: Match)
    ensures var todo := MatchingRows(rows, Sorted(rows.Keys), p); rows - Ranks(todo, |todo|) == RestOf(rows, p)
  {
    var ks := Sorted(rows.Keys);
    var todo := MatchingRows(rows, ks, p);
    RanksAre(rows, ks, p);
    forall k | k in rows
      ensures k in Ranks(todo, |todo|) <==> p(rows[k])
    {
      var i := Ranked.IndexOf(ks, rows.Keys, k);
    }
  }

  lemma WhereLeaves(g: KeyGen, cs: seq<Local>, times: seq<string>, i: nat)
    requires Trail(g, cs, times) && i < |times| && cs[i].p.pc == WhereNext([]) && cs[i].p.touch == None
    ensures var d, e := cs[i], cs[|times|];
            e.rows == d.rows && e.meta == d.meta && Finished(e.p) && e.p.pc == Returned(Removed(d.p.removed))
  {
    WhereStop(g, cs[i], times[i]);
    assert Moves(g, cs, times, i);
    Stays(g, cs, times, i + 1, |times|);
  }

  /** Nothing left to do. */
  lemma WhereEnds(g: KeyGen, c: Local, cs: seq<Local>, times: seq<string>, todo: seq<(Rank, Raw)>, i: nat)
    requires Trail(g, cs, times) && i < |times| && WhereSoFar(c, cs[i], todo, |todo|)
    ensures var d := cs[|times|];
            && d.rows == c.rows - Ranks(todo, |todo|) && Finished(d.p) && d.p.pc == Returned(Removed(Texts(todo, |todo|)))
            && (c.meta.hint == |c.rows| ==> d.meta.hint == |d.rows|)
  {
    assert todo[|todo|..] == [];
    WhereLeaves(g, cs, times, i);
  }

  lemma WhereAll(g: KeyGen, c: Local, cs: seq<Local>, times: seq<string>, todo: seq<(Rank, Raw)>)
    requires |times| >= 3 * |c.rows| + 3 && Starts(g, c, cs, times) && c.p.call.RemovingWhere? && !c.p.call.firstOnly
    requires todo == MatchingRows(c.rows, Sorted(c.rows.Keys), c.p.call.match_) && |todo| <= |c.rows|
    ensures Ends(c, cs[|times|], RemoveWhere(c.p.call.match_, false))
  {
    var i := 3 * |todo| + 2;
    WhereRounds(g, c, cs, times, todo, |todo|, i);
    WhereEnds(g, c, cs, times, todo, i);
    RestItems(c.rows, c.p.call.match_);
    FoundTexts(c.rows, c.p.call.match_);
    AllGone(c.rows, c.p.call.match_);
  }

  lemma WhereAlone(g: KeyGen, c: Local, cs: seq<Local>, times: seq<string>)
    requires |times| >= 3 * |c.rows| + 3 && Starts(g, c, cs, times) && c.p.call.RemovingWhere?
    ensures Ends(c, cs[|times|], RemoveWhere(c.p.call.match_, c.p.call.firstOnly))
  {
    var todo := MatchingRows(c.rows, Sorted(c.rows.Keys), c.p.call.match_);
    TodoLength(c.rows, Sorted(c.rows.Keys), c.p.call.match_);
    if c.p.call.firstOnly {
      WhereFirst(g, c, cs, times, todo);
    } else {
      WhereAll(g, c, cs, times, todo);
    }
  }

  lemma WhereFirst(g: KeyGen, c: Local, cs: seq<Local>, times: seq<string>, todo: seq<(Rank, Raw)>)
    requires |times| >= 3 * |c.rows| + 3 && Starts(g, c, cs, times) && c.p.call.RemovingWhere? && c.p.call.firstOnly
    requires todo == MatchingRows(c.rows, Sorted(c.rows.Keys), c.p.call.match_) && |todo| <= |c.rows|
    ensures Ends(c, cs[|times|], RemoveWhere(c.p.call.match_, true))
  {
    var ks, s := Sorted(c.rows.Keys), Items(c.rows);
    var f := FirstIndex(s, c.p.call.match_, 0, |s|);
    WhereStarts(g, c, cs, times);
    FirstMatching(c.rows, ks, s, c.p.call.match_, 0);
    assert ks[0..] == ks;
    if f == |s| {
      WhereEnds(g, c, cs, times, todo, 2);
      assert c.rows - {} == c.rows;
    } else {
      WhereOne(g, c, cs, times, todo, f);
    }
  }

  lemma WhereOne(g: KeyGen, c: Local, cs: seq<Local>, times: seq<string>, todo: seq<(Rank, Raw)>, f: nat)
    requires |times| >= 5 && Trail(g, cs, times) && c.p.call.RemovingWhere? && c.p.call.firstOnly && WhereSoFar(c, cs[2], todo, 0)
    requires f == FirstIndex(Items(c.rows), c.p.call.match_, 0, |c.rows|) < |c.rows|
    requires todo != [] && todo[0] == (Sorted(c.rows.Keys)[f], Items(c.rows)[f])
    ensures Ends(c, cs[|times|], RemoveWhere(c.p.call.match_, true))
  {
    OnlyRound(g, c, cs, times, todo);
    Stays(g, cs, times, 5, |times|);
    DeleteRow(c.rows, f);
  }

  // ---- any call ----

  /** How many moves a call alone needs at most. */
  function StepsOf(rows: Rows, call: Call): nat {
    match call
    case Adding(items) => |items| + 3
    case RemovingWhere(_, _) => 3 * |rows| + 3
    case _ => 5
  }

  lemma CallAlone(g: KeyGen, c: Local, cs: seq<Local>, times: seq<string>)
    requires Sound(g) && AllKeys(g, c.rows) && Starts(g, c, cs, times) && CacheIsCurrent(c.p.call, Sorted(c.rows.Keys))
    requires !c.p.call.DeletingHandle? && |times| >= StepsOf(c.rows, c.p.call)
    ensures EndsOrCapped(g, c, cs[|times|], OpOf(c.p.call))
  {
    match c.p.call
    case Adding(_) => AddAlone(g, c, cs, times);
    case Inserting(_, _, _) => InsertAlone(g, c, cs, times);
    case Popping(_) => PopAlone(g, c, cs, times);
    case Removing(_) => RemoveAlone(g, c, cs, times);
    case RemovingWhere(_, _) => WhereAlone(g, c, cs, times);
  }

  ghost function LocalOf(s: State, pid: nat): Local
    requires pid < |s.procs|
  {
    Local(s.rows, s.meta, s.procs[pid])
  }

  lemma {:induction false} TrailOf(g: KeyGen, s: State, pid: nat, schedule: seq<(nat, string)>, n: nat)
      returns (cs: seq<Local>, times: seq<string>)
    requires n <= |schedule| && pid < |s.procs| && forall k :: 0 <= k < |schedule| ==> schedule[k].0 == pid
    ensures |times| == n && Trail(g, cs, times) && cs[0] == LocalOf(s, pid)
    ensures pid < |Run(g, s, schedule, n).procs| && cs[n] == LocalOf(Run(g, s, schedule, n), pid)
  {
    if n == 0 {
      cs, times := [LocalOf(s, pid)], [];
    } else {
      var ds, ts := TrailOf(g, s, pid, schedule, n - 1);
      var now := schedule[n - 1].1;
      cs, times := ds + [Once(g, ds[n - 1], now)], ts + [now];
      forall i | 0 <= i < n
        ensures Moves(g, cs, times, i)
      {
        assert i < n - 1 ==> Moves(g, ds, ts, i);
      }
    }
  }

  /** From whatever state other callers have left, a caller that then moves alone makes the plain
      list's call on the rows it finds: same list, same answer, and an exact hint stays exact. Only a
      call that needs a key over the cap stops, behind the items before that key. */
  lemma AloneIsSequential(g: KeyGen, s: State, pid: nat, schedule: seq<(nat, string)>)
    requires Sound(g) && AllKeys(g, s.rows) && pid < |s.procs| && Fresh(s.procs[pid])
    requires CacheIsCurrent(s.procs[pid].call, Sorted(s.rows.Keys)) && !s.procs[pid].call.DeletingHandle?
    requires |schedule| >= StepsOf(s.rows, s.procs[pid].call) && forall k :: 0 <= k < |schedule| ==> schedule[k].0 == pid
    ensures var s' := Run(g, s, schedule, |schedule|);
            pid < |s'.procs| && EndsOrCapped(g, LocalOf(s, pid), LocalOf(s', pid), OpOf(s.procs[pid].call))
  {
    var cs, times := TrailOf(g, s, pid, schedule, |schedule|);
    CallAlone(g, LocalOf(s, pid), cs, times);
  }

  /** The same for a deletion by handle: it succeeds exactly if the handle is current. */
  lemma HandleIsSequential(g: KeyGen, s: State, pid: nat, schedule: seq<(nat, string)>)
    requires pid < |s.procs| && Fresh(s.procs[pid]) && s.procs[pid].call.DeletingHandle?
    requires |schedule| >= 3 && forall k :: 0 <= k < |schedule| ==> schedule[k].0 == pid
    ensures var s', k := Run(g, s, schedule, |schedule|), s.procs[pid].call.rank;
            var current := k in s.rows && s.rows[k] == s.procs[pid].call.raw;
            && pid < |s'.procs| && s'.procs[pid].pc == Returned(Said(current))
            && s'.rows == (if current then s.rows - {k} else s.rows)
            && (s.meta.hint == |s.rows| ==> s'.meta.hint == |s'.rows|)
  {
    var cs, times := TrailOf(g, s, pid, schedule, |schedule|);
    HandleAlone(g, LocalOf(s, pid), cs, times);
  }

  // ---- which item a pop takes, whoever interferes ----

  /** Caller `i` is about to read the range. */
  predicate AboutToRead(s: State, i: nat) {
    i < |s.procs| && s.procs[i].pc.PopRead? && s.procs[i].touch.None?
  }

  /** At its `m`th move the caller read the range, and `rank` stood at its index. */
  ghost predicate ReadRankAt(g: KeyGen, s0: State, schedule: seq<(nat, string)>, m: nat, i: nat, rank: Rank)
    requires m < |schedule|
  {
    var s := Run(g, s0, schedule, m);
    && schedule[m].0 == i && AboutToRead(s, i) && s.procs[i].call.Popping?
    && var ks, index := Sorted(s.rows.Keys), s.procs[i].call.index;
       -|ks| <= index < |ks| && rank == ks[if index >= 0 then index else |ks| + index]
  }

  ghost predicate ReadsAgain(g: KeyGen, s0: State, schedule: seq<(nat, string)>, l: nat, i: nat)
    requires l < |schedule|
  {
    schedule[l].0 == i && AboutToRead(Run(g, s0, schedule, l), i)
  }

  /** `rank` stood at the caller's index at its last range read before the `n`th event. */
  ghost predicate LastRead(g: KeyGen, s0: State, schedule: seq<(nat, string)>, n: nat, i: nat, rank: Rank)
    requires n <= |schedule|
  {
    exists m: nat :: m < n && ReadRankAt(g, s0, schedule, m, i, rank)
                     && forall l: nat :: m < l < n ==> !ReadsAgain(g, s0, schedule, l, i)
  }

  /** At the `d`th event the caller's conditional delete removed the row under `rank`, holding `x`. */
  ghost predicate TookAt(g: KeyGen, s0: State, schedule: seq<(nat, string)>, d: nat, i: nat, rank: Rank, x: Raw)
    requires d < |schedule|
  {
    var s := Run(g, s0, schedule, d);
    && schedule[d].0 == i && LastRead(g, s0, schedule, d, i, rank)
    && rank in s.rows && s.rows[rank] == x && Run(g, s0, schedule, d + 1).rows == s.rows - {rank}
  }

  ghost predicate Took(g: KeyGen, s0: State, schedule: seq<(nat, string)>, n: nat, i: nat, x: Raw)
    requires n <= |schedule|
  {
    exists d: nat, rank :: d < n && TookAt(g, s0, schedule, d, i, rank, x)
  }

  /** Where a popping caller can have come from, and what it found there. */
  ghost predicate CameFrom(rows: Rows, p: Proc, e: Effect) {
    var ks, index := Sorted(rows.Keys), if p.call.Popping? then p.call.index else 0;
    || e.p.pc == p.pc
    || (p.touch.None? && match e.p.pc
        case PopGet(rank, _, _) =>
          p.pc.PopRead? && -|ks| <= index < |ks| && rank == ks[if index >= 0 then index else |ks| + index]
        case PopDelete(rank, _, _, _) => p.pc.PopGet? && p.pc.rank == rank
        case Returned(Got(x)) =>
          p.pc.PopDelete? && p.pc.raw == x && p.pc.rank in rows && rows[p.pc.rank] == x && e.rows == rows - {p.pc.rank}
        case _ => true)
  }

  lemma PopperReads(g: KeyGen, rows: Rows, meta: Bytes, p: Proc, now: string)
    requires p.call.Popping? && p.touch.None? && (p.pc.PopRead? || p.pc.PopGet? || p.pc.PopDelete?)
    ensures CameFrom(rows, p, Act(g, rows, meta, p, now))
    ensures Act(g, rows, meta, p, now).p.call == p.call && Act(g, rows, meta, p, now).p.pc != p.pc
  {}

  lemma OthersKeep(g: KeyGen, rows: Rows, meta: Bytes, p: Proc, now: string)
    requires p.call.Popping? && !(p.touch.None? && (p.pc.PopRead? || p.pc.PopGet? || p.pc.PopDelete?))
    ensures CameFrom(rows, p, Act(g, rows, meta, p, now))
    ensures Act(g, rows, meta, p, now).p.call == p.call
    ensures var pc := Act(g, rows, meta, p, now).p.pc; pc.PopGet? || pc.PopDelete? ==> p.touch.Some?
  {}

  lemma PopperStep(g: KeyGen, rows: Rows, meta: Bytes, p: Proc, now: string)
    requires p.call.Popping?
    ensures var e := Act(g, rows, meta, p, now);
            && e.p.call == p.call && CameFrom(rows, p, e)
            && (e.p.pc == p.pc && (p.pc.PopGet? || p.pc.PopDelete?) ==> p.touch.Some?)
  {
    if p.touch.None? && (p.pc.PopRead? || p.pc.PopGet? || p.pc.PopDelete?) {
      PopperReads(g, rows, meta, p, now);
    } else {
      OthersKeep(g, rows, meta, p, now);
    }
  }

  /** What a popping caller's place in its code says about the run so far. */
  ghost predicate PopKnows(g: KeyGen, s0: State, schedule: seq<(nat, string)>, n: nat, i: nat)
    requires n <= |schedule| && i < |Run(g, s0, schedule, n).procs|
  {
    var pc := Run(g, s0, schedule, n).procs[i].pc;
    && (pc.PopGet? || pc.PopDelete? ==> LastRead(g, s0, schedule, n, i, pc.rank))
    && (pc.Returned? && pc.outcome.Got? ==> Took(g, s0, schedule, n, i, pc.outcome.item))
  }

  lemma LastReadStays(g: KeyGen, s0: State, schedule: seq<(nat, string)>, n: nat, i: nat, rank: Rank)
    requires n < |schedule| && LastRead(g, s0, schedule, n, i, rank) && !ReadsAgain(g, s0, schedule, n, i)
    ensures LastRead(g, s0, schedule, n + 1, i, rank)
  {}

  lemma TookStays(g: KeyGen, s0: State, schedule: seq<(nat, string)>, n: nat, i: nat, x: Raw)
    requires n < |schedule| && Took(g, s0, schedule, n, i, x)
    ensures Took(g, s0, schedule, n + 1, i, x)
  {}

  /** A move of the caller itself. */
  lemma PopKnowsMore(g: KeyGen, s0: State, schedule: seq<(nat, string)>, n: nat, i: nat)
    requires n < |schedule| && schedule[n].0 == i && i < |Run(g, s0, schedule, n).procs|
    requires Run(g, s0, schedule, n).procs[i].call.Popping? && PopKnows(g, s0, schedule, n, i)
    ensures i < |Run(g, s0, schedule, n + 1).procs| && PopKnows(g, s0, schedule, n + 1, i)
  {
    var s, s' := Run(g, s0, schedule, n), Run(g, s0, schedule, n + 1);
    var p, q := s.procs[i], s'.procs[i];
    assert s' == Step(g, s, i, schedule[n].1);
    PopperStep(g, s.rows, s.meta, p, schedule[n].1);
    assert CameFrom(s.rows, p, Act(g, s.rows, s.meta, p, schedule[n].1));
    if q.pc.PopGet? && p.pc.PopRead? {
      assert ReadRankAt(g, s0, schedule, n, i, q.pc.rank);
    } else if q.pc.PopGet? || q.pc.PopDelete? {
      LastReadStays(g, s0, schedule, n, i, q.pc.rank);
    } else if q.pc.Returned? && q.pc.outcome.Got? {
      if q.pc == p.pc {
        TookStays(g, s0, schedule, n, i, q.pc.outcome.item);
      } else {
        assert TookAt(g, s0, schedule, n, i, p.pc.rank, q.pc.outcome.item);
      }
    }
  }

  /** A move of another caller. */
  lemma PopKnowsStill(g: KeyGen, s0: State, schedule: seq<(nat, string)>, n: nat, i: nat)
    requires n < |schedule| && schedule[n].0 != i && i < |Run(g, s0, schedule, n).procs| && PopKnows(g, s0, schedule, n, i)
    ensures var s, s' := Run(g, s0, schedule, n), Run(g, s0, schedule, n + 1);
            i < |s'.procs| && s'.procs[i] == s.procs[i] && PopKnows(g, s0, schedule, n + 1, i)
  {
    var s, s' := Run(g, s0, schedule, n), Run(g, s0, schedule, n + 1);
    assert s' == Step(g, s, schedule[n].0, schedule[n].1);
    var pc := s.procs[i].pc;
    if pc.PopGet? || pc.PopDelete? {
      LastReadStays(g, s0, schedule, n, i, pc.rank);
    }
    if pc.Returned? && pc.outcome.Got? {
      TookStays(g, s0, schedule, n, i, pc.outcome.item);
    }
  }

  /** In every interleaving: an item that a `pop` answers was in the row that, at the caller's last
      range read, stood at its index, or that many from the end for a negative one; and that row is
      the one it removed. */
  lemma {:induction false} PopTakesTheIndexed(g: KeyGen, s0: State, schedule: seq<(nat, string)>, n: nat, i: nat)
    requires Initial(s0) && n <= |schedule| && i < |s0.procs| && s0.procs[i].call.Popping?
    ensures i < |Run(g, s0, schedule, n).procs| && Run(g, s0, schedule, n).procs[i].call == s0.procs[i].call
    ensures PopKnows(g, s0, schedule, n, i)
    ensures var pc := Run(g, s0, schedule, n).procs[i].pc;
            pc.Returned? && pc.outcome.Got? ==> Took(g, s0, schedule, n, i, pc.outcome.item)
  {
    if n > 0 {
      PopTakesTheIndexed(g, s0, schedule, n - 1, i);
      if schedule[n - 1].0 == i {
        var s := Run(g, s0, schedule, n - 1);
        PopperStep(g, s.rows, s.meta, s.procs[i], schedule[n - 1].1);
        PopKnowsMore(g, s0, schedule, n - 1, i);
      } else {
        PopKnowsStill(g, s0, schedule, n - 1, i);
      }
    } else {
      assert Fresh(s0.procs[i]);
    }
  }
}
