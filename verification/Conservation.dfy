/** What every interleaving keeps: no item is lost, invented or overwritten, every caller reports
    exactly what it did, and the count hint differs from the count by exactly the additions
    not recorded in it. */
module Conservation {
  import opened Options
  import opened Keys
  import opened Ranked
  import opened Interleaving

  /** What an adding or inserting caller has done is a prefix of what it was asked to do, and
      its answer says whether it is all of it. Until its touch is over nothing is recorded;
      stopped by the rank cap, nothing ever will be. */
  ghost predicate AdderConsistent(p: Proc, items: seq<Raw>) {
    && p.removed == []
    && |p.added| <= |items| && p.added == items[..|p.added|]
    && (p.touch.Some? ==> p.touch.value.change == Delta(p.untouched)
                          && (p.pc == Returned(Ok) || p.pc == Returned(Contention)))
    && (p.pc.Returned? ==> p.pc.outcome in {Ok, Contention, Capped} && (p.pc.outcome == Ok <==> |p.added| == |items|))
    && (if p.pc.Returned? && p.touch.None? && p.pc.outcome != Capped then p.untouched == 0
        else p.untouched == |p.added| && p.lost == 0)
    && (!p.pc.Returned? ==> if p.call.Adding? then p.pc.Dispatch? || p.pc.ReadLast? || p.pc.Create?
                            else (p.pc.Dispatch? || p.pc.ReadRanks? || p.pc.CreateAt?) && p.added == [])
    && (p.pc.Dispatch? ==> p.added == [])
    && (p.pc.ReadLast? ==> p.added == [] || |p.added| < |items|)
    && (p.pc.Create? ==> |p.added| < |items|)
  }

  ghost predicate AllMatch(c: Call, todo: seq<(Rank, Raw)>) {
    c.RemovingWhere? && forall i :: 0 <= i < |todo| ==> c.match_(todo[i].1)
  }

  ghost predicate RemovedMatch(p: Proc) {
    && p.call.RemovingWhere?
    && (forall i :: 0 <= i < |p.removed| ==> p.call.match_(p.removed[i]))
    && (p.call.firstOnly ==> |p.removed| <= 1)
  }

  /** What a removing caller will answer, or has answered, is what it removed. */
  ghost predicate Answered(p: Proc, o: Outcome) {
    match o
    case Got(x) => p.call.Popping? && p.removed == [x]
    case Ok => p.call.Removing? && |p.removed| == 1 && p.call.match_(p.removed[0])
    case Removed(xs) => RemovedMatch(p) && xs == p.removed
    case Said(b) => p.call.DeletingHandle? && p.removed == if b then [p.call.raw] else []
    case Refused => (p.call.Popping? || p.call.Removing?) && p.removed == []
    case Contention => (p.call.Popping? || p.call.Removing?) && p.removed == []
    case Capped => false
  }

  ghost predicate RemoverConsistent(p: Proc) {
    && p.added == [] && p.untouched == 0 && p.lost == 0
    && match p.pc {
      case Returned(o) => Answered(p, o)
      case WhereNext(todo) => RemovedMatch(p) && AllMatch(p.call, todo) && (p.call.firstOnly ==> p.removed == [])
      case WhereDelete(todo) => RemovedMatch(p) && AllMatch(p.call, todo) && (p.call.firstOnly ==> p.removed == [])
                                && p.touch == None
      case Dispatch => p.removed == [] && p.touch == None
      case PopRead(_) => p.call.Popping? && p.removed == [] && p.touch == None
      case PopGet(_, _, _) => p.call.Popping? && p.removed == [] && p.touch == None
      case PopDelete(_, _, _, _) => p.call.Popping? && p.removed == [] && p.touch == None
      case Scan(_) => p.call.Removing? && p.removed == [] && p.touch == None
      case ScanDelete(_, raw, _, _) => p.call.Removing? && p.removed == [] && p.call.match_(raw) && p.touch == None
      case WhereScan => p.call.RemovingWhere? && p.removed == [] && p.touch == None
      case HandleDelete => p.call.DeletingHandle? && p.removed == [] && p.touch == None
      case _ => false
    }
  }

  ghost predicate Adder(c: Call) {
    c.Adding? || c.Inserting?
  }

  ghost predicate Consistent(p: Proc) {
    if Adder(p.call) then AdderConsistent(p, ItemsOf(p.call)) else RemoverConsistent(p)
  }

  /** One row operation creates a row under a free key, deletes one row holding what the caller
      reports, or leaves the item rows alone. */
  ghost predicate RowEffect(rows: Rows, p: Proc, e: Effect) {
    match e.created
    case Some(kv) => kv.0 !in rows && e.rows == rows[kv.0 := kv.1]
                     && e.p.added == p.added + [kv.1] && e.p.removed == p.removed
    case None => e.p.added == p.added
                 && (if e.p.removed == p.removed then e.rows == rows
                     else exists k :: k in rows && e.rows == rows - {k} && e.p.removed == p.removed + [rows[k]])
  }

  ghost predicate Fine(rows: Rows, p: Proc, e: Effect) {
    Consistent(e.p) && RowEffect(rows, p, e) && e.p.call == p.call
  }

  lemma CreateStep(g: KeyGen, rows: Rows, meta: Bytes, p: Proc, last: Option<Rank>, a: nat)
    requires Consistent(p) && p.pc == Create(last, a) && p.touch == None
    ensures Fine(rows, p, ActCreate(g, rows, meta, p, last, a))
  {}

  lemma InsertStep(g: KeyGen, rows: Rows, meta: Bytes, p: Proc, ranks: seq<Rank>, a: nat)
    requires Consistent(p) && p.pc == CreateAt(ranks, a) && p.touch == None
    ensures Fine(rows, p, ActInsert(g, rows, meta, p, ranks, a))
  {}

  lemma AdderTouchStep(rows: Rows, meta: Bytes, p: Proc, t: Touching, now: string)
    requires Adder(p.call) && Consistent(p) && p.touch == Some(t)
    ensures Fine(rows, p, ActTouch(rows, meta, p, t, now))
  {}

  lemma TouchStep(rows: Rows, meta: Bytes, p: Proc, t: Touching, now: string)
    requires Consistent(p) && p.touch == Some(t)
    ensures Fine(rows, p, ActTouch(rows, meta, p, t, now))
  {
    if Adder(p.call) {
      AdderTouchStep(rows, meta, p, t, now);
    }
  }

  lemma AddReadStep(rows: Rows, meta: Bytes, p: Proc, a: nat)
    requires Consistent(p) && p.touch == None && (p.pc == ReadLast(a) || p.pc == ReadRanks(a))
    ensures Fine(rows, p, if p.pc.ReadLast? then ActReadLast(rows, meta, p, a) else ActReadRanks(rows, meta, p, a))
  {}

  lemma PopReadStep(rows: Rows, meta: Bytes, p: Proc, a: nat)
    requires Consistent(p) && p.pc == PopRead(a)
    ensures Fine(rows, p, ActPopRead(rows, meta, p, a))
  {}

  lemma GetStep(rows: Rows, meta: Bytes, p: Proc, rank: Rank, n: nat, a: nat)
    requires Consistent(p) && p.pc == PopGet(rank, n, a)
    ensures Fine(rows, p, ActPopGet(rows, meta, p, rank, n, a))
  {}

  lemma ScanStep(rows: Rows, meta: Bytes, p: Proc, a: nat)
    requires Consistent(p) && (p.pc == Scan(a) || p.pc == WhereScan)
    ensures Fine(rows, p, if p.pc.Scan? then ActScan(rows, meta, p, a) else ActWhereScan(rows, meta, p))
  {}

  lemma DeleteStep(rows: Rows, meta: Bytes, p: Proc, rank: Rank, raw: Raw, c: Change, hit: Pc, miss: Pc)
    requires Consistent(p.(removed := p.removed + [raw], touch := NewTouch(c), pc := hit)) && Consistent(p.(pc := miss))
    ensures Fine(rows, p, ActDelete(rows, meta, p, rank, raw, c, hit, miss))
  {
    assert |p.removed + [raw]| != |p.removed|;
  }

  lemma WhereStep(rows: Rows, meta: Bytes, p: Proc, todo: seq<(Rank, Raw)>)
    requires Consistent(p) && p.touch == None && (p.pc == WhereNext(todo) || p.pc == WhereDelete(todo))
    ensures Fine(rows, p, if p.pc.WhereNext? then ActWhereNext(rows, meta, p, todo) else ActWhereDelete(rows, meta, p, todo))
  {
    if p.pc.WhereDelete? && todo != [] {
      var after := if p.call.firstOnly then Returned(Removed(p.removed + [todo[0].1])) else WhereNext(todo[1..]);
      DeleteStep(rows, meta, p, todo[0].0, todo[0].1, Delta(-1), after, WhereNext(todo[1..]));
    }
  }

  lemma SingleStep(g: KeyGen, rows: Rows, meta: Bytes, p: Proc, now: string)
    requires Consistent(p) && p.touch == None && (p.pc.PopDelete? || p.pc.ScanDelete? || p.pc.HandleDelete?)
    ensures Fine(rows, p, Act(g, rows, meta, p, now))
  {
    match p.pc
    case PopDelete(rank, raw, n, a) =>
      DeleteStep(rows, meta, p, rank, raw, Count(n - 1), Returned(Got(raw)), Again(PopRead(a + 1), a));
    case ScanDelete(rank, raw, n, a) =>
      DeleteStep(rows, meta, p, rank, raw, Count(n - 1), Returned(Ok), Again(Scan(a + 1), a));
    case HandleDelete =>
      DeleteStep(rows, meta, p, p.call.rank, p.call.raw, Delta(-1), Returned(Said(true)), Returned(Said(false)));
  }

  lemma CallerStep(g: KeyGen, rows: Rows, meta: Bytes, p: Proc, now: string)
    requires Consistent(p)
    ensures Fine(rows, p, Act(g, rows, meta, p, now))
  {
    if p.touch.Some? {
      TouchStep(rows, meta, p, p.touch.value, now);
    } else {
      match p.pc
      case Create(last, a) => CreateStep(g, rows, meta, p, last, a);
      case CreateAt(ranks, a) => InsertStep(g, rows, meta, p, ranks, a);
      case ReadLast(a) => AddReadStep(rows, meta, p, a);
      case ReadRanks(a) => AddReadStep(rows, meta, p, a);
      case PopRead(a) => PopReadStep(rows, meta, p, a);
      case PopGet(rank, n, a) => GetStep(rows, meta, p, rank, n, a);
      case Scan(a) => ScanStep(rows, meta, p, a);
      case WhereScan => ScanStep(rows, meta, p, 0);
      case WhereNext(todo) => WhereStep(rows, meta, p, todo);
      case WhereDelete(todo) => WhereStep(rows, meta, p, todo);
      case Dispatch =>
      case Returned(_) =>
      case _ => SingleStep(g, rows, meta, p, now);
    }
  }

  /** The state of a run: callers consistent, values conserved. */
  ghost predicate Sane(s0: State, s: State) {
    && |s.procs| == |s0.procs|
    && (forall i :: 0 <= i < |s.procs| ==> Consistent(s.procs[i]) && s.procs[i].call == s0.procs[i].call)
    && Bag(s.rows) + Taken(s.procs) == Bag(s0.rows) + Added(s.procs)
  }

  lemma StepKeepsSane(g: KeyGen, s0: State, s: State, pid: nat, now: string)
    requires Sane(s0, s)
    ensures Sane(s0, Step(g, s, pid, now))
  {
    if pid < |s.procs| {
      var p := s.procs[pid];
      var e := Act(g, s.rows, s.meta, p, now);
      CallerStep(g, s.rows, s.meta, p, now);
      EffectOnBag(s.rows, p, e);
      Balance(Bag(s.rows), Bag(e.rows), Bag(s0.rows), s.procs, pid, e.p);
    }
  }

  lemma EffectOnBag(rows: Rows, p: Proc, e: Effect)
    requires RowEffect(rows, p, e)
    ensures Bag(e.rows) + multiset(e.p.removed) + multiset(p.added) == Bag(rows) + multiset(p.removed) + multiset(e.p.added)
  {
    match e.created {
      case Some(kv) => BagInsert(rows, kv.0, kv.1);
      case None =>
        if e.p.removed != p.removed {
          var k :| k in rows && e.rows == rows - {k} && e.p.removed == p.removed + [rows[k]];
          BagDelete(rows, k);
        }
    }
  }

  lemma Balance(b: multiset<Raw>, b': multiset<Raw>, b0: multiset<Raw>, ps: seq<Proc>, i: nat, p: Proc)
    requires i < |ps|
    requires b + Taken(ps) == b0 + Added(ps)
    requires b' + multiset(p.removed) + multiset(ps[i].added) == b + multiset(ps[i].removed) + multiset(p.added)
    ensures b' + Taken(ps[i := p]) == b0 + Added(ps[i := p])
  {
    SumsUpdate(ps, i, p);
    var t, t', a, a' := Taken(ps), Taken(ps[i := p]), Added(ps), Added(ps[i := p]);
    forall x ensures (b' + t')[x] == (b0 + a')[x] {
      assert (b' + multiset(p.removed) + multiset(ps[i].added))[x] == (b + multiset(ps[i].removed) + multiset(p.added))[x];
      assert (t' + multiset(ps[i].removed))[x] == (t + multiset(p.removed))[x];
      assert (a' + multiset(ps[i].added))[x] == (a + multiset(p.added))[x];
      assert (b + t)[x] == (b0 + a)[x];
    }
  }

  /** Conservation. After any interleaving of any number of calls: stored items together with
      the items reported removed are the initial items together with the items added; and each
      caller that has returned answered exactly what it did. */
  lemma {:induction false} Conserved(g: KeyGen, s0: State, schedule: seq<(nat, string)>, n: nat)
    requires Initial(s0) && n <= |schedule|
    ensures Sane(s0, Run(g, s0, schedule, n))
  {
    if n == 0 {
      SumsFresh(s0.procs);
    } else {
      Conserved(g, s0, schedule, n - 1);
      StepKeepsSane(g, s0, Run(g, s0, schedule, n - 1), schedule[n - 1].0, schedule[n - 1].1);
    }
  }

  /** No call ever changes the value under another row's key. */
  lemma NoOverwrite(g: KeyGen, s0: State, schedule: seq<(nat, string)>, n: nat, k: Rank)
    requires Initial(s0) && n < |schedule|
    ensures var s, s' := Run(g, s0, schedule, n), Run(g, s0, schedule, n + 1);
            k in s.rows && k in s'.rows ==> s'.rows[k] == s.rows[k]
  {
    Conserved(g, s0, schedule, n);
    var s, pid := Run(g, s0, schedule, n), schedule[n].0;
    if pid < |s.procs| {
      var p := s.procs[pid];
      CallerStep(g, s.rows, s.meta, p, schedule[n].1);
    }
  }

  // ---- the count hint ----

  ghost predicate OnlyAdders(s: State) {
    forall i :: 0 <= i < |s.procs| ==> Adder(s.procs[i].call)
  }

  ghost predicate HintBalanced(s0: State, s: State) {
    s.meta.hint >= 0 && |s.rows| - s.meta.hint == |s0.rows| - s0.meta.hint + Unrecorded(s.procs)
  }

  lemma TouchBalance(g: KeyGen, rows: Rows, meta: Bytes, p: Proc, now: string)
    requires Adder(p.call) && Consistent(p) && meta.hint >= 0
    ensures var e := Act(g, rows, meta, p, now);
            && e.meta.hint >= 0
            && |e.rows| - e.meta.hint - e.p.untouched - e.p.lost == |rows| - meta.hint - p.untouched - p.lost
  {}

  /** At every moment of any interleaving of appends, extends and inserts, the stored hint lags
      behind the number of items by exactly the additions whose touch is still to come, plus
      those whose touch gave up, plus those an `extend` left behind when it hit the rank cap. */
  lemma {:induction false} HintConserved(g: KeyGen, s0: State, schedule: seq<(nat, string)>, n: nat)
    requires Initial(s0) && OnlyAdders(s0) && s0.meta.hint >= 0 && n <= |schedule|
    ensures HintBalanced(s0, Run(g, s0, schedule, n))
  {
    if n == 0 {
      SumsFresh(s0.procs);
    } else {
      HintConserved(g, s0, schedule, n - 1);
      Conserved(g, s0, schedule, n - 1);
      var s, pid, now := Run(g, s0, schedule, n - 1), schedule[n - 1].0, schedule[n - 1].1;
      if pid < |s.procs| {
        TouchBalance(g, s.rows, s.meta, s.procs[pid], now);
        SumsUpdate(s.procs, pid, Act(g, s.rows, s.meta, s.procs[pid], now).p);
      }
    }
  }

  /** An `extend` that the rank cap stopped has told the hint about none of its items, whatever
      it managed to add. */
  lemma CappedIsUnrecorded(g: KeyGen, s0: State, schedule: seq<(nat, string)>, n: nat, i: nat)
    requires Initial(s0) && n <= |schedule| && i < |Run(g, s0, schedule, n).procs|
    requires Run(g, s0, schedule, n).procs[i].pc == Returned(Capped)
    ensures var p := Run(g, s0, schedule, n).procs[i];
            p.untouched == |p.added| < |ItemsOf(p.call)| && p.added == ItemsOf(p.call)[..|p.added|]
  {
    Conserved(g, s0, schedule, n);
  }
}
