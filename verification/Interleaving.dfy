/** Any number of concurrent callers on one version 2 list, interleaved at their row operations.
    The metadata row exists; it is read and swapped, never created or deleted, in these runs. */
module Interleaving {
  import opened Options
  import opened Keys
  import opened Ranked
  import opened PyList
  import ListModel

  /** The metadata row's bytes, as far as a touch reads and writes them. */
  datatype Bytes = Bytes(hint: int, updated: string, rest: string)

  /** `Adding` is `append` and `extend`: the former is the latter with one item. The cache of an
      inserting caller may be arbitrarily old. */
  datatype Call = Adding(items: seq<Raw>)
                | Inserting(index: int, item: Raw, cache: Option<seq<Rank>>)
                | Popping(index: int)
                | Removing(match_: Match)
                | RemovingWhere(match_: Match, firstOnly: bool)
                | DeletingHandle(rank: Rank, raw: Raw)

  datatype Outcome = Ok | Got(item: Raw) | Removed(items: seq<Raw>) | Said(b: bool)
                   | Refused | Contention | Capped

  datatype Change = Count(n: int) | Delta(d: int)

  /** Where a caller is: between which two row operations. */
  datatype Pc = Dispatch
              | ReadLast(attempt: nat)
              | Create(last: Option<Rank>, attempt: nat)
              | ReadRanks(attempt: nat)
              | CreateAt(ranks: seq<Rank>, attempt: nat)
              | PopRead(attempt: nat)
              | PopGet(rank: Rank, n: nat, attempt: nat)
              | PopDelete(rank: Rank, raw: Raw, n: nat, attempt: nat)
              | Scan(attempt: nat)
              | ScanDelete(rank: Rank, raw: Raw, n: nat, attempt: nat)
              | WhereScan
              | WhereNext(todo: seq<(Rank, Raw)>)
              | WhereDelete(todo: seq<(Rank, Raw)>)
              | HandleDelete
              | Returned(outcome: Outcome)

  /** A metadata touch in progress: before its compare-and-swap, or before a re-read. */
  datatype Touching = Touching(change: Change, attempt: nat, reread: bool)

  /** A caller, with the touch it is in the middle of, its stashed metadata read, and what it did
      to the rows so far: items added, items removed, additions its touch has still to record,
      additions whose touch gave up. */
  datatype Proc = Proc(call: Call, pc: Pc, touch: Option<Touching>, stash: Bytes, added: seq<Raw>, removed: seq<Raw>,
                       untouched: nat, lost: nat)

  datatype Entry = Entry(pid: nat, rank: Rank, item: Raw)

  /** The rows, the metadata row, the callers, and every successful create so far. */
  datatype State = State(rows: Rows, meta: Bytes, procs: seq<Proc>, log: seq<Entry>)

  function ItemsOf(c: Call): seq<Raw> {
    match c case Adding(items) => items case Inserting(_, item, _) => [item] case _ => []
  }

  function Start(c: Call): Pc {
    match c
    case Adding(_) => ReadLast(0)
    case Inserting(_, _, _) => ReadRanks(0)
    case Popping(_) => PopRead(0)
    case Removing(_) => Scan(0)
    case RemovingWhere(_, _) => WhereScan
    case DeletingHandle(_, _) => HandleDelete
  }

  function NewTouch(c: Change): Option<Touching> {
    Some(Touching(c, 0, false))
  }

  /** Record `k` new rows with one touch; with nothing to record, there is none. */
  function TouchFor(k: nat): Option<Touching> {
    if k == 0 then None else NewTouch(Delta(k))
  }

  function Touch(m: Bytes, c: Change, now: string): Bytes {
    match c
    case Count(n) => m.(hint := n, updated := now)
    case Delta(d) => m.(hint := if m.hint + d < 0 then 0 else m.hint + d, updated := now)
  }

  /** The matching rows of a scan, in rank order. */
  ghost function MatchingRows(rows: Rows, ks: seq<Rank>, p: Match): (todo: seq<(Rank, Raw)>)
    requires forall i :: 0 <= i < |ks| ==> ks[i] in rows
    ensures forall i :: 0 <= i < |todo| ==> p(todo[i].1)
  {
    if ks == [] then []
    else if p(rows[ks[0]]) then [(ks[0], rows[ks[0]])] + MatchingRows(rows, ks[1..], p)
    else MatchingRows(rows, ks[1..], p)
  }

  /** What one row operation does: the rows and the metadata row after it, the caller after it,
      and the row it created, if any. */
  datatype Effect = Effect(rows: Rows, meta: Bytes, p: Proc, created: Option<(Rank, Raw)>)

  ghost function Act(g: KeyGen, rows: Rows, meta: Bytes, p: Proc, now: string): Effect {
    if p.touch.Some? then ActTouch(rows, meta, p, p.touch.value, now)
    else
      match p.pc
      case Dispatch => Effect(rows, meta, p.(stash := meta, pc := Start(p.call)), None)
      case ReadLast(a) => ActReadLast(rows, meta, p, a)
      case Create(last, a) => ActCreate(g, rows, meta, p, last, a)
      case ReadRanks(a) => ActReadRanks(rows, meta, p, a)
      case CreateAt(ranks, a) => ActInsert(g, rows, meta, p, ranks, a)
      case PopRead(a) => ActPopRead(rows, meta, p, a)
      case PopGet(rank, n, a) => ActPopGet(rows, meta, p, rank, n, a)
      case PopDelete(rank, raw, n, a) =>
        ActDelete(rows, meta, p, rank, raw, Count(n - 1), Returned(Got(raw)), Again(PopRead(a + 1), a))
      case Scan(a) => ActScan(rows, meta, p, a)
      case ScanDelete(rank, raw, n, a) =>
        ActDelete(rows, meta, p, rank, raw, Count(n - 1), Returned(Ok), Again(Scan(a + 1), a))
      case WhereScan => ActWhereScan(rows, meta, p)
      case WhereNext(todo) => ActWhereNext(rows, meta, p, todo)
      case WhereDelete(todo) => ActWhereDelete(rows, meta, p, todo)
      case HandleDelete => ActHandle(rows, meta, p)
      case Returned(_) => Effect(rows, meta, p, None)
  }

  ghost function ActReadLast(rows: Rows, meta: Bytes, p: Proc, a: nat): Effect {
    Effect(rows, meta, p.(pc := if |p.added| >= |ItemsOf(p.call)| then Returned(Ok) else Create(LastOf(Sorted(rows.Keys)), a)), None)
  }

  ghost function ActReadRanks(rows: Rows, meta: Bytes, p: Proc, a: nat): Effect {
    var ranks := if a == 0 && p.call.Inserting? && p.call.cache.Some? then p.call.cache.value else Sorted(rows.Keys);
    Effect(rows, meta, p.(pc := CreateAt(ranks, a)), None)
  }

  ghost function ActPopRead(rows: Rows, meta: Bytes, p: Proc, a: nat): Effect {
    var ks := Sorted(rows.Keys);
    Effect(rows, meta, p.(pc := if !p.call.Popping? || !InRange(p.call.index, |ks|) then Returned(Refused)
                                else PopGet(ks[At(p.call.index, |ks|)], |ks|, a)), None)
  }

  ghost function ActPopGet(rows: Rows, meta: Bytes, p: Proc, rank: Rank, n: nat, a: nat): Effect {
    Effect(rows, meta, p.(pc := if rank in rows then PopDelete(rank, rows[rank], n, a) else Again(PopRead(a + 1), a)), None)
  }

  /** `delete_if_value_equals`: record the deletion and go on to `hit`, or go on to `miss`. */
  ghost function ActDelete(rows: Rows, meta: Bytes, p: Proc, rank: Rank, raw: Raw, change: Change, hit: Pc, miss: Pc): Effect {
    if rank in rows && rows[rank] == raw then
      Effect(rows - {rank}, meta, p.(removed := p.removed + [raw], touch := NewTouch(change), pc := hit), None)
    else Effect(rows, meta, p.(pc := miss), None)
  }

  ghost function ActScan(rows: Rows, meta: Bytes, p: Proc, a: nat): Effect {
    var ks := Sorted(rows.Keys);
    var todo := if p.call.Removing? then MatchingRows(rows, ks, p.call.match_) else [];
    Effect(rows, meta, p.(pc := if todo == [] then Returned(Refused) else ScanDelete(todo[0].0, todo[0].1, |ks|, a)), None)
  }

  ghost function ActWhereScan(rows: Rows, meta: Bytes, p: Proc): Effect {
    var todo := if p.call.RemovingWhere? then MatchingRows(rows, Sorted(rows.Keys), p.call.match_) else [];
    Effect(rows, meta, p.(pc := WhereNext(todo)), None)
  }

  ghost function ActWhereNext(rows: Rows, meta: Bytes, p: Proc, todo: seq<(Rank, Raw)>): Effect {
    if todo == [] then Effect(rows, meta, p.(pc := Returned(Removed(p.removed))), None)
    else Effect(rows, meta, p.(stash := meta, pc := WhereDelete(todo)), None)
  }

  ghost function ActWhereDelete(rows: Rows, meta: Bytes, p: Proc, todo: seq<(Rank, Raw)>): Effect {
    if todo == [] then Effect(rows, meta, p.(pc := Returned(Removed(p.removed))), None)
    else
      var after := if p.call.RemovingWhere? && p.call.firstOnly then Returned(Removed(p.removed + [todo[0].1]))
                   else WhereNext(todo[1..]);
      ActDelete(rows, meta, p, todo[0].0, todo[0].1, Delta(-1), after, WhereNext(todo[1..]))
  }

  ghost function ActHandle(rows: Rows, meta: Bytes, p: Proc): Effect {
    if !p.call.DeletingHandle? then Effect(rows, meta, p.(pc := Returned(Said(false))), None)
    else ActDelete(rows, meta, p, p.call.rank, p.call.raw, Delta(-1), Returned(Said(true)), Returned(Said(false)))
  }

  /** One step of a touch: a re-read, or a compare-and-swap of the metadata row. The bound
      exhausted, it gives up quietly. */
  ghost function ActTouch(rows: Rows, meta: Bytes, p: Proc, t: Touching, now: string): Effect {
    if t.reread then Effect(rows, meta, p.(stash := meta, touch := Some(t.(reread := false))), None)
    else if meta == p.stash then Effect(rows, Touch(p.stash, t.change, now), p.(touch := None, untouched := 0), None)
    else if t.attempt + 1 < ListModel.METADATA_CAS_ADVISORY_MAX_ATTEMPTS then
      Effect(rows, meta, p.(touch := Some(Touching(t.change, t.attempt + 1, true))), None)
    else Effect(rows, meta, p.(touch := None, lost := p.lost + p.untouched, untouched := 0), None)
  }

  /** Start over after a lost race, at most eight times in all. */
  function Again(next: Pc, attempt: nat): Pc {
    if attempt + 1 < MAX_RANK_RETRIES then next else Returned(Contention)
  }

  ghost function ActCreate(g: KeyGen, rows: Rows, meta: Bytes, p: Proc, last: Option<Rank>, a: nat): Effect {
    var items := ItemsOf(p.call);
    var k := After(g, last);
    if |p.added| >= |items| then Effect(rows, meta, p.(pc := Returned(Ok)), None)
    else if |k| > RANK_MAX_LEN then Effect(rows, meta, p.(pc := Returned(Capped)), None)
    else if k in rows then
      if a + 1 < MAX_RANK_RETRIES then Effect(rows, meta, p.(pc := ReadLast(a + 1)), None)
      else Effect(rows, meta, p.(pc := Returned(Contention), touch := TouchFor(p.untouched)), None)
    else
      var item := items[|p.added|];
      var p' := p.(added := p.added + [item], untouched := p.untouched + 1);
      Effect(rows[k := item], meta,
             if |p'.added| == |items| then p'.(pc := Returned(Ok), touch := TouchFor(p'.untouched))
             else p'.(pc := Create(Some(k), a)),
             Some((k, item)))
  }

  ghost function ActInsert(g: KeyGen, rows: Rows, meta: Bytes, p: Proc, ranks: seq<Rank>, a: nat): Effect {
    if !p.call.Inserting? then Effect(rows, meta, p.(pc := Returned(Refused)), None)
    else
      var pos := InsertPos(p.call.index, |ranks|);
      var k := g.between(if pos > 0 then Some(ranks[pos - 1]) else None, if pos < |ranks| then Some(ranks[pos]) else None);
      if |k| > RANK_MAX_LEN then Effect(rows, meta, p.(pc := Returned(Capped)), None)
      else if k in rows then Effect(rows, meta, p.(pc := Again(ReadRanks(a + 1), a)), None)
      else
        Effect(rows[k := p.call.item], meta,
               p.(added := p.added + [p.call.item], untouched := p.untouched + 1,
                  pc := Returned(Ok), touch := TouchFor(p.untouched + 1)),
               Some((k, p.call.item)))
  }

  ghost function Step(g: KeyGen, s: State, pid: nat, now: string): State {
    if pid >= |s.procs| then s
    else
      var e := Act(g, s.rows, s.meta, s.procs[pid], now);
      State(e.rows, e.meta, s.procs[pid := e.p],
            if e.created.Some? then s.log + [Entry(pid, e.created.value.0, e.created.value.1)] else s.log)
  }

  /** A schedule: who moves next, and the time stamp a metadata write would use. */
  ghost function Run(g: KeyGen, s: State, schedule: seq<(nat, string)>, n: nat): State
    requires n <= |schedule|
  {
    if n == 0 then s
    else Step(g, Run(g, s, schedule, n - 1), schedule[n - 1].0, schedule[n - 1].1)
  }

  predicate Fresh(p: Proc) {
    p.pc == Dispatch && p.touch == None && p.added == [] && p.removed == [] && p.untouched == 0 && p.lost == 0
  }

  predicate Initial(s: State) {
    s.log == [] && forall i :: 0 <= i < |s.procs| ==> Fresh(s.procs[i])
  }

  // ---- how often a caller tries ----

  function AttemptOf(pc: Pc): nat {
    match pc
    case ReadLast(a) => a
    case Create(_, a) => a
    case ReadRanks(a) => a
    case CreateAt(_, a) => a
    case PopRead(a) => a
    case PopGet(_, _, a) => a
    case PopDelete(_, _, _, a) => a
    case Scan(a) => a
    case ScanDelete(_, _, _, a) => a
    case _ => 0
  }

  /** At most eight attempts at a row, and three at a touch. */
  predicate Patient(p: Proc) {
    AttemptOf(p.pc) <= 7 && (p.touch.Some? ==> p.touch.value.attempt <= 2)
  }

  /** A lost race is counted; contention is answered after the eighth, and a touch given up after
      the third. */
  ghost predicate GivesUpLate(meta: Bytes, p: Proc, q: Proc) {
    && AttemptOf(q.pc) <= AttemptOf(p.pc) + 1
    && (q.pc.ReadLast? || q.pc.ReadRanks? || q.pc.PopRead? || q.pc.Scan? ==>
          q.pc == p.pc || p.pc.Dispatch? || AttemptOf(q.pc) == AttemptOf(p.pc) + 1)
    && (q.pc == Returned(Contention) ==> q.pc == p.pc || AttemptOf(p.pc) == 7)
    && (p.touch.Some? && q.touch.None? ==> meta == p.stash || p.touch.value.attempt == 2)
  }

  lemma TouchIsPatient(g: KeyGen, rows: Rows, meta: Bytes, p: Proc, now: string)
    requires Patient(p) && p.touch.Some?
    ensures Patient(Act(g, rows, meta, p, now).p) && GivesUpLate(meta, p, Act(g, rows, meta, p, now).p)
  {}

  lemma AdderIsPatient(g: KeyGen, rows: Rows, meta: Bytes, p: Proc, now: string)
    requires Patient(p) && p.touch.None? && (p.pc.Create? || p.pc.CreateAt? || p.pc.ReadLast? || p.pc.ReadRanks?)
    ensures Patient(Act(g, rows, meta, p, now).p) && GivesUpLate(meta, p, Act(g, rows, meta, p, now).p)
  {}

  lemma RemoverIsPatient(g: KeyGen, rows: Rows, meta: Bytes, p: Proc, now: string)
    requires Patient(p) && p.touch.None? && !(p.pc.Create? || p.pc.CreateAt? || p.pc.ReadLast? || p.pc.ReadRanks?)
    ensures Patient(Act(g, rows, meta, p, now).p) && GivesUpLate(meta, p, Act(g, rows, meta, p, now).p)
  {}

  lemma StepIsPatient(g: KeyGen, rows: Rows, meta: Bytes, p: Proc, now: string)
    requires Patient(p)
    ensures Patient(Act(g, rows, meta, p, now).p) && GivesUpLate(meta, p, Act(g, rows, meta, p, now).p)
  {
    if p.touch.Some? {
      TouchIsPatient(g, rows, meta, p, now);
    } else if p.pc.Create? || p.pc.CreateAt? || p.pc.ReadLast? || p.pc.ReadRanks? {
      AdderIsPatient(g, rows, meta, p, now);
    } else {
      RemoverIsPatient(g, rows, meta, p, now);
    }
  }

  lemma {:induction false} RunIsPatient(g: KeyGen, s0: State, schedule: seq<(nat, string)>, n: nat)
    requires Initial(s0) && n <= |schedule|
    ensures forall i :: 0 <= i < |Run(g, s0, schedule, n).procs| ==> Patient(Run(g, s0, schedule, n).procs[i])
  {
    if n == 0 {
      assert forall i :: 0 <= i < |s0.procs| ==> Fresh(s0.procs[i]);
    } else {
      RunIsPatient(g, s0, schedule, n - 1);
      var s, pid := Run(g, s0, schedule, n - 1), schedule[n - 1].0;
      if pid < |s.procs| {
        StepIsPatient(g, s.rows, s.meta, s.procs[pid], schedule[n - 1].1);
      }
    }
  }

  /** Touches leave alone what the metadata says beside the hint and the time stamp. */
  lemma {:induction false} RunKeepsRest(g: KeyGen, s0: State, schedule: seq<(nat, string)>, n: nat)
    requires n <= |schedule|
    ensures Run(g, s0, schedule, n).meta.rest == s0.meta.rest
  {
    if n > 0 {
      RunKeepsRest(g, s0, schedule, n - 1);
      var s, pid := Run(g, s0, schedule, n - 1), schedule[n - 1].0;
      if pid < |s.procs| {
        StepKeepsRest(g, s.rows, s.meta, s.procs[pid], schedule[n - 1].1);
      }
    }
  }

  lemma StepKeepsRest(g: KeyGen, rows: Rows, meta: Bytes, p: Proc, now: string)
    ensures Act(g, rows, meta, p, now).meta.rest == meta.rest
  {}

  // ---- sums over the callers ----

  ghost function Added(ps: seq<Proc>): multiset<Raw> {
    if ps == [] then multiset{} else Added(ps[..|ps| - 1]) + multiset(ps[|ps| - 1].added)
  }

  ghost function Taken(ps: seq<Proc>): multiset<Raw> {
    if ps == [] then multiset{} else Taken(ps[..|ps| - 1]) + multiset(ps[|ps| - 1].removed)
  }

  ghost function Unrecorded(ps: seq<Proc>): nat {
    if ps == [] then 0 else Unrecorded(ps[..|ps| - 1]) + ps[|ps| - 1].untouched + ps[|ps| - 1].lost
  }

  lemma {:induction false} SumsUpdate(ps: seq<Proc>, i: nat, p: Proc)
    requires i < |ps|
    ensures Added(ps[i := p]) + multiset(ps[i].added) == Added(ps) + multiset(p.added)
    ensures Taken(ps[i := p]) + multiset(ps[i].removed) == Taken(ps) + multiset(p.removed)
    ensures Unrecorded(ps[i := p]) + ps[i].untouched + ps[i].lost == Unrecorded(ps) + p.untouched + p.lost
  {
    var n := |ps| - 1;
    var qs := ps[i := p];
    if i == n {
      assert qs[..n] == ps[..n];
    } else {
      SumsUpdate(ps[..n], i, p);
      assert qs[..n] == ps[..n][i := p] && qs[n] == ps[n] && ps[..n][i] == ps[i];
      var a, b := Added(qs[..n]), Added(ps[..n]);
      assert (a + multiset(ps[n].added)) + multiset(ps[i].added) == (a + multiset(ps[i].added)) + multiset(ps[n].added);
      assert (b + multiset(p.added)) + multiset(ps[n].added) == (b + multiset(ps[n].added)) + multiset(p.added);
      var c, d := Taken(qs[..n]), Taken(ps[..n]);
      assert (c + multiset(ps[n].removed)) + multiset(ps[i].removed) == (c + multiset(ps[i].removed)) + multiset(ps[n].removed);
      assert (d + multiset(p.removed)) + multiset(ps[n].removed) == (d + multiset(ps[n].removed)) + multiset(p.removed);
    }
  }

  lemma {:induction false} SumsFresh(ps: seq<Proc>)
    requires forall i :: 0 <= i < |ps| ==> Fresh(ps[i])
    ensures Added(ps) == multiset{} && Taken(ps) == multiset{} && Unrecorded(ps) == 0
  {
    if ps != [] {
      SumsFresh(ps[..|ps| - 1]);
    }
  }
}
