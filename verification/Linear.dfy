/** Concurrent appends and extends only: the list grows at its end, and every interleaving is
    some sequential order of the appends. */
module Linear {
  import opened Order
  import opened Options
  import opened Keys
  import opened Ranked
  import opened Interleaving
  import opened Conservation

  /** The key `i` places after `last`. */
  function Nth(g: KeyGen, last: Option<Rank>, i: nat): Option<Rank> {
    if i == 0 then last else Some(After(g, Nth(g, last, i - 1)))
  }

  lemma {:induction false} NthIsKey(g: KeyGen, last: Option<Rank>, i: nat)
    requires Sound(g) && Bounds(g, last, None)
    ensures Bounds(g, Nth(g, last, i), None)
  {
    if i > 0 {
      NthIsKey(g, last, i - 1);
    }
  }

  function RanksOf(log: seq<Entry>): seq<Rank> {
    seq(|log|, i requires 0 <= i < |log| => log[i].rank)
  }

  function LogItems(log: seq<Entry>): seq<Raw> {
    seq(|log|, i requires 0 <= i < |log| => log[i].item)
  }

  /** What one caller created among the first `n` creates, in that order. */
  function Own(log: seq<Entry>, pid: nat, n: nat): seq<Raw>
    requires n <= |log|
  {
    if n == 0 then []
    else if log[n - 1].pid == pid then Own(log, pid, n - 1) + [log[n - 1].item]
    else Own(log, pid, n - 1)
  }

  ghost predicate Appenders(s: State) {
    forall i :: 0 <= i < |s.procs| ==> s.procs[i].call.Adding?
  }

  ghost predicate KnownLast(g: KeyGen, first: Option<Rank>, last: Option<Rank>, n: nat) {
    exists j: nat :: j <= n && last == Nth(g, first, j)
  }

  /** The rows are the initial ones followed by the created ones, whose ranks continue the
      chain of keys after the initial last rank. */
  ghost predicate RowsLinear(g: KeyGen, ks0: seq<Rank>, items0: seq<Raw>, rows: Rows, log: seq<Entry>) {
    && (forall j :: 0 <= j < |log| ==> Some(log[j].rank) == Nth(g, LastOf(ks0), j + 1))
    && Sorted(rows.Keys) == ks0 + RanksOf(log)
    && Items(rows) == items0 + LogItems(log)
  }

  /** A caller about to create goes on from a key of that chain, and has created what it says. */
  ghost predicate CallerLinear(g: KeyGen, first: Option<Rank>, log: seq<Entry>, i: nat, p: Proc) {
    && Own(log, i, |log|) == p.added
    && (p.pc.Create? ==> KnownLast(g, first, p.pc.last, |log|))
  }

  ghost predicate Linearized(g: KeyGen, s0: State, s: State) {
    && RowsLinear(g, Sorted(s0.rows.Keys), Items(s0.rows), s.rows, s.log)
    && forall i :: 0 <= i < |s.procs| ==> CallerLinear(g, LastOf(Sorted(s0.rows.Keys)), s.log, i, s.procs[i])
  }

  /** The greatest stored rank is the last one created, or the initial last one. */
  lemma CurrentLast(g: KeyGen, ks0: seq<Rank>, items0: seq<Raw>, rows: Rows, log: seq<Entry>)
    requires RowsLinear(g, ks0, items0, rows, log)
    ensures LastOf(Sorted(rows.Keys)) == Nth(g, LastOf(ks0), |log|)
  {
    if log != [] {
      var n := |log|;
      assert RanksOf(log)[n - 1] == log[n - 1].rank;
      assert Some(log[n - 1].rank) == Nth(g, LastOf(ks0), n - 1 + 1);
    }
  }

  /** Every key of the chain before the last one is taken. */
  lemma ChainIsStored(g: KeyGen, ks0: seq<Rank>, items0: seq<Raw>, rows: Rows, log: seq<Entry>, j: nat)
    requires RowsLinear(g, ks0, items0, rows, log) && j < |log|
    ensures After(g, Nth(g, LastOf(ks0), j)) in rows
  {
    assert Some(log[j].rank) == Nth(g, LastOf(ks0), j + 1);
    assert Sorted(rows.Keys)[|ks0| + j] == RanksOf(log)[j] == log[j].rank;
  }

  /** So a candidate that is free was generated from the current last rank ... */
  lemma FreeIsNext(g: KeyGen, ks0: seq<Rank>, items0: seq<Raw>, rows: Rows, log: seq<Entry>, last: Option<Rank>)
    requires RowsLinear(g, ks0, items0, rows, log)
    requires KnownLast(g, LastOf(ks0), last, |log|) && After(g, last) !in rows
    ensures last == Nth(g, LastOf(ks0), |log|)
  {
    forall j: nat | j < |log|
      ensures last != Nth(g, LastOf(ks0), j)
    {
      ChainIsStored(g, ks0, items0, rows, log, j);
    }
  }

  /** ... and lands at the very end of the list. */
  lemma NextFits(g: KeyGen, ks: seq<Rank>, last: Option<Rank>, r: Rank)
    requires Sound(g) && Bounds(g, last, None) && Ascending(ks) && last == LastOf(ks) && r == After(g, last)
    ensures r !in ks && Fits(ks, r, |ks|)
  {
    if ks != [] {
      assert Less(ks[|ks| - 1], r);
    }
    FitsAll(ks, r, |ks|);
  }

  lemma SnocInserts<T>(s: seq<T>, x: T)
    ensures Inserted(s, |s|, x) == s + [x]
  {}

  lemma SnocLog(log: seq<Entry>, e: Entry)
    ensures RanksOf(log + [e]) == RanksOf(log) + [e.rank]
    ensures LogItems(log + [e]) == LogItems(log) + [e.item]
  {}

  lemma AppendRow(g: KeyGen, rows: Rows, last: Option<Rank>, r: Rank, x: Raw)
    requires Sound(g) && Bounds(g, last, None) && last == LastOf(Sorted(rows.Keys)) && r == After(g, last)
    ensures Sorted(rows[r := x].Keys) == Sorted(rows.Keys) + [r]
    ensures Items(rows[r := x]) == Items(rows) + [x]
  {
    var ks := Sorted(rows.Keys);
    NextFits(g, ks, last, r);
    InsertRow(rows, r, x, |ks|);
    SnocInserts(ks, r);
    SnocInserts(Items(rows), x);
  }

  lemma ChainExtends(g: KeyGen, first: Option<Rank>, log: seq<Entry>, e: Entry)
    requires forall j :: 0 <= j < |log| ==> Some(log[j].rank) == Nth(g, first, j + 1)
    requires Some(e.rank) == Nth(g, first, |log| + 1)
    ensures forall j :: 0 <= j < |log + [e]| ==> Some((log + [e])[j].rank) == Nth(g, first, j + 1)
  {
    forall j | 0 <= j < |log + [e]|
      ensures Some((log + [e])[j].rank) == Nth(g, first, j + 1)
    {
      if j < |log| {
        assert (log + [e])[j] == log[j];
      }
    }
  }

  lemma CreateAtEnd(g: KeyGen, ks0: seq<Rank>, items0: seq<Raw>, rows: Rows, log: seq<Entry>, e: Entry)
    requires Sound(g) && Bounds(g, LastOf(ks0), None) && RowsLinear(g, ks0, items0, rows, log)
    requires Some(e.rank) == Nth(g, LastOf(ks0), |log| + 1)
    ensures RowsLinear(g, ks0, items0, rows[e.rank := e.item], log + [e])
    ensures Sorted(rows[e.rank := e.item].Keys) == Sorted(rows.Keys) + [e.rank]
  {
    NthIsKey(g, LastOf(ks0), |log|);
    CurrentLast(g, ks0, items0, rows, log);
    AppendRow(g, rows, Nth(g, LastOf(ks0), |log|), e.rank, e.item);
    ChainExtends(g, LastOf(ks0), log, e);
    SnocLog(log, e);
    assert ks0 + RanksOf(log) + [e.rank] == ks0 + (RanksOf(log) + [e.rank]);
    assert items0 + LogItems(log) + [e.item] == items0 + (LogItems(log) + [e.item]);
  }

  lemma {:induction false} OwnPrefix(log: seq<Entry>, e: Entry, pid: nat, n: nat)
    requires n <= |log|
    ensures Own(log + [e], pid, n) == Own(log, pid, n)
  {
    if n > 0 {
      OwnPrefix(log, e, pid, n - 1);
    }
  }

  lemma CallerAfterCreate(g: KeyGen, first: Option<Rank>, log: seq<Entry>, e: Entry, i: nat, p: Proc, p': Proc)
    requires CallerLinear(g, first, log, i, p) && Some(e.rank) == Nth(g, first, |log| + 1)
    requires e.pid != i ==> p' == p
    requires e.pid == i ==> p'.added == p.added + [e.item] && (p'.pc.Create? ==> p'.pc.last == Some(e.rank))
    ensures CallerLinear(g, first, log + [e], i, p')
  {
    OwnPrefix(log, e, i, |log|);
    if e.pid == i {
      assert p'.pc.Create? ==> p'.pc.last == Nth(g, first, |log + [e]|);
    } else if p.pc.Create? {
      var j: nat :| j <= |log| && p.pc.last == Nth(g, first, j);
      assert j <= |log + [e]|;
    }
  }

  lemma CreatedStep(g: KeyGen, s0: State, s: State, pid: nat, now: string)
    requires Sound(g) && Bounds(g, LastOf(Sorted(s0.rows.Keys)), None) && Linearized(g, s0, s) && Appenders(s)
    requires pid < |s.procs| && Consistent(s.procs[pid])
    requires Act(g, s.rows, s.meta, s.procs[pid], now).created.Some?
    ensures Linearized(g, s0, Step(g, s, pid, now))
  {
    var ks0, items0, p := Sorted(s0.rows.Keys), Items(s0.rows), s.procs[pid];
    var e := Act(g, s.rows, s.meta, p, now);
    var entry := Entry(pid, e.created.value.0, e.created.value.1);
    CreatedBy(g, s.rows, s.meta, p, now);
    assert CallerLinear(g, LastOf(ks0), s.log, pid, p);
    FreeIsNext(g, ks0, items0, s.rows, s.log, p.pc.last);
    CreateAtEnd(g, ks0, items0, s.rows, s.log, entry);
    var after := s.procs[pid := e.p];
    forall i | 0 <= i < |s.procs|
      ensures CallerLinear(g, LastOf(ks0), s.log + [entry], i, after[i])
    {
      CallerAfterCreate(g, LastOf(ks0), s.log, entry, i, s.procs[i], after[i]);
    }
  }

  lemma CreatedBy(g: KeyGen, rows: Rows, meta: Bytes, p: Proc, now: string)
    requires p.call.Adding? && Consistent(p) && Act(g, rows, meta, p, now).created.Some?
    ensures var e := Act(g, rows, meta, p, now);
            var kv := e.created.value;
            && p.pc.Create? && kv.0 == After(g, p.pc.last) && kv.0 !in rows && e.rows == rows[kv.0 := kv.1]
            && e.p.added == p.added + [kv.1] && (e.p.pc.Create? ==> e.p.pc.last == Some(kv.0))
  {}

  lemma QuietBy(g: KeyGen, rows: Rows, meta: Bytes, p: Proc, now: string)
    requires p.call.Adding? && Consistent(p) && Act(g, rows, meta, p, now).created.None?
    ensures var e := Act(g, rows, meta, p, now);
            && e.rows == rows && e.p.added == p.added
            && (e.p.pc.Create? ==> e.p.pc.last == LastOf(Sorted(rows.Keys)) || (p.pc.Create? && e.p.pc.last == p.pc.last))
  {}

  lemma QuietLinear(g: KeyGen, s0: State, s: State, pid: nat, now: string)
    requires Linearized(g, s0, s) && Appenders(s)
    requires pid < |s.procs| && Consistent(s.procs[pid])
    requires Act(g, s.rows, s.meta, s.procs[pid], now).created.None?
    ensures Linearized(g, s0, Step(g, s, pid, now))
  {
    var p := s.procs[pid];
    var e := Act(g, s.rows, s.meta, p, now);
    QuietBy(g, s.rows, s.meta, p, now);
    CurrentLast(g, Sorted(s0.rows.Keys), Items(s0.rows), s.rows, s.log);
    assert CallerLinear(g, LastOf(Sorted(s0.rows.Keys)), s.log, pid, p);
    assert CallerLinear(g, LastOf(Sorted(s0.rows.Keys)), s.log, pid, e.p);
  }

  lemma StepLinear(g: KeyGen, s0: State, s: State, pid: nat, now: string)
    requires Sound(g) && Bounds(g, LastOf(Sorted(s0.rows.Keys)), None)
    requires Linearized(g, s0, s) && Appenders(s) && forall i :: 0 <= i < |s.procs| ==> Consistent(s.procs[i])
    ensures Linearized(g, s0, Step(g, s, pid, now))
  {
    if pid < |s.procs| {
      if Act(g, s.rows, s.meta, s.procs[pid], now).created.Some? {
        CreatedStep(g, s0, s, pid, now);
      } else {
        QuietLinear(g, s0, s, pid, now);
      }
    }
  }

  lemma StartLinear(g: KeyGen, s0: State)
    requires Initial(s0)
    ensures Linearized(g, s0, s0)
  {
    assert RanksOf([]) == [] && LogItems([]) == [];
    assert Sorted(s0.rows.Keys) + [] == Sorted(s0.rows.Keys) && Items(s0.rows) + [] == Items(s0.rows);
  }

  /** Append-only linearizability. In every interleaving of any number of appends and extends,
      at every moment the list is the initial list followed by the created items in the order
      of their creation, each created strictly after every rank then stored. */
  lemma {:induction false} AppendsLinearize(g: KeyGen, s0: State, schedule: seq<(nat, string)>, n: nat)
    requires Sound(g) && (forall r :: r in s0.rows ==> g.isKey(r))
    requires Initial(s0) && Appenders(s0) && n <= |schedule|
    ensures Linearized(g, s0, Run(g, s0, schedule, n))
  {
    if n == 0 {
      StartLinear(g, s0);
    } else {
      AppendsLinearize(g, s0, schedule, n - 1);
      Conserved(g, s0, schedule, n - 1);
      StepLinear(g, s0, Run(g, s0, schedule, n - 1), schedule[n - 1].0, schedule[n - 1].1);
    }
  }

  /** What each caller created is, in creation order, the first so many of its own items, and
      all of them once it has returned normally. */
  lemma OwnOrderKept(g: KeyGen, s0: State, schedule: seq<(nat, string)>, n: nat, i: nat)
    requires Sound(g) && (forall r :: r in s0.rows ==> g.isKey(r))
    requires Initial(s0) && Appenders(s0) && n <= |schedule| && i < |s0.procs|
    ensures var s := Run(g, s0, schedule, n);
            var own := Own(s.log, i, |s.log|);
            && i < |s.procs| && own <= s0.procs[i].call.items
            && (s.procs[i].pc == Returned(Ok) ==> own == s0.procs[i].call.items)
  {
    AppendsLinearize(g, s0, schedule, n);
    Conserved(g, s0, schedule, n);
    var s := Run(g, s0, schedule, n);
    assert CallerLinear(g, LastOf(Sorted(s0.rows.Keys)), s.log, i, s.procs[i]);
    assert Consistent(s.procs[i]);
  }

  /** So the list only ever grows, and only at its end. */
  lemma GrowsAtEnd(g: KeyGen, s0: State, schedule: seq<(nat, string)>, n: nat)
    requires Sound(g) && (forall r :: r in s0.rows ==> g.isKey(r))
    requires Initial(s0) && Appenders(s0) && n < |schedule|
    ensures Items(Run(g, s0, schedule, n).rows) <= Items(Run(g, s0, schedule, n + 1).rows)
    ensures Sorted(Run(g, s0, schedule, n).rows.Keys) <= Sorted(Run(g, s0, schedule, n + 1).rows.Keys)
  {
    AppendsLinearize(g, s0, schedule, n);
    AppendsLinearize(g, s0, schedule, n + 1);
    LogGrows(Run(g, s0, schedule, n), g, schedule[n].0, schedule[n].1);
  }

  lemma LogGrows(s: State, g: KeyGen, pid: nat, now: string)
    ensures RanksOf(s.log) <= RanksOf(Step(g, s, pid, now).log)
    ensures LogItems(s.log) <= LogItems(Step(g, s, pid, now).log)
  {
    assert s.log <= Step(g, s, pid, now).log;
  }
}
