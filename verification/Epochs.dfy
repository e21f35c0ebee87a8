/** Whole runs of the reorder buffer: between two resets, the handler sees exactly the longest
    gap-free run of what arrived, and the queue holds exactly the rest. */
module Epochs {
  import opened Options
  import opened ReorderBuffer

  /** One callback at a time. */
  ghost predicate Chain(c: Config, events: seq<Event>, states: seq<State>, results: seq<Result>) {
    && |states| == |events| + 1 && |results| == |events|
    && forall i :: 0 <= i < |events| ==> Follows(c, events, states, results, i)
  }

  /** A run: starting with an empty queue and any stored sequence. */
  ghost predicate Trace(c: Config, events: seq<Event>, states: seq<State>, results: seq<Result>) {
    && Chain(c, events, states, results)
    && states[0].last.Some? && states[0].pending == [] && !states[0].resyncPending
  }

  ghost predicate Follows(c: Config, events: seq<Event>, states: seq<State>, results: seq<Result>, i: nat)
    requires i < |events| && |states| == |events| + 1 && |results| == |events|
  {
    Receives(c, states[i], events[i], states[i + 1], results[i])
  }

  /** What has happened since the last reset: the sequence it left, the diff callbacks that
      arrived since and were not turned away, where the handler log stood, and whether it was a
      gap timeout. */
  datatype Epoch = Epoch(start: int, arrivals: seq<Callback>, mark: nat, timeout: bool)

  function Next(e: Epoch, ev: Event, r: Result, logged: nat): Epoch {
    match ev
    case ResyncCallback(sequence, _) => Epoch(sequence, [], logged, false)
    case DiffCallback(sequence, data, now) =>
      if r == ResyncTriggered then Epoch(0, [], logged, true)
      else if r == Rejected then e
      else e.(arrivals := e.arrivals + [Callback(sequence, data, now)])
  }

  function EpochAt(events: seq<Event>, states: seq<State>, results: seq<Result>, n: nat): Epoch
    requires n <= |events| && |states| == |events| + 1 && |results| == |events| && states[0].last.Some?
  {
    if n == 0 then Epoch(states[0].last.value, [], |states[0].delivered|, false)
    else Next(EpochAt(events, states, results, n - 1), events[n - 1], results[n - 1], |states[n].delivered|)
  }

  /** The queue holds the arrivals after `last`, all of them. */
  ghost predicate HoldsRest(arrivals: seq<Callback>, last: int, pending: seq<Callback>) {
    forall q :: Only(pending, q) == (if q > last then Only(arrivals, q) else [])
  }

  /** Everything from `start + 1` to `last` arrived, `last + 1` did not; the handler has seen the
      former, once each, in order, each with its first arrival's data; the queue holds the later
      arrivals, all of them, sorted, equal numbers in arrival order. */
  ghost predicate Buffered(start: int, arrivals: seq<Callback>, last: int, pending: seq<Callback>, handled: seq<Delivery>) {
    && last == start + |handled|
    && DeliversRun(arrivals, start + 1, handled, last + 1)
    && Ordered(pending)
    && HoldsRest(arrivals, last, pending)
  }

  ghost predicate BufferedState(c: Config, e: Epoch, s: State) {
    && s.last.Some? && e.mark <= |s.delivered|
    && Buffered(e.start, e.arrivals, s.last.value, s.pending, s.delivered[e.mark..])
    && (|s.pending| <= c.maxPending || s.pending == [])
    && (s.resyncPending <==> e.timeout && |s.delivered| == e.mark)
  }

  lemma StillFirsts(a: seq<Callback>, x: Callback, h: seq<Delivery>)
    requires AreFirsts(a, h)
    ensures AreFirsts(a + [x], h)
  {
    forall i | 0 <= i < |h|
      ensures IsFirst(a + [x], h[i])
    {
      assert IsFirst(a, h[i]);
      OnlySnoc(a, x, h[i].sequence);
    }
  }

  lemma DuplicateKeeps(start: int, a: seq<Callback>, last: int, p: seq<Callback>, h: seq<Delivery>, x: Callback)
    requires Buffered(start, a, last, p, h) && x.sequence <= last
    ensures Buffered(start, a + [x], last, p, h)
  {
    StillFirsts(a, x, h);
    OnlySnoc(a, x, last + 1);
    forall q
      ensures Only(p, q) == (if q > last then Only(a + [x], q) else [])
    {
      OnlySnoc(a, x, q);
    }
  }

  lemma QueueAfterGap(a: seq<Callback>, last: int, p: seq<Callback>, x: Callback)
    requires HoldsRest(a, last, p) && x.sequence > last
    ensures HoldsRest(a + [x], last, StableSort(p + [x])) && Ordered(StableSort(p + [x]))
  {
    SortIsStable(p + [x]);
    var sorted := StableSort(p + [x]);
    forall q
      ensures Only(sorted, q) == (if q > last then Only(a + [x], q) else [])
    {
      OnlySnoc(a, x, q);
      OnlySnoc(p, x, q);
      assert Only(sorted, q) == Only(p + [x], q);
    }
  }

  lemma GapKeeps(start: int, a: seq<Callback>, last: int, p: seq<Callback>, h: seq<Delivery>, x: Callback)
    requires Buffered(start, a, last, p, h) && x.sequence > last + 1
    ensures Buffered(start, a + [x], last, StableSort(p + [x]), h)
  {
    StillFirsts(a, x, h);
    OnlySnoc(a, x, last + 1);
    QueueAfterGap(a, last, p, x);
  }

  /** From the queue's numbers to the arrivals'. */
  lemma QueuedIsArrived(a: seq<Callback>, last: int, p: seq<Callback>, x: Callback, q: int)
    requires HoldsRest(a, last, p) && x.sequence == last + 1 && q > last + 1
    ensures Only(a + [x], q) == Only(p, q)
  {
    OnlySnoc(a, x, q);
  }

  lemma QueueAfterRun(a: seq<Callback>, last: int, p: seq<Callback>, x: Callback, from: int, n: nat, newLast: int)
    requires HoldsRest(a, last, p) && Only(a, last + 1) == []
    requires x.sequence == last + 1 && from == last + 2 && newLast == last + 1 + n
    ensures HoldsRest(a + [x], newLast, WithoutRun(p, from, n))
  {
    var left := WithoutRun(p, from, n);
    forall q
      ensures Only(left, q) == (if q > newLast then Only(a + [x], q) else [])
    {
      OnlyWithoutRun(p, from, n, q);
      if q > last + 1 {
        QueuedIsArrived(a, last, p, x, q);
      }
      assert q == last + 1 ==> Only(a, q) == [];
    }
  }

  lemma ArrivedFirsts(a: seq<Callback>, last: int, p: seq<Callback>, x: Callback, from: int, more: seq<Delivery>)
    requires HoldsRest(a, last, p) && x.sequence == last + 1 && from == last + 2
    requires AreFirsts(p, more) && Consecutive(more, from)
    ensures AreFirsts(a + [x], more)
  {
    forall i | 0 <= i < |more|
      ensures IsFirst(a + [x], more[i])
    {
      assert IsFirst(p, more[i]);
      QueuedIsArrived(a, last, p, x, more[i].sequence);
    }
  }

  lemma JoinDeliveries(a: seq<Callback>, h: seq<Delivery>, d: Delivery, more: seq<Delivery>, start: int)
    requires AreFirsts(a, h) && IsFirst(a, d) && AreFirsts(a, more)
    requires Consecutive(h, start) && d.sequence == start + |h| && Consecutive(more, d.sequence + 1)
    ensures AreFirsts(a, h + ([d] + more)) && Consecutive(h + ([d] + more), start)
  {
    var all := h + ([d] + more);
    forall i | 0 <= i < |all|
      ensures IsFirst(a, all[i]) && all[i].sequence == start + i
    {
      if i > |h| {
        assert all[i] == more[i - |h| - 1];
      } else if i < |h| {
        assert all[i] == h[i];
      }
    }
  }

  /** The in-order arrival closes the gap. */
  lemma InOrderKeeps(start: int, a: seq<Callback>, last: int, p: seq<Callback>, h: seq<Delivery>, x: Callback,
                     from: int, more: seq<Delivery>, next: int)
    requires Buffered(start, a, last, p, h) && x.sequence == last + 1 && from == last + 2
    requires DeliversRun(p, from, more, next)
    ensures Buffered(start, a + [x], next - 1, WithoutRun(p, from, |more|), h + ([Diff(last + 1, x.data)] + more))
  {
    var d := Diff(x.sequence, x.data);
    StillFirsts(a, x, h);
    OnlySnoc(a, x, x.sequence);
    ArrivedFirsts(a, last, p, x, from, more);
    JoinDeliveries(a + [x], h, d, more, start + 1);
    QueuedIsArrived(a, last, p, x, next);
    WithoutRunOrdered(p, from, |more|);
    QueueAfterRun(a, last, p, x, from, |more|, next - 1);
  }

  lemma SuffixGrows<T>(s: seq<T>, mark: nat, more: seq<T>)
    requires mark <= |s|
    ensures (s + more)[mark..] == s[mark..] + more
  {}

  lemma WithoutRunShrinks(s: seq<Callback>, from: int, n: nat)
    ensures |WithoutRun(s, from, n)| <= |s|
  {
    if n > 0 {
      WithoutRunShrinks(s, from, n - 1);
      OnlyWithout(WithoutRun(s, from, n - 1), from + n - 1, 0);
    }
  }

  lemma InOrderStep(c: Config, e: Epoch, s: State, x: Callback, s': State, more: seq<Delivery>)
    requires BufferedState(c, e, s) && x.sequence == LastOf(s) + 1 && InOrderRun(s, x.sequence, x.data, s', more)
    ensures BufferedState(c, e.(arrivals := e.arrivals + [x]), s')
  {
    var last, h := s.last.value, s.delivered[e.mark..];
    InOrderKeeps(e.start, e.arrivals, last, s.pending, h, x, x.sequence + 1, more, x.sequence + 1 + |more|);
    SuffixGrows(s.delivered, e.mark, [Diff(x.sequence, x.data)] + more);
    WithoutRunShrinks(s.pending, x.sequence + 1, |more|);
  }

  lemma EventKeeps(c: Config, e: Epoch, s: State, ev: Event, s': State, r: Result)
    requires BufferedState(c, e, s) && Receives(c, s, ev, s', r)
    ensures BufferedState(c, Next(e, ev, r, |s'.delivered|), s')
  {
    match ev {
      case ResyncCallback(sequence, data) =>
      case DiffCallback(sequence, data, now) =>
        var x := Callback(sequence, data, now);
        var last := s.last.value;
        if r == Duplicate {
          DuplicateKeeps(e.start, e.arrivals, last, s.pending, s.delivered[e.mark..], x);
        } else if r == Pending {
          GapKeeps(e.start, e.arrivals, last, s.pending, s.delivered[e.mark..], x);
          SortIsStable(s.pending + [x]);
        } else if r == Processed {
          var more :| InOrderRun(s, sequence, data, s', more);
          InOrderStep(c, e, s, x, s', more);
        }
    }
  }

  /** Reorder-buffer correctness, over any run with any mix of resyncs, timeouts, duplicates and
      rejections: it holds of every state. */
  lemma {:induction false} RunsAreBuffered(c: Config, events: seq<Event>, states: seq<State>, results: seq<Result>, n: nat)
    requires Trace(c, events, states, results) && n <= |events|
    ensures BufferedState(c, EpochAt(events, states, results, n), states[n])
  {
    if n > 0 {
      RunsAreBuffered(c, events, states, results, n - 1);
      assert Follows(c, events, states, results, n - 1);
      EventKeeps(c, EpochAt(events, states, results, n - 1), states[n - 1], events[n - 1], states[n], results[n - 1]);
    }
  }

  lemma QueuedIsLate(a: seq<Callback>, last: int, p: seq<Callback>, i: nat)
    requires HoldsRest(a, last, p) && Only(a, last + 1) == [] && i < |p|
    ensures p[i].sequence >= last + 2
  {
    var q := p[i].sequence;
    OnlyToAbsent(p, q, |p|);
    assert Only(p, q) != [] && q != last + 1;
  }

  /** In every reachable state no queued callback is due, and the queue is within its bound. */
  lemma QueueBound(c: Config, events: seq<Event>, states: seq<State>, results: seq<Result>, n: nat)
    requires Trace(c, events, states, results) && n <= |events|
    ensures states[n].last.Some?
    ensures forall i :: 0 <= i < |states[n].pending| ==> states[n].pending[i].sequence >= states[n].last.value + 2
    ensures c.maxPending >= 0 ==> |states[n].pending| <= c.maxPending
  {
    RunsAreBuffered(c, events, states, results, n);
    var s, e := states[n], EpochAt(events, states, results, n);
    forall i | 0 <= i < |s.pending|
      ensures s.pending[i].sequence >= s.last.value + 2
    {
      QueuedIsLate(e.arrivals, s.last.value, s.pending, i);
    }
  }

  /** Between two resets, the numbers handled are consecutive: none twice, none skipped. */
  lemma HandledAreConsecutive(c: Config, events: seq<Event>, states: seq<State>, results: seq<Result>, n: nat, e: Epoch, i: nat)
    requires Trace(c, events, states, results) && n <= |events| && e == EpochAt(events, states, results, n)
    requires e.mark + i < |states[n].delivered|
    ensures states[n].delivered[e.mark + i].Diff? && states[n].delivered[e.mark + i].sequence == e.start + 1 + i
  {
    RunsAreBuffered(c, events, states, results, n);
    var h := states[n].delivered[e.mark..];
    assert h[i] == states[n].delivered[e.mark + i];
    assert IsFirst(e.arrivals, h[i]);
  }

  // ---- duplicates ----

  /** The highest number up to which the current epoch is settled: where its reset left the
      sequence, and one more for each callback handled since. */
  ghost function Settled(e: Epoch, s: State): int {
    e.start + |s.delivered| - e.mark
  }

  /** In every run, a diff callback is turned away as a duplicate if and only if its number is
      settled in the epoch in which it arrives: a reset in between forgets what was handled. */
  lemma DuplicateMeansSettled(c: Config, events: seq<Event>, states: seq<State>, results: seq<Result>, n: nat, e: Epoch)
    requires Trace(c, events, states, results) && n < |events| && e == EpochAt(events, states, results, n)
    ensures results[n] == Duplicate <==>
            events[n].DiffCallback? && c.maxRetries > 0 && events[n].sequence <= Settled(e, states[n])
  {
    RunsAreBuffered(c, events, states, results, n);
    assert Follows(c, events, states, results, n);
  }

  /** What is settled is what came before the reset's sequence and what was handled since. */
  lemma SettledIs(c: Config, events: seq<Event>, states: seq<State>, results: seq<Result>, n: nat, e: Epoch, q: int)
    requires Trace(c, events, states, results) && n <= |events| && e == EpochAt(events, states, results, n)
    ensures q <= Settled(e, states[n]) <==>
            q <= e.start || exists i :: e.mark <= i < |states[n].delivered| && states[n].delivered[i].sequence == q
  {
    RunsAreBuffered(c, events, states, results, n);
    var all := states[n].delivered;
    forall i | e.mark <= i < |all|
      ensures all[i].sequence == e.start + 1 + i - e.mark
    {
      HandledAreConsecutive(c, events, states, results, n, e, i - e.mark);
    }
    if e.start < q <= Settled(e, states[n]) {
      assert all[e.mark + (q - e.start - 1)].sequence == q;
    }
  }

  // ---- every answer, in terms of what has arrived ----

  /** The callbacks with numbers above `last`, in the order of arrival. */
  function Beyond(a: seq<Callback>, last: int): seq<Callback> {
    if a == [] then []
    else if a[|a| - 1].sequence > last then Beyond(a[..|a| - 1], last) + [a[|a| - 1]]
    else Beyond(a[..|a| - 1], last)
  }

  lemma {:induction false} OnlyBeyond(a: seq<Callback>, last: int, q: int)
    ensures Only(Beyond(a, last), q) == if q > last then Only(a, q) else []
  {
    if a != [] {
      var init, x := a[..|a| - 1], a[|a| - 1];
      OnlyBeyond(init, last, q);
      assert a == init + [x];
      OnlySnoc(init, x, q);
      OnlySnoc(Beyond(init, last), x, q);
    }
  }

  /** The queue is what has arrived beyond the sequence, sorted. */
  lemma QueueIs(a: seq<Callback>, last: int, p: seq<Callback>)
    requires HoldsRest(a, last, p) && Ordered(p)
    ensures p == StableSort(Beyond(a, last)) && |p| == |Beyond(a, last)|
  {
    var b := Beyond(a, last);
    SortIsStable(b);
    forall q
      ensures Only(p, q) == Only(StableSort(b), q)
    {
      OnlyBeyond(a, last, q);
    }
    SortedQueueIsUnique(p, StableSort(b));
  }

  lemma {:induction false} InOnly(s: seq<Callback>, x: Callback)
    ensures x in s <==> x in Only(s, x.sequence)
  {
    if s != [] {
      var init, y := s[..|s| - 1], s[|s| - 1];
      InOnly(init, x);
      assert s == init + [y];
      OnlySnoc(init, y, x.sequence);
    }
  }

  ghost predicate Overdue(waiting: seq<Callback>, now: real, limit: real) {
    exists x :: x in waiting && now - x.receivedAt > limit
  }

  lemma TimedOutIsOverdue(c: Config, b: seq<Callback>, now: real)
    ensures TimedOut(c, StableSort(b), now) <==> Overdue(b, now, c.gapTimeout)
  {
    var p := StableSort(b);
    SortIsStable(b);
    forall x
      ensures x in p <==> x in b
    {
      InOnly(p, x);
      InOnly(b, x);
    }
    if TimedOut(c, p, now) {
      var i :| 0 <= i < |p| && now - p[i].receivedAt > c.gapTimeout;
      assert p[i] in b;
    }
  }

  lemma OneAnswer(c: Config, s: State, q: int, data: Data, now: real, s': State, r: Result)
    requires Receives(c, s, DiffCallback(q, data, now), s', r)
    ensures var gap, late := q > LastOf(s) + 1, TimedOut(c, s.pending, now);
            && (r == Rejected <==> c.maxRetries <= 0 || (gap && !late && |s.pending| >= c.maxPending))
            && (c.maxRetries > 0 ==>
                  && (r == Duplicate <==> q <= LastOf(s))
                  && (r == Processed <==> q == LastOf(s) + 1)
                  && (r == ResyncTriggered <==> gap && late)
                  && (r == Pending <==> gap && !late && |s.pending| < c.maxPending))
  {}

  /** Every answer to a diff callback, in every run: settled numbers are duplicates, the next one is
      processed, and a later one triggers a resync if an arrival beyond the settled numbers has
      waited longer than the limit, is rejected if there are as many of those as may wait, and
      waits otherwise. */
  lemma AnswerMeans(c: Config, events: seq<Event>, states: seq<State>, results: seq<Result>, n: nat, e: Epoch)
    requires Trace(c, events, states, results) && n < |events| && e == EpochAt(events, states, results, n)
    requires events[n].DiffCallback?
    ensures var q, settled := events[n].sequence, Settled(e, states[n]);
            var waiting := Beyond(e.arrivals, settled);
            var gap, late := q > settled + 1, Overdue(waiting, events[n].now, c.gapTimeout);
            && states[n].pending == StableSort(waiting)
            && (results[n] == Rejected <==> c.maxRetries <= 0 || (gap && !late && |waiting| >= c.maxPending))
            && (c.maxRetries > 0 ==>
                  && (results[n] == Duplicate <==> q <= settled)
                  && (results[n] == Processed <==> q == settled + 1)
                  && (results[n] == ResyncTriggered <==> gap && late)
                  && (results[n] == Pending <==> gap && !late && |waiting| < c.maxPending))
  {
    RunsAreBuffered(c, events, states, results, n);
    var s := states[n];
    QueueIs(e.arrivals, s.last.value, s.pending);
    TimedOutIsOverdue(c, Beyond(e.arrivals, s.last.value), events[n].now);
    assert Follows(c, events, states, results, n) && LastOf(s) == Settled(e, s);
    OneAnswer(c, s, events[n].sequence, events[n].data, events[n].now, states[n + 1], results[n]);
  }

  predicate IsReset(ev: Event, r: Result) {
    ev.ResyncCallback? || r == ResyncTriggered
  }

  /** Between resets the sequence never goes back. */
  lemma {:induction false} LastGrows(c: Config, events: seq<Event>, states: seq<State>, results: seq<Result>, m: nat, n: nat)
    requires Trace(c, events, states, results) && m <= n <= |events|
    requires forall k :: m <= k < n ==> !IsReset(events[k], results[k])
    ensures states[m].last.Some? && states[n].last.Some? && states[m].last.value <= states[n].last.value
  {
    if m < n {
      LastGrows(c, events, states, results, m, n - 1);
      assert Follows(c, events, states, results, n - 1);
    } else {
      RunsAreBuffered(c, events, states, results, n);
    }
  }

  /** So a number once handled is a duplicate whenever it arrives again, up to the next reset. */
  lemma HandledStaysHandled(c: Config, events: seq<Event>, states: seq<State>, results: seq<Result>, m: nat, n: nat)
    requires Trace(c, events, states, results) && m < n < |events|
    requires events[m].DiffCallback? && events[n].DiffCallback? && events[n].sequence <= events[m].sequence
    requires results[m] == Processed || results[m] == Duplicate
    requires forall k :: m < k < n ==> !IsReset(events[k], results[k])
    ensures results[n] == Duplicate
  {
    RunsAreBuffered(c, events, states, results, m);
    LastGrows(c, events, states, results, m + 1, n);
    assert Follows(c, events, states, results, m) && Follows(c, events, states, results, n);
  }

  /** A reset does make a difference: after a gap timeout, number 1 is handled a second time. */
  lemma TimeoutForgets(c: Config, data: Data, late: real)
    requires c.maxRetries > 0 && c.maxPending > 0 && late > c.gapTimeout
    ensures var events := [DiffCallback(1, data, 0.0), DiffCallback(3, data, 0.0), DiffCallback(4, data, late), DiffCallback(1, data, late)];
            exists states :: Trace(c, events, states, [Processed, Pending, ResyncTriggered, Processed])
  {
    var events := [DiffCallback(1, data, 0.0), DiffCallback(3, data, 0.0), DiffCallback(4, data, late), DiffCallback(1, data, late)];
    var results := [Processed, Pending, ResyncTriggered, Processed];
    var d := Diff(1, data);
    var s0 := State(Some(0), 0, false, [], []);
    var s1 := State(Some(1), 1, false, [], [d]);
    var s2 := State(Some(1), 1, false, [Callback(3, data, 0.0)], [d]);
    var s3 := State(Some(0), 2, true, [], [d]);
    var s4 := State(Some(1), 3, false, [], [d, d]);
    var states := [s0, s1, s2, s3, s4];
    assert InOrderRun(s0, 1, data, s1, []) && InOrderRun(s3, 1, data, s4, []);
    assert s1.pending + [Callback(3, data, 0.0)] == s2.pending && StableSort(s2.pending) == s2.pending;
    assert TimedOut(c, s2.pending, late) by { assert late - s2.pending[0].receivedAt > c.gapTimeout; }
    assert Follows(c, events, states, results, 0) && Follows(c, events, states, results, 1);
    assert Follows(c, events, states, results, 2) && Follows(c, events, states, results, 3);
    assert Trace(c, events, states, results);
  }

  // ---- arrival order does not matter ----

  lemma NotShorter(a: seq<Callback>, b: seq<Callback>, from: int, g: seq<Delivery>, h: seq<Delivery>, next: int)
    requires DeliversRun(a, from, g, next) && AreFirsts(b, h) && Consecutive(h, from) && Only(a, next) == Only(b, next)
    ensures |g| >= |h|
  {
    assert |g| < |h| ==> IsFirst(b, h[|g|]);
  }

  /** How far the deliveries reach, and what they are, is a matter of what has arrived. */
  lemma ReachIsUnique(a: seq<Callback>, b: seq<Callback>, from: int, g: seq<Delivery>, h: seq<Delivery>, next: int, next': int)
    requires DeliversRun(a, from, g, next) && DeliversRun(b, from, h, next')
    requires forall q :: Only(a, q) == Only(b, q)
    ensures g == h && next == next'
  {
    NotShorter(a, b, from, g, h, next);
    NotShorter(b, a, from, h, g, next');
    forall i | 0 <= i < |g|
      ensures g[i] == h[i]
    {
      assert IsFirst(a, g[i]) && IsFirst(b, h[i]);
      assert Only(a, g[i].sequence) == Only(b, g[i].sequence);
    }
  }

  lemma NotBeyondLast(p: seq<Callback>, r: seq<Callback>)
    requires p != [] && Ordered(r)
    requires Only(p, p[|p| - 1].sequence) == Only(r, p[|p| - 1].sequence)
    ensures r != [] && p[|p| - 1].sequence <= r[|r| - 1].sequence
  {
    var q := p[|p| - 1].sequence;
    assert Only(p, q) != [];
    OnlyToAbsent(r, q, |r|);
  }

  lemma SameLast(p: seq<Callback>, r: seq<Callback>)
    requires p != [] && r != [] && p[|p| - 1].sequence == r[|r| - 1].sequence
    requires Only(p, p[|p| - 1].sequence) == Only(r, p[|p| - 1].sequence)
    ensures p[|p| - 1] == r[|r| - 1]
  {
    var o, u := Only(p, p[|p| - 1].sequence), Only(r, p[|p| - 1].sequence);
    assert o[|o| - 1] == p[|p| - 1] && u[|u| - 1] == r[|r| - 1];
  }

  lemma SameInit(p: seq<Callback>, r: seq<Callback>, q: int)
    requires p != [] && r != [] && p[|p| - 1] == r[|r| - 1] && Only(p, q) == Only(r, q)
    ensures Only(p[..|p| - 1], q) == Only(r[..|r| - 1], q)
  {
    OnlySplit(p, q);
    OnlySplit(r, q);
    var x, y := Only(p[..|p| - 1], q), Only(r[..|r| - 1], q);
    if p[|p| - 1].sequence == q {
      assert x == (x + [p[|p| - 1]])[..|x|] && y == (y + [p[|p| - 1]])[..|y|];
    }
  }

  /** A sorted queue is determined by its callbacks of each number. */
  lemma {:induction false} SortedQueueIsUnique(p: seq<Callback>, r: seq<Callback>)
    requires Ordered(p) && Ordered(r) && forall q :: Only(p, q) == Only(r, q)
    ensures p == r
    decreases |p|
  {
    if p == [] {
      if r != [] {
        NotBeyondLast(r, p);
      }
    } else {
      NotBeyondLast(p, r);
      NotBeyondLast(r, p);
      SameLast(p, r);
      var initP, initR := p[..|p| - 1], r[..|r| - 1];
      forall q
        ensures Only(initP, q) == Only(initR, q)
      {
        SameInit(p, r, q);
      }
      SortedQueueIsUnique(initP, initR);
      assert p == initP + [p[|p| - 1]] && r == initR + [r[|r| - 1]];
    }
  }

  /** What is stored and handled depends on what arrived, not on the order in which different
      numbers arrived. */
  lemma OrderDoesNotMatter(start: int, a: seq<Callback>, b: seq<Callback>, lastA: int, lastB: int,
                           pa: seq<Callback>, pb: seq<Callback>, ha: seq<Delivery>, hb: seq<Delivery>)
    requires Buffered(start, a, lastA, pa, ha) && Buffered(start, b, lastB, pb, hb)
    requires forall q :: Only(a, q) == Only(b, q)
    ensures lastA == lastB && ha == hb && pa == pb
  {
    ReachIsUnique(a, b, start + 1, ha, hb, lastA + 1, lastB + 1);
    forall q
      ensures Only(pa, q) == Only(pb, q)
    {
      assert Only(a, q) == Only(b, q);
    }
    SortedQueueIsUnique(pa, pb);
  }

  /** A handled callback that arrives again is turned away as a duplicate if and only if there is a
      subscription record; without one it is handled again, with every queued successor that has
      arrived since. */
  lemma RedeliveryIsDuplicate(c: Config, s: State, q: int, data: Data, now: real, s1: State,
                              data': Data, now': real, s2: State, r: Result)
    requires Receives(c, s, DiffCallback(q, data, now), s1, Processed)
    requires Receives(c, s1, DiffCallback(q, data', now'), s2, r)
    ensures r == Duplicate <==> s.last.Some?
    ensures s.last.Some? ==> s2 == s1
    ensures s.last.None? ==> r == Processed && InOrder(s1, q, data', s2)
  {}

  /** Without a record the number alone decides: 1 is handled, lower numbers are duplicates, higher
      ones wait, time out or are turned away; and no callback creates the record. */
  lemma WithoutRecord(c: Config, s: State, q: int, data: Data, now: real, s': State, r: Result)
    requires s.last.None? && c.maxRetries > 0 && Receives(c, s, DiffCallback(q, data, now), s', r)
    ensures s'.last.None?
    ensures (r == Processed <==> q == 1) && (r == Duplicate <==> q <= 0)
    ensures r == Processed ==> |s'.delivered| > |s.delivered| && s'.delivered[|s.delivered|] == Diff(1, data)
    ensures r != Processed ==> s'.delivered == s.delivered
  {}

  /** In every run without a record, number 1 is handled each time it arrives, and no other number
      is ever handled on its arrival. */
  lemma {:induction false} NoRecordRuns(c: Config, events: seq<Event>, states: seq<State>, results: seq<Result>, n: nat)
    requires Chain(c, events, states, results) && states[0].last.None? && c.maxRetries > 0 && n <= |events|
    ensures states[n].last.None?
    ensures forall i :: 0 <= i < n && events[i].DiffCallback? ==> (results[i] == Processed <==> events[i].sequence == 1)
  {
    if n > 0 {
      NoRecordRuns(c, events, states, results, n - 1);
      assert Follows(c, events, states, results, n - 1);
    }
  }

  /** So number 1 is handled twice in a row. */
  lemma NoRecordRepeats(c: Config, data: Data, now: real)
    requires c.maxRetries > 0
    ensures var s0 := State(None, 0, false, [], []);
            var s1 := State(None, 1, false, [], [Diff(1, data)]);
            var s2 := State(None, 2, false, [], [Diff(1, data), Diff(1, data)]);
            && Receives(c, s0, DiffCallback(1, data, now), s1, Processed)
            && Receives(c, s1, DiffCallback(1, data, now), s2, Processed)
  {
    var s1 := State(None, 1, false, [], [Diff(1, data)]);
    assert InOrderRun(State(None, 0, false, [], []), 1, data, s1, []);
    assert InOrderRun(s1, 1, data, State(None, 2, false, [], [Diff(1, data), Diff(1, data)]), []);
  }
}
